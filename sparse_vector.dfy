/** `sv::sparse_vector` as a class over a mutable buffer. Each method changes
    the fields in place as the C++ member does and is proved to move the
    abstract state `Model()` exactly as the matching SlotModel function says. */
module SparseVectors {
  import opened SlotTypes
  import SlotModel
  import SlotProperties

  /** A throwing operation behaved as its model says: on success the state is
      the model's new state, on failure the error is the model's and the state
      is unchanged. */
  ghost predicate Follows<T>(expected: Result<SlotModel.State<T>>, r: Result<()>,
                             before: SlotModel.State<T>, after: SlotModel.State<T>)
  {
    match expected
    case Ok(s) => r == Ok(()) && after == s
    case Err(e) => r == Err(e) && after == before
  }

  class SparseVector<T> {
    /** The buffer of cells (`data_`); its length is `capacity`. */
    var data: array<Cell<T>>
    /** `size_`: the highest index ever handed out, plus one. */
    var size: nat
    /** `capacity_`: the number of cells in the buffer. */
    var capacity: nat
    /** `freeIndeces_`: a stack of free indices; its top is the last element. */
    var freeIndices: seq<nat>

    /** The invariant every method keeps: the buffer has `capacity` cells,
        `size` fits in it and every registered index addresses a cell. */
    ghost predicate Valid()
      reads this
    {
      && data.Length == capacity
      && size <= capacity
      && forall k :: 0 <= k < |freeIndices| ==> freeIndices[k] < capacity
    }

    /** The abstract state. */
    ghost function Model(): SlotModel.State<T>
      reads this, data
    {
      SlotModel.State(data[..], size, freeIndices)
    }

    /** `sparse_vector()`: storage for the default capacity, nothing handed out. */
    constructor ()
      ensures Valid() && fresh(data)
      ensures Model() == SlotModel.Empty()
    {
      data := new Cell<T>[SlotModel.DefaultCapacity](_ => Free);
      size, capacity, freeIndices := 0, SlotModel.DefaultCapacity, [];
      new;
      assert data[..] == SlotModel.Empty<T>().cells;
    }

    /** `sparse_vector(std::initializer_list<value_type>)`. */
    constructor FromList(xs: seq<T>)
      ensures Valid() && fresh(data)
      ensures Model() == SlotModel.FromList(xs)
    {
      var a := new Cell<T>[|xs|](_ => Free);
      var i := 0;
      while i < |xs|
        invariant 0 <= i <= |xs|
        invariant forall k :: 0 <= k < i ==> a[k] == Live(xs[k])
      {
        a[i] := Live(xs[i]);
        i := i + 1;
      }
      data, size, capacity, freeIndices := a, |xs|, |xs|, [];
      new;
      assert data[..] == SlotModel.FromList(xs).cells;
    }

    /** `sparse_vector(const sparse_vector&)`: deep copy of the cells below
        `size`, same capacity and free stack. */
    constructor Copy(other: SparseVector<T>)
      requires other.Valid()
      ensures Valid() && fresh(data)
      ensures Model() == SlotModel.CopyOf(other.Model())
    {
      var a := new Cell<T>[other.capacity](_ => Free);
      var i := 0;
      while i < other.size
        invariant 0 <= i <= other.size
        invariant forall k :: 0 <= k < i ==> a[k] == other.data[k]
        invariant forall k :: i <= k < a.Length ==> a[k] == Free
      {
        if other.data[i].Free? {
          a[i] := Free;
        } else {
          a[i] := Live(other.data[i].value);
        }
        i := i + 1;
      }
      data, size, capacity, freeIndices := a, other.size, other.capacity, other.freeIndices;
      new;
      assert data[..] == SlotModel.CopyOf(other.Model()).cells;
    }

    /** `reallocate(newCapacity)`: relocate the cells below `size` into fresh
        storage of a strictly larger capacity. */
    method Reallocate(newCapacity: nat)
      requires Valid() && newCapacity > capacity
      modifies this
      ensures Valid() && fresh(data)
      ensures Model() == SlotModel.Reallocate(old(Model()), newCapacity)
    {
      var newData := new Cell<T>[newCapacity](_ => Free);
      var i := 0;
      while i < size
        invariant 0 <= i <= size
        invariant Valid() && data == old(data) && size == old(size) && freeIndices == old(freeIndices)
        invariant forall k :: 0 <= k < i ==> newData[k] == data[k]
        invariant forall k :: i <= k < newCapacity ==> newData[k] == Free
      {
        if data[i].Free? {
          newData[i] := Free;
        } else {
          newData[i] := Live(data[i].value);
        }
        i := i + 1;
      }
      data := newData;
      capacity := newCapacity;
      assert data[..] == SlotModel.Reallocate(old(Model()), newCapacity).cells;
    }

    /** `mark_as_free(i)`. */
    method MarkAsFree(i: nat)
      requires Valid() && i < capacity
      modifies this, data
      ensures Valid() && data == old(data)
      ensures Model() == SlotModel.MarkAsFree(old(Model()), i)
    {
      data[i] := Free;
      freeIndices := freeIndices + [i];
    }

    /** `push_free(val)` / `emplace_free(args...)`: place v in the most recently
        freed cell, or else at index `size` after growing a full buffer. */
    method PushFree(v: T) returns (index: nat)
      requires Valid()
      modifies this, data
      ensures Valid() && (data == old(data) || fresh(data))
      ensures (Model(), index) == SlotModel.PushFree(old(Model()), v)
    {
      if freeIndices == [] {
        if size == capacity {
          Reallocate(SlotModel.GrownCapacity(capacity));
        }
        index := size;
        size := size + 1;
      } else {
        index := freeIndices[|freeIndices| - 1];
        freeIndices := freeIndices[..|freeIndices| - 1];
      }
      data[index] := Live(v);
    }

    /** `erase_at(index)`. */
    method EraseAt(index: nat) returns (r: Result<()>)
      requires Valid()
      modifies this, data
      ensures Valid() && data == old(data)
      ensures Follows(SlotModel.EraseAt(old(Model()), index), r, old(Model()), Model())
    {
      if index >= size {
        return Err(IndexOutOfRange);
      }
      if data[index].Free? {
        return Err(ValueMissing);
      }
      MarkAsFree(index);
      r := Ok(());
    }

    /** `pop_back()`. */
    method PopBack() returns (r: Result<()>)
      requires Valid()
      modifies this, data
      ensures Valid() && data == old(data)
      ensures Follows(SlotModel.PopBack(old(Model())), r, old(Model()), Model())
    {
      if size == 0 {
        return Err(EmptyContainer);
      }
      size := size - 1;
      data[size] := Free;
      r := Ok(());
    }

    /** `feel_free_cells(funct)`: the k-th call of the factory yields produce(k). */
    method FeelFreeCells(produce: nat -> T)
      requires Valid()
      modifies this, data
      ensures Valid() && data == old(data)
      ensures Model() == SlotModel.FeelFreeCells(old(Model()), produce)
    {
      ghost var before := data[..];
      ghost var target := SlotModel.FeelFreeCells(old(Model()), produce).cells;
      var calls := 0;
      var i := 0;
      while i < size
        invariant 0 <= i <= size
        invariant Valid() && data == old(data) && size == old(size) && freeIndices == old(freeIndices)
        invariant calls == SlotModel.Vacancies(before, i)
        invariant forall k :: 0 <= k < i ==> data[k] == target[k]
        invariant forall k :: i <= k < data.Length ==> data[k] == before[k]
      {
        if data[i].Free? {
          data[i] := Live(produce(calls));
          calls := calls + 1;
        }
        i := i + 1;
      }
      freeIndices := [];
      assert data[..] == target;
    }

    /** `reserve(newCapacity)`: never shrinks. */
    method Reserve(newCapacity: nat)
      requires Valid()
      modifies this
      ensures Valid() && (data == old(data) || fresh(data))
      ensures Model() == SlotModel.Reserve(old(Model()), newCapacity)
    {
      if capacity >= newCapacity {
        return;
      }
      Reallocate(newCapacity);
    }

    /** `resize(newSize)`: grow with free cells, or just lower `size`. */
    method Resize(newSize: nat)
      requires Valid()
      modifies this, data
      ensures Valid() && (data == old(data) || fresh(data))
      ensures Model() == SlotModel.Resize(old(Model()), newSize)
    {
      ghost var s := Model();
      Reserve(newSize);
      ghost var g, buf := Model(), data;
      var i := size;
      while i < newSize
        invariant s.size <= i && (i <= newSize || i == s.size)
        invariant Valid() && data == buf && size == s.size && capacity >= newSize
        invariant forall k :: 0 <= k < data.Length ==>
                    data[k] == if s.size <= k < i then Free else g.cells[k]
        invariant freeIndices == g.free + SlotModel.Range(s.size, i)
      {
        MarkAsFree(i);
        assert SlotModel.Range(s.size, i + 1) == SlotModel.Range(s.size, i) + [i];
        i := i + 1;
      }
      size := newSize;
      assert data[..] == SlotModel.Resize(s, newSize).cells;
    }

    /** `exist_at(i)`: never fails. */
    function ExistAt(i: nat): (b: bool)
      reads this, data
      requires Valid()
      ensures b == SlotModel.ExistAt(Model(), i)
    {
      if size <= i then false
      else if data[i].Free? then false
      else true
    }

    /** `emplace_at(i, args...)`: construct into the free cell i below `size`. */
    method EmplaceAt(i: nat, v: T) returns (r: Result<()>)
      requires Valid()
      modifies data
      ensures Valid()
      ensures Follows(SlotModel.EmplaceAt(old(Model()), i, v), r, old(Model()), Model())
    {
      if size <= i {
        return Err(IndexOutOfRange);
      }
      if data[i].Live? {
        return Err(ValueAlreadyExists);
      }
      data[i] := Live(v);
      r := Ok(());
    }

    /** `clear()`. */
    method Clear()
      requires Valid()
      modifies this, data
      ensures Valid() && data == old(data)
      ensures Model() == SlotModel.Clear(old(Model()))
    {
      var i := 0;
      while i < size
        invariant 0 <= i <= size
        invariant Valid() && data == old(data) && size == old(size)
        invariant forall k :: 0 <= k < i ==> data[k] == Free
        invariant forall k :: i <= k < data.Length ==> data[k] == old(data[k])
      {
        if data[i].Live? {
          data[i] := Free;
        }
        i := i + 1;
      }
      freeIndices := [];
      size := 0;
      assert data[..] == SlotModel.Clear(old(Model())).cells;
    }

    /** `size()`. */
    function Size(): (n: nat)
      reads this
      requires Valid()
      ensures n <= Capacity()
    {
      size
    }

    /** `capacity()`. */
    function Capacity(): (n: nat)
      reads this
      requires Valid()
      ensures n == data.Length
    {
      capacity
    }

    /** `get_free_cells()`: read-only view of the free stack. */
    function GetFreeCells(): (free: seq<nat>)
      reads this
      requires Valid()
      ensures forall k :: 0 <= k < |free| ==> free[k] < data.Length
    {
      freeIndices
    }

    /** Unchecked `operator[]`: defined only on a live cell. */
    function Get(i: nat): (v: T)
      reads this, data
      requires Valid() && i < capacity && data[i].Live?
      ensures data[i] == Live(v)
    {
      data[i].value
    }

    /** `at(i)`: the live value at i, or the failure `at` throws. */
    function At(i: nat): (r: Result<T>)
      reads this, data
      requires Valid()
      ensures r == SlotModel.At(Model(), i)
    {
      if size <= i then Err(IndexOutOfRange)
      else if data[i].Free? then Err(ValueMissing)
      else Ok(data[i].value)
    }

    /** `begin()`: an iterator over [0, size), already on the first live cell. */
    method Begin() returns (it: Iterator<T>)
      requires Valid()
      ensures fresh(it) && it.Valid() && it.cells == data && it.end == size
      ensures it.pos == SlotModel.NextLive(data[..], 0, size)
    {
      it := new Iterator(data, 0, size);
    }

    /** `end()`: the iterator positioned at `size`. */
    method End() returns (it: Iterator<T>)
      requires Valid()
      ensures fresh(it) && it.Valid() && it.cells == data && it.end == size && it.pos == size
    {
      it := new Iterator(data, size, size);
    }

    /** A range-for over the container: advance from `begin()` until the
        iterator equals `end()`, collecting what it points at. */
    method Traverse() returns (vs: seq<T>)
      requires Valid()
      ensures vs == SlotModel.Elements(Model())
    {
      var it := Begin();
      var last := End();
      ghost var c, n := data[..], size;
      vs := [];
      SlotProperties.ValuesBelowSkipsFree(c, 0, n);
      while !it.Equals(last)
        invariant it.Valid() && it.cells == data && it.end == n && data[..] == c
        invariant last.cells == data && last.pos == n
        invariant vs == SlotModel.ValuesBelow(c, it.pos)
        decreases n - it.pos
      {
        ghost var p := it.pos;
        vs := vs + [it.Current()];
        it.Advance();
        SlotProperties.ValuesBelowSkipsFree(c, p + 1, n);
      }
    }
  }

  /** An iterator (or `const_iterator`) as an index cursor into a buffer: the
      cell address `ptr_` becomes `pos`, the bound `endPtr_` is `end`. */
  class Iterator<T> {
    const cells: array<Cell<T>>
    const end: nat
    var pos: nat

    /** The cursor is within the bound and, before the bound, on a live cell. */
    ghost predicate Valid()
      reads this, cells
    {
      pos <= end <= cells.Length && (pos < end ==> cells[pos].Live?)
    }

    /** Construction skips the free cells at the start. */
    constructor (cells: array<Cell<T>>, start: nat, end: nat)
      requires start <= end <= cells.Length
      ensures Valid() && this.cells == cells && this.end == end
      ensures pos == SlotModel.NextLive(cells[..], start, end)
    {
      this.cells := cells;
      this.end := end;
      var p := start;
      while p != end && cells[p].Free?
        invariant start <= p <= end
        invariant SlotModel.NextLive(cells[..], p, end) == SlotModel.NextLive(cells[..], start, end)
      {
        p := p + 1;
      }
      pos := p;
    }

    /** `operator*`: the value of the live cell under the cursor. */
    function Current(): (v: T)
      reads this, cells
      requires Valid() && pos < end
      ensures cells[pos] == Live(v)
    {
      cells[pos].value
    }

    /** `operator++`: step once, then skip free cells up to the bound. */
    method Advance()
      requires Valid() && pos < end
      modifies this
      ensures Valid() && pos == SlotModel.NextLive(cells[..], old(pos) + 1, end)
    {
      pos := pos + 1;
      while pos != end && cells[pos].Free?
        invariant old(pos) + 1 <= pos <= end
        invariant SlotModel.NextLive(cells[..], pos, end) == SlotModel.NextLive(cells[..], old(pos) + 1, end)
      {
        pos := pos + 1;
      }
    }

    /** `operator==`: compares positions only. Compared with the iterator at
        the bound, it holds exactly when no live cell is left to visit. */
    predicate Equals(other: Iterator<T>)
      reads this, other, cells
      ensures Valid() && other.cells == cells && other.pos == end ==>
        (Equals(other) <==> forall k :: pos <= k < end ==> cells[k].Free?)
    {
      cells == other.cells && pos == other.pos
    }
  }
}
