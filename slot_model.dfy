/** The sparse vector as a value: the whole buffer, the logical size and the
    stack of free indices. Every operation of `sv::sparse_vector` is a function
    from one such value to the next; the class in SparseVectors is proved to
    follow these functions step by step. */
module SlotModel {
  import opened SlotTypes

  /** Capacity of a default-constructed container. */
  const DefaultCapacity: nat := 2

  /** `cells` is the buffer (its length is the capacity), `size` the highest
      index ever handed out plus one, `free` the free-index stack (its top is
      the last element). */
  datatype State<T> = State(cells: seq<Cell<T>>, size: nat, free: seq<nat>)

  /** What every reachable state satisfies: the logical size fits the buffer
      and every registered free index addresses a cell of the buffer. */
  predicate WellFormed<T>(s: State<T>)
  {
    && s.size <= |s.cells|
    && forall k :: 0 <= k < |s.free| ==> s.free[k] < |s.cells|
  }

  /** The intended bookkeeping: the free stack holds exactly the free
      cells below `size`, each once. `pop_back`, a shrinking `resize` and
      `emplace_at` can leave a state that is well formed but not consistent. */
  predicate Consistent<T>(s: State<T>)
  {
    && WellFormed(s)
    && (forall k :: 0 <= k < |s.free| ==> s.free[k] < s.size && s.cells[s.free[k]].Free?)
    && (forall j, k :: 0 <= j < k < |s.free| ==> s.free[j] != s.free[k])
    && (forall i :: 0 <= i < s.size && s.cells[i].Free? ==> i in s.free)
  }

  /** The indices lo, lo + 1, ..., hi - 1, in ascending order. */
  function Range(lo: nat, hi: nat): (r: seq<nat>)
    ensures |r| == if lo <= hi then hi - lo else 0
    ensures forall k :: 0 <= k < |r| ==> r[k] == lo + k
  {
    if hi <= lo then [] else seq(hi - lo, k requires 0 <= k < hi - lo => lo + k)
  }

  /** Number of free cells among c[0..n): the number of factory calls
      `feel_free_cells` has made before it reaches index n. */
  function Vacancies<T>(c: seq<Cell<T>>, n: nat): (r: nat)
    requires n <= |c|
    ensures r <= n
    ensures r == 0 <==> forall i :: 0 <= i < n ==> c[i].Live?
  {
    if n == 0 then 0 else Vacancies(c, n - 1) + (if c[n - 1].Free? then 1 else 0)
  }

  // ---------------------------------------------------------------------------
  // Construction

  /** `sparse_vector()`: two cells of storage, nothing handed out. */
  function Empty<T>(): (r: State<T>)
    ensures Consistent(r) && |r.cells| == DefaultCapacity && r.size == 0
  {
    State(seq(DefaultCapacity, _ => Free), 0, [])
  }

  /** `sparse_vector(std::initializer_list)`: size and capacity both equal the
      number of elements, every cell live. An empty list gives capacity 0. */
  function FromList<T>(xs: seq<T>): (r: State<T>)
    ensures Consistent(r) && r.size == |r.cells| == |xs|
    ensures forall i :: 0 <= i < |xs| ==> r.cells[i] == Live(xs[i])
  {
    State(seq(|xs|, i requires 0 <= i < |xs| => Live(xs[i])), |xs|, [])
  }

  /** The copy constructor: same capacity, size and free stack; the cells below
      `size` are copied; the storage beyond `size` is fresh. */
  function CopyOf<T>(s: State<T>): (r: State<T>)
    requires WellFormed(s)
    ensures WellFormed(r) && |r.cells| == |s.cells| && r.size == s.size && r.free == s.free
    ensures r.cells[..s.size] == s.cells[..s.size]
  {
    State(seq(|s.cells|, i requires 0 <= i < |s.cells| => if i < s.size then s.cells[i] else Free),
          s.size, s.free)
  }

  // ---------------------------------------------------------------------------
  // Growth

  /** Capacity after a growth step. The source doubles; doubling a capacity of
      0 gives 0 again (see Findings.DoubledCapacity), so growth from 0 goes to
      the default capacity instead. */
  function GrownCapacity(capacity: nat): (r: nat)
    ensures r > capacity
    ensures capacity > 0 ==> r == 2 * capacity
  {
    if capacity == 0 then DefaultCapacity else capacity * 2
  }

  /** `reallocate(newCapacity)`: fresh storage of the new capacity into which
      the cells below `size` are relocated (live values moved, free cells stay
      free); the rest of the new storage holds no value. */
  function Reallocate<T>(s: State<T>, newCapacity: nat): (r: State<T>)
    requires WellFormed(s) && newCapacity > |s.cells|
    ensures WellFormed(r) && |r.cells| == newCapacity
    ensures r.size == s.size && r.free == s.free
    ensures forall i :: 0 <= i < s.size ==> r.cells[i] == s.cells[i]
  {
    s.(cells := seq(newCapacity, i requires 0 <= i < newCapacity =>
                      if i < s.size then s.cells[i] else Free))
  }

  /** `reserve(newCapacity)`: grow to `newCapacity` if the buffer is smaller. */
  function Reserve<T>(s: State<T>, newCapacity: nat): (r: State<T>)
    requires WellFormed(s)
    ensures WellFormed(r)
    ensures |r.cells| >= newCapacity && |r.cells| >= |s.cells|
    ensures |r.cells| == newCapacity || r == s
    ensures |s.cells| >= newCapacity ==> r == s
    ensures r.size == s.size && r.free == s.free
  {
    if |s.cells| >= newCapacity then s else Reallocate(s, newCapacity)
  }

  // ---------------------------------------------------------------------------
  // Insertion and removal

  /** `push_free(val)` and `emplace_free(args...)`: returns the new state and
      the index the value was placed at. */
  function PushFree<T>(s: State<T>, v: T): (r: (State<T>, nat))
    requires WellFormed(s)
    ensures WellFormed(r.0)
    ensures r.1 < |r.0.cells| && r.0.cells[r.1] == Live(v)
  {
    if s.free == [] then
      var g := if s.size == |s.cells| then Reallocate(s, GrownCapacity(|s.cells|)) else s;
      (g.(cells := g.cells[s.size := Live(v)], size := s.size + 1), s.size)
    else
      var index := s.free[|s.free| - 1];
      (s.(cells := s.cells[index := Live(v)], free := s.free[..|s.free| - 1]), index)
  }

  /** `mark_as_free(i)`: clear the flag of cell i and push i onto the free stack. */
  function MarkAsFree<T>(s: State<T>, i: nat): (r: State<T>)
    requires WellFormed(s) && i < |s.cells|
    ensures WellFormed(r) && |r.cells| == |s.cells| && r.size == s.size
    ensures r.cells[i] == Free && r.free == s.free + [i]
    ensures forall j :: 0 <= j < |s.cells| && j != i ==> r.cells[j] == s.cells[j]
  {
    s.(cells := s.cells[i := Free], free := s.free + [i])
  }

  /** `erase_at(index)`: destroy a live value and register its index as free.
      The range check is `index >= size` (see Findings.EraseInRangeAsWritten). */
  function EraseAt<T>(s: State<T>, index: nat): (r: Result<State<T>>)
    requires WellFormed(s)
    ensures r.Ok? <==> index < s.size && s.cells[index].Live?
    ensures r.Ok? ==> WellFormed(r.value)
    ensures r.Ok? ==> r.value.cells == s.cells[index := Free] && r.value.free == s.free + [index]
    ensures r.Ok? ==> r.value.size == s.size
    ensures r.Err? ==> r.error == if index >= s.size then IndexOutOfRange else ValueMissing
  {
    if index >= s.size then Err(IndexOutOfRange)
    else if s.cells[index].Free? then Err(ValueMissing)
    else Ok(MarkAsFree(s, index))
  }

  /** `pop_back()`: shrink `size` by one and destroy the cell that falls out,
      without looking at its flag and without touching the free stack. */
  function PopBack<T>(s: State<T>): (r: Result<State<T>>)
    requires WellFormed(s)
    ensures r.Err? <==> s.size == 0
    ensures r.Ok? ==> WellFormed(r.value) && r.value.size == s.size - 1
    ensures r.Ok? ==> r.value.free == s.free && |r.value.cells| == |s.cells|
    ensures r.Ok? ==> r.value.cells[s.size - 1] == Free
    ensures r.Ok? ==> forall j :: 0 <= j < |s.cells| && j != s.size - 1 ==> r.value.cells[j] == s.cells[j]
  {
    if s.size == 0 then Err(EmptyContainer)
    else Ok(s.(size := s.size - 1, cells := s.cells[s.size - 1 := Free]))
  }

  /** `feel_free_cells(funct)`: every free cell below `size` receives a value
      from the factory, in ascending index order; the k-th factory call
      (counting from 0) yields `produce(k)`. The free stack is emptied. */
  function FeelFreeCells<T>(s: State<T>, produce: nat -> T): (r: State<T>)
    requires WellFormed(s)
    ensures WellFormed(r) && r.free == [] && r.size == s.size
    ensures forall i :: 0 <= i < s.size ==> r.cells[i].Live?
  {
    s.(cells := seq(|s.cells|, i requires 0 <= i < |s.cells| =>
                      if i < s.size && s.cells[i].Free? then Live(produce(Vacancies(s.cells, i)))
                      else s.cells[i]),
       free := [])
  }

  /** `resize(newSize)`: reserve `newSize` cells, mark [size, newSize) free and
      push those indices in ascending order, then set `size`. A smaller
      `newSize` only lowers `size`: nothing is destroyed or unregistered. */
  function Resize<T>(s: State<T>, newSize: nat): (r: State<T>)
    requires WellFormed(s)
    ensures WellFormed(r) && r.size == newSize
  {
    var g := Reserve(s, newSize);
    g.(cells := seq(|g.cells|, i requires 0 <= i < |g.cells| =>
                      if s.size <= i < newSize then Free else g.cells[i]),
       free := g.free + Range(s.size, newSize),
       size := newSize)
  }

  /** `emplace_at(i, args...)`: construct a value into the free cell i below
      `size`. The occupancy check fails on a live cell (see
      Findings.EmplaceAtAsWritten). The free stack is left as it is. */
  function EmplaceAt<T>(s: State<T>, i: nat, v: T): (r: Result<State<T>>)
    requires WellFormed(s)
    ensures r.Ok? <==> i < s.size && s.cells[i].Free?
    ensures r.Ok? ==> WellFormed(r.value) && |r.value.cells| == |s.cells| && r.value.cells[i] == Live(v)
    ensures r.Ok? ==> r.value.free == s.free && r.value.size == s.size
    ensures r.Ok? ==> forall j :: 0 <= j < |s.cells| && j != i ==> r.value.cells[j] == s.cells[j]
  {
    if s.size <= i then Err(IndexOutOfRange)
    else if s.cells[i].Live? then Err(ValueAlreadyExists)
    else Ok(s.(cells := s.cells[i := Live(v)]))
  }

  /** `clear()`: destroy every live cell below `size`, forget the free stack
      and set `size` to 0; the storage is kept. */
  function Clear<T>(s: State<T>): (r: State<T>)
    requires WellFormed(s)
    ensures Consistent(r) && r.size == 0 && |r.cells| == |s.cells|
    ensures forall i :: 0 <= i < s.size ==> r.cells[i] == Free
    ensures forall i :: s.size <= i < |s.cells| ==> r.cells[i] == s.cells[i]
  {
    State(seq(|s.cells|, i requires 0 <= i < |s.cells| => if i < s.size then Free else s.cells[i]),
          0, [])
  }

  // ---------------------------------------------------------------------------
  // Queries

  /** `exist_at(i)`: never fails. */
  predicate ExistAt<T>(s: State<T>, i: nat)
    requires WellFormed(s)
  {
    i < s.size && s.cells[i].Live?
  }

  /** `at(i)`: the live value at index i. */
  function At<T>(s: State<T>, i: nat): (r: Result<T>)
    requires WellFormed(s)
    ensures r.Ok? <==> ExistAt(s, i)
    ensures r.Ok? ==> s.cells[i] == Live(r.value)
    ensures r.Err? ==> r.error == if i < s.size then ValueMissing else IndexOutOfRange
  {
    if s.size <= i then Err(IndexOutOfRange)
    else if s.cells[i].Free? then Err(ValueMissing)
    else Ok(s.cells[i].value)
  }

  // ---------------------------------------------------------------------------
  // Iteration

  /** Where an iterator lands when it starts at i and skips free cells before
      the bound `end`: the first live index in [i, end), or `end`. */
  function NextLive<T>(c: seq<Cell<T>>, i: nat, end: nat): (r: nat)
    requires i <= end <= |c|
    ensures i <= r <= end
    ensures r < end ==> c[r].Live?
    ensures forall k :: i <= k < r ==> c[k].Free?
    decreases end - i
  {
    if i == end || c[i].Live? then i else NextLive(c, i + 1, end)
  }

  /** The live indices below n, in ascending order. */
  function LiveBelow<T>(c: seq<Cell<T>>, n: nat): (r: seq<nat>)
    requires n <= |c|
    ensures forall k :: 0 <= k < |r| ==> r[k] < n && c[r[k]].Live?
    ensures forall j, k :: 0 <= j < k < |r| ==> r[j] < r[k]
    ensures forall i :: 0 <= i < n && c[i].Live? ==> i in r
  {
    if n == 0 then []
    else LiveBelow(c, n - 1) + (if c[n - 1].Live? then [n - 1] else [])
  }

  /** The values of the live cells below n, in ascending index order: what an
      iterator has yielded once it reaches n. */
  function ValuesBelow<T>(c: seq<Cell<T>>, n: nat): (r: seq<T>)
    requires n <= |c|
    ensures |r| <= n
  {
    if n == 0 then []
    else ValuesBelow(c, n - 1) + (if c[n - 1].Live? then [c[n - 1].value] else [])
  }

  /** The live indices below `size`: the cells `begin()`..`end()` visits. */
  function LiveIndices<T>(s: State<T>): (r: seq<nat>)
    requires WellFormed(s)
    ensures forall k :: 0 <= k < |r| ==> ExistAt(s, r[k])
    ensures forall i :: ExistAt(s, i) ==> i in r
  {
    LiveBelow(s.cells, s.size)
  }

  /** The values iteration from `begin()` to `end()` yields. */
  function Elements<T>(s: State<T>): (r: seq<T>)
    requires WellFormed(s)
    ensures |r| <= s.size
  {
    ValuesBelow(s.cells, s.size)
  }
}
