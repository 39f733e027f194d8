/** Properties of the sparse vector model: what each operation promises, the
    bookkeeping invariant it keeps or breaks, stability of live values, and
    that iteration yields exactly the live values in ascending index order. */
module SlotProperties {
  import opened SlotTypes
  import opened SlotModel

  // ---------------------------------------------------------------------------
  // Iteration

  /** Skipping free cells adds nothing to what an iterator has yielded. */
  lemma {:induction false} ValuesBelowSkipsFree<T>(c: seq<Cell<T>>, i: nat, end: nat)
    requires i <= end <= |c|
    ensures ValuesBelow(c, NextLive(c, i, end)) == ValuesBelow(c, i)
    decreases end - i
  {
    if i < end && c[i].Free? {
      assert ValuesBelow(c, i + 1) == ValuesBelow(c, i) + [];
      ValuesBelowSkipsFree(c, i + 1, end);
    }
  }

  /** The values iteration yields are those of the live cells it visits, one
      for one and in the same order. */
  lemma {:induction false} ValuesBelowAreLiveCells<T>(c: seq<Cell<T>>, n: nat)
    requires n <= |c|
    ensures |ValuesBelow(c, n)| == |LiveBelow(c, n)|
    ensures forall k :: 0 <= k < |LiveBelow(c, n)| ==> c[LiveBelow(c, n)[k]] == Live(ValuesBelow(c, n)[k])
  {
    if n > 0 {
      ValuesBelowAreLiveCells(c, n - 1);
    }
  }

  /** Iterating from `begin()` to `end()` yields exactly the values of the
      live cells below `size`, in ascending index order, each once. */
  lemma ElementsAreLiveValues<T>(s: State<T>)
    requires WellFormed(s)
    ensures |Elements(s)| == |LiveIndices(s)|
    ensures forall k :: 0 <= k < |Elements(s)| ==> s.cells[LiveIndices(s)[k]] == Live(Elements(s)[k])
    ensures forall j, k :: 0 <= j < k < |LiveIndices(s)| ==> LiveIndices(s)[j] < LiveIndices(s)[k]
    ensures forall i :: 0 <= i < s.size ==> (i in LiveIndices(s) <==> ExistAt(s, i))
  {
    ValuesBelowAreLiveCells(s.cells, s.size);
  }

  /** What iteration yields depends only on the cells below the bound. */
  lemma {:induction false} ValuesBelowFrame<T>(c1: seq<Cell<T>>, c2: seq<Cell<T>>, n: nat)
    requires n <= |c1| && n <= |c2|
    requires forall k :: 0 <= k < n ==> c1[k] == c2[k]
    ensures ValuesBelow(c1, n) == ValuesBelow(c2, n)
  {
    if n > 0 {
      ValuesBelowFrame(c1, c2, n - 1);
    }
  }

  /** A buffer whose cells below n are all live yields their values in order. */
  lemma {:induction false} ValuesBelowAllLive<T>(xs: seq<T>, c: seq<Cell<T>>, n: nat)
    requires n <= |xs| && n <= |c|
    requires forall k :: 0 <= k < n ==> c[k] == Live(xs[k])
    ensures ValuesBelow(c, n) == xs[..n]
  {
    if n > 0 {
      ValuesBelowAllLive(xs, c, n - 1);
      assert xs[..n] == xs[..n - 1] + [xs[n - 1]];
    }
  }

  // ---------------------------------------------------------------------------
  // Construction and copy

  /** Iterating a container built from an initializer list yields the list. */
  lemma FromListElements<T>(xs: seq<T>)
    ensures Elements(FromList(xs)) == xs
  {
    ValuesBelowAllLive(xs, FromList(xs).cells, |xs|);
  }

  /** A copy is observably the same container: same size, capacity and free
      stack, same answer from `at` and `exist_at` everywhere, same iteration,
      and consistent if the original is. */
  lemma CopyIsObservablyEqual<T>(s: State<T>)
    requires WellFormed(s)
    ensures forall i :: At(CopyOf(s), i) == At(s, i)
    ensures Elements(CopyOf(s)) == Elements(s)
    ensures Consistent(s) ==> Consistent(CopyOf(s))
  {
    ValuesBelowFrame(CopyOf(s).cells, s.cells, s.size);
  }

  // ---------------------------------------------------------------------------
  // Growth

  /** Relocation to a larger buffer changes no observable cell: every index
      answers `at` and `exist_at` as before and iteration yields the same. */
  lemma ReallocatePreservesContent<T>(s: State<T>, newCapacity: nat)
    requires WellFormed(s) && newCapacity > |s.cells|
    ensures forall i :: At(Reallocate(s, newCapacity), i) == At(s, i)
    ensures Elements(Reallocate(s, newCapacity)) == Elements(s)
    ensures Consistent(s) ==> Consistent(Reallocate(s, newCapacity))
  {
    ValuesBelowFrame(Reallocate(s, newCapacity).cells, s.cells, s.size);
  }

  /** `reserve` leaves the container observably unchanged and never shrinks it. */
  lemma ReservePreservesContent<T>(s: State<T>, newCapacity: nat)
    requires WellFormed(s)
    ensures forall i :: At(Reserve(s, newCapacity), i) == At(s, i)
    ensures Elements(Reserve(s, newCapacity)) == Elements(s)
    ensures Consistent(s) ==> Consistent(Reserve(s, newCapacity))
  {
    if |s.cells| < newCapacity {
      ReallocatePreservesContent(s, newCapacity);
    }
  }

  // ---------------------------------------------------------------------------
  // Insertion

  /** With no free index, `push_free` hands out index `size`, grows `size` by
      one, and first grows the buffer exactly when it is full; every earlier
      cell keeps its content. */
  lemma PushFreeAppends<T>(s: State<T>, v: T)
    requires WellFormed(s) && s.free == []
    ensures PushFree(s, v).1 == s.size
    ensures PushFree(s, v).0.size == s.size + 1 && PushFree(s, v).0.free == []
    ensures |PushFree(s, v).0.cells| ==
              if s.size == |s.cells| then GrownCapacity(|s.cells|) else |s.cells|
    ensures forall i :: 0 <= i < s.size ==> PushFree(s, v).0.cells[i] == s.cells[i]
    ensures PushFree(s, v).0.cells[s.size] == Live(v)
  {
  }

  /** With free indices registered, `push_free` takes the most recently pushed
      one (LIFO), pops it, and changes neither `size` nor the capacity nor any
      other cell. */
  lemma PushFreeReusesTop<T>(s: State<T>, v: T)
    requires WellFormed(s) && s.free != []
    ensures PushFree(s, v).1 == s.free[|s.free| - 1]
    ensures PushFree(s, v).0.free == s.free[..|s.free| - 1]
    ensures PushFree(s, v).0.size == s.size && |PushFree(s, v).0.cells| == |s.cells|
    ensures PushFree(s, v).0.cells == s.cells[PushFree(s, v).1 := Live(v)]
  {
  }

  /** On a consistent container `push_free` fills a cell that was free, hands
      out an index below the new `size`, and keeps the bookkeeping consistent. */
  lemma PushFreePreservesConsistent<T>(s: State<T>, v: T)
    requires Consistent(s)
    ensures var (t, index) := PushFree(s, v);
      && Consistent(t)
      && index < t.size
      && (index < s.size ==> s.cells[index].Free?)
  {
    if s.free != [] {
      var (t, index) := PushFree(s, v);
      var rest := s.free[..|s.free| - 1];
      forall i | 0 <= i < t.size && t.cells[i].Free?
        ensures i in t.free
      {
        assert i != index && s.cells[i].Free?;
        var k :| 0 <= k < |s.free| && s.free[k] == i;
        assert k < |s.free| - 1;
        assert rest[k] == i;
      }
    }
  }

  // ---------------------------------------------------------------------------
  // Removal

  /** `erase_at` on a consistent container keeps it consistent. */
  lemma EraseAtPreservesConsistent<T>(s: State<T>, index: nat)
    requires Consistent(s) && EraseAt(s, index).Ok?
    ensures Consistent(EraseAt(s, index).value)
  {
    var t := EraseAt(s, index).value;
    assert index !in s.free;
    forall i | 0 <= i < t.size && t.cells[i].Free?
      ensures i in t.free
    {
      if i != index {
        assert i in s.free;
      } else {
        assert t.free[|t.free| - 1] == i;
      }
    }
  }

  /** Erasing a live index and then inserting hands the same index back
      (LIFO reuse) and restores the container apart from the new value. */
  lemma EraseThenPushReuses<T>(s: State<T>, index: nat, v: T)
    requires WellFormed(s) && EraseAt(s, index).Ok?
    ensures PushFree(EraseAt(s, index).value, v).1 == index
    ensures PushFree(EraseAt(s, index).value, v).0 == s.(cells := s.cells[index := Live(v)])
  {
    var t := EraseAt(s, index).value;
    assert t.free[..|t.free| - 1] == s.free;
  }

  /** `pop_back` keeps a consistent container consistent exactly when the cell
      it drops was live: dropping a cell that was already erased strands its
      index on the free stack at or above the new `size`. */
  lemma PopBackConsistentIff<T>(s: State<T>)
    requires Consistent(s) && s.size > 0
    ensures Consistent(PopBack(s).value) <==> s.cells[s.size - 1].Live?
  {
    var t := PopBack(s).value;
    if s.cells[s.size - 1].Live? {
      assert s.size - 1 !in s.free;
      forall k | 0 <= k < |t.free|
        ensures t.free[k] < t.size
      {
        assert s.free[k] in s.free;
      }
    } else {
      assert s.size - 1 in t.free;
    }
  }

  /** `pop_back` frees only the trailing cell: the free stack is untouched,
      the capacity kept, and every index below the new size answers `at`
      and `exist_at` as before. */
  lemma PopBackDropsLast<T>(s: State<T>)
    requires WellFormed(s) && s.size > 0
    ensures PopBack(s).value.free == s.free
    ensures |PopBack(s).value.cells| == |s.cells|
    ensures PopBack(s).value.cells[s.size - 1] == Free
    ensures !ExistAt(PopBack(s).value, s.size - 1)
    ensures forall i: nat :: i < s.size - 1 ==> At(PopBack(s).value, i) == At(s, i)
  {
  }

  // ---------------------------------------------------------------------------
  // Resize, fill, clear

  /** Growing `resize(n)`: capacity at least n, cells [size, n) free and their
      indices pushed in ascending order, earlier cells untouched, `size` = n. */
  lemma ResizeGrows<T>(s: State<T>, n: nat)
    requires WellFormed(s) && n >= s.size
    ensures |Resize(s, n).cells| == if n > |s.cells| then n else |s.cells|
    ensures Resize(s, n).size == n
    ensures Resize(s, n).free == s.free + Range(s.size, n)
    ensures forall i :: s.size <= i < n ==> Resize(s, n).cells[i] == Free
    ensures forall i :: 0 <= i < s.size ==> Resize(s, n).cells[i] == s.cells[i]
  {
  }

  /** Growing `resize` keeps a consistent container consistent. */
  lemma ResizePreservesConsistent<T>(s: State<T>, n: nat)
    requires Consistent(s) && n >= s.size
    ensures Consistent(Resize(s, n))
  {
    var t := Resize(s, n);
    var added := Range(s.size, n);
    forall j, k | 0 <= j < k < |t.free|
      ensures t.free[j] != t.free[k]
    {
      if k >= |s.free| && j < |s.free| {
        assert t.free[j] < s.size <= t.free[k];
      }
    }
    forall i | 0 <= i < t.size && t.cells[i].Free?
      ensures i in t.free
    {
      if i < s.size {
        assert i in s.free;
      } else {
        assert t.free[|s.free| + (i - s.size)] == i;
      }
    }
  }

  /** Shrinking `resize(n)` only lowers `size`: no cell is destroyed and the
      free stack is untouched, so live values past n stay in the buffer. */
  lemma ResizeTruncates<T>(s: State<T>, n: nat)
    requires WellFormed(s) && n < s.size
    ensures Resize(s, n) == s.(size := n)
  {
  }

  /** A shrinking `resize(n)` keeps a consistent container consistent exactly
      when every registered free index lies below n. */
  lemma ResizeShrinkConsistentIff<T>(s: State<T>, n: nat)
    requires Consistent(s) && n < s.size
    ensures Consistent(Resize(s, n)) <==> forall k :: 0 <= k < |s.free| ==> s.free[k] < n
  {
    var t := Resize(s, n);
    assert t == s.(size := n);
    if forall k :: 0 <= k < |s.free| ==> s.free[k] < n {
      forall i | 0 <= i < t.size && t.cells[i].Free?
        ensures i in t.free
      {
        assert i in s.free;
      }
    }
  }

  /** `feel_free_cells` makes every index below `size` live, keeps every value
      that was live, and calls the factory once per free cell. */
  lemma FeelFreeCellsFills<T>(s: State<T>, produce: nat -> T)
    requires WellFormed(s)
    ensures Consistent(FeelFreeCells(s, produce))
    ensures forall i :: 0 <= i < s.size ==> ExistAt(FeelFreeCells(s, produce), i)
    ensures forall i :: ExistAt(s, i) ==> At(FeelFreeCells(s, produce), i) == At(s, i)
    ensures forall i :: 0 <= i < s.size && s.cells[i].Free? ==>
              FeelFreeCells(s, produce).cells[i] == Live(produce(Vacancies(s.cells, i)))
  {
  }

  /** `clear` leaves nothing to iterate, keeps the capacity, and is consistent. */
  lemma ClearEmpties<T>(s: State<T>)
    requires WellFormed(s)
    ensures Elements(Clear(s)) == [] && Clear(s).free == []
    ensures |Clear(s).cells| == |s.cells| && Consistent(Clear(s))
    ensures forall i :: !ExistAt(Clear(s), i)
  {
  }

  // ---------------------------------------------------------------------------
  // emplace_at

  /** Round trip: erasing a live index and then constructing into it with
      `emplace_at` makes `at` return the new value. The index stays on the
      free stack, so when it is the top a following `push_free` hands it out
      again and overwrites that value. */
  lemma EraseThenEmplace<T>(s: State<T>, index: nat, v: T, w: T)
    requires WellFormed(s) && EraseAt(s, index).Ok?
    ensures EmplaceAt(EraseAt(s, index).value, index, v).Ok?
    ensures At(EmplaceAt(EraseAt(s, index).value, index, v).value, index) == Ok(v)
    ensures var t := EmplaceAt(EraseAt(s, index).value, index, v).value;
      && index in t.free
      && PushFree(t, w).1 == index
      && At(PushFree(t, w).0, index) == Ok(w)
  {
    var t := EmplaceAt(EraseAt(s, index).value, index, v).value;
    assert t.free[|t.free| - 1] == index;
  }

  /** A successful `emplace_at` on a consistent container leaves a live cell
      registered as free, so the result is never consistent. */
  lemma EmplaceAtBreaksConsistent<T>(s: State<T>, i: nat, v: T)
    requires Consistent(s) && EmplaceAt(s, i, v).Ok?
    ensures !Consistent(EmplaceAt(s, i, v).value)
  {
    var t := EmplaceAt(s, i, v).value;
    assert i in s.free;
    var k :| 0 <= k < |t.free| && t.free[k] == i;
    assert t.cells[t.free[k]].Live?;
  }

  // ---------------------------------------------------------------------------
  // Index stability

  /** On a consistent container `push_free` never lands on a live index. */
  lemma PushFreeKeepsLive<T>(s: State<T>, v: T, i: nat)
    requires Consistent(s) && ExistAt(s, i)
    ensures At(PushFree(s, v).0, i) == At(s, i)
  {
    PushFreePreservesConsistent(s, v);
  }

  /** A growing `resize` leaves every live index as it was; a shrinking one
      leaves every index below the new size as it was. */
  lemma ResizeKeepsLive<T>(s: State<T>, n: nat, i: nat)
    requires WellFormed(s) && ExistAt(s, i) && i < n
    ensures At(Resize(s, n), i) == At(s, i)
  {
    assert Reserve(s, n).cells[i] == s.cells[i];
  }

  /** A live value stays where it is: on a consistent container, `push_free`,
      `erase_at` of another index, `reserve`, `resize` that keeps the index,
      `feel_free_cells`, `emplace_at` and `pop_back` of a later index all
      leave `at(i)` unchanged. */
  lemma LiveValuesAreStable<T>(s: State<T>, i: nat, v: T, j: nat, n: nat, produce: nat -> T)
    requires Consistent(s) && ExistAt(s, i)
    ensures At(PushFree(s, v).0, i) == At(s, i)
    ensures j != i && EraseAt(s, j).Ok? ==> At(EraseAt(s, j).value, i) == At(s, i)
    ensures At(Reserve(s, n), i) == At(s, i)
    ensures i < n ==> At(Resize(s, n), i) == At(s, i)
    ensures At(FeelFreeCells(s, produce), i) == At(s, i)
    ensures EmplaceAt(s, j, v).Ok? ==> At(EmplaceAt(s, j, v).value, i) == At(s, i)
    ensures i < s.size - 1 ==> At(PopBack(s).value, i) == At(s, i)
  {
    PushFreeKeepsLive(s, v, i);
    ReservePreservesContent(s, n);
    if i < n {
      ResizeKeepsLive(s, n, i);
    }
    if i < s.size - 1 {
      PopBackDropsLast(s);
    }
  }

  // ---------------------------------------------------------------------------
  // Counting

  /** The free cells below n, as a set of indices. */
  ghost function VacantSet<T>(c: seq<Cell<T>>, n: nat): set<nat>
    requires n <= |c|
  {
    set i: nat | i < n && c[i].Free?
  }

  lemma {:induction false} VacanciesCountsVacantSet<T>(c: seq<Cell<T>>, n: nat)
    requires n <= |c|
    ensures Vacancies(c, n) == |VacantSet(c, n)|
  {
    if n > 0 {
      VacanciesCountsVacantSet(c, n - 1);
      if c[n - 1].Free? {
        assert VacantSet(c, n) == VacantSet(c, n - 1) + {n - 1};
      } else {
        assert VacantSet(c, n) == VacantSet(c, n - 1);
      }
    }
  }

  /** The indices on a stack, as a set. */
  ghost function Members(xs: seq<nat>): set<nat>
  {
    set x | x in xs
  }

  lemma {:induction false} DistinctElementsCount(xs: seq<nat>)
    requires forall j, k :: 0 <= j < k < |xs| ==> xs[j] != xs[k]
    ensures |Members(xs)| == |xs|
  {
    if xs != [] {
      var init, last := xs[..|xs| - 1], xs[|xs| - 1];
      DistinctElementsCount(init);
      assert Members(xs) == Members(init) + {last};
      assert last !in Members(init);
    }
  }

  lemma {:induction false} LiveAndVacantCount<T>(c: seq<Cell<T>>, n: nat)
    requires n <= |c|
    ensures |LiveBelow(c, n)| + Vacancies(c, n) == n
  {
    if n > 0 {
      LiveAndVacantCount(c, n - 1);
    }
  }

  /** On a consistent container the logical size counts live and free cells
      alike: live values plus registered free indices make up `size`, and
      `feel_free_cells` calls its factory once per registered free index. */
  lemma SizeCountsLiveAndFree<T>(s: State<T>)
    requires Consistent(s)
    ensures |Elements(s)| + |s.free| == s.size
    ensures Vacancies(s.cells, s.size) == |s.free|
  {
    VacanciesCountsVacantSet(s.cells, s.size);
    DistinctElementsCount(s.free);
    assert Members(s.free) == VacantSet(s.cells, s.size);
    LiveAndVacantCount(s.cells, s.size);
    ElementsAreLiveValues(s);
  }
}
