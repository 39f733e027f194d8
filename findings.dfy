/** Three places where the source does something other than what it evidently
    means, each modelled as written next to a lemma that exhibits the
    discrepancy. The corrected behaviour is the one SlotModel uses. */
module Findings {
  import opened SlotTypes
  import opened SlotModel

  // ---------------------------------------------------------------------------
  // erase_at range check

  /** The range check of `erase_at` as written: it rejects only indices
      strictly above `size`, so index `size` itself passes and its cell is
      then read, while `at` and `emplace_at` reject it. */
  predicate EraseInRangeAsWritten<T>(s: State<T>, index: nat)
  {
    !(index > s.size)
  }

  /** After two insertions into a default-constructed container the buffer is
      full (size = capacity = 2) and the check as written admits index 2,
      which addresses no cell of the buffer. */
  lemma EraseCheckAdmitsPastBuffer()
    ensures var (s1, _) := PushFree(Empty<int>(), 10);
      var (s2, _) := PushFree(s1, 20);
      && s2.size == |s2.cells| == 2
      && EraseInRangeAsWritten(s2, 2)
      && !(2 < |s2.cells|)
  {
  }

  /** Within the buffer the check as written lets `erase_at` reach a live
      value that lies beyond `size`: build from [1, 2], shrink to size 1, and
      index 1 passes the check although it is past the logical end. */
  lemma EraseCheckAdmitsLiveCellAtSize()
    ensures var s := Resize(FromList([1, 2]), 1);
      && s.size == 1 && |s.cells| == 2 && s.cells[1] == Live(2)
      && EraseInRangeAsWritten(s, 1)
      && EraseAt(s, 1) == Err(IndexOutOfRange)
  {
  }

  /** The corrected check never lets `erase_at` touch a cell at or beyond
      `size`: such an index is always reported out of range. */
  lemma EraseAtRejectsIndexAtSize<T>(s: State<T>, index: nat)
    requires WellFormed(s)
    ensures index >= s.size ==> EraseAt(s, index) == Err(IndexOutOfRange)
    ensures EraseAt(s, index).Ok? ==> index < s.size <= |s.cells|
    ensures EraseInRangeAsWritten(s, index) && index != s.size <==> index < s.size
  {
  }

  // ---------------------------------------------------------------------------
  // emplace_at occupancy check

  /** `emplace_at` as written: the occupancy test is inverted, so it throws
      "already exists" on a free cell and constructs over a live value. */
  function EmplaceAtAsWritten<T>(s: State<T>, i: nat, v: T): (r: Result<State<T>>)
    requires WellFormed(s)
    ensures r.Ok? <==> i < s.size && s.cells[i].Live?
    ensures r.Err? && i < s.size ==> s.cells[i].Free? && r.error == ValueAlreadyExists
  {
    if s.size <= i then Err(IndexOutOfRange)
    else if s.cells[i].Free? then Err(ValueAlreadyExists)
    else Ok(s.(cells := s.cells[i := Live(v)]))
  }

  /** With the check as written the round trip "erase, then emplace at the
      same index" fails for every container and index: the freshly freed
      cell is reported as already holding a value. */
  lemma EraseThenEmplaceAsWrittenFails<T>(s: State<T>, index: nat, v: T)
    requires WellFormed(s) && EraseAt(s, index).Ok?
    ensures EmplaceAtAsWritten(EraseAt(s, index).value, index, v) == Err(ValueAlreadyExists)
    ensures EmplaceAt(EraseAt(s, index).value, index, v).Ok?
  {
  }

  /** With the check as written a live value is replaced without being
      destroyed first: emplacing onto index 0 of a one-element container
      succeeds and the old value is gone. */
  lemma EmplaceAsWrittenOverwritesLive()
    ensures var s := FromList([1]);
      && EmplaceAtAsWritten(s, 0, 2).Ok?
      && At(EmplaceAtAsWritten(s, 0, 2).value, 0) == Ok(2)
      && EmplaceAt(s, 0, 2) == Err(ValueAlreadyExists)
  {
  }

  // ---------------------------------------------------------------------------
  // Growth from capacity 0

  /** The growth step as written: double the capacity. */
  function DoubledCapacity(capacity: nat): (r: nat)
    ensures r > capacity <==> capacity > 0
    ensures r % 2 == 0
  {
    capacity * 2
  }

  /** A container built from an empty initializer list has capacity 0; its
      first `push_free` finds the buffer full and doubles 0 to 0, so index 0
      is written past the end of a zero-length buffer. The corrected growth
      step makes room. */
  lemma EmptyListGrowth()
    ensures var s := FromList<int>([]);
      && s.size == |s.cells| == 0 && s.free == []
      && DoubledCapacity(|s.cells|) == 0
      && !(PushFree(s, 7).1 < DoubledCapacity(|s.cells|))
      && PushFree(s, 7).1 == 0 < |PushFree(s, 7).0.cells| == GrownCapacity(0)
  {
  }
}
