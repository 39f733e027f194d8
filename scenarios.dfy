/** Worked examples of the sparse vector, stated on the value model with
    integer elements. */
module Scenarios {
  import opened SlotTypes
  import opened SlotModel
  import SlotProperties

  /** Insert 10 and 20, erase index 0, insert 30: the erased index is handed
      out again and iteration yields 30 then 20. */
  lemma EraseAndReuse()
    ensures var (s1, i1) := PushFree(Empty<int>(), 10);
      var (s2, i2) := PushFree(s1, 20);
      var s3 := EraseAt(s2, 0);
      && i1 == 0 && i2 == 1 && s3.Ok?
      && var (s4, i3) := PushFree(s3.value, 30);
      && i3 == 0 && Elements(s4) == [30, 20]
  {
    var (s1, i1) := PushFree(Empty<int>(), 10);
    var (s2, i2) := PushFree(s1, 20);
    var s3 := EraseAt(s2, 0).value;
    var (s4, i3) := PushFree(s3, 30);
    assert s4.cells[0] == Live(30) && s4.cells[1] == Live(20) && s4.size == 2;
    assert ValuesBelow(s4.cells, 1) == [30];
  }

  /** Three insertions into a default-constructed container: the third finds
      the buffer full and doubles it to 4; every value stays at its index. */
  lemma GrowthKeepsValues()
    ensures var (s1, i1) := PushFree(Empty<int>(), 1);
      var (s2, i2) := PushFree(s1, 2);
      var (s3, i3) := PushFree(s2, 3);
      && [i1, i2, i3] == [0, 1, 2]
      && |s2.cells| == 2 && |s3.cells| == 4
      && At(s3, 0) == Ok(1) && At(s3, 1) == Ok(2) && At(s3, 2) == Ok(3)
  {
  }

  /** `resize(5)` on an empty container registers 0..4 as free; `at(2)` then
      fails because no value exists there; filling with a factory that
      always yields 7 makes iteration yield five sevens. */
  lemma ResizeThenFill()
    ensures var s := Resize(Empty<int>(), 5);
      && s.size == 5 && s.free == [0, 1, 2, 3, 4]
      && At(s, 2) == Err(ValueMissing)
      && Elements(FeelFreeCells(s, _ => 7)) == [7, 7, 7, 7, 7]
  {
    var s := Resize(Empty<int>(), 5);
    assert s.free == Range(0, 5);
    assert s.cells == seq(5, _ => Free);
    var t := FeelFreeCells(s, _ => 7);
    assert forall i :: 0 <= i < 5 ==> t.cells[i] == Live([7, 7, 7, 7, 7][i]);
    SlotProperties.ValuesBelowAllLive([7, 7, 7, 7, 7], t.cells, 5);
  }

  /** `pop_back` on a container holding one live value empties it; the next
      insertion appends at index 0 again, since no free index was registered. */
  lemma PopBackThenPush()
    ensures var (s1, _) := PushFree(Empty<int>(), 5);
      var s2 := PopBack(s1);
      && s2.Ok? && s2.value.size == 0 && s2.value.free == []
      && var (s3, i) := PushFree(s2.value, 6);
      && i == 0 && At(s3, 0) == Ok(6)
  {
  }

  /** `pop_back` after erasing the last value leaves that index on the free
      stack above `size`: the next insertion is placed there and is not
      visible, neither through `at` nor through iteration. */
  lemma PopBackStrandsErasedIndex()
    ensures var (s1, _) := PushFree(Empty<int>(), 5);
      var s2 := EraseAt(s1, 0);
      && s2.Ok?
      && var s3 := PopBack(s2.value);
      && s3.Ok? && s3.value.free == [0]
      && var (s4, i) := PushFree(s3.value, 6);
      && i == 0 && s4.size == 0 && s4.cells[0] == Live(6)
      && At(s4, 0) == Err(IndexOutOfRange) && Elements(s4) == []
  {
  }
}
