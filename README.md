# sparse_vector in Dafny

A model of `sv::sparse_vector<T>`, a header-only C++ container. It hands out
stable integer indices for inserted values. Erasing a value leaves a hole
whose index goes onto a stack of free indices. The next insertion reuses the
most recently freed index (LIFO). Iteration visits the live cells in
ascending index order and skips the holes.

The project has two layers:

- `SlotModel` (slot_model.dfy) describes the container as a value
  `State(cells, size, free)`. `cells` is the whole buffer and its length is
  the capacity. `size` is one more than the highest index ever handed out.
  `free` is the free-index stack, with its top as the last element. Each
  operation of the class is a function from one state to the next. A
  throwing operation returns `Result`, with `Err` carrying which
  `std::out_of_range` it would throw.
- `SparseVectors.SparseVector` (sparse_vector.dfy) is the class itself. It
  has an `array<Cell<T>>` buffer, `size`, `capacity` and a `seq<nat>` free
  stack. Its methods update the buffer in place with the same loops as the
  C++ code. Each method is proved to move `Model()` exactly as the
  corresponding `SlotModel` function does. `SparseVectors.Iterator` is the
  skip-free cursor used by `begin()`/`end()`.

`SlotProperties` (slot_properties.dfy) proves what the container's interface
promises about these functions:
- which operations keep the free-stack bookkeeping consistent;
- LIFO reuse of freed indices;
- growth and copying preserve content;
- index stability;
- iteration yields exactly the live values in ascending order;
- size = live cells + free indices.

`Scenarios` (scenarios.dfy) works through concrete sequences of calls.
`Findings` (findings.dfy) models three places where the code does not do what
it evidently means.

The state `Consistent` is the intended bookkeeping: the free stack holds
exactly the free cells below `size`, each once. Every state the container
reaches satisfies `WellFormed`, but `pop_back`, a shrinking `resize` and
`emplace_at` can break `Consistent`. The lemmas say exactly when.

## Model

| member | source | states |
|---|---|---|
| SlotModel.Empty | sparse_vector.hpp:129-134 | a default-constructed container has capacity 2, size 0, no free index and is consistent |
| SlotModel.FromList | sparse_vector.hpp:153-160 | construction from a list: size = capacity = list length, cell i holds element i, consistent |
| SlotModel.CopyOf | sparse_vector.hpp:135-148 | a copy has the same capacity, size and free stack, and the same cells below size |
| SlotModel.GrownCapacity | sparse_vector.hpp:178-179 | a growth step always yields a larger capacity, and doubles any nonzero capacity |
| SlotModel.Reallocate | sparse_vector.hpp:107-122 | relocation changes only the buffer: it has exactly the requested capacity, the cells below size are carried over, and size and free stack are unchanged |
| SlotModel.Reserve | sparse_vector.hpp:238-242 | reserve never shrinks: capacity is afterwards at least the request and at least the old one; a request not above the capacity changes nothing; otherwise capacity becomes exactly the request; size and free stack are always kept |
| SlotModel.PushFree | sparse_vector.hpp:175-209 | the returned index lies inside the buffer and holds the inserted value; the state stays well formed |
| SlotModel.MarkAsFree | sparse_vector.hpp:123-126 | cell i becomes free and i is pushed on top of the free stack; size, capacity and every other cell unchanged |
| SlotModel.EraseAt | sparse_vector.hpp:210-218 | erase succeeds iff the index is below size and its cell is live (corrected range check); on success only that cell becomes free and its index is pushed on the free stack, size unchanged; on failure the error tells an index at or past size from a free cell |
| SlotModel.PopBack | sparse_vector.hpp:219-226 | pop_back fails iff size is 0; otherwise size drops by one, the trailing cell becomes free, every other cell, the capacity and the free stack are unchanged |
| SlotModel.FeelFreeCells | sparse_vector.hpp:227-237 | afterwards every cell below size is live, the free stack is empty and size is unchanged |
| SlotModel.Resize | sparse_vector.hpp:243-250 | the new size is exactly the requested one and the state stays well formed |
| SlotModel.EmplaceAt | sparse_vector.hpp:259-268 | emplace succeeds iff the index is below size and its cell is free (corrected check); on success the cell holds the value, and size, capacity, free stack and every other cell are unchanged |
| SlotModel.Clear | sparse_vector.hpp:269-279 | clear frees every cell below the old size, leaves the cells beyond it as they were, and ends with size 0, an empty free stack, the capacity unchanged and a consistent state |
| SlotModel.At | sparse_vector.hpp:297-312 | at succeeds iff exist_at holds and then returns the cell's value; it fails with a missing value for a free cell below size, and with index out of range at or past size |
| SlotModel.NextLive | sparse_vector.hpp:328-332 | skipping from i stops at the first live cell before end, or at end; every cell skipped is free |
| SlotModel.LiveBelow | sparse_vector.hpp:411-416 | the live indices below a bound, strictly ascending, containing every live index below it |
| SlotModel.ValuesBelow | sparse_vector.hpp:341-356 | the values yielded before the cursor reaches a bound are at most as many as the cells passed |
| SlotModel.LiveIndices | sparse_vector.hpp:411-416 | the indices begin()..end() visits are exactly those where exist_at holds |
| SlotModel.Elements | sparse_vector.hpp:411-416 | iteration from begin() to end() yields at most size values |
| SlotModel.ExistAt | sparse_vector.hpp:251-258 | exist_at holds iff the index is below size and its cell is live; it never fails |
| SlotProperties.ValuesBelowSkipsFree | sparse_vector.hpp:350-356 | skipping free cells adds nothing to what iteration has yielded |
| SlotProperties.ValuesBelowAreLiveCells | sparse_vector.hpp:341-346 | the k-th yielded value is the value of the k-th live cell |
| SlotProperties.ElementsAreLiveValues | sparse_vector.hpp:411-416 | iteration from begin() to end() yields exactly the live values, in ascending index order, and visits index i iff exist_at(i) |
| SlotProperties.ValuesBelowFrame | sparse_vector.hpp:411-416 | what iteration yields depends only on the cells below size |
| SlotProperties.ValuesBelowAllLive | sparse_vector.hpp:155-159 | a buffer whose cells are all live yields its values in order |
| SlotProperties.FromListElements | sparse_vector.hpp:153-160 | iterating a container built from a list yields that list |
| SlotProperties.CopyIsObservablyEqual | sparse_vector.hpp:135-148 | a copy answers at/exist_at like the original at every index, iterates the same and is consistent if the original is |
| SlotProperties.ReallocatePreservesContent | sparse_vector.hpp:109-122 | growth preserves content: every index answers at/exist_at as before, iteration is unchanged, consistency kept |
| SlotProperties.ReservePreservesContent | sparse_vector.hpp:238-242 | reserve leaves at/exist_at, iteration and consistency unchanged |
| SlotProperties.PushFreeAppends | sparse_vector.hpp:177-181 | with no free index: returns the old size, size grows by one, the buffer grows exactly when it was full, earlier cells unchanged |
| SlotProperties.PushFreeReusesTop | sparse_vector.hpp:182-185 | with free indices: returns the top of the free stack and pops it; size, capacity and every other cell unchanged |
| SlotProperties.PushFreePreservesConsistent | sparse_vector.hpp:175-191 | on a consistent container, insertion fills a cell that was free, returns an index below the new size and keeps consistency |
| SlotProperties.EraseAtPreservesConsistent | sparse_vector.hpp:210-218 | a successful erase keeps consistency |
| SlotProperties.EraseThenPushReuses | sparse_vector.hpp:175-218 | erase(i) then push_free(v) returns i and restores the container except that cell i now holds v |
| SlotProperties.PopBackDropsLast | sparse_vector.hpp:219-226 | pop_back leaves the free stack and capacity alone, frees the trailing cell, and every index below the new size answers at/exist_at as before |
| SlotProperties.PopBackConsistentIff | sparse_vector.hpp:219-226 | pop_back keeps consistency iff the dropped cell was live; an erased trailing index is stranded above size |
| SlotProperties.ResizeGrows | sparse_vector.hpp:243-250 | resize(n) with n >= size: capacity becomes the larger of the old capacity and n, cells [size, n) free and their indices pushed in ascending order, earlier cells unchanged |
| SlotProperties.ResizePreservesConsistent | sparse_vector.hpp:243-250 | a growing resize keeps consistency |
| SlotProperties.ResizeTruncates | sparse_vector.hpp:244-249 | resize(n) with n < size only lowers size: no cell destroyed, free stack untouched |
| SlotProperties.ResizeShrinkConsistentIff | sparse_vector.hpp:244-249 | a shrinking resize keeps consistency iff every registered free index lies below the new size |
| SlotProperties.FeelFreeCellsFills | sparse_vector.hpp:227-237 | every index below size becomes live, live values are kept, free cell i gets the factory's k-th result where k counts the free cells before i, result consistent |
| SlotProperties.ClearEmpties | sparse_vector.hpp:269-279 | after clear nothing is iterated or exists, the free stack is empty, capacity kept, consistent |
| SlotProperties.EraseThenEmplace | sparse_vector.hpp:259-268 | erase(i) then emplace_at(i, v) makes at(i) return v; i stays on the free stack, so the next push_free returns i and overwrites v |
| SlotProperties.EmplaceAtBreaksConsistent | sparse_vector.hpp:259-268 | a successful emplace_at on a consistent container always leaves a live cell registered as free |
| SlotProperties.PushFreeKeepsLive | sparse_vector.hpp:175-191 | on a consistent container push_free never changes what at returns for a live index |
| SlotProperties.ResizeKeepsLive | sparse_vector.hpp:243-250 | resize to n leaves at(i) of every live i below n unchanged |
| SlotProperties.LiveValuesAreStable | sparse_vector.hpp:175-250 | index stability: push_free, erase of another index, reserve, resize keeping the index, feel_free_cells, emplace_at and pop_back of a later index leave at(i) of a live i unchanged |
| SlotProperties.VacanciesCountsVacantSet | sparse_vector.hpp:229-234 | the factory call count up to n equals the number of free cells below n |
| SlotProperties.LiveAndVacantCount | sparse_vector.hpp:229-234 | live cells plus free cells below n number exactly n |
| SlotProperties.SizeCountsLiveAndFree | sparse_vector.hpp:92-95 | on a consistent container size = number of live values + number of free indices, and feel_free_cells calls its factory once per free index |
| SparseVectors.SparseVector.constructor | sparse_vector.hpp:129-134 | the new object's state is the empty container |
| SparseVectors.SparseVector.FromList | sparse_vector.hpp:153-160 | the new object's state is the list container |
| SparseVectors.SparseVector.Copy | sparse_vector.hpp:135-148 | the new object, with fresh storage, holds the copy of the other's state |
| SparseVectors.SparseVector.Reallocate | sparse_vector.hpp:109-122 | moves the buffer to fresh storage; the new state is the relocated state |
| SparseVectors.SparseVector.MarkAsFree | sparse_vector.hpp:123-126 | in place on the same buffer; the new state is the marked state |
| SparseVectors.SparseVector.PushFree | sparse_vector.hpp:175-209 | the new state and the returned index are those of the model's push_free; the buffer is the same array or a freshly allocated one |
| SparseVectors.SparseVector.EraseAt | sparse_vector.hpp:210-218 | fails with the model's error and no change, or succeeds with the model's new state |
| SparseVectors.SparseVector.PopBack | sparse_vector.hpp:219-226 | fails on an empty container without change, or moves to the model's new state |
| SparseVectors.SparseVector.FeelFreeCells | sparse_vector.hpp:227-237 | the fill loop reaches exactly the model's filled state, calling the factory in ascending index order |
| SparseVectors.SparseVector.Reserve | sparse_vector.hpp:238-242 | the new state is the model's reserve; storage is kept or fresh |
| SparseVectors.SparseVector.Resize | sparse_vector.hpp:243-250 | the marking loop reaches exactly the model's resized state |
| SparseVectors.SparseVector.ExistAt | sparse_vector.hpp:251-258 | answers exist_at of the current state |
| SparseVectors.SparseVector.EmplaceAt | sparse_vector.hpp:259-268 | fails with the model's error and no change, or succeeds with the model's new state |
| SparseVectors.SparseVector.Clear | sparse_vector.hpp:269-279 | the clearing loop reaches exactly the model's cleared state |
| SparseVectors.SparseVector.Size | sparse_vector.hpp:280-282 | the size never exceeds the capacity |
| SparseVectors.SparseVector.Capacity | sparse_vector.hpp:283-285 | the capacity is the length of the buffer |
| SparseVectors.SparseVector.GetFreeCells | sparse_vector.hpp:286-288 | every index on the free stack addresses a cell of the buffer |
| SparseVectors.SparseVector.Get | sparse_vector.hpp:291-296 | unchecked indexing returns the value of the live cell |
| SparseVectors.SparseVector.At | sparse_vector.hpp:297-312 | returns the model's at of the current state |
| SparseVectors.SparseVector.Begin | sparse_vector.hpp:411-412 | the iterator starts at the first live index below size, or at size |
| SparseVectors.SparseVector.End | sparse_vector.hpp:414-416 | the iterator sits at size |
| SparseVectors.SparseVector.Traverse | sparse_vector.hpp:166-168 | a range loop over the container yields exactly the model's live values in ascending order |
| SparseVectors.Iterator.constructor | sparse_vector.hpp:328-332 | the iterator skips free cells from the start to the first live cell before end, or end |
| SparseVectors.Iterator.Current | sparse_vector.hpp:341-346 | dereferencing gives the value of the live cell under the iterator |
| SparseVectors.Iterator.Advance | sparse_vector.hpp:350-356 | increment moves to the first live cell after the current one, or end |
| SparseVectors.Iterator.Equals | sparse_vector.hpp:359-364 | compared with end(), the iterator is equal iff no live cell is left before end |
| Findings.EraseInRangeAsWritten | sparse_vector.hpp:211-212 | the range check of erase_at as written: it passes iff the index is at most size |
| Findings.EraseCheckAdmitsLiveCellAtSize | sparse_vector.hpp:211-217 | after building from [1, 2] and shrinking to size 1, the check as written admits index 1, whose cell still holds 2; the corrected erase reports it out of range |
| Findings.EraseCheckAdmitsPastBuffer | sparse_vector.hpp:211-213 | on a full two-cell container the check as written admits index 2, which is past the buffer |
| Findings.EraseAtRejectsIndexAtSize | sparse_vector.hpp:210-218 | with the corrected check, an index at or beyond size is always out of range and a success touches a cell inside the buffer |
| Findings.EmplaceAtAsWritten | sparse_vector.hpp:259-268 | as written, emplace_at succeeds iff the cell is live, and a free cell below size is rejected as already existing |
| Findings.EraseThenEmplaceAsWrittenFails | sparse_vector.hpp:259-268 | as written, erase(i) then emplace_at(i, v) fails for every container, while the corrected emplace_at succeeds |
| Findings.EmplaceAsWrittenOverwritesLive | sparse_vector.hpp:263-267 | as written, emplace_at constructs over a live value without destroying it; the corrected version refuses |
| Findings.DoubledCapacity | sparse_vector.hpp:178-179 | doubling grows the capacity iff it is nonzero |
| Findings.EmptyListGrowth | sparse_vector.hpp:153 | a container from an empty list has capacity 0; doubling keeps it 0, so the first push_free writes past the buffer; the corrected growth makes room |
| Scenarios.EraseAndReuse | sparse_vector.hpp:175-218 | push 10, push 20, erase 0, push 30 returns 0 and iteration yields [30, 20] |
| Scenarios.GrowthKeepsValues | sparse_vector.hpp:175-191 | three pushes into a default container return 0, 1, 2, grow capacity 2 to 4 and keep every value at its index |
| Scenarios.ResizeThenFill | sparse_vector.hpp:227-250 | resize(5) on an empty container frees 0..4, at(2) reports a missing value, filling with 7 yields five sevens |
| Scenarios.PopBackThenPush | sparse_vector.hpp:219-226 | pop_back of a one-element container empties it and the next push returns index 0 |
| Scenarios.PopBackStrandsErasedIndex | sparse_vector.hpp:219-226 | erase then pop_back strands index 0 on the free stack; the next push is placed there and is invisible to at and iteration |

## Left out

- The allocator type parameter, the `sparse_vector(allocator_type)` constructor and allocation failure are not modelled. Storage is an unbounded Dafny array, so every allocation succeeds.
- The move constructor (lines 149-152) is not modelled. Dafny has no moved-from objects.
- The destructor (lines 163-172) is not modelled. Its range loop over the live values is the iteration that `SparseVectors.SparseVector.Traverse` models.
- `details::move_place` (lines 50-60) is not modelled. Moving and copy-then-destroy both end with the same value in the new cell, so relocation copies the cell.
- `ContainerT` and the configuration macros are not modelled. The free-index store is a `seq<nat>` used as a stack.
- `size_type` wrap-around is not modelled, because sizes and indices are unbounded `nat`.
- Uninitialised storage is not modelled. Cells that no value was ever constructed into are `Free`, although in the C++ code their `exist` flag holds whatever was in memory.
- SlotModel.PopBack: destroying a cell that holds no value, which is undefined behaviour in C++, is not modelled. The cell is simply set to `Free`.
- SparseVectors.SparseVector.Get: this models `operator[]`, which checks nothing. Reading a cell with no value is undefined behaviour in C++, so the precondition requires the cell to be live.
- SlotModel.FeelFreeCells: the factory can hold state. It is modelled as a function of the call count, so the k-th call yields `produce(k)`.
- SlotModel.PushFree: this covers both `push_free` and `emplace_free`. Constructing from forwarded arguments is modelled as receiving the finished value.
- SlotProperties.LiveValuesAreStable: holds only on consistent containers. After `emplace_at` an insertion can overwrite a live value, as `SlotProperties.EraseThenEmplace` shows.
- `const_iterator` is not modelled as a separate type; `SparseVectors.Iterator` stands for it. Its `operator++`, `operator==` and `operator!=` are declared with `const_referens` where an iterator is meant, so those members cannot be instantiated in C++.
- The const overloads of `at`, `operator[]`, `begin` and `end`, and `operator->`, have no members of their own. They behave like the members modelled above.
- `at`, `operator[]` and the iterator's `operator*` return values in this model: `SlotModel.At`, `SparseVectors.SparseVector.At`, `SparseVectors.SparseVector.Get` and `SparseVectors.Iterator.Current`. Writing through the returned C++ reference (`v.at(i) = x`, or assigning to the loop variable of a range loop) updates a live value in place. That is not modelled, and index stability says nothing about such writes.
- Iterator invalidation is not modelled. An iterator keeps a reference to the buffer it was created on, and a later reallocation does not update it.

## Findings

| source | as written | input that shows it | evidently intended | confidence | as-written member | corrected member |
|---|---|---|---|---|---|---|
| sparse_vector.hpp:211 | `erase_at` rejects only `index > size_` | `sparse_vector<int>{1, 2}`, `resize(1)`, `erase_at(1)`: the check passes and the live value 2 beyond size is destroyed and index 1 registered as free; on a full buffer (two `push_free` on a default container, then `erase_at(2)`) cell 2 is read past the buffer | reject `index >= size_`, as `at` (line 298) and `emplace_at` (line 261) do | high, not executed | Findings.EraseCheckAdmitsLiveCellAtSize | Findings.EraseAtRejectsIndexAtSize |
| sparse_vector.hpp:264-265 | `emplace_at` throws "already exist" when the cell is free and constructs when it is live | `push_free(1)`, `erase_at(0)`, `emplace_at(0, 2)` throws; on a live cell the old value is overwritten without being destroyed | throw on a live cell, construct into a free one | high, not executed | Findings.EraseThenEmplaceAsWrittenFails | SlotProperties.EraseThenEmplace |
| sparse_vector.hpp:153 | the empty initializer list gives capacity 0, and growth computes `capacity_ * 2` (line 179) | `std::initializer_list<int> e{}; sparse_vector<int> v(e);` then `v.push_free(7)`: reallocates to 0 cells and writes cell 0 | grow a zero capacity to a positive one | medium, not executed | Findings.EmptyListGrowth | SlotModel.GrownCapacity |
