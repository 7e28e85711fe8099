# StdEx core, modelled in Dafny

StdEx is a small C++ library of standard-library extensions. This project
models three of its parts and proves properties of them.

- **Delegates** (`Source/delegate.hpp`, with the older `Source/delegate.h`).
  A delegate is a non-owning reference to something callable: a member
  function bound to an object, a const member function, a free function or
  a lambda. It is stored as an *invocation record*: an object pointer plus a
  trampoline pointer. Two delegates are equal when both pointers are equal.
  A *multicast delegate* holds an ordered container of non-empty records
  (a `std::list` in `delegate.hpp`, a `std::deque` in `delegate.h`):
  - `+=` appends records, and adding an empty delegate does nothing;
  - `-=` erases the first equal record, once per record removed;
  - calling it calls every record in order, optionally handing each result
    and its index to a handler, until a callee (or the handler) throws.
  The two headers behave the same in everything modelled here, with one
  exception: `delegate.hpp`'s `create` for a lambda does not compile once
  instantiated (see "## Left out"). One module (`Delegates`) models both.
- **Growable buffer** (`Source/buffer.hpp` and the older `Source/buffer.h`).
  A heap array with separate size and capacity, which the class updates in
  place. Each revision is its own class: `Buffers.Buffer` and
  `LegacyBuffers.Buffer`. Both share the abstract state `BufferModel.Store`:
  every allocated slot plus the size. The revisions differ in three ways:
  - `assign(data, size, capacity)`: the newer header clamps the size to the
    capacity; the older one raises the capacity to the size.
  - `assign(capacity)`: the newer header does nothing when the capacity is
    unchanged; the older one always reallocates.
  - Only the newer header has `acquire` and `shrink_to_fit`.
- **String utilities** (`Source/string_utils.hpp`).
  - `ltrim`, `rtrim` and `trim` remove whitespace, and the `_copy` variants
    return the trimmed copy.
  - `split` cuts a string at any character of a delimiter set, trims every
    piece and drops the pieces that are empty. `split_copy` returns them.

The classes whose fields the source updates in place are Dafny classes, and
their mutating members are methods with a `modifies` clause:
- the buffer classes keep an `array?<int>` with `size` and `capacity` fields;
- the multicast delegate class keeps a `seq` of records.

The string functions `ltrim`, `rtrim`, `trim` and `split` change their
argument in place; they are methods that return the new string or vector.

Each method is proved against a specification function. Examples are
`Assigned`, `Reserved`, `Appended`, `RemoveFirst`, `RemoveEach`,
`Broadcast`, `TrimCopy` and `SplitCopy`. The lemmas then prove the
library's promises about those functions: round trips, idempotence,
multiset accounting, order of calls, and two appends equal one.

## Model

| member | source | states |
|---|---|---|
| Delegates.NullInvocation | Source/delegate.hpp:34-36 | the default record has a null object and a null trampoline, so it is empty (same in delegate.h) |
| Delegates.SameInvocation | Source/delegate.hpp:68-71 | records are equal exactly when object pointer and trampoline pointer are both equal (delegate.h:83-85 likewise) |
| Delegates.EmptyDelegate | Source/delegate.hpp:126-127 | a default-constructed delegate is empty and holds the null record |
| Delegates.CreateMethod | Source/delegate.hpp:213-216 | binding a member function (object by reference here, by pointer at 250-253) gives a non-empty delegate whose object is the target |
| Delegates.CreateConstMethod | Source/delegate.hpp:223-226 | binding a const member function (object by const reference here, by const pointer at 260-263) gives a non-empty delegate whose object is the target |
| Delegates.CreateFree | Source/delegate.h:298-301 | binding a free function gives a non-empty delegate with a null object (delegate.hpp:231-234 likewise) |
| Delegates.CreateLambda | Source/delegate.h:309-312 | a lambda is bound by the closure's address (in `delegate.hpp` through the converting constructor and assignment at 132-147): non-empty, object is the closure |
| Delegates.DelegateEquals | Source/delegate.hpp:170-172 | delegate equality holds exactly when object and trampoline agree (delegate.h:221-223 likewise) |
| Delegates.BindingIdentity | Source/delegate.hpp:213-263 | two bindings are equal iff they bind the same object, class and member; a const and a non-const binding of the same member differ; free functions are equal iff they are the same function; no binding equals the empty delegate |
| Delegates.IndexOf | Source/delegate.hpp:426-427 | `std::find`: the first position holding the record, or the length exactly when it is absent |
| Delegates.RemoveFirst | Source/delegate.hpp:425-433 | erasing the first equal record shortens the sequence by one exactly when the record is present, and changes nothing otherwise |
| Delegates.RemoveFirstCounts | Source/delegate.hpp:425-433 | `m -= d` shortens `m` by one exactly when the record is present, and removes exactly one copy from its multiset |
| Delegates.RemoveEachStep | Source/delegate.hpp:411-420 | one turn of the `m -= m2` loop erases the current record of `m2`, then the rest follow |
| Delegates.RemoveEachMultiset | Source/delegate.hpp:411-420 | what `m -= m2` leaves is the multiset difference of the two record sequences (delegate.h:492-501 likewise) |
| Delegates.RemoveEach | Source/delegate.hpp:411-420 | `m -= m2` shrinks `m` by at most the size of `m2` and never grows it; its multiset meaning is RemoveEachMultiset |
| Delegates.RemoveFirstAfter | Source/delegate.hpp:425-433 | when no earlier record equals `x`, erasing `x` removes exactly the occurrence that follows the prefix |
| Delegates.AddRemoveRoundTrip | Source/delegate.hpp:403-406 | `m += d; m -= d` restores `m` when `d`'s record was not already in it |
| Delegates.AddAllRemoveAllRoundTrip | Source/delegate.hpp:394-398 | `m1 += m2; m1 -= m2` restores `m1` when no record of `m2` was in `m1` |
| Delegates.SharedRecordRemovedOnce | Source/delegate.hpp:425-433 | when `m1` holds a record more than once, removing it takes out only the first occurrence and a later one stays |
| Delegates.BroadcastAppend | Source/delegate.hpp:438-441 | calling `m1 + m2` is calling `m1` and then, unless that threw, `m2` on the world `m1` left; a throw in `m1` ends the whole call |
| Delegates.Invoke | Source/delegate.hpp:198-200 | calling a delegate has the same effect as calling a multicast delegate holding only its record: same world, and it throws exactly when that does |
| Delegates.InvokeHandsResultToHandler | Source/delegate.hpp:198-200 | the value a delegate call returns is what the handler form of a call on its record alone hands its handler at index 0 (handler form at 448-455) |
| Delegates.BroadcastVisitsInOrder | Source/delegate.hpp:438-441 | when no callee throws, a call reaches each record exactly once, in stored order, repeats included, and completes |
| Delegates.BroadcastStopsAtThrow | Source/delegate.hpp:438-441 | when a callee throws, the records up to and including it are reached in order, none after it, and the call throws |
| Delegates.Broadcast | Source/delegate.hpp:438-441 | the plain call, records in order until one throws; it is the handler form with a handler that ignores the results, from any starting index |
| Delegates.Collect | Source/delegate.hpp:448-455 | the handler form of the call; with no record it calls nothing and completes with the world unchanged (order and indices in CollectReportsInOrder) |
| Delegates.CollectReportsInOrder | Source/delegate.hpp:448-455 | with callees and a handler that do not throw, the handler receives the results of the records in stored order, with indices from, from+1, ... (delegate.h:535-542 likewise) |
| Delegates.Find | Source/delegate.hpp:426-427 | the linear search returns the first position holding the record, or the size when there is none |
| Delegates.Erase | Source/delegate.hpp:425-433 | find-then-erase leaves exactly `RemoveFirst` of the records |
| Delegates.RemoveFirstBound | Source/delegate.hpp:425-433 | erasing a record never leaves an empty record in the sequence |
| Delegates.MultiDelegate.constructor | Source/delegate.hpp:339-341 | a new multicast delegate has no records and is empty |
| Delegates.MultiDelegate.IsEmpty | Source/delegate.hpp:459-461 | empty exactly when the size is 0 (delegate.h:548-565 likewise) |
| Delegates.MultiDelegate.Size | Source/delegate.hpp:465-467 | the number of stored records, each duplicate counted: no record occurs more often, and it is the position `std::find` reports exactly for a record not stored |
| Delegates.MultiDelegate.Equals | Source/delegate.hpp:364-366 | two multicast delegates are equal iff they hold the same records in the same order (delegate.h:433-435 likewise) |
| Delegates.MultiDelegate.EqualsDelegate | Source/delegate.hpp:378-382 | `m == d` iff both are empty, or `d` is non-empty and `m` holds exactly its record (delegate.h:451-455 likewise) |
| Delegates.MultiDelegate.Add | Source/delegate.hpp:403-406 | `m += d` appends `d`'s record at the end and ignores an empty `d` (delegate.h:482-485 likewise) |
| Delegates.MultiDelegate.AddAll | Source/delegate.hpp:394-398 | `m += m2` appends all records of `m2` in order (delegate.h:471-475 likewise) |
| Delegates.MultiDelegate.Remove | Source/delegate.hpp:425-433 | `m -= d` erases the first record equal to `d`'s, if any, and keeps the others in order (delegate.h:508-516 likewise) |
| Delegates.MultiDelegate.RemoveAll | Source/delegate.hpp:411-420 | `m -= m2` erases, for each record of `m2` in order, the first equal record still present; with RemoveEachMultiset the result is the multiset difference |
| Delegates.MultiDelegate.Call | Source/delegate.hpp:438-441 | calls the records in order with the same arguments and stops at the first throw, which it passes on; the outcome is `Broadcast` of the records (delegate.h:523-526 likewise) |
| Delegates.MultiDelegate.CallWithHandler | Source/delegate.hpp:448-455 | calls the records in order and gives each result and its running index to the handler, stopping at the first throw of a callee or the handler; the outcome is `Collect` from index 0 |
| Delegates.MultiDelegate.Clear | Source/delegate.hpp:470-472 | afterwards no record is held, the multicast delegate is empty and its size is 0 |
| Delegates.DelegateEqualsMulti | Source/delegate.hpp:184-186 | `d == m` is the same relation as `m == d` (delegate.h:239-241 likewise) |
| BufferModel.Zeros | Source/buffer.hpp:159 | `new T[n]()` value-initialises: `n` slots, all zero |
| BufferModel.Appended | Source/buffer.hpp:199-215 | `append(data, size)` adds `size` to the size and grows the capacity to exactly the new size only when it is exceeded |
| BufferModel.AppendedSpec | Source/buffer.hpp:199-215 | after `append`, the old elements are kept, the new ones follow them (unless the source is null), and the slack is the old slack when nothing was reallocated |
| BufferModel.AppendSelf | Source/buffer.hpp:173-175 | appending a buffer's own elements, read before the call, gives its contents twice over |
| BufferModel.AppendedInPlaceForm | Source/buffer.hpp:199-215 | an append that fits writes into the existing array right behind the elements and leaves the rest of it unchanged |
| BufferModel.AppendedRegrownForm | Source/buffer.hpp:199-215 | an append that does not fit leaves an array holding exactly the old elements followed by the new ones |
| BufferModel.AppendAfterInPlace | Source/buffer.hpp:199-215 | appending `y` behind an in-place append of `x` is one in-place append of `x + y` |
| BufferModel.AppendTwiceInPlace | Source/buffer.hpp:199-215 | two appends that together fit equal one append of the concatenation |
| BufferModel.AppendTwiceRegrown | Source/buffer.hpp:199-215 | two appends that together overflow equal one append of the concatenation, capacity included |
| BufferModel.AppendTwice | Source/buffer.hpp:199-215 | in every case two appends equal one append of the concatenation: elements, size, capacity and slack |
| BufferModel.AppendEachIsAppend | Source/buffer.hpp:192-194 | appending the values one by one with `append(value)` equals appending them all at once |
| BufferModel.CopiedElementwiseIsEqual | Test/testBuffer.cpp:287-292 | an empty buffer filled one value at a time holds exactly those values, with capacity equal to their number |
| BufferModel.AppendInPlace | Source/buffer.hpp:207-208 | copying the new data into the slack, or nothing for a null source, gives exactly the slots `Appended` describes |
| BufferModel.Copy | Source/buffer.hpp:161-162 | `std::copy` into an array at an offset overwrites exactly that window and keeps the rest |
| BufferModel.Regrow | Source/buffer.hpp:200-208 | a fresh array holding the old elements followed by the new data (zeros for a null source) |
| BufferModel.EqualPrefix | Source/buffer.hpp:416-419 | `std::equal` on the first `n` slots is true iff those slots agree |
| Buffers.Assigned | Source/buffer.hpp:156-169 | `assign(data, size, capacity)` leaves capacity `capacity`, size min(size, capacity), the first elements of `data` (zeros for null), and zeroed slack |
| Buffers.Reserved | Source/buffer.hpp:140-143 | `assign(capacity)` keeps the buffer unchanged when the capacity is the same, else keeps the prefix that fits in a zeroed array of that capacity |
| Buffers.Shrunk | Source/buffer.hpp:218-221 | `shrink_to_fit` keeps the contents and makes the capacity equal to the size |
| Buffers.ReserveKeepsContents | Source/buffer.hpp:140-143 | reserving at least the size loses no element and keeps the size |
| Buffers.ReserveTruncates | Source/buffer.hpp:140-143 | reserving less than the size truncates the contents to the new capacity, which is then full |
| Buffers.ShrinkIdempotent | Source/buffer.hpp:218-221 | shrinking twice equals shrinking once |
| Buffers.ReserveThenAppend | Test/testBuffer.cpp:259-268 | after reserving room for `x`, appending `x` keeps the reserved capacity and leaves the old elements followed by `x` |
| Buffers.Buffer.Model | Source/buffer.hpp:323-350 | the abstract state has the object's size and capacity |
| Buffers.Buffer.constructor | Source/buffer.hpp:22-23 | a default buffer has a null array and size and capacity 0 |
| Buffers.Buffer.CopyOf | Source/buffer.hpp:28-31 | the copy has the other's contents and capacity, in a fresh array |
| Buffers.Buffer.MovedFrom | Source/buffer.hpp:35-38 | the new buffer takes over the other's array, size and capacity; the other is left empty |
| Buffers.Buffer.OfList | Source/buffer.hpp:42-45 | holds exactly the list, with capacity equal to its length |
| Buffers.Buffer.OfCapacity | Source/buffer.hpp:49-52 | no element, and that many zeroed slots |
| Buffers.Buffer.OfArray | Source/buffer.hpp:57-60 | the state of `assign(data, size)` |
| Buffers.Buffer.OfArrayWithCapacity | Source/buffer.hpp:66-69 | the state of `assign(data, size, capacity)`, size clamped to the capacity |
| Buffers.Buffer.AssignArrayWithCapacity | Source/buffer.hpp:156-169 | the new state is `Assigned(data, size, capacity)` in a fresh array (none when the capacity is 0) |
| Buffers.Buffer.AssignArray | Source/buffer.hpp:148-150 | the new state is `Assigned(data, size, size)` |
| Buffers.Buffer.AssignList | Source/buffer.hpp:134-136 | the buffer holds exactly the list, with capacity equal to its length |
| Buffers.Buffer.AssignCapacity | Source/buffer.hpp:140-143 | the new state is `Reserved(old state, capacity)`; the array is kept when the capacity is unchanged |
| Buffers.Buffer.AssignCopy | Source/buffer.hpp:116-119 | afterwards the contents and capacity are the other's; self-assignment changes nothing |
| Buffers.Buffer.AssignMove | Source/buffer.hpp:123-130 | takes over the other's array, size and capacity and leaves the other empty; self-move changes nothing |
| Buffers.Buffer.AppendArray | Source/buffer.hpp:199-215 | the new state is `Appended(old state, data, size)`; a new array only when the capacity was exceeded |
| Buffers.Buffer.AppendCopy | Source/buffer.hpp:173-175 | appends the other's elements, read before the call; a buffer appended to itself doubles its contents |
| Buffers.Buffer.AppendMove | Source/buffer.hpp:179-182 | appends the other's elements and then clears the other; moving a buffer into itself leaves it empty |
| Buffers.Buffer.AppendList | Source/buffer.hpp:186-188 | the contents become the old contents followed by the list |
| Buffers.Buffer.AppendValue | Source/buffer.hpp:192-194 | the contents become the old contents followed by the value |
| Buffers.Buffer.ShrinkToFit | Source/buffer.hpp:218-221 | the new state is `Shrunk(old state)`: same contents, capacity equal to the size |
| Buffers.Buffer.Clear | Source/buffer.hpp:224-229 | the array is dropped, and size and capacity become 0 |
| Buffers.Buffer.AcquireWithCapacity | Source/buffer.hpp:247-256 | fails with invalid argument exactly when the pointer is null, the size is 0 or the size exceeds the capacity, and then changes nothing; otherwise adopts the array with that size and capacity |
| Buffers.Buffer.Acquire | Source/buffer.hpp:236-238 | fails with invalid argument exactly when the pointer is null or the size is 0; otherwise adopts the array as full |
| Buffers.Buffer.Release | Source/buffer.hpp:260-265 | returns the array with all its slots and leaves the buffer empty |
| Buffers.Buffer.Swap | Source/buffer.hpp:269-273 | the two buffers exchange arrays, sizes and capacities |
| Buffers.Buffer.Get | Source/buffer.hpp:79-88 | unchecked indexing returns the slot at any index below the capacity |
| Buffers.Buffer.At | Source/buffer.hpp:279-295 | returns the element at an index below the size, and out-of-range exactly when the index is not below the size |
| Buffers.Buffer.First | Source/buffer.hpp:299-307 | the first element exactly when the buffer has one, else out-of-range |
| Buffers.Buffer.Last | Source/buffer.hpp:311-319 | the last element exactly when the buffer has one, else out-of-range (`size() - 1` wraps to an index that is too large) |
| Buffers.Buffer.Size | Source/buffer.hpp:323-325 | the number of elements in use |
| Buffers.Buffer.Capacity | Source/buffer.hpp:329-331 | the number of allocated slots |
| Buffers.Buffer.IsEmpty | Source/buffer.hpp:348-350 | true exactly when there is no element |
| Buffers.SwapBuffers | Source/buffer.hpp:405-407 | the two buffers' abstract states are exchanged |
| Buffers.Equal | Source/buffer.hpp:416-419 | true iff both buffers hold the same elements in order; the capacity is not compared |
| Buffers.NotEqual | Source/buffer.hpp:428-430 | true iff the elements differ |
| LegacyBuffers.Assigned | Source/buffer.h:198-210 | `assign(data, size, capacity)` keeps all `size` elements (zeros for null) and raises the capacity to max(size, capacity), with zeroed slack |
| LegacyBuffers.Reserved | Source/buffer.h:170-181 | `assign(capacity)` always reallocates to `capacity` zeroed slots that hold the prefix that fits |
| LegacyBuffers.ReserveEmpty | Source/buffer.h:55-58 | reserving in an empty buffer gives that many zeroed slots and no element |
| LegacyBuffers.ReserveKeepsContents | Source/buffer.h:170-181 | reserving at least the size loses no element and keeps the size |
| LegacyBuffers.ReserveThenAppend | Test/testBuffer.cpp:259-268 | after reserving room for `x`, appending `x` keeps the capacity, leaves the old elements followed by `x`, and keeps the slack zeroed |
| LegacyBuffers.ReserveThenAppendExample | Test/testBuffer.cpp:259-268 | five elements, capacity raised to 10, then three more: size 8, capacity 10, elements 1 to 8, and slot 9 still 0 |
| LegacyBuffers.RevisionsAgreeWhenSizeFits | Source/buffer.h:198-210 | when the size fits the capacity, the two revisions of `assign(data, size, capacity)` leave the same state |
| LegacyBuffers.RevisionsDifferWhenSizeExceeds | Source/buffer.h:198-210 | when the size exceeds the capacity, this revision keeps every element and the newer one keeps only the first `capacity` |
| LegacyBuffers.Buffer.Model | Source/buffer.h:357-367 | the abstract state has the object's size and capacity |
| LegacyBuffers.Buffer.constructor | Source/buffer.h:20-22 | a default buffer has a null array and size and capacity 0 |
| LegacyBuffers.Buffer.CopyOf | Source/buffer.h:28-31 | the copy has the other's contents and capacity, in a fresh array |
| LegacyBuffers.Buffer.MovedFrom | Source/buffer.h:37-40 | the new buffer takes over the other's array, size and capacity; the other is left empty |
| LegacyBuffers.Buffer.OfList | Source/buffer.h:46-49 | holds exactly the list, with capacity equal to its length |
| LegacyBuffers.Buffer.OfCapacity | Source/buffer.h:55-58 | no element, and that many zeroed slots |
| LegacyBuffers.Buffer.OfArray | Source/buffer.h:65-68 | the state of `assign(data, size)` |
| LegacyBuffers.Buffer.OfArrayWithCapacity | Source/buffer.h:76-79 | the state of `assign(data, size, capacity)`: every element kept, capacity at least the size |
| LegacyBuffers.Buffer.AssignArrayWithCapacity | Source/buffer.h:198-210 | the new state is `LegacyBuffers.Assigned(data, size, capacity)` in a fresh array |
| LegacyBuffers.Buffer.AssignArray | Source/buffer.h:188-190 | the new state is `Assigned(data, size, size)` |
| LegacyBuffers.Buffer.AssignList | Source/buffer.h:162-164 | the buffer holds exactly the list, with capacity equal to its length |
| LegacyBuffers.Buffer.AssignCapacity | Source/buffer.h:170-181 | the new state is `Reserved(old state, capacity)`, always in a new array |
| LegacyBuffers.Buffer.AssignCopy | Source/buffer.h:140-143 | afterwards the contents and capacity are the other's; self-assignment changes nothing |
| LegacyBuffers.Buffer.AssignMove | Source/buffer.h:149-156 | takes over the other's array, size and capacity and leaves the other empty; self-move changes nothing |
| LegacyBuffers.Buffer.AppendArray | Source/buffer.h:250-264 | the new state is `Appended(old state, data, size)`; a new array only when the capacity was exceeded |
| LegacyBuffers.Buffer.AppendCopy | Source/buffer.h:216-218 | appends the other's elements, read before the call; a buffer appended to itself doubles its contents |
| LegacyBuffers.Buffer.AppendMove | Source/buffer.h:224-227 | appends the other's elements and then clears the other; moving a buffer into itself leaves it empty |
| LegacyBuffers.Buffer.AppendList | Source/buffer.h:233-235 | the contents become the old contents followed by the list |
| LegacyBuffers.Buffer.AppendValue | Source/buffer.h:241-243 | the contents become the old contents followed by the value |
| LegacyBuffers.Buffer.Clear | Source/buffer.h:269-274 | the array is dropped, and size and capacity become 0 |
| LegacyBuffers.Buffer.Release | Source/buffer.h:280-285 | returns the array with all its slots and leaves the buffer empty |
| LegacyBuffers.Buffer.Swap | Source/buffer.h:291-295 | the two buffers exchange arrays, sizes and capacities |
| LegacyBuffers.Buffer.Get | Source/buffer.h:93-104 | unchecked indexing returns the slot at any index below the capacity |
| LegacyBuffers.Buffer.At | Source/buffer.h:302-319 | returns the element at an index below the size, and out-of-range exactly when the index is not below the size |
| LegacyBuffers.Buffer.First | Source/buffer.h:325-335 | the first element exactly when the buffer has one, else out-of-range |
| LegacyBuffers.Buffer.Last | Source/buffer.h:341-351 | the last element exactly when the buffer has one, else out-of-range |
| LegacyBuffers.Buffer.Size | Source/buffer.h:357-359 | the number of elements in use |
| LegacyBuffers.Buffer.Capacity | Source/buffer.h:365-367 | the number of allocated slots |
| LegacyBuffers.Buffer.IsEmpty | Source/buffer.h:389-391 | true exactly when there is no element |
| LegacyBuffers.SwapBuffers | Source/buffer.h:463-466 | the two buffers' abstract states are exchanged |
| LegacyBuffers.Equal | Source/buffer.h:475-479 | true iff both buffers hold the same elements in order; the capacity is not compared |
| LegacyBuffers.NotEqual | Source/buffer.h:488-491 | true iff the elements differ |
| StringUtils.SkipSpace | Source/string_utils.hpp:34-36 | the first index whose character is not whitespace, every character before it whitespace |
| StringUtils.SkipSpaceBack | Source/string_utils.hpp:44-46 | the end of the last non-whitespace character, every character after it whitespace |
| StringUtils.LTrimCopy | Source/string_utils.hpp:62-66 | a suffix of the input that starts with a non-space, or is empty, and what it dropped is all whitespace |
| StringUtils.RTrimCopy | Source/string_utils.hpp:72-76 | a prefix of the input that ends with a non-space, or is empty, and what it dropped is all whitespace |
| StringUtils.TrimCopy | Source/string_utils.hpp:82-86 | the trimmed copy neither starts nor ends with whitespace; TrimIsInfix pins down which part of the input it is |
| StringUtils.TrimIsInfix | Source/string_utils.hpp:82-86 | the trimmed copy is a contiguous part of the input with only whitespace on either side of it |
| StringUtils.LTrimExactly | Source/string_utils.hpp:62-66 | a whitespace prefix followed by a non-space (or nothing) is exactly what `ltrim` removes |
| StringUtils.RTrimExactly | Source/string_utils.hpp:72-76 | a whitespace suffix preceded by a non-space (or nothing) is exactly what `rtrim` removes |
| StringUtils.TrimOfTrimmed | Source/string_utils.hpp:82-86 | a string that neither starts nor ends with whitespace is its own trim |
| StringUtils.TrimIdempotent | Source/string_utils.hpp:82-86 | trimming twice equals trimming once |
| StringUtils.TrimEmpty | Source/string_utils.hpp:82-86 | the trim is empty exactly when the input is all whitespace |
| StringUtils.TrimPadded | Test/testStringUtils.cpp:48-57 | whitespace padding on either side of a trimmed string is removed and nothing else |
| StringUtils.LTrim | Source/string_utils.hpp:32-37 | the in-place `ltrim` leaves exactly `ltrim_copy` of the input |
| StringUtils.RTrim | Source/string_utils.hpp:42-47 | the in-place `rtrim` leaves exactly `rtrim_copy` of the input |
| StringUtils.Trim | Source/string_utils.hpp:52-56 | the in-place `trim` leaves exactly `trim_copy` of the input |
| StringUtils.FindDelim | Source/string_utils.hpp:104-108 | `find_if`: the first index holding a delimiter, or the length, with no delimiter before it |
| StringUtils.FindDelimExactly | Source/string_utils.hpp:104-108 | any index with no delimiter before it, holding one itself or at the end, is what `find_if` returns |
| StringUtils.After | Source/string_utils.hpp:116 | the loop resumes after the delimiter, on a strictly shorter remainder |
| StringUtils.EmitPiece | Source/string_utils.hpp:110-114 | a run yields at most one piece, none exactly when it is all whitespace, and that piece is non-empty, trimmed and free of delimiters |
| StringUtils.RunsAreRuns | Source/string_utils.hpp:102-117 | every run the loop cuts is non-empty and free of delimiters |
| StringUtils.PiecesAppend | Source/string_utils.hpp:102-117 | the pieces of two lists of runs are the pieces of each, concatenated |
| StringUtils.PiecesArePieces | Source/string_utils.hpp:110-114 | each piece emitted from delimiter-free runs is non-empty, trimmed and free of delimiters |
| StringUtils.SplitCopy | Source/string_utils.hpp:126-134 | every string `split_copy` returns is non-empty, has no leading or trailing whitespace and holds no delimiter |
| StringUtils.SplitStep | Source/string_utils.hpp:102-117 | one turn of the loop emits the trimmed run before the first delimiter, if that is not empty, then continues after the delimiter |
| StringUtils.SplitWithoutDelims | Source/string_utils.hpp:94-118 | a string with no delimiter splits into its trim, or into nothing when it is all whitespace |
| StringUtils.FirstDelimWithin | Source/string_utils.hpp:104-108 | text after a string that already holds a delimiter changes neither its first run nor where the loop resumes, except for the appended tail |
| StringUtils.NoDelimWithin | Source/string_utils.hpp:104-108 | a delimiter right after a delimiter-free string ends that string's only run, and the loop resumes after it |
| StringUtils.RunsAtDelim | Source/string_utils.hpp:102-117 | cutting at a delimiter: the runs of the left part come first, then those of the right part |
| StringUtils.RunsAtLaterDelim | Source/string_utils.hpp:102-117 | the same, when the left part has a delimiter of its own |
| StringUtils.SplitAtDelim | Source/string_utils.hpp:126-134 | `split_copy` distributes over a delimiter: the pieces left of it, then those right of it |
| StringUtils.RunsLeadingDelim | Source/string_utils.hpp:110 | a leading delimiter adds no run |
| StringUtils.ConsecutiveDelims | Source/string_utils.hpp:110 | two delimiters in a row add no piece between them |
| StringUtils.RunsWithoutDelims | Source/string_utils.hpp:102-117 | a non-empty string without delimiters is a single run |
| StringUtils.PiecesOfTrimmed | Source/string_utils.hpp:110-114 | runs that are non-empty and trimmed are their own pieces |
| StringUtils.RunsOfThree | Source/string_utils.hpp:102-117 | three delimiter-free words joined by two delimiters are three runs |
| StringUtils.PiecesOfThree | Source/string_utils.hpp:110-114 | three non-empty trimmed runs are their own pieces |
| StringUtils.SplitExample | Test/testStringUtils.cpp:59-74 | splitting `"a b\nc"` at blanks and newlines gives `["a", "b", "c"]` |
| StringUtils.SplitLoopStep | Source/string_utils.hpp:102-117 | one turn of the loop, in positions of the whole string: emit, then resume after the delimiter |
| StringUtils.FindFrom | Source/string_utils.hpp:104-108 | the first delimiter at or after the start position, or the end, with none between |
| StringUtils.Split | Source/string_utils.hpp:94-118 | `split` appends exactly `split_copy(str, delims)` to the vector it is given |

## Left out

- The trampolines and casts behind a delegate are not modelled. The callee code is not modelled either: it becomes a `dispatch` parameter that maps a trampoline, an object handle, the arguments and a world state to either a returned result or a throw, each with a new world state. What is thrown, when it matters, is part of the world.
- Object, class and member identities are plain numbers. Lambda closures are referenced by address, and their lifetime is not modelled.
- Delegates.CreateLambda: in `delegate.hpp`, `create(const L&)` (lines 240-243) passes `&object`, a `const L*`, to the private constructor that takes a `void*`. C++ does not convert that pointer implicitly, so the template does not compile once instantiated. In that header a lambda is bound only through the converting constructor or assignment (lines 132-147), which cast to `void*`. `CreateLambda` models those and `delegate.h`'s `create`, which casts as well.
- Delegates.Invoke: calling an empty delegate is undefined behaviour in the source (a null trampoline is called), so `Invoke` requires a non-empty delegate.
- Delegates.MultiDelegate.AddAll: requires `other != this`. In `delegate.hpp`, `m += m` runs a range-for over the `std::list` it is appending to; `push_back` invalidates no iterator, so the loop keeps reaching the records it has just appended and never ends on a non-empty `m`. In `delegate.h` the container is a `std::deque`, where the same loop is undefined behaviour.
- Delegates.MultiDelegate.RemoveAll: requires `other != this`. In both headers, `m -= m` erases the element the range-for is standing on, which is undefined behaviour.
- Delegates.MultiDelegate.Call, Delegates.MultiDelegate.CallWithHandler: a callee cannot reach the multicast delegate being called, because the world passed to `dispatch` does not contain it. Re-entrant changes during a call are therefore not modelled. In the source, an `m += d` during `m()` is also called in the same pass on a `std::list` and is undefined behaviour on a `std::deque`. An `m -= d` that erases the record being called is undefined behaviour in both headers.
- Delegates.Collect: its own contract only states the case with no record. The order of calls and indices is proved in `CollectReportsInOrder`, and stopping at a throw through `Broadcast`, which is `Collect` with a handler that ignores results.
- `operator bool`, comparison with `nullptr` and the `delegate.h` duplicates of each operator are not separate members. Each has the same meaning as the member named in the table.
- Buffer elements are `int`. The element type `T` is generic in the source.
- `new`/`delete` ownership is not modelled: Dafny has no deallocation, and the model assumes each dropped array is deleted.
- The memory an acquired array came from is not modelled either.
- `size_t` arithmetic is unbounded. `size + size_` cannot overflow in the model.
- Buffers.Buffer.AcquireWithCapacity: the array handed over is required to have exactly `capacity` slots. The source takes a raw pointer and cannot check this.
- Buffers.Buffer.Acquire: the array handed over is required to have exactly `size` slots, for the same reason.
- Acquiring a buffer's own array, which the source then deletes in `clear()`, is not modelled.
- `operator[]`, `at`, `first` and `last` return mutable references in the source. The model returns values, so writes through the returned reference are not modelled.
- `data()`, `begin()` and `end()` are not modelled.
- A raw source pointer in `append` and `assign` is read as a snapshot of the data it points at. Partial overlap of that data with the buffer's own array is not modelled.
- BufferModel.Appended: its own contract gives only size and capacity. The lemma `AppendedSpec` gives the contents and slack.
- Whitespace is the "C" locale `isspace` set: blank, tab, newline, vertical tab, form feed and carriage return. Other locales and `std::wstring` are not modelled.
- One Dafny `char` stands for one byte of a `std::string`. A byte of 0x80 or above reaches `std::isspace` as a negative value when `char` is signed, which is undefined behaviour; the model treats every non-ASCII character as non-space.
- The delimiter list of `split` is a `set<char>`. The source only tests membership with `std::any_of`, so order and duplicates do not matter.
- The in-place `ltrim`, `rtrim`, `trim` and `split` are methods that return the new string or vector rather than mutating a reference.
- `split` appends to the vector it is given. This is modelled as `lines + ...`.
- `Source/pimpl.h`, `Source/pimpl.hpp` and `Source/range_access.hpp` are not part of this model.
