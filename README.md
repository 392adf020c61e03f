# QuickList: the growable array behind ActiveListExtensions

ActiveListExtensions keeps every derived ("active") list in a `QuickList<T>`. This is a
growable array with three pieces of state:

- a backing array `_items`;
- a logical length `_count`;
- a modification counter `_version`.

It offers:

- positional insertion (`Add`);
- removal at an index (`Remove`);
- point update (`Replace`);
- a rotation-style `Move`;
- `Clear`;
- a bounds-checked indexer.

When the array is full before an insertion, its capacity grows from 0 to 16, and after that it
doubles.

This project models that class in Dafny and proves what each operation does to the list's
logical contents.

- `ListEdits.dfy` gives the meaning of the edits on sequences:
  - `Insert` is insertion at an index;
  - `RemoveAt` is removal at an index;
  - `MoveItem` is a move, defined as removing the element and inserting it again.

  The lemmas there relate these edits to each other: round trips, a move undone by the
  opposite move, moves as permutations, and moves as the two slice rotations.
- `Arrays.dfy` models the runtime's `Array.Copy` as the code uses it:
  - `CopyWithin` copies within one array, possibly over an overlapping range. It is a loop
    that picks its direction from the overlap, so that it reads as if the whole source range
    were read before the destination is written.
  - `CopyPrefix` copies a prefix into a fresh array.
- `QuickList.dfy` holds the class `Utilities.QuickList` with fields `items: array<T>`,
  `count` and `version`.
  - `Contents()` is the ghost view `items[..count]`.
  - Each method's postcondition gives the new `Contents()`, `count` and `version` in terms of
    the old ones, through the `ListEdits` functions.
  - The lemmas `InsertShift`, `RemoveShift`, `MoveForwardShift` and `MoveBackwardShift` prove
    that the in-place shifts of `Add`, `Remove` and `Move` compute those edits.

`_version` is a C# `int` incremented with `++`. With overflow checking off, which is the C#
default, it wraps from `int.MaxValue` to `int.MinValue`. The model writes this wrap out
(`NextVersion`). Each mutation changes the counter. Fewer than 2^32 mutations never bring it
back to where it started (`VersionDetectsChange`). Below the overflow it grows by exactly one
per mutation (`VersionGrowsBelowOverflow`). So the counter grows monotonically only while it
stays below `int.MaxValue`; the next increment takes it to `int.MinValue`.

## Model

| member | source | states |
|---|---|---|
| `Utilities.QuickList.constructor` | ActiveListExtensions/Utilities/QuickList.cs:24-30 | a new list has no elements, an empty backing array and version 0 |
| `Utilities.QuickList.Item` | ActiveListExtensions/Utilities/QuickList.cs:14-22 | reading at `index` gives `Contents()[index]` exactly when `0 <= index < Count`, and otherwise fails with ArgumentOutOfRange naming `index`; reading changes nothing |
| `Utilities.QuickList.Count` | ActiveListExtensions/Utilities/QuickList.cs:24-25 | `Count` is the length of the logical contents |
| `Utilities.QuickList.Version` | ActiveListExtensions/Utilities/QuickList.cs:27-28 | the getter returns the counter field, which is always a 32-bit signed value |
| `Utilities.QuickList.Add` | ActiveListExtensions/Utilities/QuickList.cs:32-42 | for `0 <= index <= Count`: afterwards `Contents() == old[..index] + [value] + old[index..]`, `Count` is one more, and the counter advances by one (wrapping at int.MaxValue); the backing array is either the old one or a freshly allocated one, so the caller may go on mutating the list |
| `Utilities.QuickList.Remove` | ActiveListExtensions/Utilities/QuickList.cs:44-53 | for `0 <= index < Count`: afterwards `Contents() == old[..index] + old[index+1..]`, `Count` is one less, the counter advances by one, and the backing array is the same; the `else` branch is proved unreachable |
| `Utilities.QuickList.Replace` | ActiveListExtensions/Utilities/QuickList.cs:55-60 | for `0 <= index < Count`: only position `index` changes (`Contents() == old[index := value]`), `Count` is unchanged, and the counter advances by one |
| `Utilities.QuickList.Move` | ActiveListExtensions/Utilities/QuickList.cs:62-79 | with equal indices nothing changes, the version included; otherwise `Contents()` becomes `MoveItem(old, oldIndex, newIndex)` (remove, then re-insert the same value), `Count` is unchanged, and the counter advances by one |
| `Utilities.QuickList.Clear` | ActiveListExtensions/Utilities/QuickList.cs:81-89 | afterwards `Contents() == []` and `Count == 0`, and the counter advances by one even when the list was already empty |
| `Utilities.QuickList.AddCapacityIfNeeded` | ActiveListExtensions/Utilities/QuickList.cs:91-104 | afterwards the capacity is strictly greater than `Count` and the contents are unchanged; a full array is replaced by a fresh one of `GrownCapacity` slots, and a non-full array is kept |
| `Utilities.GrownCapacity` | ActiveListExtensions/Utilities/QuickList.cs:93-102 | the new capacity exceeds the old one: 16 from an empty array, otherwise twice the old length |
| `Utilities.NextVersion` | ActiveListExtensions/Utilities/QuickList.cs:41 | `++_version` on a 32-bit int is addition of one modulo 2^32, always yields a different value, and stays in the 32-bit range |
| `Utilities.NextVersionOfWrap` | ActiveListExtensions/Utilities/QuickList.cs:41 | incrementing a wrapped value equals wrapping the successor |
| `Utilities.BumpedWraps` | ActiveListExtensions/Utilities/QuickList.cs:27-28 | after `k` mutations the counter equals the start plus `k`, modulo 2^32 |
| `Utilities.VersionGrowsBelowOverflow` | ActiveListExtensions/Utilities/QuickList.cs:27-28 | as long as no overflow is reached, `k` mutations raise the counter by exactly `k` (monotone growth) |
| `Utilities.VersionDetectsChange` | ActiveListExtensions/Utilities/QuickList.cs:27-28 | any number of mutations from 1 to 2^32 - 1 leaves the counter different from its starting value |
| `Utilities.InsertShift` | ActiveListExtensions/Utilities/QuickList.cs:36-39 | shifting `[index, count)` one slot right (only when `index < count`) and writing the value at `index` leaves the first `count + 1` slots equal to the insertion |
| `Utilities.RemoveShift` | ActiveListExtensions/Utilities/QuickList.cs:46-47 | shifting `[index+1, count)` one slot left leaves the first `count - 1` slots equal to the removal |
| `Utilities.MoveForwardShift` | ActiveListExtensions/Utilities/QuickList.cs:68-72 | for `oldIndex < newIndex`, shifting `(oldIndex, newIndex]` left and writing the saved value at `newIndex` equals `MoveItem` on the first `count` slots |
| `Utilities.MoveBackwardShift` | ActiveListExtensions/Utilities/QuickList.cs:73-77 | for `newIndex < oldIndex`, shifting `[newIndex, oldIndex)` right and writing the saved value at `newIndex` equals `MoveItem` on the first `count` slots |
| `Arrays.CopyWithin` | ActiveListExtensions/Utilities/QuickList.cs:37 | an overlapping block copy inside one array: afterwards the destination range holds the old source range and every other slot is unchanged |
| `Arrays.CopiedAt` | ActiveListExtensions/Utilities/QuickList.cs:47 | element by element, a block copy reads each destination slot from the matching source slot and keeps all other slots |
| `Arrays.CopyPrefix` | ActiveListExtensions/Utilities/QuickList.cs:99-100 | copying the old array into the new one preserves the first `length` elements and leaves the rest of the new array untouched |
| `ListEdits.InsertAt` | ActiveListExtensions/Utilities/QuickList.cs:32-42 | element by element, an insertion keeps the prefix, puts the value at `index` and shifts the tail right by one |
| `ListEdits.RemoveAtAt` | ActiveListExtensions/Utilities/QuickList.cs:44-53 | element by element, a removal keeps the prefix and shifts the tail left by one |
| `ListEdits.InsertThenRemove` | ActiveListExtensions/Utilities/QuickList.cs:32-53 | `Remove(i)` right after `Add(i, v)` restores the old contents |
| `ListEdits.RemoveThenInsert` | ActiveListExtensions/Utilities/QuickList.cs:32-53 | `Add(i, x)` with the element `x` just removed from `i` restores the old contents |
| `ListEdits.ReplaceIsRemoveThenInsert` | ActiveListExtensions/Utilities/QuickList.cs:55-60 | a point update equals removing at `i` and then inserting the new value at `i` |
| `ListEdits.MoveToSameIndex` | ActiveListExtensions/Utilities/QuickList.cs:64-65 | the early return for equal indices agrees with remove-then-insert: moving onto the same index changes nothing |
| `ListEdits.MoveItemAt` | ActiveListExtensions/Utilities/QuickList.cs:62-79 | after a move: the moved element is at `newIndex`; for `old < new` the elements in `old+1..new` shift left by one; for `old > new` those in `new..old-1` shift right by one; everything outside `[min, max]` is unchanged |
| `ListEdits.MoveIsRotation` | ActiveListExtensions/Utilities/QuickList.cs:68-77 | remove-then-insert equals the two slice rotations the code performs, one for each direction |
| `ListEdits.MoveBack` | ActiveListExtensions/Utilities/QuickList.cs:62-79 | `Move(new, old)` undoes `Move(old, new)` |
| `ListEdits.InsertMultiset` | ActiveListExtensions/Utilities/QuickList.cs:32-42 | an insertion adds exactly one occurrence of the inserted value |
| `ListEdits.RemoveAtMultiset` | ActiveListExtensions/Utilities/QuickList.cs:44-53 | a removal takes away exactly one occurrence of the removed value |
| `ListEdits.MovePermutes` | ActiveListExtensions/Utilities/QuickList.cs:62-79 | a move keeps the multiset of elements: it is a permutation |

## Left out

- `GetEnumerator` (ActiveListExtensions/Utilities/QuickList.cs:106-108): the enumerator class
  `QuickListEnumerator<T>` is not part of this model. `version` is modelled as a counter only,
  not as an iterator-invalidation check.
- Utilities.QuickList.Add, Utilities.QuickList.Remove, Utilities.QuickList.Replace, Utilities.QuickList.Move: the class
  is internal and does not check its indices; an out-of-range index is a caller error, so the
  requires clauses ask for indices inside the list. The code's behaviour on such indices is
  not modelled. It is:
  - a negative index, or one at or beyond the capacity, throws from `Array.Copy` or from the
    array access;
  - `Add` with `Count < index < capacity` writes the value past the logical end and still
    increments `_count` (line 40), so the stale slot at the old `Count` joins the contents;
  - `Remove` with `Count <= index < capacity` takes the `else` branch (lines 48-49), clears
    that slot and still decrements `_count` (line 51), dropping the last element; on a list
    emptied by `Clear`, which keeps its array, this leaves `Count == -1`;
  - `Replace` with `Count <= index < capacity` writes past the logical end (line 57) and
    leaves the contents unchanged apart from the counter;
  - `Move` with one index in `[Count, capacity)` (lines 67-77) moves a stale slot into the
    contents and the element at the other index out of them.
- Utilities.QuickList.Remove: the `else` branch (line 49, clearing `_items[index]` when
  `index >= Count`) is proved unreachable under the precondition. No value for `default(T)`
  is modelled.
- Utilities.QuickList.Clear: `Array.Clear` (line 85) only resets slots that are no longer part of
  the contents, so that the garbage collector can reclaim them. Slots beyond `count` are
  unconstrained in the model.
- Utilities.QuickList.AddCapacityIfNeeded: capacity and `count` are unbounded naturals. The
  model leaves out two limits: the 32-bit overflow of `_items.Length * 2` at 2^30 elements,
  and the runtime's maximum array size.
- Utilities.QuickList.constructor: every list in the code starts with one static, shared,
  zero-length array (`_emptyArray`, line 12). The model allocates a fresh empty array per
  list. The difference cannot be observed, because a zero-length array is never written.
- The rest of the library is not part of this model: the operators such as `ActiveIntersect`,
  `ActiveOuterJoin` and `ActiveCount`, the `ActiveListExtensions` factory methods, property
  inference from expression trees, and change notifications. Their implementations are not
  available here.
