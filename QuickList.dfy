/** The growable array that backs every derived list of the library: positional insertion,
    removal, point update, rotation-style move and clearing over a backing array whose logical
    length is `count`, with a modification counter `version` that each change bumps. */
module Utilities {
  import opened ListEdits
  import opened Arrays

  /** The indexer's failure: an index outside `0 <= index < Count`. */
  datatype Error = ArgumentOutOfRange(paramName: string)

  datatype Result<T> = Ok(value: T) | Err(error: Error)

  const MinInt32: int := -0x8000_0000
  const MaxInt32: int := 0x7fff_ffff
  const Int32Range: int := 0x1_0000_0000

  predicate IsInt32(x: int) {
    MinInt32 <= x <= MaxInt32
  }

  /** Two's-complement reduction of an integer to a 32-bit signed value. */
  function Wrap32(x: int): (r: int)
    ensures IsInt32(r)
  {
    (x - MinInt32) % Int32Range + MinInt32
  }

  /** `++` on a 32-bit signed counter in an unchecked context: it wraps from the largest
      value to the smallest one. */
  function NextVersion(v: int): (r: int)
    requires IsInt32(v)
    ensures IsInt32(r)
    ensures r == Wrap32(v + 1)
    ensures r != v
  {
    if v == MaxInt32 then MinInt32 else v + 1
  }

  /** The counter after `k` successive mutations. */
  function Bumped(v: int, k: nat): (r: int)
    requires IsInt32(v)
    ensures IsInt32(r)
  {
    if k == 0 then v else NextVersion(Bumped(v, k - 1))
  }

  /** One increment of a wrapped value is the wrapped successor. */
  lemma NextVersionOfWrap(x: int)
    ensures NextVersion(Wrap32(x)) == Wrap32(x + 1)
  {
    var p := x - MinInt32;
    var d, q := p / Int32Range, p % Int32Range;
    assert p == Int32Range * d + q && 0 <= q < Int32Range;
    if q == Int32Range - 1 {
      assert p + 1 == Int32Range * (d + 1);
      assert (p + 1) % Int32Range == 0;
    } else {
      assert p + 1 == Int32Range * d + (q + 1);
      assert (p + 1) % Int32Range == q + 1;
    }
  }

  /** After `k` mutations the counter has advanced by `k` modulo 2^32. */
  lemma {:induction false} BumpedWraps(v: int, k: nat)
    requires IsInt32(v)
    ensures Bumped(v, k) == Wrap32(v + k)
  {
    if k == 0 {
      assert Wrap32(v) == v;
    } else {
      BumpedWraps(v, k - 1);
      NextVersionOfWrap(v + k - 1);
    }
  }

  /** The counter grows by exactly one per mutation as long as it does not pass the largest
      32-bit value. */
  lemma VersionGrowsBelowOverflow(v: int, k: nat)
    requires IsInt32(v) && v + k <= MaxInt32
    ensures Bumped(v, k) == v + k
  {
    BumpedWraps(v, k);
  }

  /** Any number of mutations from 1 to 2^32 - 1 leaves the counter different from where it
      started, so a reader that remembered the old value notices that the list changed. */
  lemma VersionDetectsChange(v: int, k: nat)
    requires IsInt32(v) && 0 < k < Int32Range
    ensures Bumped(v, k) != v
  {
    BumpedWraps(v, k);
    var p := v - MinInt32;
    assert 0 <= p < Int32Range;
    assert p < p + k < 2 * Int32Range;
  }

  /** The shift Add performs on a backing array `a` with `n` live slots and room for one
      more: copying the tail one place right (when `i < n`) and writing `v` at `i` leaves the
      first `n + 1` slots holding the old contents with `v` inserted at `i`. */
  lemma InsertShift<T>(a: seq<T>, n: int, i: int, v: T)
    requires 0 <= i <= n < |a|
    ensures (if i < n then Copied(a, i, i + 1, n - i) else a)[i := v][..n + 1] == Insert(a[..n], i, v)
  {
    var r := (if i < n then Copied(a, i, i + 1, n - i) else a)[i := v][..n + 1];
    var t := Insert(a[..n], i, v);
    forall k | 0 <= k <= n ensures r[k] == t[k] {
      InsertAt(a[..n], i, v, k);
      if i < n && k != i {
        CopiedAt(a, i, i + 1, n - i, k);
      }
    }
  }

  /** The shift Remove performs on a backing array `a` with `n` live slots: copying the
      elements after `i` one place left leaves the first `n - 1` slots holding the old
      contents without the element at `i`. */
  lemma RemoveShift<T>(a: seq<T>, n: int, i: int)
    requires 0 <= i < n <= |a|
    ensures Copied(a, i + 1, i, n - i - 1)[..n - 1] == RemoveAt(a[..n], i)
  {
    var r := Copied(a, i + 1, i, n - i - 1)[..n - 1];
    var t := RemoveAt(a[..n], i);
    forall k | 0 <= k < n - 1 ensures r[k] == t[k] {
      RemoveAtAt(a[..n], i, k);
      CopiedAt(a, i + 1, i, n - i - 1, k);
    }
  }

  /** The rotation Move performs on a backing array `a` with `n` live slots when
      `from < to`: the block after `from` up to `to` slides one place left and the saved
      element is written at `to`. The first `n` slots then hold the old contents with the
      element moved from `from` to `to`. */
  lemma MoveForwardShift<T>(a: seq<T>, n: int, from: int, to: int)
    requires 0 <= from < to < n <= |a|
    ensures Copied(a, from + 1, from, to - from)[to := a[from]][..n] == MoveItem(a[..n], from, to)
  {
    var s := a[..n];
    var r := Copied(a, from + 1, from, to - from)[to := a[from]][..n];
    forall k | 0 <= k < n ensures r[k] == MoveItem(s, from, to)[k] {
      MoveItemAt(s, from, to, k);
      if k != to {
        CopiedAt(a, from + 1, from, to - from, k);
      }
    }
  }

  /** The rotation Move performs when `to < from`: the block from `to` up to `from` slides one
      place right and the saved element is written at `to`. */
  lemma MoveBackwardShift<T>(a: seq<T>, n: int, from: int, to: int)
    requires 0 <= to < from < n <= |a|
    ensures Copied(a, to, to + 1, from - to)[to := a[from]][..n] == MoveItem(a[..n], from, to)
  {
    var s := a[..n];
    var r := Copied(a, to, to + 1, from - to)[to := a[from]][..n];
    forall k | 0 <= k < n ensures r[k] == MoveItem(s, from, to)[k] {
      MoveItemAt(s, from, to, k);
      if k != to {
        CopiedAt(a, to, to + 1, from - to, k);
      }
    }
  }

  /** The capacity chosen when a full backing array must grow: 16 for the initial empty
      array, otherwise twice the old length. */
  function GrownCapacity(length: nat): (c: nat)
    ensures c > length
    ensures length == 0 ==> c == 16
    ensures length > 0 ==> c == 2 * length
  {
    if length == 0 then 16 else length * 2
  }

  class QuickList<T(0)> {
    var items: array<T>
    var count: nat
    var version: int

    /** The object invariant: the logical length fits in the backing array and the counter
        is a 32-bit value. */
    ghost predicate Valid()
      reads this
    {
      count <= items.Length && IsInt32(version)
    }

    /** The logical contents: the first `count` slots. Slots beyond `count` are unconstrained. */
    ghost function Contents(): seq<T>
      reads this, items
      requires Valid()
    {
      items[..count]
    }

    /** A new list is empty, shares no storage with anything, and starts at version 0. */
    constructor ()
      ensures Valid() && fresh(items)
      ensures Contents() == [] && items.Length == 0 && version == 0
    {
      items := new T[0];
      count := 0;
      version := 0;
    }

    /** The bounds-checked indexed read. */
    function Item(index: int): (r: Result<T>)
      reads this, items
      requires Valid()
      ensures r.Ok? <==> 0 <= index < |Contents()|
      ensures r.Ok? ==> r.value == Contents()[index]
      ensures r.Err? ==> r.error == ArgumentOutOfRange("index")
    {
      if index < 0 || index >= count then Err(ArgumentOutOfRange("index"))
      else Ok(items[index])
    }

    /** The logical length. */
    function Count(): (n: int)
      reads this, items
      requires Valid()
      ensures n == |Contents()|
    {
      count
    }

    /** The modification counter. */
    function Version(): (v: int)
      reads this
      requires Valid()
      ensures v == version && IsInt32(v)
    {
      version
    }

    /** Inserts `value` so that it ends up at `index`, growing the backing array first when it
        is full. */
    method Add(index: int, value: T)
      requires Valid() && 0 <= index <= count
      modifies this, items
      ensures Valid() && (items == old(items) || fresh(items))
      ensures Contents() == Insert(old(Contents()), index, value)
      ensures count == old(count) + 1
      ensures version == NextVersion(old(version))
    {
      AddCapacityIfNeeded();
      var a, n := items, count;
      ghost var before := a[..];
      assert before[..n] == old(Contents());
      if index < n {
        CopyWithin(a, index, index + 1, n - index);
      }
      ghost var shifted := a[..];
      a[index] := value;
      assert a[..] == shifted[index := value];
      InsertShift(before, n, index, value);
      assert a[..n + 1] == Insert(old(Contents()), index, value);
      count := n + 1;
      version := NextVersion(version);
    }

    /** Removes the element at `index`, closing the gap by shifting the tail one place left.
        The vacated slot keeps its stale value. */
    method Remove(index: int)
      requires Valid() && 0 <= index < count
      modifies this, items
      ensures Valid() && items == old(items)
      ensures Contents() == RemoveAt(old(Contents()), index)
      ensures count == old(count) - 1
      ensures version == NextVersion(old(version))
    {
      var a, n := items, count;
      ghost var before := a[..];
      if index < n {
        CopyWithin(a, index + 1, index, n - index - 1);
      } else {
        // Clearing the slot at `index` when `index >= count`: excluded by the precondition.
        assert false;
      }
      RemoveShift(before, n, index);
      assert a[..n - 1] == RemoveAt(old(Contents()), index);
      count := n - 1;
      version := NextVersion(version);
    }

    /** Overwrites the element at `index`; only that position changes. */
    method Replace(index: int, value: T)
      requires Valid() && 0 <= index < count
      modifies this, items
      ensures Valid() && items == old(items) && count == old(count)
      ensures Contents() == old(Contents())[index := value]
      ensures version == NextVersion(old(version))
    {
      items[index] := value;
      version := NextVersion(version);
    }

    /** Moves the element at `oldIndex` to `newIndex` by rotating the elements in between one
        place. Equal indices return at once, before any index is used, so they need not be in
        range, and then nothing changes, the counter included. */
    method Move(oldIndex: int, newIndex: int)
      requires Valid()
      requires oldIndex == newIndex || (0 <= oldIndex < count && 0 <= newIndex < count)
      modifies this, items
      ensures Valid() && items == old(items) && count == old(count)
      ensures oldIndex == newIndex ==> unchanged(this) && unchanged(items)
      ensures oldIndex != newIndex ==>
        Contents() == MoveItem(old(Contents()), oldIndex, newIndex) &&
        version == NextVersion(old(version))
    {
      if oldIndex == newIndex {
        return;
      }
      var a, n := items, count;
      ghost var before := a[..];
      assert before[..n] == old(Contents());
      var value := a[oldIndex];
      if oldIndex < newIndex {
        CopyWithin(a, oldIndex + 1, oldIndex, newIndex - oldIndex);
        ghost var shifted := a[..];
        a[newIndex] := value;
        assert a[..] == shifted[newIndex := before[oldIndex]];
        MoveForwardShift(before, n, oldIndex, newIndex);
      } else {
        CopyWithin(a, newIndex, newIndex + 1, oldIndex - newIndex);
        ghost var shifted := a[..];
        a[newIndex] := value;
        assert a[..] == shifted[newIndex := before[oldIndex]];
        MoveBackwardShift(before, n, oldIndex, newIndex);
      }
      assert a[..n] == MoveItem(old(Contents()), oldIndex, newIndex);
      version := NextVersion(version);
    }

    /** Empties the list. The counter advances even when the list was already empty. */
    method Clear()
      requires Valid()
      modifies this, items
      ensures Valid() && items == old(items)
      ensures Contents() == [] && count == 0
      ensures version == NextVersion(old(version))
    {
      if count > 0 {
        count := 0;
      }
      version := NextVersion(version);
    }

    /** Makes room for one more element: when the backing array is full it is replaced by a
        fresh one of `GrownCapacity` slots holding the same elements; otherwise nothing
        happens. */
    method AddCapacityIfNeeded()
      requires Valid()
      modifies this
      ensures Valid() && count == old(count) && version == old(version)
      ensures count < items.Length
      ensures Contents() == old(Contents())
      ensures old(count) < old(items.Length) ==> items == old(items)
      ensures old(count) == old(items.Length) ==>
        fresh(items) && items.Length == GrownCapacity(old(items.Length))
    {
      if count == items.Length {
        if items.Length == 0 {
          items := new T[16];
        } else {
          var newItems := new T[items.Length * 2];
          CopyPrefix(items, newItems, items.Length);
          items := newItems;
        }
      }
    }
  }
}
