/** Sequence-level meaning of the edits a QuickList performs on its logical contents:
    insertion at an index, removal at an index, and moving one element to another index.
    The list's methods are proved against these functions; the lemmas below relate them. */
module ListEdits {

  /** The sequence `s` with `v` inserted so that it ends up at index `i`. */
  function Insert<T>(s: seq<T>, i: int, v: T): (r: seq<T>)
    requires 0 <= i <= |s|
    ensures |r| == |s| + 1
    ensures r[i] == v
  {
    s[..i] + [v] + s[i..]
  }

  /** Element by element, an insertion keeps the prefix before `i`, puts `v` at `i` and
      shifts the rest one place right. */
  lemma InsertAt<T>(s: seq<T>, i: int, v: T, k: int)
    requires 0 <= i <= |s| && 0 <= k <= |s|
    ensures Insert(s, i, v)[k] == if k < i then s[k] else if k == i then v else s[k - 1]
  {
    assert Insert(s, i, v) == s[..i] + [v] + s[i..];
  }

  /** The sequence `s` without its element at index `i`. */
  function RemoveAt<T>(s: seq<T>, i: int): (r: seq<T>)
    requires 0 <= i < |s|
    ensures |r| == |s| - 1
  {
    s[..i] + s[i + 1..]
  }

  /** Element by element, a removal keeps the prefix before `i` and shifts the rest one place
      left. */
  lemma RemoveAtAt<T>(s: seq<T>, i: int, k: int)
    requires 0 <= i < |s| && 0 <= k < |s| - 1
    ensures RemoveAt(s, i)[k] == if k < i then s[k] else s[k + 1]
  {
  }

  /** Moving the element at `from` to index `to`, defined as removing it and inserting
      the same value again. */
  function MoveItem<T>(s: seq<T>, from: int, to: int): (r: seq<T>)
    requires 0 <= from < |s| && 0 <= to < |s|
    ensures |r| == |s|
    ensures r[to] == s[from]
  {
    Insert(RemoveAt(s, from), to, s[from])
  }

  /** Removing what was just inserted gives back the original sequence. */
  lemma InsertThenRemove<T>(s: seq<T>, i: int, v: T)
    requires 0 <= i <= |s|
    ensures RemoveAt(Insert(s, i, v), i) == s
  {
    var r := RemoveAt(Insert(s, i, v), i);
    assert |r| == |s|;
    forall k | 0 <= k < |s| ensures r[k] == s[k] {
      if k >= i {
        assert r[k] == Insert(s, i, v)[k + 1];
      }
    }
  }

  /** Re-inserting a removed element at its old index gives back the original sequence. */
  lemma RemoveThenInsert<T>(s: seq<T>, i: int)
    requires 0 <= i < |s|
    ensures Insert(RemoveAt(s, i), i, s[i]) == s
  {
    var r := Insert(RemoveAt(s, i), i, s[i]);
    assert |r| == |s|;
    forall k | 0 <= k < |s| ensures r[k] == s[k] {
      if k > i {
        assert r[k] == RemoveAt(s, i)[k - 1];
      }
    }
  }

  /** A point update is a removal followed by an insertion at the same index. */
  lemma ReplaceIsRemoveThenInsert<T>(s: seq<T>, i: int, v: T)
    requires 0 <= i < |s|
    ensures s[i := v] == Insert(RemoveAt(s, i), i, v)
  {
    var r := Insert(RemoveAt(s, i), i, v);
    assert |r| == |s|;
    forall k | 0 <= k < |s| ensures r[k] == s[i := v][k] {
      if k > i {
        assert r[k] == RemoveAt(s, i)[k - 1];
      }
    }
  }

  /** Moving an element onto its own index changes nothing. */
  lemma MoveToSameIndex<T>(s: seq<T>, i: int)
    requires 0 <= i < |s|
    ensures MoveItem(s, i, i) == s
  {
    RemoveThenInsert(s, i);
  }

  /** Element by element, a move shifts the elements strictly between the two indices by one
      place towards `from`, puts the moved element at `to`, and leaves everything outside the
      range from `min(from, to)` to `max(from, to)` where it was. */
  lemma MoveItemAt<T>(s: seq<T>, from: int, to: int, k: int)
    requires 0 <= from < |s| && 0 <= to < |s| && 0 <= k < |s|
    ensures MoveItem(s, from, to)[k] ==
      if k == to then s[from]
      else if from < to && from <= k < to then s[k + 1]
      else if to < from && to < k <= from then s[k - 1]
      else s[k]
  {
    var removed := RemoveAt(s, from);
    var r := Insert(removed, to, s[from]);
    if k < to {
      assert r[k] == removed[k];
    } else if k > to {
      assert r[k] == removed[k - 1];
    }
  }

  /** The two in-place rotations the list performs, written as slices: for `from < to` the
      block `s[from+1..to+1]` slides one place left and the moved element follows it; for
      `to < from` the block `s[to..from]` slides one place right after the moved element. */
  lemma MoveIsRotation<T>(s: seq<T>, from: int, to: int)
    requires 0 <= from < |s| && 0 <= to < |s|
    ensures from < to ==>
      MoveItem(s, from, to) == s[..from] + s[from + 1..to + 1] + [s[from]] + s[to + 1..]
    ensures to < from ==>
      MoveItem(s, from, to) == s[..to] + [s[from]] + s[to..from] + s[from + 1..]
  {
    var r := MoveItem(s, from, to);
    if from < to {
      var t := s[..from] + s[from + 1..to + 1] + [s[from]] + s[to + 1..];
      assert |t| == |s|;
      forall k | 0 <= k < |s| ensures r[k] == t[k] {
        MoveItemAt(s, from, to, k);
      }
    } else if to < from {
      var t := s[..to] + [s[from]] + s[to..from] + s[from + 1..];
      assert |t| == |s|;
      forall k | 0 <= k < |s| ensures r[k] == t[k] {
        MoveItemAt(s, from, to, k);
      }
    }
  }

  /** Moving the element back to where it came from undoes a move. */
  lemma MoveBack<T>(s: seq<T>, from: int, to: int)
    requires 0 <= from < |s| && 0 <= to < |s|
    ensures MoveItem(MoveItem(s, from, to), to, from) == s
  {
    var m := MoveItem(s, from, to);
    var r := MoveItem(m, to, from);
    forall k | 0 <= k < |s| ensures r[k] == s[k] {
      MoveItemAt(m, to, from, k);
      if k != from {
        var j := if to < from && to <= k < from then k + 1
                 else if from < to && from < k <= to then k - 1
                 else k;
        MoveItemAt(s, from, to, j);
      }
    }
  }

  /** Inserting adds exactly one occurrence of the inserted value. */
  lemma InsertMultiset<T>(s: seq<T>, i: int, v: T)
    requires 0 <= i <= |s|
    ensures multiset(Insert(s, i, v)) == multiset(s) + multiset{v}
  {
    assert s == s[..i] + s[i..];
  }

  /** Removing takes away exactly one occurrence of the removed value. */
  lemma RemoveAtMultiset<T>(s: seq<T>, i: int)
    requires 0 <= i < |s|
    ensures multiset(RemoveAt(s, i)) + multiset{s[i]} == multiset(s)
  {
    assert s == s[..i] + [s[i]] + s[i + 1..];
  }

  /** A move is a permutation: it keeps every element and its number of occurrences. */
  lemma MovePermutes<T>(s: seq<T>, from: int, to: int)
    requires 0 <= from < |s| && 0 <= to < |s|
    ensures multiset(MoveItem(s, from, to)) == multiset(s)
  {
    RemoveAtMultiset(s, from);
    InsertMultiset(RemoveAt(s, from), to, s[from]);
  }
}
