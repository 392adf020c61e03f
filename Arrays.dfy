/** The two uses of the runtime's block copy that QuickList relies on: a copy inside one array
    whose source and destination ranges may overlap (the shifts of Add, Remove and Move), and a
    copy of a prefix into another array (capacity growth). The runtime's copy behaves as if the
    source range were read completely before the destination is written; the loops below get
    the same effect by choosing the direction of the copy from the direction of the overlap. */
module Arrays {

  /** The contents of a block copy of `length` elements from `src` to `dst` within `s`:
      the destination range holds what the source range held, everything else is kept. */
  function Copied<T>(s: seq<T>, src: int, dst: int, length: int): (r: seq<T>)
    requires 0 <= src && 0 <= dst && 0 <= length
    requires src + length <= |s| && dst + length <= |s|
    ensures |r| == |s|
  {
    s[..dst] + s[src..src + length] + s[dst + length..]
  }

  /** Element by element: inside the destination range a block copy reads from the matching
      place of the source range; outside it nothing changes. */
  lemma CopiedAt<T>(s: seq<T>, src: int, dst: int, length: int, k: int)
    requires 0 <= src && 0 <= dst && 0 <= length
    requires src + length <= |s| && dst + length <= |s|
    requires 0 <= k < |s|
    ensures Copied(s, src, dst, length)[k] ==
      if dst <= k < dst + length then s[k - dst + src] else s[k]
  {
  }

  /** `length` elements starting at `src` are copied to start at `dst` in the same array `a`,
      with the effect of reading the whole source range before writing. */
  method CopyWithin<T>(a: array<T>, src: int, dst: int, length: int)
    requires 0 <= src && 0 <= dst && 0 <= length
    requires src + length <= a.Length && dst + length <= a.Length
    modifies a
    ensures a[..] == Copied(old(a[..]), src, dst, length)
  {
    ghost var before := a[..];
    if dst <= src {
      // Reading ahead of the writes: every element read is still the original.
      var i := 0;
      while i < length
        invariant 0 <= i <= length
        invariant forall k :: 0 <= k < dst ==> a[k] == before[k]
        invariant forall k :: dst <= k < dst + i ==> a[k] == before[k - dst + src]
        invariant forall k :: dst + i <= k < a.Length ==> a[k] == before[k]
      {
        a[dst + i] := a[src + i];
        i := i + 1;
      }
    } else {
      // The destination lies after the source: copy from the back.
      var i := length;
      while i > 0
        invariant 0 <= i <= length
        invariant forall k :: 0 <= k < dst + i ==> a[k] == before[k]
        invariant forall k :: dst + i <= k < dst + length ==> a[k] == before[k - dst + src]
        invariant forall k :: dst + length <= k < a.Length ==> a[k] == before[k]
      {
        a[dst + i - 1] := a[src + i - 1];
        i := i - 1;
      }
    }
    forall k | 0 <= k < a.Length ensures a[..][k] == Copied(before, src, dst, length)[k] {
      CopiedAt(before, src, dst, length, k);
    }
  }

  /** The first `length` elements of `src` are copied into the first `length` slots of the
      distinct array `dst`; the rest of `dst` is untouched. */
  method CopyPrefix<T>(src: array<T>, dst: array<T>, length: int)
    requires src != dst
    requires 0 <= length <= src.Length && length <= dst.Length
    modifies dst
    ensures dst[..length] == src[..length]
    ensures dst[length..] == old(dst[length..])
  {
    var i := 0;
    while i < length
      invariant 0 <= i <= length
      invariant dst[..i] == src[..i]
      invariant dst[length..] == old(dst[length..])
    {
      dst[i] := src[i];
      i := i + 1;
    }
  }
}
