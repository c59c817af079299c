/** Byte strings, and the comparisons the C++ library makes on them. */
module Bytes {
  type byte = x: int | 0 <= x < 256

  type Str = seq<byte>

  predicate IsSuffix(w: Str, s: Str) {
    |w| <= |s| && s[|s| - |w|..] == w
  }

  predicate OccursAt(w: Str, s: Str, i: int) {
    0 <= i && i + |w| <= |s| && s[i..i + |w|] == w
  }

  ghost predicate Contains(s: Str, w: Str) {
    exists i :: OccursAt(w, s, i)
  }

  /** Whether `r` is the largest of `vals`, or -1 when `vals` is empty. */
  ghost predicate IsBest(r: int, vals: iset<int>) {
    && (r == -1 || r in vals)
    && forall v :: v in vals ==> v <= r
  }

  /** memcmp order: lexicographic on unsigned bytes, a proper prefix first. */
  predicate Less(a: Str, b: Str) {
    if b == [] then false
    else if a == [] then true
    else a[0] < b[0] || (a[0] == b[0] && Less(a[1..], b[1..]))
  }

  /** At the first place where they differ, a has the smaller byte or ends. */
  ghost predicate DiffersAt(a: Str, b: Str, i: int) {
    0 <= i <= |a| && i < |b| && a[..i] == b[..i] && (i == |a| || a[i] < b[i])
  }

  lemma {:induction false} LessMeaning(a: Str, b: Str)
    ensures Less(a, b) <==> exists i :: DiffersAt(a, b, i)
  {
    if b != [] && (a == [] || a[0] != b[0]) {
      assert DiffersAt(a, b, 0) || a[0] > b[0];
      if i :| DiffersAt(a, b, i) {
        if i > 0 { assert a[..i][0] == b[..i][0]; }
      }
    } else if b != [] {
      LessMeaning(a[1..], b[1..]);
      if i :| DiffersAt(a, b, i) { DropFirst(a, b, i); }
      if i :| DiffersAt(a[1..], b[1..], i) {
        DropFirst(a, b, i + 1);
      }
    }
  }

  lemma DropFirst(a: Str, b: Str, i: int)
    requires a != [] && b != [] && a[0] == b[0]
    ensures DiffersAt(a, b, i) <==> DiffersAt(a[1..], b[1..], i - 1)
  {
    if 0 < i <= |a| && i <= |b| {
      assert a[..i] == [a[0]] + a[1..][..i - 1] && b[..i] == [b[0]] + b[1..][..i - 1];
    }
  }

  lemma {:induction false} LessIsTotal(a: Str, b: Str)
    ensures Less(a, b) || a == b || Less(b, a)
    ensures !(Less(a, b) && Less(b, a))
    ensures Less(a, b) ==> a != b
  {
    if a != [] && b != [] {
      LessIsTotal(a[1..], b[1..]);
      assert a == [a[0]] + a[1..] && b == [b[0]] + b[1..];
    }
  }

  lemma {:induction false} LessIsTransitive(a: Str, b: Str, c: Str)
    requires Less(a, b) && Less(b, c)
    ensures Less(a, c)
  {
    if a != [] && a[0] == b[0] == c[0] {
      LessIsTransitive(a[1..], b[1..], c[1..]);
    }
  }
}
