/** The byte-wise radix sort of the type vectors. */
module RadixSort {
  import opened Arith

  // ----- What one pass computes -----

  /** The byte each element is moved by. */
  ghost predicate Keys(s: seq<int>, k: seq<int>) {
    |k| == |s| && forall i :: 0 <= i < |k| ==> 0 <= k[i] < 256
  }

  /** Those of the first n elements that have byte d, in order. */
  ghost function Pick(s: seq<int>, k: seq<int>, d: int, n: nat): (r: seq<int>)
    requires n <= |s| == |k|
  {
    if n == 0 then [] else Pick(s, k, d, n - 1) + if k[n - 1] == d then [s[n - 1]] else []
  }

  /** How many of the first n elements have bytes below d. */
  ghost function Below(s: seq<int>, k: seq<int>, d: nat, n: nat): nat
    requires n <= |s| == |k|
  {
    if d == 0 then 0 else Below(s, k, d - 1, n) + |Pick(s, k, d - 1, n)|
  }

  /** Where the elements with byte d go. */
  ghost function Base(s: seq<int>, k: seq<int>, d: nat): nat
    requires |s| == |k|
  {
    Below(s, k, d, |s|)
  }

  /** t has the elements of s by byte, and those of one byte in the order of s. */
  ghost predicate Bucketed(s: seq<int>, k: seq<int>, t: seq<int>) {
    && |k| == |s| == |t| == Base(s, k, 256)
    && forall d {:trigger IsBucket(s, k, t, d)} :: 0 <= d < 256 ==> IsBucket(s, k, t, d)
  }

  ghost predicate IsBucket(s: seq<int>, k: seq<int>, t: seq<int>, d: nat)
    requires |s| == |k|
  {
    Base(s, k, d) <= Base(s, k, d + 1) <= |t| && t[Base(s, k, d)..Base(s, k, d + 1)] == Pick(s, k, d, |s|)
  }

  lemma CountsAdd(a: seq<int>, b: seq<int>, x: int)
    ensures multiset(a + b)[x] == multiset(a)[x] + multiset(b)[x]
  {
  }

  lemma Split(t: seq<int>, lo: nat, hi: nat)
    requires lo <= hi <= |t|
    ensures t[..hi] == t[..lo] + t[lo..hi]
  {
  }

  lemma CountsOneMore(a: seq<int>, y: int, x: int)
    ensures multiset(a + [y])[x] == multiset(a)[x] + if y == x then 1 else 0
  {
  }

  lemma PickNext(s: seq<int>, k: seq<int>, d: int, n: nat, x: int)
    requires n < |s| == |k|
    ensures multiset(Pick(s, k, d, n + 1))[x] ==
      multiset(Pick(s, k, d, n))[x] + if k[n] == d && s[n] == x then 1 else 0
  {
    var r := Pick(s, k, d, n);
    if k[n] == d {
      CountsOneMore(r, s[n], x);
    } else {
      assert r + [] == r;
    }
  }

  /** How many of the first n elements are x. */
  ghost function Times(s: seq<int>, x: int, n: nat): nat
    requires n <= |s|
  {
    if n == 0 then 0 else Times(s, x, n - 1) + if s[n - 1] == x then 1 else 0
  }

  lemma {:induction false} TimesIs(s: seq<int>, x: int, n: nat)
    requires n <= |s|
    ensures multiset(s[..n])[x] == Times(s, x, n)
  {
    if n > 0 {
      TimesIs(s, x, n - 1);
      assert s[..n] == s[..n - 1] + [s[n - 1]];
      CountsOneMore(s[..n - 1], s[n - 1], x);
    }
  }

  lemma {:induction false} PickCounts(s: seq<int>, k: seq<int>, d: int, n: nat, x: int, kx: int)
    requires n <= |s| == |k| && forall i :: 0 <= i < |s| && s[i] == x ==> k[i] == kx
    ensures multiset(Pick(s, k, d, n))[x] == if kx == d then Times(s, x, n) else 0
  {
    if n > 0 {
      PickCounts(s, k, d, n - 1, x, kx);
      PickNext(s, k, d, n - 1, x);
    }
  }

  lemma {:induction false} BucketedCounts(s: seq<int>, k: seq<int>, t: seq<int>, d: nat, x: int, kx: nat)
    requires Bucketed(s, k, t) && d <= 256 && forall i :: 0 <= i < |s| && s[i] == x ==> k[i] == kx
    ensures Base(s, k, d) <= |t|
    ensures multiset(t[..Base(s, k, d)])[x] == if kx < d then Times(s, x, |s|) else 0
  {
    if d > 0 {
      var lo, hi := Base(s, k, d - 1), Base(s, k, d);
      BucketedCounts(s, k, t, d - 1, x, kx);
      assert IsBucket(s, k, t, d - 1);
      Split(t, lo, hi);
      CountsAdd(t[..lo], t[lo..hi], x);
      PickCounts(s, k, d - 1, |s|, x, kx);
    }
  }

  // ----- Why passes from the lowest byte up sort -----

  /** The byte of x above its remainder by p; p is 1, 2^8, 2^16 or 2^24. */
  function ByteAt(x: int, p: int): (d: int)
    requires p > 0
    ensures 0 <= d < 256
  {
    x / p % 256
  }

  ghost function BytesAt(s: seq<int>, p: int): (k: seq<int>)
    requires p > 0
    ensures Keys(s, k) && forall i :: 0 <= i < |s| ==> k[i] == ByteAt(s[i], p)
  {
    seq(|s|, i requires 0 <= i < |s| => ByteAt(s[i], p))
  }

  /** A pass loses and makes up nothing. */
  lemma BucketedIsPermutation(s: seq<int>, p: int, t: seq<int>)
    requires p > 0 && Bucketed(s, BytesAt(s, p), t)
    ensures multiset(t) == multiset(s)
  {
    var k := BytesAt(s, p);
    assert t[..|t|] == t && s[..|s|] == s;
    forall x ensures multiset(t)[x] == multiset(s)[x] {
      BucketedCounts(s, k, t, 256, x, ByteAt(x, p));
      TimesIs(s, x, |s|);
    }
  }

  ghost predicate SortedMod(s: seq<int>, m: int)
    requires m > 0
  {
    forall i, j :: 0 <= i < j < |s| ==> s[i] % m <= s[j] % m
  }

  lemma Regroup(a: int, d: int, p: int)
    ensures (a * 256 + d) * p == a * (256 * p) + d * p
  {
  }

  lemma ByteExtends(x: int, p: nat)
    requires p > 0
    ensures x % (256 * p) == ByteAt(x, p) * p + x % p
  {
    var q, r := x / p, x % p;
    var a, d := q / 256, q % 256;
    Regroup(a, d, p);
    Farther(d, 256, p);
    Farther(-1, d, p);
    Remainder(x, 256 * p, a, d * p + r);
  }

  lemma Orders(x: int, y: int, p: nat)
    requires p > 0
    requires ByteAt(x, p) < ByteAt(y, p) || (ByteAt(x, p) == ByteAt(y, p) && x % p <= y % p)
    ensures x % (256 * p) <= y % (256 * p)
  {
    ByteExtends(x, p);
    ByteExtends(y, p);
    if ByteAt(x, p) < ByteAt(y, p) {
      Farther(ByteAt(x, p), ByteAt(y, p), p);
    }
  }

  lemma {:induction false} PickIsSorted(s: seq<int>, k: seq<int>, d: int, n: nat, p: int)
    requires p > 0 && n <= |s| == |k| && SortedMod(s, p)
    ensures SortedMod(Pick(s, k, d, n), p)
    ensures forall x :: x in Pick(s, k, d, n) ==> exists j :: 0 <= j < n && s[j] == x && k[j] == d
  {
    if n > 0 {
      PickIsSorted(s, k, d, n - 1, p);
      var r := Pick(s, k, d, n - 1);
      forall i | 0 <= i < |r| ensures r[i] % p <= s[n - 1] % p {
        assert r[i] in r;
        var j :| 0 <= j < n - 1 && s[j] == r[i] && k[j] == d;
      }
    }
  }

  /** All elements up to d's bucket have a byte below d and are sorted with it. */
  lemma {:induction false} BucketsAreSorted(s: seq<int>, p: int, t: seq<int>, d: nat)
    requires p > 0 && Bucketed(s, BytesAt(s, p), t) && SortedMod(s, p) && d <= 256
    ensures Base(s, BytesAt(s, p), d) <= |t|
    ensures var a := t[..Base(s, BytesAt(s, p), d)];
      SortedMod(a, 256 * p) && forall i :: 0 <= i < |a| ==> ByteAt(a[i], p) < d
  {
    if d > 0 {
      var k := BytesAt(s, p);
      var lo, hi := Base(s, k, d - 1), Base(s, k, d);
      BucketsAreSorted(s, p, t, d - 1);
      assert IsBucket(s, k, t, d - 1);
      PickIsSorted(s, k, d - 1, |s|, p);
      var b := t[lo..hi];
      forall i | 0 <= i < |b| ensures ByteAt(b[i], p) == d - 1 {
        assert b[i] in b;
      }
      Stacks(t[..lo], b, p, d - 1);
      Split(t, lo, hi);
    }
  }

  lemma Stacks(a: seq<int>, b: seq<int>, p: int, d: int)
    requires p > 0 && SortedMod(a, 256 * p) && SortedMod(b, p)
    requires forall i :: 0 <= i < |a| ==> ByteAt(a[i], p) < d
    requires forall i :: 0 <= i < |b| ==> ByteAt(b[i], p) == d
    ensures SortedMod(a + b, 256 * p)
  {
    forall i, j | 0 <= i < j < |a + b| ensures (a + b)[i] % (256 * p) <= (a + b)[j] % (256 * p) {
      if |a| <= j {
        Orders((a + b)[i], (a + b)[j], p);
      }
    }
  }

  /** A pass keeps the order of equal bytes, so it extends sortedness by a byte. */
  lemma BucketedIsSorted(s: seq<int>, p: int, t: seq<int>)
    requires p > 0 && Bucketed(s, BytesAt(s, p), t) && SortedMod(s, p)
    ensures SortedMod(t, 256 * p)
  {
    BucketsAreSorted(s, p, t, 256);
    assert t[..|t|] == t;
  }

  // ----- One pass -----

  lemma {:induction false} BelowNext(s: seq<int>, k: seq<int>, d: nat, n: nat)
    requires n < |s| && Keys(s, k)
    ensures Below(s, k, d, n + 1) == Below(s, k, d, n) + if k[n] < d then 1 else 0
  {
    if d > 0 {
      BelowNext(s, k, d - 1, n);
    }
  }

  lemma {:induction false} NothingBelow(s: seq<int>, k: seq<int>, d: nat)
    requires |s| == |k|
    ensures Below(s, k, d, 0) == 0
  {
    if d > 0 {
      NothingBelow(s, k, d - 1);
    }
  }

  lemma {:induction false} AllBelow(s: seq<int>, k: seq<int>, n: nat)
    requires Keys(s, k) && n <= |s|
    ensures Below(s, k, 256, n) == n
  {
    if n == 0 {
      NothingBelow(s, k, 256);
    } else {
      AllBelow(s, k, n - 1);
      BelowNext(s, k, 256, n - 1);
    }
  }

  lemma {:induction false} BasesGrow(s: seq<int>, k: seq<int>, c: nat, d: nat)
    requires |s| == |k| && c <= d
    ensures Base(s, k, c) <= Base(s, k, d)
    decreases d
  {
    if c < d {
      BasesGrow(s, k, c, d - 1);
    }
  }

  lemma {:induction false} PicksGrow(s: seq<int>, k: seq<int>, d: int, i: nat, j: nat)
    requires i <= j <= |s| == |k|
    ensures |Pick(s, k, d, i)| <= |Pick(s, k, d, j)|
    decreases j
  {
    if i < j {
      PicksGrow(s, k, d, i, j - 1);
    }
  }

  lemma RoomFor(s: seq<int>, k: seq<int>, i: nat, b: nat)
    requires Keys(s, k) && i <= |s| && b < 256
    ensures Base(s, k, b) + |Pick(s, k, b, i)| <= Base(s, k, b + 1) <= |s|
  {
    PicksGrow(s, k, b, i, |s|);
    BasesGrow(s, k, b + 1, 256);
    AllBelow(s, k, |s|);
  }

  /** The first i elements have been moved to t, each after those of its byte before it; off
      is where the next element of each byte goes. */
  ghost predicate Scattered(t: seq<int>, off: seq<int>, s: seq<int>, k: seq<int>, i: nat)
    requires i <= |s|
  {
    && Keys(s, k) && |off| == 256 && |t| == |s|
    && forall b {:trigger Filling(t, off[b], s, k, i, b)} :: 0 <= b < 256 ==> Filling(t, off[b], s, k, i, b)
  }

  ghost predicate Filling(t: seq<int>, end: int, s: seq<int>, k: seq<int>, i: nat, b: nat)
    requires i <= |s| == |k|
  {
    end == Base(s, k, b) + |Pick(s, k, b, i)| <= |t| && t[Base(s, k, b)..end] == Pick(s, k, b, i)
  }

  lemma Appended(t: seq<int>, lo: int, hi: int, x: int)
    requires 0 <= lo <= hi < |t|
    ensures t[hi := x][lo..hi + 1] == t[lo..hi] + [x]
  {
  }

  lemma Untouched(t: seq<int>, lo: int, hi: int, at: int, x: int)
    requires 0 <= lo <= hi <= |t| && 0 <= at < |t| && (hi <= at || at < lo)
    ensures t[at := x][lo..hi] == t[lo..hi]
  {
  }

  lemma OwnBucket(t: seq<int>, end: int, s: seq<int>, k: seq<int>, i: nat)
    requires Keys(s, k) && i < |s| == |t| && Filling(t, end, s, k, i, k[i])
    ensures Base(s, k, k[i]) <= end < Base(s, k, k[i] + 1) <= |t|
    ensures Filling(t[end := s[i]], end + 1, s, k, i + 1, k[i])
  {
    RoomFor(s, k, i + 1, k[i]);
    Appended(t, Base(s, k, k[i]), end, s[i]);
  }

  lemma OtherBucket(t: seq<int>, end: int, at: int, s: seq<int>, k: seq<int>, i: nat, c: nat)
    requires Keys(s, k) && i < |s| == |t| && c != k[i] && c < 256 && Filling(t, end, s, k, i, c)
    requires Base(s, k, k[i]) <= at < Base(s, k, k[i] + 1) <= |t|
    ensures Filling(t[at := s[i]], end, s, k, i + 1, c)
  {
    RoomFor(s, k, i, c);
    if c < k[i] { BasesGrow(s, k, c + 1, k[i]); } else { BasesGrow(s, k, k[i] + 1, c); }
    Untouched(t, Base(s, k, c), end, at, s[i]);
  }

  lemma ScatterStep(t: seq<int>, off: seq<int>, s: seq<int>, k: seq<int>, i: nat, t': seq<int>, off': seq<int>)
    requires i < |s| && Scattered(t, off, s, k, i)
    requires 0 <= off[k[i]] < |t| && t' == t[off[k[i]] := s[i]] && off' == off[k[i] := off[k[i]] + 1]
    ensures Scattered(t', off', s, k, i + 1)
  {
    var b := k[i];
    assert Filling(t, off[b], s, k, i, b);
    OwnBucket(t, off[b], s, k, i);
    forall c {:trigger Filling(t', off'[c], s, k, i + 1, c)} | 0 <= c < 256
      ensures Filling(t', off'[c], s, k, i + 1, c)
    {
      assert Filling(t, off[c], s, k, i, c);
      if c != b {
        OtherBucket(t, off[c], off[b], s, k, i, c);
      }
    }
  }

  lemma ScatterStart(t: seq<int>, off: seq<int>, s: seq<int>, k: seq<int>)
    requires Keys(s, k) && |t| == |s| && |off| == 256
    requires forall b :: 0 <= b < 256 ==> off[b] == Base(s, k, b)
    ensures Scattered(t, off, s, k, 0)
  {
    forall b | 0 <= b < 256 ensures Filling(t, off[b], s, k, 0, b) {
      RoomFor(s, k, 0, b);
    }
  }

  lemma ScatterEnd(t: seq<int>, off: seq<int>, s: seq<int>, k: seq<int>)
    requires Scattered(t, off, s, k, |s|)
    ensures Bucketed(s, k, t)
  {
    AllBelow(s, k, |s|);
    forall d | 0 <= d < 256 ensures IsBucket(s, k, t, d) {
      assert Filling(t, off[d], s, k, |s|, d);
    }
  }

  method Count(src: array<int>, p: int, ghost k: seq<int>) returns (counts: array<int>)
    requires p > 0 && k == BytesAt(src[..], p)
    ensures fresh(counts) && counts.Length == 256
    ensures forall b :: 0 <= b < 256 ==> counts[b] == |Pick(src[..], k, b, src.Length)|
  {
    counts := new int[256](_ => 0);
    ghost var s := src[..];
    for i := 0 to src.Length
      invariant src[..] == s
      invariant forall b :: 0 <= b < 256 ==> counts[b] == |Pick(s, k, b, i)|
    {
      var d := ByteAt(src[i], p);
      counts[d] := counts[d] + 1;
    }
  }

  method PrefixSums(counts: array<int>, ghost s: seq<int>, ghost k: seq<int>) returns (offsets: array<int>)
    requires counts.Length == 256 && |s| == |k|
    requires forall b :: 0 <= b < 256 ==> counts[b] == |Pick(s, k, b, |s|)|
    ensures fresh(offsets) && offsets.Length == 256
    ensures forall b :: 0 <= b < 256 ==> offsets[b] == Base(s, k, b)
  {
    offsets := new int[256](_ => 0);
    for i := 1 to 256
      invariant forall b :: 0 <= b < i ==> offsets[b] == Base(s, k, b)
    {
      offsets[i] := offsets[i - 1] + counts[i - 1];
    }
  }

  /** Moves element i to the next place for its byte. */
  method Move(src: array<int>, dst: array<int>, offsets: array<int>, i: nat, p: int, ghost k: seq<int>)
    requires p > 0 && src != dst && src != offsets && dst != offsets && i < src.Length
    requires k == BytesAt(src[..], p) && Scattered(dst[..], offsets[..], src[..], k, i)
    modifies dst, offsets
    ensures Scattered(dst[..], offsets[..], src[..], k, i + 1)
  {
    ghost var s, t, off := src[..], dst[..], offsets[..];
    var val := src[i];
    var d := ByteAt(val, p);
    assert d == k[i];
    assert Filling(t, off[d], s, k, i, d);
    OwnBucket(t, off[d], s, k, i);
    dst[offsets[d]] := val;
    offsets[d] := offsets[d] + 1;
    ScatterStep(t, off, s, k, i, dst[..], offsets[..]);
  }

  /** Moves the elements to dst, by their byte above p. */
  method Pass(src: array<int>, dst: array<int>, p: int)
    requires p > 0 && src != dst && src.Length == dst.Length
    modifies dst
    ensures Bucketed(src[..], BytesAt(src[..], p), dst[..])
  {
    ghost var s, k := src[..], BytesAt(src[..], p);
    var counts := Count(src, p, k);
    var offsets := PrefixSums(counts, s, k);
    ScatterStart(dst[..], offsets[..], s, k);
    for i := 0 to src.Length
      invariant src[..] == s && Scattered(dst[..], offsets[..], s, k, i)
    {
      Move(src, dst, offsets, i, p, k);
    }
    ScatterEnd(dst[..], offsets[..], s, k);
  }

  // ----- Four passes -----

  ghost predicate Words(s: seq<int>) { forall i :: 0 <= i < |s| ==> 0 <= s[i] < 0x1_0000_0000 }

  ghost predicate Sorted(s: seq<int>) { forall i, j :: 0 <= i < j < |s| ==> s[i] <= s[j] }

  function Weight(shift: nat): (p: nat)
    ensures p > 0
  {
    if shift == 0 then 1 else 256 * Weight(shift - 1)
  }

  /** One pass extends sortedness by a byte. */
  method SortByte(src: array<int>, dst: array<int>, p: int)
    requires p > 0 && src != dst && src.Length == dst.Length && SortedMod(src[..], p)
    modifies dst
    ensures multiset(dst[..]) == multiset(src[..]) && SortedMod(dst[..], 256 * p)
  {
    Pass(src, dst, p);
    BucketedIsPermutation(src[..], p, dst[..]);
    BucketedIsSorted(src[..], p, dst[..]);
  }

  /** Sorts the values; after an even number of passes they are back where they were. */
  method Sort(values: array<int>)
    requires Words(values[..])
    modifies values
    ensures Sorted(values[..]) && multiset(values[..]) == multiset(old(values[..]))
  {
    var scratch := new int[values.Length];
    var src, dst := values, scratch;
    for shift := 0 to 4
      invariant if shift % 2 == 0 then src == values && dst == scratch else src == scratch && dst == values
      invariant multiset(src[..]) == multiset(old(values[..])) && SortedMod(src[..], Weight(shift))
    {
      SortByte(src, dst, Weight(shift));
      src, dst := dst, src;
    }
    SortedWords(old(values[..]), values[..]);
  }

  lemma SortedWords(s: seq<int>, t: seq<int>)
    requires Words(s) && multiset(t) == multiset(s) && SortedMod(t, Weight(4))
    ensures Sorted(t)
  {
    forall i | 0 <= i < |t| ensures t[i] in s {
      assert t[i] in multiset(t);
    }
    assert Weight(4) == 0x1_0000_0000;
  }
}
