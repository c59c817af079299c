/** Shrinking of code sections: which bytes go, where the others end up, and how the copy, the
    relocations and the symbols agree about it. */
module Shrink {
  import opened Bytes
  import Machine

  /** From `offset` on, everything has moved by `delta` bytes in all. */
  datatype Delta = Delta(offset: int, delta: int)

  /** get_removed_bytes() */
  function RemovedBytes(d: seq<Delta>, i: nat): int
    requires i < |d|
  {
    if i == 0 then d[i].delta else d[i].delta - d[i - 1].delta
  }

  function TotalDelta(d: seq<Delta>): int { if d == [] then 0 else d[|d| - 1].delta }

  /** Where range i starts; the end of the section if there is none. */
  function Boundary(d: seq<Delta>, i: nat, size: int): int { if i < |d| then d[i].offset else size }

  /** Where the piece after range i ends. */
  function PieceEnd(d: seq<Delta>, i: nat, size: int): int { Boundary(d, i + 1, size) }

  /** The removed ranges are nonempty, in order, apart, and inside the section. */
  ghost predicate Sound(d: seq<Delta>, size: int) {
    0 <= Boundary(d, 0, size) && forall i {:trigger SoundAt(d, i, size)} :: 0 <= i < |d| ==> SoundAt(d, i, size)
  }

  ghost predicate SoundAt(d: seq<Delta>, i: nat, size: int)
    requires i < |d|
  {
    RemovedBytes(d, i) > 0 && d[i].offset + RemovedBytes(d, i) <= PieceEnd(d, i, size)
  }

  // ----- Which bytes stay, counted one by one -----

  ghost predicate Inside(d: seq<Delta>, i: nat, p: int)
    requires i < |d|
  {
    d[i].offset <= p < d[i].offset + RemovedBytes(d, i)
  }

  ghost predicate Removed(d: seq<Delta>, p: int) { exists i: nat :: i < |d| && Inside(d, i, p) }

  /** The bytes that stay, of the first n. */
  ghost function Kept(c: Str, d: seq<Delta>, n: nat): Str
    requires n <= |c|
  {
    if n == 0 then [] else Kept(c, d, n - 1) + if Removed(d, n - 1) then [] else [c[n - 1]]
  }

  /** The number of bytes that go, of the first n. */
  ghost function Gone(d: seq<Delta>, n: nat): nat {
    if n == 0 then 0 else Gone(d, n - 1) + if Removed(d, n - 1) then 1 else 0
  }

  lemma {:induction false} KeptLength(c: Str, d: seq<Delta>, n: nat)
    requires n <= |c|
    ensures |Kept(c, d, n)| == n - Gone(d, n)
  {
    if n > 0 {
      KeptLength(c, d, n - 1);
    }
  }

  lemma {:induction false} KeptPrefix(c: Str, d: seq<Delta>, m: nat, n: nat)
    requires m <= n <= |c|
    ensures Kept(c, d, m) <= Kept(c, d, n)
    decreases n
  {
    if m < n {
      KeptPrefix(c, d, m, n - 1);
    }
  }

  /** A byte that stays moves back by the number of bytes that go before it. */
  lemma KeptAt(c: Str, d: seq<Delta>, p: nat)
    requires p < |c| && !Removed(d, p)
    ensures 0 <= p - Gone(d, p) < |Kept(c, d, |c|)| && Kept(c, d, |c|)[p - Gone(d, p)] == c[p]
  {
    KeptLength(c, d, p);
    KeptPrefix(c, d, p + 1, |c|);
    assert Kept(c, d, p + 1) == Kept(c, d, p) + [c[p]];
  }

  lemma {:induction false} KeptRun(c: Str, d: seq<Delta>, a: nat, b: nat)
    requires a <= b <= |c| && forall p :: a <= p < b ==> !Removed(d, p)
    ensures Kept(c, d, b) == Kept(c, d, a) + c[a..b] && Gone(d, b) == Gone(d, a)
    decreases b
  {
    if a < b {
      KeptRun(c, d, a, b - 1);
      assert c[a..b] == c[a..b - 1] + [c[b - 1]];
    }
  }

  lemma {:induction false} GoneRun(d: seq<Delta>, a: nat, b: nat)
    requires a <= b && forall p :: a <= p < b ==> Removed(d, p)
    ensures Gone(d, b) == Gone(d, a) + (b - a)
    decreases b
  {
    if a < b {
      GoneRun(d, a, b - 1);
    }
  }

  lemma {:induction false} StayRun(d: seq<Delta>, a: nat, b: nat)
    requires a <= b && forall p :: a <= p < b ==> !Removed(d, p)
    ensures Gone(d, b) == Gone(d, a)
    decreases b
  {
    if a < b {
      StayRun(d, a, b - 1);
    }
  }

  lemma {:induction false} KeptAcross(c: Str, d: seq<Delta>, a: nat, b: nat)
    requires a <= b <= |c| && forall p :: a <= p < b ==> Removed(d, p)
    ensures Kept(c, d, b) == Kept(c, d, a)
    decreases b
  {
    if a < b {
      KeptAcross(c, d, a, b - 1);
    }
  }

  // ----- The table of deltas says the same -----

  lemma {:induction false} InOrder(d: seq<Delta>, size: int, i: nat, j: nat)
    requires Sound(d, size) && i < j < |d|
    ensures d[i].offset < d[i].offset + RemovedBytes(d, i) <= d[j].offset
    decreases j
  {
    assert SoundAt(d, i, size) && SoundAt(d, j - 1, size);
    if i + 1 < j {
      InOrder(d, size, i, j - 1);
    }
  }

  lemma RangeAt(d: seq<Delta>, size: int, i: nat)
    requires Sound(d, size) && i < |d|
    ensures 0 <= d[i].offset < d[i].offset + RemovedBytes(d, i) <= PieceEnd(d, i, size) <= size
  {
    assert SoundAt(d, i, size) && SoundAt(d, |d| - 1, size);
    if i > 0 {
      InOrder(d, size, 0, i);
    }
    if i + 1 < |d| - 1 {
      InOrder(d, size, i + 1, |d| - 1);
    }
  }

  /** Between the ranges nothing is removed. */
  lemma PieceStays(d: seq<Delta>, size: int, i: nat, p: int)
    requires Sound(d, size) && i < |d| && d[i].offset + RemovedBytes(d, i) <= p < PieceEnd(d, i, size)
    ensures !Removed(d, p)
  {
    RangeAt(d, size, i);
    forall j: nat | j < |d| ensures !Inside(d, j, p) {
      if j < i {
        InOrder(d, size, j, i);
      } else if j > i + 1 {
        InOrder(d, size, i + 1, j);
      }
    }
  }

  lemma HeadStays(d: seq<Delta>, size: int, p: int)
    requires Sound(d, size) && d != [] && p < d[0].offset
    ensures !Removed(d, p)
  {
    forall j: nat | j < |d| ensures !Inside(d, j, p) {
      if j > 0 {
        InOrder(d, size, 0, j);
      }
    }
  }

  /** What precedes range i has moved by the delta before; what follows it, by its own. */
  lemma {:induction false} GoneBefore(d: seq<Delta>, size: int, i: nat)
    requires Sound(d, size) && i < |d|
    ensures 0 <= d[i].offset && Gone(d, d[i].offset) == d[i].delta - RemovedBytes(d, i)
  {
    RangeAt(d, size, i);
    if i == 0 {
      forall p | 0 <= p < d[0].offset ensures !Removed(d, p) {
        HeadStays(d, size, p);
      }
      StayRun(d, 0, d[0].offset);
    } else {
      GoneBefore(d, size, i - 1);
      RangeAt(d, size, i - 1);
      GoneAfter(d, size, i - 1, d[i].offset);
    }
  }

  lemma GoneAfter(d: seq<Delta>, size: int, i: nat, p: nat)
    requires Sound(d, size) && i < |d| && d[i].offset + RemovedBytes(d, i) <= p <= PieceEnd(d, i, size)
    requires 0 <= d[i].offset && Gone(d, d[i].offset) == d[i].delta - RemovedBytes(d, i)
    ensures Gone(d, p) == d[i].delta
  {
    RangeAt(d, size, i);
    var a, b := d[i].offset, d[i].offset + RemovedBytes(d, i);
    forall q | a <= q < b ensures Removed(d, q) {
      assert Inside(d, i, q);
    }
    GoneRun(d, a, b);
    forall q | b <= q < p ensures !Removed(d, q) {
      PieceStays(d, size, i, q);
    }
    StayRun(d, b, p);
  }

  lemma TotalGone(d: seq<Delta>, size: nat)
    requires Sound(d, size)
    ensures Gone(d, size) == TotalDelta(d)
  {
    if d == [] {
      StayRun(d, 0, size);
    } else {
      RangeAt(d, size, |d| - 1);
      GoneBefore(d, size, |d| - 1);
      GoneAfter(d, size, |d| - 1, size);
    }
  }

  // ----- Copying the section -----

  /** The bytes up to the end of piece i. */
  lemma KeptPiece(c: Str, d: seq<Delta>, i: nat)
    requires Sound(d, |c|) && i < |d|
    ensures 0 <= d[i].offset <= d[i].offset + RemovedBytes(d, i) <= PieceEnd(d, i, |c|) <= |c|
    ensures Kept(c, d, PieceEnd(d, i, |c|)) ==
      Kept(c, d, d[i].offset) + c[d[i].offset + RemovedBytes(d, i)..PieceEnd(d, i, |c|)]
    ensures |Kept(c, d, d[i].offset)| == d[i].offset + RemovedBytes(d, i) - d[i].delta
  {
    RangeAt(d, |c|, i);
    var a, b, e := d[i].offset, d[i].offset + RemovedBytes(d, i), PieceEnd(d, i, |c|);
    forall q | a <= q < b ensures Removed(d, q) {
      assert Inside(d, i, q);
    }
    KeptAcross(c, d, a, b);
    forall q | b <= q < e ensures !Removed(d, q) {
      PieceStays(d, |c|, i, q);
    }
    KeptRun(c, d, b, e);
    GoneBefore(d, |c|, i);
    KeptLength(c, d, a);
  }

  lemma KeptHead(c: Str, d: seq<Delta>)
    requires Sound(d, |c|) && d != []
    ensures 0 <= d[0].offset <= |c| && Kept(c, d, d[0].offset) == c[..d[0].offset]
  {
    RangeAt(d, |c|, 0);
    forall p | 0 <= p < d[0].offset ensures !Removed(d, p) {
      HeadStays(d, |c|, p);
    }
    KeptRun(c, d, 0, d[0].offset);
  }

  lemma KeptWhole(c: Str)
    ensures Kept(c, [], |c|) == c
  {
    KeptRun(c, [], 0, |c|);
  }

  lemma KeptFits(c: Str, d: seq<Delta>, n: nat)
    requires Sound(d, |c|) && n <= |c|
    ensures |Kept(c, d, n)| <= |Kept(c, d, |c|)| == |c| - TotalDelta(d)
  {
    KeptPrefix(c, d, n, |c|);
    KeptLength(c, d, |c|);
    TotalGone(d, |c|);
  }

  /** The output up to the i-th boundary is in place. */
  ghost predicate Written(c: Str, d: seq<Delta>, i: nat, out: Str) {
    var n := Boundary(d, i, |c|);
    0 <= n <= |c| && Kept(c, d, n) <= out
  }

  method WritePiece(c: Str, d: seq<Delta>, i: nat, buf: array<byte>)
    requires Sound(d, |c|) && buf.Length == |c| - TotalDelta(d) && i < |d| && Written(c, d, i, buf[..])
    modifies buf
    ensures Written(c, d, i + 1, buf[..])
  {
    var offset, delta, end := d[i].offset, d[i].delta, PieceEnd(d, i, |c|);
    var removed := RemovedBytes(d, i);
    KeptPiece(c, d, i);
    KeptFits(c, d, end);
    ghost var before, piece := Kept(c, d, offset), c[offset + removed..end];
    assert buf[..|before|] == before;
    Machine.Copy(buf, offset + removed - delta, c[offset + removed..end]);
    Joined(buf[..], before, piece);
  }

  lemma Joined(out: Str, a: Str, b: Str)
    requires |a| + |b| <= |out| && out[..|a|] == a && out[|a|..|a| + |b|] == b
    ensures a + b <= out
  {
  }

  /** Copies the section piece by piece. The pieces fill the output, which is shorter by the
      last delta, and leave no gap. */
  method WriteTo(c: Str, d: seq<Delta>, buf: array<byte>)
    requires Sound(d, |c|) && buf.Length == |c| - TotalDelta(d)
    modifies buf
    ensures buf[..] == Kept(c, d, |c|)
  {
    KeptFits(c, d, |c|);
    if d == [] {
      KeptWhole(c);
      Machine.Copy(buf, 0, c);
      return;
    }
    KeptHead(c, d);
    KeptFits(c, d, d[0].offset);
    Machine.Copy(buf, 0, c[..d[0].offset]);
    for i := 0 to |d|
      invariant Written(c, d, i, buf[..])
    {
      WritePiece(c, d, i, buf);
    }
  }

  // ----- Relocations and symbols -----

  /** The number of entries with offsets below p. */
  ghost function Ahead(d: seq<Delta>, p: int): (k: nat)
    ensures k <= |d| && (forall j :: 0 <= j < k ==> d[j].offset < p) && (k < |d| ==> d[k].offset >= p)
  {
    AheadFrom(d, p, 0)
  }

  ghost function AheadFrom(d: seq<Delta>, p: int, i: nat): (k: nat)
    requires i <= |d| && forall j :: 0 <= j < i ==> d[j].offset < p
    ensures i <= k <= |d| && (forall j :: 0 <= j < k ==> d[j].offset < p) && (k < |d| ==> d[k].offset >= p)
    decreases |d| - i
  {
    if i < |d| && d[i].offset < p then AheadFrom(d, p, i + 1) else i
  }

  ghost function DeltaAt(d: seq<Delta>, p: int): int {
    if Ahead(d, p) == 0 then 0 else d[Ahead(d, p) - 1].delta
  }

  /** p is inside a removed range but not at its start. */
  ghost predicate Split(d: seq<Delta>, p: int) { exists i: nat :: i < |d| && Inside(d, i, p) && d[i].offset != p }

  lemma DeltaAtHead(d: seq<Delta>, size: nat, p: nat)
    requires Sound(d, size) && p <= size && Ahead(d, p) == 0
    ensures Gone(d, p) == 0 && !Split(d, p)
  {
    forall q | 0 <= q < p ensures !Removed(d, q) {
      if d != [] {
        HeadStays(d, size, q);
      }
    }
    StayRun(d, 0, p);
    forall i: nat | i < |d| && Inside(d, i, p) ensures d[i].offset == p {
      if i > 0 {
        InOrder(d, size, 0, i);
      }
    }
  }

  lemma DeltaInPiece(d: seq<Delta>, size: nat, p: nat, k: nat)
    requires Sound(d, size) && p <= size && k + 1 == Ahead(d, p) && d[k].offset + RemovedBytes(d, k) <= p
    ensures Gone(d, p) == d[k].delta && !Split(d, p)
  {
    GoneBefore(d, size, k);
    GoneAfter(d, size, k, p);
    forall i: nat | i < |d| && Inside(d, i, p) ensures d[i].offset == p {
      if i < k {
        InOrder(d, size, i, k);
      } else if k + 1 < i {
        InOrder(d, size, k + 1, i);
      }
    }
  }

  lemma DeltaInRange(d: seq<Delta>, size: nat, p: nat, k: nat)
    requires Sound(d, size) && k < |d| && d[k].offset < p < d[k].offset + RemovedBytes(d, k)
    ensures Gone(d, p) < d[k].delta && Split(d, p)
  {
    assert Inside(d, k, p);
    GoneBefore(d, size, k);
    forall q | d[k].offset <= q < p ensures Removed(d, q) {
      assert Inside(d, k, q);
    }
    GoneRun(d, d[k].offset, p);
  }

  /** The delta looked up for a place is how far it moves, exactly if the place is not in the
      middle of what is removed. */
  lemma DeltaIsGone(d: seq<Delta>, size: nat, p: nat)
    requires Sound(d, size) && p <= size
    ensures DeltaAt(d, p) == Gone(d, p) <==> !Split(d, p)
  {
    var k := Ahead(d, p);
    if k == 0 {
      DeltaAtHead(d, size, p);
    } else if d[k - 1].offset + RemovedBytes(d, k - 1) <= p {
      DeltaInPiece(d, size, p, k - 1);
    } else {
      DeltaInRange(d, size, p, k - 1);
    }
  }

  /** In the middle of four removed bytes, the delta counts all of them and the place has lost two. */
  lemma DeltaRunsAhead()
    ensures var d := [Delta(0, 4)]; Sound(d, 8) && Split(d, 2) && DeltaAt(d, 2) == 4 && Gone(d, 2) == 2
  {
    var d := [Delta(0, 4)];
    assert SoundAt(d, 0, 8) && Inside(d, 0, 0) && Inside(d, 0, 1) && Inside(d, 0, 2);
  }

  /** get_r_delta(): binary search for the first entry that is not below p. */
  method GetDelta(d: seq<Delta>, size: int, p: int) returns (r: int)
    requires Sound(d, size)
    ensures r == DeltaAt(d, p)
  {
    var lo, hi := 0, |d|;
    while lo < hi
      invariant 0 <= lo <= Ahead(d, p) <= hi <= |d|
    {
      var mid := (lo + hi) / 2;
      Monotone(d, size, mid, Ahead(d, p));
      if p <= d[mid].offset {
        hi := mid;
      } else {
        lo := mid + 1;
      }
    }
    r := if lo == 0 then 0 else d[lo - 1].delta;
  }

  lemma Monotone(d: seq<Delta>, size: int, i: nat, j: nat)
    requires Sound(d, size) && i < |d| && j <= |d|
    ensures j < i ==> d[j].offset < d[i].offset
  {
    if j < i {
      InOrder(d, size, j, i);
    }
  }

  /** The displacement of each relocation and the bytes removed right there, found with one
      cursor that only moves forward. */
  method Displacements(d: seq<Delta>, size: int, rels: seq<int>) returns (deltas: seq<int>, removed: seq<int>)
    requires Sound(d, size) && forall i, j :: 0 <= i < j < |rels| ==> rels[i] <= rels[j]
    ensures |deltas| == |removed| == |rels|
    ensures forall i :: 0 <= i < |rels| ==> deltas[i] == DeltaAt(d, rels[i]) && removed[i] == RemovedAt(d, rels[i])
  {
    deltas, removed := [], [];
    var k := 0;
    for i := 0 to |rels|
      invariant |deltas| == |removed| == i && 0 <= k <= |d|
      invariant i < |rels| ==> k <= Ahead(d, rels[i])
      invariant forall j :: 0 <= j < i ==> deltas[j] == DeltaAt(d, rels[j]) && removed[j] == RemovedAt(d, rels[j])
    {
      while k < |d| && d[k].offset < rels[i]
        invariant 0 <= k <= Ahead(d, rels[i])
      {
        k := k + 1;
      }
      var removedBytes := if k < |d| && d[k].offset == rels[i] then RemovedBytes(d, k) else 0;
      var delta := if k > 0 then d[k - 1].delta else 0;
      deltas, removed := deltas + [delta], removed + [removedBytes];
      if i + 1 < |rels| {
        AheadGrows(d, rels[i], rels[i + 1]);
      }
    }
  }

  lemma AheadGrows(d: seq<Delta>, p: int, q: int)
    requires p <= q
    ensures Ahead(d, p) <= Ahead(d, q)
  {
  }

  /** The number of bytes removed from p on. */
  ghost function RemovedAt(d: seq<Delta>, p: int): int {
    var k := Ahead(d, p);
    if k < |d| && d[k].offset == p then RemovedBytes(d, k) else 0
  }

  /** It is how much further the places right after p move, all of the bytes from p on are removed,
      and it is not zero exactly if p is where a removed range begins. */
  lemma RemovedHere(d: seq<Delta>, size: nat, p: nat)
    requires Sound(d, size) && p <= size
    ensures var r := RemovedAt(d, p);
      && DeltaAt(d, p + 1) == DeltaAt(d, p) + r
      && 0 <= r && (forall q :: p <= q < p + r ==> Removed(d, q))
      && (r > 0 <==> exists i: nat :: i < |d| && d[i].offset == p)
  {
    var k := Ahead(d, p);
    if k < |d| && d[k].offset == p {
      assert SoundAt(d, k, size);
      AfterStart(d, size, p, k);
      forall q | p <= q < p + RemovedBytes(d, k) ensures Removed(d, q) { assert Inside(d, k, q); }
    } else {
      NoStart(d, size, p, k);
    }
  }

  lemma AfterStart(d: seq<Delta>, size: nat, p: nat, k: nat)
    requires Sound(d, size) && k == Ahead(d, p) < |d| && d[k].offset == p
    ensures Ahead(d, p + 1) == k + 1
  {
    if k + 1 < |d| { InOrder(d, size, k, k + 1); }
  }

  lemma NoStart(d: seq<Delta>, size: nat, p: nat, k: nat)
    requires Sound(d, size) && k == Ahead(d, p) && (k < |d| ==> d[k].offset > p)
    ensures Ahead(d, p + 1) == k && forall i: nat :: i < |d| ==> d[i].offset != p
  {
    forall i: nat | i < |d| ensures d[i].offset != p {
      if i > k { InOrder(d, size, k, i); }
    }
  }

  /** A symbol or relocation at a byte that stays points to that byte in the output. */
  lemma PointsToSameByte(c: Str, d: seq<Delta>, p: nat)
    requires Sound(d, |c|) && p < |c| && !Removed(d, p)
    ensures 0 <= p - DeltaAt(d, p) < |Kept(c, d, |c|)| && Kept(c, d, |c|)[p - DeltaAt(d, p)] == c[p]
  {
    DeltaIsGone(d, |c|, p);
    KeptAt(c, d, p);
  }
}
