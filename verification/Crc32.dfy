/** CRC-32 as in section 8 of RFC 1952, and the four bytes that forge it. Words and bytes are
    lists of bits, the lowest first. */
module Crc32 {

  /** 0xedb88320 */
  const POLY: seq<bool> := [
    false, false, false, false, false, true, false, false,
    true, true, false, false, false, false, false, true,
    false, false, false, true, true, true, false, true,
    true, false, true, true, false, true, true, true]

  ghost predicate IsWord(x: seq<bool>) { |x| == 32 }

  ghost predicate AreBytes(data: seq<seq<bool>>) { forall i :: 0 <= i < |data| ==> |data[i]| == 8 }

  function Zeros(n: nat): (r: seq<bool>)
    ensures |r| == n && forall i :: 0 <= i < n ==> !r[i]
  {
    seq(n, _ => false)
  }

  function Xor(x: seq<bool>, y: seq<bool>): (r: seq<bool>)
    requires |x| == |y|
    ensures |r| == |x| && forall i :: 0 <= i < |r| ==> r[i] == (x[i] != y[i])
  {
    seq(|x|, i requires 0 <= i < |x| => x[i] != y[i])
  }

  function Not(x: seq<bool>): (r: seq<bool>)
    ensures |r| == |x| && forall i :: 0 <= i < |r| ==> r[i] == !x[i]
  {
    seq(|x|, i requires 0 <= i < |x| => !x[i])
  }

  lemma XorLaws(x: seq<bool>, y: seq<bool>, z: seq<bool>)
    requires |x| == |y| == |z|
    ensures Xor(Xor(x, y), z) == Xor(x, Xor(y, z)) && Xor(x, Xor(x, y)) == y && Xor(x, y) == Xor(y, x)
    ensures Xor(x, Zeros(|x|)) == x && Not(Not(x)) == x
  {
  }

  // ----- The checksum -----

  /** Takes in one bit: shifts right, and adds the polynomial if a one came out. */
  function Forward(x: seq<bool>): (r: seq<bool>)
    requires IsWord(x)
    ensures IsWord(r) && forall i :: 0 <= i < 32 ==> r[i] == ((i < 31 && x[i + 1]) != (x[0] && POLY[i]))
  {
    seq(32, i requires 0 <= i < 32 => (i < 31 && x[i + 1]) != (x[0] && POLY[i]))
  }

  function ForwardBy(x: seq<bool>, n: nat): (r: seq<bool>)
    requires IsWord(x)
    ensures IsWord(r)
  {
    if n == 0 then x else Forward(ForwardBy(x, n - 1))
  }

  function TakeByte(x: seq<bool>, b: seq<bool>): (r: seq<bool>)
    requires IsWord(x) && |b| == 8
    ensures IsWord(r)
  {
    ForwardBy(Xor(x, b + Zeros(24)), 8)
  }

  function Take(x: seq<bool>, data: seq<seq<bool>>): (r: seq<bool>)
    requires IsWord(x) && AreBytes(data)
    ensures IsWord(r)
  {
    if data == [] then x else TakeByte(Take(x, data[..|data| - 1]), data[|data| - 1])
  }

  function Crc(data: seq<seq<bool>>): (r: seq<bool>)
    requires AreBytes(data)
    ensures IsWord(r)
  {
    Not(Take(Not(Zeros(32)), data))
  }

  // ----- Four bytes at once -----

  lemma ForwardIsLinear(x: seq<bool>, y: seq<bool>)
    requires IsWord(x) && IsWord(y)
    ensures Forward(Xor(x, y)) == Xor(Forward(x), Forward(y))
  {
  }

  lemma {:induction false} ForwardByIsLinear(x: seq<bool>, y: seq<bool>, n: nat)
    requires IsWord(x) && IsWord(y)
    ensures ForwardBy(Xor(x, y), n) == Xor(ForwardBy(x, n), ForwardBy(y, n))
  {
    if n > 0 {
      ForwardByIsLinear(x, y, n - 1);
      ForwardIsLinear(ForwardBy(x, n - 1), ForwardBy(y, n - 1));
    }
  }

  /** Zeros that come out add nothing. */
  lemma {:induction false} ForwardByShifts(high: seq<bool>, n: nat, m: nat)
    requires n <= m && m + |high| == 32
    ensures ForwardBy(Zeros(m) + high, n) == Zeros(m - n) + high + Zeros(n)
  {
    if n > 0 {
      ForwardByShifts(high, n - 1, m);
      var x := Zeros(m - n + 1) + high + Zeros(n - 1);
      assert !x[0];
      assert Forward(x) == x[1..] + [false];
      assert x[1..] + [false] == Zeros(m - n) + high + Zeros(n);
    } else {
      assert Zeros(m) + high + Zeros(0) == Zeros(m) + high;
    }
  }

  lemma {:induction false} ForwardByAdds(x: seq<bool>, m: nat, n: nat)
    requires IsWord(x)
    ensures ForwardBy(ForwardBy(x, m), n) == ForwardBy(x, m + n)
  {
    if n > 0 {
      ForwardByAdds(x, m, n - 1);
    }
  }

  /** Eight steps take in the lowest byte of a word and leave the rest of it for later. */
  lemma EightSteps(x: seq<bool>, w: seq<bool>)
    requires IsWord(x) && IsWord(w)
    ensures ForwardBy(Xor(x, w), 8) == Xor(TakeByte(x, w[..8]), w[8..] + Zeros(8))
  {
    var low, high := w[..8] + Zeros(24), Zeros(8) + w[8..];
    assert w == Xor(low, high);
    XorLaws(x, low, high);
    ForwardByIsLinear(Xor(x, low), high, 8);
    ForwardByShifts(w[8..], 8, 8);
    assert Zeros(0) + w[8..] + Zeros(8) == w[8..] + Zeros(8);
  }

  function Shifted(w: seq<bool>): (r: seq<bool>)
    requires IsWord(w)
    ensures IsWord(r)
  {
    w[8..] + Zeros(8)
  }

  lemma ByteThenRest(x: seq<bool>, w: seq<bool>, n: nat)
    requires IsWord(x) && IsWord(w) && n >= 8
    ensures ForwardBy(Xor(x, w), n) == ForwardBy(Xor(TakeByte(x, w[..8]), Shifted(w)), n - 8)
  {
    EightSteps(x, w);
    ForwardByAdds(Xor(x, w), 8, n - 8);
  }

  /** The four bytes of a word. */
  function Bytes(w: seq<bool>): (r: seq<seq<bool>>)
    requires IsWord(w)
    ensures |r| == 4 && AreBytes(r)
  {
    [w[..8]] + [w[8..16]] + [w[16..24]] + [w[24..]]
  }

  lemma TakeSnoc(x: seq<bool>, data: seq<seq<bool>>, b: seq<bool>)
    requires IsWord(x) && AreBytes(data) && |b| == 8
    ensures AreBytes(data + [b]) && Take(x, data + [b]) == TakeByte(Take(x, data), b)
  {
    assert (data + [b])[..|data|] == data;
  }

  lemma {:induction false} TakeAdds(x: seq<bool>, a: seq<seq<bool>>, b: seq<seq<bool>>)
    requires IsWord(x) && AreBytes(a) && AreBytes(b)
    ensures AreBytes(a + b) && Take(x, a + b) == Take(Take(x, a), b)
    decreases |b|
  {
    if b == [] {
      assert a + b == a;
    } else {
      var rest, last := b[..|b| - 1], b[|b| - 1];
      TakeAdds(x, a, rest);
      assert a + b == a + rest + [last];
      TakeSnoc(x, a + rest, last);
    }
  }

  lemma TakeFour(x: seq<bool>, a: seq<bool>, b: seq<bool>, c: seq<bool>, d: seq<bool>)
    requires IsWord(x) && |a| == |b| == |c| == |d| == 8
    ensures Take(x, [a] + [b] + [c] + [d]) == TakeByte(TakeByte(TakeByte(TakeByte(x, a), b), c), d)
  {
    TakeSnoc(x, [], a);
    assert [] + [a] == [a];
    TakeSnoc(x, [a], b);
    TakeSnoc(x, [a] + [b], c);
    TakeSnoc(x, [a] + [b] + [c], d);
  }

  lemma ShiftedBytes(w: seq<bool>)
    requires IsWord(w)
    ensures Shifted(w)[..8] == w[8..16] && Shifted(Shifted(w))[..8] == w[16..24]
    ensures Shifted(Shifted(Shifted(w)))[..8] == w[24..] && Shifted(Shifted(Shifted(Shifted(w)))) == Zeros(32)
  {
  }

  /** Byte by byte is the same as a whole word at once. */
  lemma WordAtOnce(x: seq<bool>, w: seq<bool>)
    requires IsWord(x) && IsWord(w)
    ensures Take(x, Bytes(w)) == ForwardBy(Xor(x, w), 32)
  {
    var w1 := Shifted(w);
    var w2 := Shifted(w1);
    var w3 := Shifted(w2);
    var x1 := TakeByte(x, w[..8]);
    var x2 := TakeByte(x1, w1[..8]);
    var x3 := TakeByte(x2, w2[..8]);
    ShiftedBytes(w);
    ByteThenRest(x, w, 32);
    ByteThenRest(x1, w1, 24);
    ByteThenRest(x2, w2, 16);
    ByteThenRest(x3, w3, 8);
    XorLaws(TakeByte(x3, w3[..8]), w, w);
    TakeFour(x, w[..8], w[8..16], w[16..24], w[24..]);
  }

  // ----- Forging -----

  /** std::rotl(x, 1) */
  function RotateLeft(x: seq<bool>): (r: seq<bool>)
    requires IsWord(x)
    ensures IsWord(r)
  {
    [x[31]] + x[..31]
  }

  /** One round of crc32_solve(). */
  function Back(x: seq<bool>): (r: seq<bool>)
    requires IsWord(x)
    ensures IsWord(r) && r[0] == x[31]
    ensures forall i :: 0 <= i < 31 ==> r[i + 1] == (x[i] != (x[31] && POLY[i]))
  {
    var r := RotateLeft(x);
    if r[0] then Xor(r, [false] + POLY[..31]) else r
  }

  function BackBy(x: seq<bool>, n: nat): (r: seq<bool>)
    requires IsWord(x)
    ensures IsWord(r)
  {
    if n == 0 then x else Back(BackBy(x, n - 1))
  }

  lemma ForwardBack(x: seq<bool>)
    requires IsWord(x)
    ensures Forward(Back(x)) == x
  {
    var y := Back(x);
    var z := Forward(y);
    forall i | 0 <= i < 32 ensures z[i] == x[i] {
      if i < 31 {
        assert y[i + 1] == (x[i] != (x[31] && POLY[i]));
      } else {
        assert POLY[31];
      }
    }
  }

  lemma BackForward(x: seq<bool>)
    requires IsWord(x)
    ensures Back(Forward(x)) == x
  {
    var y := Forward(x);
    var z := Back(y);
    assert POLY[31] && y[31] == x[0];
    forall i | 0 <= i < 32 ensures z[i] == x[i] {
      if i > 0 {
        assert z[i - 1 + 1] == (y[i - 1] != (y[31] && POLY[i - 1]));
      }
    }
  }

  lemma {:induction false} BackByNext(x: seq<bool>, y: seq<bool>, n: nat)
    requires IsWord(x) && y == Back(x)
    ensures BackBy(y, n) == BackBy(x, n + 1)
  {
    if n > 0 {
      BackByNext(x, y, n - 1);
    }
  }

  lemma UndoOne(x: seq<bool>, y: seq<bool>, z: seq<bool>, n: nat)
    requires IsWord(x) && IsWord(z) && y == Back(x) && ForwardBy(z, n) == y
    ensures ForwardBy(z, n + 1) == x
  {
    ForwardBack(x);
  }

  lemma {:induction false} ForwardBackBy(x: seq<bool>, n: nat)
    requires IsWord(x)
    ensures ForwardBy(BackBy(x, n), n) == x
    decreases n
  {
    if n > 0 {
      var y := Back(x);
      BackByNext(x, y, n - 1);
      ForwardBackBy(y, n - 1);
      UndoOne(x, y, BackBy(y, n - 1), n - 1);
    }
  }

  lemma {:induction false} ForwardByInjective(x: seq<bool>, y: seq<bool>, n: nat)
    requires IsWord(x) && IsWord(y) && ForwardBy(x, n) == ForwardBy(y, n)
    ensures x == y
    decreases n
  {
    if n > 0 {
      BackForward(ForwardBy(x, n - 1));
      BackForward(ForwardBy(y, n - 1));
      ForwardByInjective(x, y, n - 1);
    }
  }

  ghost function Solution(current: seq<bool>, desired: seq<bool>): (w: seq<bool>)
    requires IsWord(current) && IsWord(desired)
    ensures IsWord(w)
  {
    Xor(BackBy(Not(desired), 32), Not(current))
  }

  /** crc32_solve() */
  method Solve(current: seq<bool>, desired: seq<bool>) returns (out: seq<seq<bool>>)
    requires IsWord(current) && IsWord(desired)
    ensures out == Bytes(Solution(current, desired))
    ensures forall data :: AreBytes(data) && Crc(data) == current ==>
      AreBytes(data + out) && Crc(data + out) == desired
  {
    var x := Not(desired);
    for i := 0 to 32
      invariant IsWord(x) && x == BackBy(Not(desired), i)
    {
      x := RotateLeft(x);
      if x[0] {
        x := Xor(x, [false] + POLY[..31]);
      }
    }
    x := Xor(x, Not(current));
    out := Bytes(x);
    forall data | AreBytes(data) && Crc(data) == current ensures AreBytes(data + out) && Crc(data + out) == desired {
      Forges(data, desired, x);
    }
  }

  lemma {:induction false} StateOf(data: seq<seq<bool>>)
    requires AreBytes(data)
    ensures Take(Not(Zeros(32)), data) == Not(Crc(data))
  {
    XorLaws(Take(Not(Zeros(32)), data), Zeros(32), Zeros(32));
  }

  lemma CrcOfMore(data: seq<seq<bool>>, w: seq<bool>)
    requires AreBytes(data) && IsWord(w)
    ensures AreBytes(data + Bytes(w)) && Crc(data + Bytes(w)) == Not(ForwardBy(Xor(Not(Crc(data)), w), 32))
  {
    TakeAdds(Not(Zeros(32)), data, Bytes(w));
    StateOf(data);
    WordAtOnce(Not(Crc(data)), w);
  }

  /** Whatever the data and the checksum wanted, the four bytes make the checksum the one
      wanted, and no other four bytes do. */
  lemma Forges(data: seq<seq<bool>>, desired: seq<bool>, w: seq<bool>)
    requires AreBytes(data) && IsWord(desired) && IsWord(w)
    ensures AreBytes(data + Bytes(w))
    ensures Crc(data + Bytes(w)) == desired <==> w == Solution(Crc(data), desired)
  {
    var x, y := Not(Crc(data)), BackBy(Not(desired), 32);
    CrcOfMore(data, w);
    ForwardBackBy(Not(desired), 32);
    XorLaws(desired, desired, desired);
    XorLaws(ForwardBy(Xor(x, w), 32), x, x);
    if Crc(data + Bytes(w)) == desired {
      ForwardByInjective(Xor(x, w), y, 32);
    }
    Solved(x, y, w);
  }

  lemma Solved(x: seq<bool>, y: seq<bool>, w: seq<bool>)
    requires |x| == |y| == |w|
    ensures Xor(x, w) == y <==> w == Xor(y, x)
  {
    XorLaws(x, w, w);
    XorLaws(x, y, y);
  }
}
