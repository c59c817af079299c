/** The checksum as polynomial division: what remains of the message, times x^32 and with its first
    32 coefficients complemented, after division by the generator of section 8 of RFC 1952.
    Polynomials are lists of coefficients, the highest first; so are words and bytes, whose lowest
    bit is transmitted first. */
module CrcDivision {
  import opened Crc32

  /** x^32 + x^26 + x^23 + x^22 + x^16 + x^12 + x^11 + x^10 + x^8 + x^7 + x^5 + x^4 + x^2 + x + 1 */
  function Generator(): (g: seq<bool>)
    ensures |g| == 33
  {
    seq(33, i => 32 - i in {32, 26, 23, 22, 16, 12, 11, 10, 8, 7, 5, 4, 2, 1, 0})
  }

  lemma GeneratorIsPoly()
    ensures Generator() == [true] + POLY
  {
  }

  /** q times the generator. */
  function Times(q: seq<bool>): (r: seq<bool>)
    ensures |r| == |q| + 32
  {
    if q == [] then Zeros(32) else
      var n := |q| - 1;
      Xor(Times(q[..n]) + [false], Zeros(n) + if q[n] then Generator() else Zeros(33))
  }

  lemma TimesSnoc(q: seq<bool>, b: bool)
    ensures Times(q + [b]) == Xor(Times(q) + [false], Zeros(|q|) + if b then Generator() else Zeros(33))
  {
    var p := q + [b];
    assert p != [] && p[..|p| - 1] == q && p[|p| - 1] == b;
  }

  // ----- Shifting is division -----

  /** Multiplying by x and taking off the generator where it fits. */
  lemma ForwardDivides(x: seq<bool>)
    requires IsWord(x)
    ensures x + [false] == Xor(if x[0] then Generator() else Zeros(33), [false] + Forward(x))
  {
    GeneratorIsPoly();
  }

  /** x * x^n is q times the generator plus r. */
  ghost predicate Divides(dividend: seq<bool>, q: seq<bool>, r: seq<bool>) {
    |r| == 32 && |dividend| == |q| + 32 && dividend == Xor(Times(q), Zeros(|q|) + r)
  }

  lemma StepDivides(dividend: seq<bool>, q: seq<bool>, r: seq<bool>)
    requires Divides(dividend, q, r)
    ensures Divides(dividend + [false], q + [r[0]], Forward(r))
  {
    TimesSnoc(q, r[0]);
    ForwardDivides(r);
    var n := |q|;
    var g := if r[0] then Generator() else Zeros(33);
    var left, right := dividend + [false], Xor(Times(q + [r[0]]), Zeros(n + 1) + Forward(r));
    forall i | 0 <= i < |left| ensures left[i] == right[i] {
      if n <= i { assert (r + [false])[i - n] == (g[i - n] != ([false] + Forward(r))[i - n]); }
    }
  }

  lemma {:induction false} ShiftDivides(dividend: seq<bool>, q: seq<bool>, r: seq<bool>, n: nat) returns (p: seq<bool>)
    requires Divides(dividend, q, r)
    ensures |p| == |q| + n && Divides(dividend + Zeros(n), p, ForwardBy(r, n))
  {
    if n == 0 {
      p := q;
      assert dividend + Zeros(0) == dividend;
    } else {
      p := ShiftDivides(dividend, q, r, n - 1);
      StepDivides(dividend + Zeros(n - 1), p, ForwardBy(r, n - 1));
      p := p + [ForwardBy(r, n - 1)[0]];
      assert dividend + Zeros(n) == dividend + Zeros(n - 1) + [false];
    }
  }

  // ----- Messages -----

  function Bits(data: seq<seq<bool>>): (r: seq<bool>)
    requires AreBytes(data)
    ensures |r| == 8 * |data|
  {
    if data == [] then [] else Bits(data[..|data| - 1]) + data[|data| - 1]
  }

  /** The message times x^32, plus the initial value in front of it. */
  ghost function Dividend(x: seq<bool>, data: seq<seq<bool>>): (r: seq<bool>)
    requires IsWord(x) && AreBytes(data)
    ensures |r| == 8 * |data| + 32
  {
    Xor(Bits(data) + Zeros(32), x + Zeros(8 * |data|))
  }

  lemma AddByte(dividend: seq<bool>, q: seq<bool>, r: seq<bool>, b: seq<bool>)
    requires Divides(dividend, q, r) && |b| == 8
    ensures Divides(Xor(dividend, Zeros(|q|) + b + Zeros(24)), q, Xor(r, b + Zeros(24)))
  {
  }

  lemma NextDividend(x: seq<bool>, data: seq<seq<bool>>, b: seq<bool>)
    requires IsWord(x) && AreBytes(data) && |b| == 8
    ensures AreBytes(data + [b])
    ensures Dividend(x, data + [b])
         == Xor(Dividend(x, data), Zeros(8 * |data|) + b + Zeros(24)) + Zeros(8)
  {
    assert (data + [b])[..|data|] == data;
    assert Bits(data + [b]) == Bits(data) + b;
  }

  lemma {:induction false} TakeDivides(x: seq<bool>, data: seq<seq<bool>>) returns (q: seq<bool>)
    requires IsWord(x) && AreBytes(data)
    ensures |q| == 8 * |data| && Divides(Dividend(x, data), q, Take(x, data))
  {
    if data == [] {
      q := [];
    } else {
      var n := |data| - 1;
      var b := data[n];
      q := TakeDivides(x, data[..n]);
      var d, r := Dividend(x, data[..n]), Take(x, data[..n]);
      AddByte(d, q, r, b);
      q := ShiftDivides(Xor(d, Zeros(|q|) + b + Zeros(24)), q, Xor(r, b + Zeros(24)), 8);
      NextDividend(x, data[..n], b);
      assert data == data[..n] + [b];
    }
  }

  // ----- There is only one remainder -----

  lemma {:induction false} TimesXor(p: seq<bool>, q: seq<bool>)
    requires |p| == |q|
    ensures Times(Xor(p, q)) == Xor(Times(p), Times(q))
    decreases |p|
  {
    if p != [] {
      var n := |p| - 1;
      TimesXor(p[..n], q[..n]);
      assert Xor(p, q)[..n] == Xor(p[..n], q[..n]);
      XorOfSums(Times(p[..n]), Times(q[..n]), n, p[n], q[n]);
    }
  }

  ghost function Last(n: nat, b: bool): (r: seq<bool>)
    ensures |r| == n + 33
  {
    Zeros(n) + if b then Generator() else Zeros(33)
  }

  lemma XorOfSums(x: seq<bool>, y: seq<bool>, n: nat, b: bool, c: bool)
    requires |x| == |y| == n + 32
    ensures Xor(Xor(x, y) + [false], Last(n, b != c))
         == Xor(Xor(x + [false], Last(n, b)), Xor(y + [false], Last(n, c)))
  {
  }

  /** The highest coefficient of a product is that of the factor. */
  lemma {:induction false} LeadingOne(q: seq<bool>, i: nat)
    requires i < |q| && q[i] && forall j :: 0 <= j < i ==> !q[j]
    ensures Times(q)[i]
    decreases |q|
  {
    var n := |q| - 1;
    if i < n {
      LeadingOne(q[..n], i);
    } else {
      TimesZeros(q[..n]);
    }
  }

  lemma {:induction false} TimesZeros(q: seq<bool>)
    requires forall j :: 0 <= j < |q| ==> !q[j]
    ensures Times(q) == Zeros(|q| + 32)
    decreases |q|
  {
    if q != [] { TimesZeros(q[..|q| - 1]); }
  }

  lemma SomeLeadingOne(q: seq<bool>) returns (i: nat)
    requires exists j :: 0 <= j < |q| && q[j]
    ensures i < |q| && q[i] && forall j :: 0 <= j < i ==> !q[j]
  {
    i := 0;
    while i < |q| && !q[i]
      invariant i <= |q| && forall j :: 0 <= j < i ==> !q[j]
    {
      i := i + 1;
    }
  }

  /** A product without high coefficients is zero times the generator. */
  lemma NoProduct(u: seq<bool>)
    requires forall i :: 0 <= i < |u| ==> !Times(u)[i]
    ensures u == Zeros(|u|)
  {
    if j :| 0 <= j < |u| && u[j] {
      var i := SomeLeadingOne(u);
      LeadingOne(u, i);
    }
  }

  lemma RemainderIsUnique(dividend: seq<bool>, p: seq<bool>, r: seq<bool>, q: seq<bool>, s: seq<bool>)
    requires Divides(dividend, p, r) && Divides(dividend, q, s)
    ensures p == q && r == s
  {
    var u, n := Xor(p, q), |p|;
    TimesXor(p, q);
    assert Times(u) == Xor(Zeros(n) + r, Zeros(n) + s) by {
      forall i | 0 <= i < n + 32 ensures Times(u)[i] == ((Zeros(n) + r)[i] != (Zeros(n) + s)[i]) {
        assert dividend[i] == (Times(p)[i] != (Zeros(n) + r)[i]) == (Times(q)[i] != (Zeros(n) + s)[i]);
      }
    }
    NoProduct(u);
    forall i | 0 <= i < n ensures p[i] == q[i] { assert !u[i]; }
    assert p == q;
    forall i | 0 <= i < 32 ensures r[i] == s[i] {
      assert (Zeros(n) + r)[n + i] == r[i] && (Zeros(n) + s)[n + i] == s[i];
    }
  }

  /** Whatever the data, its checksum is the complement of that remainder. */
  lemma CrcIsRemainder(data: seq<seq<bool>>)
    requires AreBytes(data)
    ensures exists q :: Divides(Dividend(Not(Zeros(32)), data), q, Not(Crc(data)))
    ensures forall q, r :: Divides(Dividend(Not(Zeros(32)), data), q, r) ==> r == Not(Crc(data))
  {
    var q := TakeDivides(Not(Zeros(32)), data);
    StateOf(data);
    forall p, r | Divides(Dividend(Not(Zeros(32)), data), p, r) ensures r == Not(Crc(data)) {
      RemainderIsUnique(Dividend(Not(Zeros(32)), data), p, r, q, Not(Crc(data)));
    }
  }
}
