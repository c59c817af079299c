/** Unsigned 64-bit words, kept as their 64 bits, lowest bit first. */
module Words {
  type Bits = seq<bool>

  type Word = w: Bits | |w| == 64 witness seq(64, _ => false)

  const ZERO: Word := seq(64, _ => false)

  /** The number a bit sequence stands for. */
  function Value(w: Bits): nat {
    if w == [] then 0 else (if w[0] then 1 else 0) + 2 * Value(w[1..])
  }

  function Pow2(n: nat): (p: nat)
    ensures p > 0
  {
    if n == 0 then 1 else 2 * Pow2(n - 1)
  }

  function Or(a: Word, b: Word): Word { seq(64, i requires 0 <= i < 64 => a[i] || b[i]) }

  function And(a: Word, b: Word): Word { seq(64, i requires 0 <= i < 64 => a[i] && b[i]) }

  /** 1 << i */
  function One(i: nat): Word
    requires i < 64
  {
    seq(64, j => j == i)
  }

  /** (w << 1) | carry */
  function ShiftIn(w: Word, carry: bool): Word { [carry] + w[..63] }

  /** w >> 63 */
  function TopBit(w: Word): bool { w[63] }

  /** w - 1, borrowing through the low zeros; all ones from zero. */
  function Decrement(w: Bits): (r: Bits)
    ensures |r| == |w|
  {
    if w == [] then [] else if w[0] then [false] + w[1..] else [true] + Decrement(w[1..])
  }

  lemma {:induction false} ValueSnoc(w: Bits, b: bool)
    ensures Value(w + [b]) == Value(w) + (if b then Pow2(|w|) else 0)
  {
    if w == [] {
      assert ([b])[1..] == [];
    } else {
      ValueSnoc(w[1..], b);
      assert (w + [b])[1..] == w[1..] + [b];
    }
  }

  /** The bit operations are the arithmetic they stand for: 2w + carry is the shifted word
      plus 2^64 times the bit carried out. */
  lemma ShiftInValue(w: Word, carry: bool)
    ensures 2 * Value(w) + (if carry then 1 else 0)
         == Value(ShiftIn(w, carry)) + (if TopBit(w) then Pow2(64) else 0)
  {
    assert ShiftIn(w, carry)[1..] == w[..63];
    assert w == w[..63] + [w[63]];
    ValueSnoc(w[..63], w[63]);
    assert Pow2(64) == 2 * Pow2(63);
  }

  lemma {:induction false} DecrementValue(w: Bits)
    ensures Value(w) > 0 ==> Value(Decrement(w)) == Value(w) - 1
    ensures Value(w) == 0 ==> Value(Decrement(w)) == Pow2(|w|) - 1
  {
    if w != [] {
      DecrementValue(w[1..]);
      assert Decrement(w)[1..] == if w[0] then w[1..] else Decrement(w[1..]);
    }
  }

  /** w & (w - 1) clears the lowest set bit and no other. */
  lemma {:induction false} DecrementAt(w: Bits, low: nat, i: nat)
    requires low < |w| && i < |w| && w[low]
    requires forall j :: 0 <= j < low ==> !w[j]
    ensures w[i] && Decrement(w)[i] <==> w[i] && i != low
  {
    if low > 0 && i > 0 {
      DecrementAt(w[1..], low - 1, i - 1);
    }
  }

  /** std::countr_zero of a non-zero word. */
  method CountrZero(w: Word) returns (n: nat)
    requires w != ZERO
    ensures n < 64 && w[n] && forall j :: 0 <= j < n ==> !w[j]
  {
    n := 0;
    while n < 64 && !w[n]
      invariant n <= 64 && forall j :: 0 <= j < n ==> !w[j]
    {
      n := n + 1;
    }
    assert n == 64 ==> w == ZERO;
  }
}
