/** The lookup that the .gdb_index format prescribes to its readers, on 32-bit words. */
module GdbReader {
  import opened Arith
  import opened GdbIndex
  import opened Wrappers

  const U32 := 0x1_0000_0000

  // ----- Bitwise operations, bit by bit -----

  function And(x: nat, y: nat): nat {
    if x == 0 || y == 0 then 0 else (if x % 2 == 1 && y % 2 == 1 then 1 else 0) + 2 * And(x / 2, y / 2)
  }

  function Or(x: nat, y: nat): nat {
    if x == 0 then y else if y == 0 then x else
      (if x % 2 == 1 || y % 2 == 1 then 1 else 0) + 2 * Or(x / 2, y / 2)
  }

  lemma HalfMod(x: nat, m: nat)
    requires m > 0
    ensures x % (2 * m) == x % 2 + 2 * (x / 2 % m)
  {
    var q, r := x / 2 / m, x / 2 % m;
    assert x == 2 * (q * m + r) + x % 2;
    assert 2 * (q * m) == q * (2 * m);
    Remainder(x, 2 * m, q, 2 * r + x % 2);
  }

  /** & mask, for a power of two */
  lemma {:induction false} AndMask(x: nat, n: nat)
    requires PowerOfTwo(n)
    ensures And(x, n - 1) == x % n
    decreases n
  {
    if n > 1 {
      var m := n / 2;
      AndMask(x / 2, m);
      assert (n - 1) / 2 == m - 1 && (n - 1) % 2 == 1;
      HalfMod(x, m);
      AndStep(x, n - 1);
    }
  }

  lemma AndStep(x: nat, y: nat)
    ensures And(x, y) == (if x % 2 == 1 && y % 2 == 1 then 1 else 0) + 2 * And(x / 2, y / 2)
  {
  }

  lemma OrOne(x: nat)
    ensures Or(x, 1) == if x % 2 == 0 then x + 1 else x
  {
    if x > 0 { assert Or(x / 2, 0) == x / 2; }
  }

  lemma ModTwice(x: nat, m: nat, n: nat)
    requires n > 0 && m > 0 && m % n == 0
    ensures x % m % n == x % n
  {
    var p, q := m / n, x / m;
    assert x == q * m + x % m && m == p * n;
    assert q * (p * n) == (q * p) * n;
    ModOf(q * p, x % m, n);
  }

  lemma {:induction false} PowerProduct(a: nat, b: nat)
    requires PowerOfTwo(a) && PowerOfTwo(b)
    ensures PowerOfTwo(a * b)
  {
    if a > 1 {
      PowerProduct(a / 2, b);
      Doubled(a / 2, b);
      DoublePower(a / 2 * b);
    }
  }

  lemma Doubled(h: nat, b: nat)
    ensures (2 * h) * b == 2 * (h * b)
  {
  }

  lemma DoublePower(x: nat)
    requires PowerOfTwo(x)
    ensures PowerOfTwo(2 * x)
  {
    assert 2 * x / 2 == x;
  }

  lemma PowerU32()
    ensures PowerOfTwo(U32)
  {
    assert PowerOfTwo(1) && PowerOfTwo(2);
    PowerProduct(2, 2);
    PowerProduct(4, 4);
    PowerProduct(0x10, 0x10);
    PowerProduct(0x100, 0x100);
    PowerProduct(0x1_0000, 0x1_0000);
  }

  /** Wrapping around at 32 bits does not show under the mask. */
  lemma Wraps(x: nat, n: nat)
    requires PowerOfTwo(n) && n <= U32
    ensures x % U32 % n == x % n
  {
    PowerU32();
    PowersDivide(n, U32);
    ModTwice(x, U32, n);
  }

  // ----- The reader -----

  /** ((hash * 17) & mask) | 1 */
  function Step(hash: nat, mask: nat): nat { Or(And(hash * 17 % U32, mask), 1) }

  lemma StepIsStride(hash: nat, n: nat)
    requires PowerOfTwo(n) && n <= U32
    ensures Step(hash, n - 1) == Stride(hash, n)
  {
    AndMask(hash * 17 % U32, n);
    Wraps(hash * 17, n);
    OrOne(hash * 17 % n);
  }

  lemma Advance(hash: nat, k: nat, n: nat, i: nat)
    requires PowerOfTwo(n) && n <= U32 && i == Probe(hash, k, n)
    ensures And((i + Step(hash, n - 1)) % U32, n - 1) == Probe(hash, k + 1, n)
  {
    StepIsStride(hash, n);
    AndMask((i + Stride(hash, n)) % U32, n);
    Wraps(i + Stride(hash, n), n);
    ProbeNext(hash, k, n);
  }

  /** Where the search ends, it has passed k slots with other names. */
  ghost predicate EndsAt(t: seq<Slot>, hash: nat, name: int, k: nat, r: Option<Slot>) {
    && k < |t| && Passes(t, hash, k, name)
    && var e := t[Probe(hash, k, |t|)];
       if r.Some? then e == r.value && e != EMPTY && e.name == name else e == EMPTY
  }

  method Follow(t: seq<Slot>, hash: nat, name: int) returns (r: Option<Slot>, ghost k: nat)
    requires PowerOfTwo(|t|) && |Occupied(t)| < |t| <= U32
    ensures EndsAt(t, hash, name, k, r)
  {
    var mask := |t| - 1;
    var step := Step(hash, mask);
    var i := And(hash, mask);
    AndMask(hash, |t|);
    ghost var vacant := SomeVacancy(t);
    ghost var last := ProbeCovers(hash, |t|, vacant);
    k := 0;
    while t[i] != EMPTY && t[i].name != name
      invariant k <= last && i == Probe(hash, k, |t|) && Passes(t, hash, k, name)
      decreases last - k
    {
      Advance(hash, k, |t|, i);
      i := And((i + step) % U32, mask);
      k := k + 1;
    }
    r := if t[i] == EMPTY then None else Some(t[i]);
  }

  /** Finds a name's string offset under its hash, or an empty slot. Every name of the table is
      found with its own type vector, and nothing else is found. */
  method Lookup(t: seq<Slot>, hash: nat, name: int, ghost names: seq<Name>, ghost slots: seq<Slot>, ghost poolSize: int)
    returns (r: Option<Slot>)
    requires Tiles(names, slots, poolSize) && Filled(t, names, slots) && |Occupied(t)| == |names| < |t| <= U32
    ensures forall i :: 0 <= i < |names| && names[i].hash == hash && slots[i].name == name ==> r == Some(slots[i])
    ensures (forall i :: 0 <= i < |names| ==> slots[i].name != name) ==> r == None
  {
    ghost var k;
    r, k := Follow(t, hash, name);
    assert r.Some? ==> r.value in slots;
    forall m | 0 <= m < |names| && names[m].hash == hash && slots[m].name == name ensures r == Some(slots[m]) {
      EndsThere(t, names, slots, poolSize, m, k, r);
    }
  }

  lemma EndsThere(t: seq<Slot>, names: seq<Name>, slots: seq<Slot>, poolSize: int, m: nat, k: nat,
                 r: Option<Slot>)
    requires Tiles(names, slots, poolSize) && Filled(t, names, slots) && m < |names|
    requires EndsAt(t, names[m].hash, slots[m].name, k, r)
    ensures r == Some(slots[m])
  {
    NamesAreDistinct(names, slots, poolSize);
    var hash := names[m].hash;
    var j: nat :| j < |t| && t[Probe(hash, j, |t|)] == slots[m] && Passes(t, hash, j, slots[m].name);
    assert slots[m].name > 0;
    assert j == k;
  }
}
