/** The name table of .gdb_index: the layout of its constant pool and the open-addressing hash
    table that a debugger searches. */
module GdbIndex {
  import opened Arith
  import Sets
  import opened Wrappers

  /** A name with `count` occurrences in the input. */
  datatype Name = Name(hash: nat, keylen: nat, count: nat)

  /** Where a name's type vector and its string are in the constant pool. */
  datatype Slot = Slot(name: int, types: int)

  const EMPTY := Slot(0, 0)

  // ----- The constant pool -----

  function TypeBytes(n: Name): nat { n.count * 4 + 4 }

  function NameBytes(n: Name): nat { n.keylen + 1 }

  /** Entry i comes right after the one before it: a vector is a count and one word per occurrence,
      and a string ends with a NUL. */
  ghost predicate Adjoins(names: seq<Name>, slots: seq<Slot>, i: int)
    requires 0 < i < |slots| <= |names|
  {
    && slots[i].types == slots[i - 1].types + 4 * (names[i - 1].count + 1)
    && slots[i].name == slots[i - 1].name + names[i - 1].keylen + 1
  }

  /** Every vector and every string has its own part of the pool, and together they are the whole. */
  ghost predicate Tiles(names: seq<Name>, slots: seq<Slot>, poolSize: int) {
    && |slots| == |names|
    && (names == [] ==> poolSize == 0)
    && (names != [] ==>
        var last := |names| - 1;
        && slots[0].types == 0
        && slots[0].name == slots[last].types + 4 * (names[last].count + 1)
        && poolSize == slots[last].name + names[last].keylen + 1)
    && forall i {:trigger Adjoins(names, slots, i)} :: 0 < i < |names| ==> Adjoins(names, slots, i)
  }

  /** The offsets so far, each area from zero on, and where the next ones go. */
  ghost predicate Laid(names: seq<Name>, slots: seq<Slot>, typeBytes: int, nameBytes: int) {
    && |slots| <= |names|
    && (slots == [] ==> typeBytes == 0 && nameBytes == 0)
    && (slots != [] ==>
        var last := |slots| - 1;
        && slots[0] == Slot(0, 0)
        && typeBytes == slots[last].types + 4 * (names[last].count + 1)
        && nameBytes == slots[last].name + names[last].keylen + 1)
    && forall i {:trigger Adjoins(names, slots, i)} :: 0 < i < |slots| ==> Adjoins(names, slots, i)
  }

  lemma LayNext(names: seq<Name>, slots: seq<Slot>, typeBytes: int, nameBytes: int)
    requires Laid(names, slots, typeBytes, nameBytes) && |slots| < |names|
    ensures var n := names[|slots|];
      Laid(names, slots + [Slot(nameBytes, typeBytes)], typeBytes + TypeBytes(n), nameBytes + NameBytes(n))
  {
    var more := slots + [Slot(nameBytes, typeBytes)];
    forall i | 0 < i < |more| ensures Adjoins(names, more, i) {
      if i < |slots| { assert Adjoins(names, slots, i); }
    }
  }

  lemma ShiftNames(names: seq<Name>, relative: seq<Slot>, slots: seq<Slot>, typeBytes: int, nameBytes: int)
    requires Laid(names, relative, typeBytes, nameBytes) && |relative| == |names| == |slots|
    requires forall i :: 0 <= i < |names| ==> slots[i] == Slot(relative[i].name + typeBytes, relative[i].types)
    ensures Tiles(names, slots, typeBytes + nameBytes)
  {
    forall i | 0 < i < |names| ensures Adjoins(names, slots, i) {
      assert Adjoins(names, relative, i);
    }
  }

  /** Assigns the offsets: first relative to each area, then the strings after the vectors. */
  method Layout(names: seq<Name>) returns (slots: seq<Slot>, poolSize: int)
    ensures Tiles(names, slots, poolSize)
  {
    var relative: seq<Slot> := [];
    var typeBytes, nameBytes := 0, 0;
    for i := 0 to |names|
      invariant |relative| == i && Laid(names, relative, typeBytes, nameBytes)
    {
      LayNext(names, relative, typeBytes, nameBytes);
      relative := relative + [Slot(nameBytes, typeBytes)];
      typeBytes := typeBytes + TypeBytes(names[i]);
      nameBytes := nameBytes + NameBytes(names[i]);
    }
    poolSize := typeBytes + nameBytes;
    slots := seq(|names|, i requires 0 <= i < |names| => Slot(relative[i].name + typeBytes, relative[i].types));
    ShiftNames(names, relative, slots, typeBytes, nameBytes);
  }

  lemma {:induction false} LayoutGrows(names: seq<Name>, slots: seq<Slot>, poolSize: int, i: nat, j: nat)
    requires Tiles(names, slots, poolSize) && i < j < |names|
    ensures slots[i].types + 4 * (names[i].count + 1) <= slots[j].types
    ensures slots[i].name + names[i].keylen + 1 <= slots[j].name
  {
    assert Adjoins(names, slots, j);
    if i + 1 < j {
      LayoutGrows(names, slots, poolSize, i, j - 1);
    }
  }

  /** No string is at offset 0, so that no occupied slot looks empty; strings are apart. */
  lemma NamesAreDistinct(names: seq<Name>, slots: seq<Slot>, poolSize: int)
    requires Tiles(names, slots, poolSize)
    ensures forall i :: 0 <= i < |slots| ==> slots[i].name > 0
    ensures forall i, j :: 0 <= i < j < |slots| ==> slots[i].name != slots[j].name
  {
    forall i, j | 0 <= i < j < |slots| ensures slots[i].name < slots[j].name {
      LayoutGrows(names, slots, poolSize, i, j);
    }
    if names != [] {
      var last := |names| - 1;
      if last > 0 {
        LayoutGrows(names, slots, poolSize, 0, last);
      }
    }
  }

  // ----- The probe sequence -----

  /** ((hash * 17) & mask) | 1 */
  function Stride(hash: nat, n: nat): (r: nat)
    requires n > 0
    ensures r % 2 == 1
  {
    var s := hash * 17 % n;
    if s % 2 == 0 then s + 1 else s
  }

  function Probe(hash: nat, k: nat, n: nat): (r: nat)
    requires n > 0
    ensures r < n
  {
    (hash + k * Stride(hash, n)) % n
  }

  lemma ProbeNext(hash: nat, k: nat, n: nat)
    requires n > 0
    ensures Probe(hash, k + 1, n) == (Probe(hash, k, n) + Stride(hash, n)) % n
  {
    var x, s := hash + k * Stride(hash, n), Stride(hash, n);
    assert x + s == x / n * n + (x % n + s);
    ModOf(x / n, x % n + s, n);
    assert hash + (k + 1) * s == x + s;
  }

  lemma EvenFactor(d: nat, s: nat, r: nat)
    requires s % 2 == 1 && d * s == 2 * r
    ensures d % 2 == 0
  {
    var t := s / 2;
    assert d * s == 2 * (d * t) + d by {
      assert d * (2 * t + 1) == 2 * (d * t) + d;
    }
  }

  lemma Halves(d: nat, s: nat, q: nat, n: nat)
    requires d * s == q * n && d % 2 == 0 && n % 2 == 0
    ensures d / 2 * s == q * (n / 2)
  {
    var e, h := d / 2, n / 2;
    assert (2 * e) * s == 2 * (e * s) && q * (2 * h) == 2 * (q * h);
  }

  /** An odd factor does not help to reach a multiple of a power of two. */
  lemma {:induction false} OddFactor(n: nat, s: nat, d: nat, q: nat) returns (p: nat)
    requires PowerOfTwo(n) && s % 2 == 1 && d * s == q * n
    ensures d == p * n
  {
    if n == 1 {
      p := d;
    } else {
      assert q * n == 2 * (q * (n / 2)) by {
        assert q * (2 * (n / 2)) == 2 * (q * (n / 2));
      }
      EvenFactor(d, s, q * (n / 2));
      Halves(d, s, q, n);
      p := OddFactor(n / 2, s, d / 2, q);
      assert p * n == 2 * (p * (n / 2)) by {
        assert p * (2 * (n / 2)) == 2 * (p * (n / 2));
      }
    }
  }

  lemma SameResidue(x: nat, y: nat, n: nat) returns (q: nat)
    requires n > 0 && x <= y && x % n == y % n
    ensures y - x == q * n
  {
    var a, b := x / n, y / n;
    assert y - x == (b - a) * n;
    if b < a { Farther(b, a, n); }
    q := b - a;
  }

  lemma Apart(hash: nat, j: nat, k: nat, s: nat)
    requires j < k
    ensures hash + j * s <= hash + k * s
    ensures (hash + k * s) - (hash + j * s) == (k - j) * s
  {
    var d := k - j;
    assert (j + d) * s == j * s + d * s;
  }

  lemma OddStepsDiffer(x: nat, y: nat, n: nat, s: nat, d: nat)
    requires PowerOfTwo(n) && s % 2 == 1 && 0 < d < n && x <= y && y - x == d * s
    ensures x % n != y % n
  {
    if x % n == y % n {
      var q := SameResidue(x, y, n);
      var p := OddFactor(n, s, d, q);
      NotAMultiple(p, d, n);
    }
  }

  lemma NotAMultiple(p: nat, d: nat, n: nat)
    requires 0 < d < n
    ensures d != p * n
  {
    if p > 0 { Farther(0, p, n); }
  }

  lemma ProbeInjective(hash: nat, j: nat, k: nat, n: nat)
    requires PowerOfTwo(n) && j < k < n
    ensures Probe(hash, j, n) != Probe(hash, k, n)
  {
    var s := Stride(hash, n);
    Apart(hash, j, k, s);
    OddStepsDiffer(hash + j * s, hash + k * s, n, s, k - j);
  }

  ghost function Probes(hash: nat, n: nat): (s: seq<int>)
    requires n > 0
    ensures |s| == n && forall j :: 0 <= j < n ==> s[j] == Probe(hash, j, n) && 0 <= s[j] < n
  {
    seq(n, j requires 0 <= j < n => Probe(hash, j, n))
  }

  /** The probe sequence visits every slot. */
  lemma ProbeCovers(hash: nat, n: nat, slot: nat) returns (k: nat)
    requires PowerOfTwo(n) && slot < n
    ensures k < n && Probe(hash, k, n) == slot
  {
    var s := Probes(hash, n);
    forall i, j | 0 <= i < j < |s| ensures s[i] != s[j] {
      ProbeInjective(hash, i, j, n);
    }
    Sets.TakesEvery(s, slot);
    k :| 0 <= k < n && s[k] == slot;
  }

  // ----- The table -----

  ghost function Occupied(t: seq<Slot>): set<int> { set i | 0 <= i < |t| && t[i] != EMPTY }

  /** The first k slots of the hash's probe sequence are occupied by others than `name`. */
  ghost predicate Passes(t: seq<Slot>, hash: nat, k: nat, name: int)
    requires |t| > 0
  {
    forall j :: 0 <= j < k ==> t[Probe(hash, j, |t|)] != EMPTY && t[Probe(hash, j, |t|)].name != name
  }

  /** The slot is reached before any empty one. */
  ghost predicate Placed(t: seq<Slot>, hash: nat, slot: Slot)
    requires |t| > 0
  {
    exists k: nat :: k < |t| && t[Probe(hash, k, |t|)] == slot && Passes(t, hash, k, slot.name)
  }

  /** Nothing but the slots in the list is in the table. */
  ghost predicate Only(t: seq<Slot>, slots: seq<Slot>) {
    forall i :: 0 <= i < |t| && t[i] != EMPTY ==> t[i] in slots
  }

  lemma FullIsFull(t: seq<Slot>)
    requires forall i :: 0 <= i < |t| ==> t[i] != EMPTY
    ensures |Occupied(t)| == |t|
  {
    assert Occupied(t) == Sets.Below(|t|);
  }

  lemma SomeVacancy(t: seq<Slot>) returns (i: nat)
    requires |Occupied(t)| < |t|
    ensures i < |t| && t[i] == EMPTY
  {
    if forall i :: 0 <= i < |t| ==> t[i] != EMPTY {
      FullIsFull(t);
      assert false;
    }
    i :| 0 <= i < |t| && t[i] == EMPTY;
  }

  lemma PlacedStays(t: seq<Slot>, i: nat, new_: Slot, hash: nat, slot: Slot)
    requires i < |t| && t[i] == EMPTY && slot != EMPTY && new_.name != slot.name && Placed(t, hash, slot)
    ensures Placed(t[i := new_], hash, slot)
  {
    var k: nat :| k < |t| && t[Probe(hash, k, |t|)] == slot && Passes(t, hash, k, slot.name);
    var t' := t[i := new_];
    assert t'[Probe(hash, k, |t|)] == slot && Passes(t', hash, k, slot.name);
  }

  lemma OccupiedAfter(t: seq<Slot>, i: nat, slot: Slot)
    requires i < |t| && t[i] == EMPTY && slot != EMPTY
    ensures |Occupied(t[i := slot])| == |Occupied(t)| + 1
  {
    assert Occupied(t[i := slot]) == Occupied(t) + {i};
  }

  lemma PlacedNow(t: seq<Slot>, i: nat, hash: nat, k: nat, slot: Slot)
    requires i < |t| && k < |t| && i == Probe(hash, k, |t|) && t[i] == EMPTY && Passes(t, hash, k, slot.name)
    ensures Placed(t[i := slot], hash, slot)
  {
    var t' := t[i := slot];
    assert Passes(t', hash, k, slot.name);
    assert t'[Probe(hash, k, |t'|)] == slot;
  }

  /** Every name is placed, and nothing else is in the table. */
  ghost predicate Filled(t: seq<Slot>, names: seq<Name>, slots: seq<Slot>)
    requires |slots| <= |names|
  {
    && PowerOfTwo(|t|) && Only(t, slots)
    && forall i :: 0 <= i < |slots| ==> Placed(t, names[i].hash, slots[i])
  }

  lemma FilledAfter(t: seq<Slot>, i: nat, names: seq<Name>, slots: seq<Slot>, slot: Slot)
    requires |slots| < |names| && Filled(t, names, slots) && i < |t| && t[i] == EMPTY
    requires slot != EMPTY && Placed(t[i := slot], names[|slots|].hash, slot)
    requires forall s :: s in slots ==> s != EMPTY && s.name != slot.name
    ensures Filled(t[i := slot], names, slots + [slot])
  {
    forall m | 0 <= m < |slots| ensures Placed(t[i := slot], names[m].hash, slots[m]) {
      assert slots[m] in slots;
      PlacedStays(t, i, slot, names[m].hash, slots[m]);
    }
    var t' := t[i := slot];
    forall j | 0 <= j < |t'| && t'[j] != EMPTY ensures t'[j] in slots + [slot] {
      if j != i {
        assert t[j] in slots;
      }
    }
  }

  /** Fills the first vacant slot of the next name's probe sequence. */
  method Insert(ht: array<Slot>, hash: nat, slot: Slot, ghost names: seq<Name>, ghost slots: seq<Slot>)
    requires |slots| < |names| && names[|slots|].hash == hash
    requires Filled(ht[..], names, slots) && |Occupied(ht[..])| == |slots| < ht.Length
    requires slot != EMPTY && forall s :: s in slots ==> s != EMPTY && s.name != slot.name
    modifies ht
    ensures |Occupied(ht[..])| == |slots| + 1
    ensures Filled(ht[..], names, slots + [slot])
  {
    ghost var t := ht[..];
    ghost var vacant := SomeVacancy(t);
    ghost var last := ProbeCovers(hash, ht.Length, vacant);
    var step := Stride(hash, ht.Length);
    var i := hash % ht.Length;
    ghost var k: nat := 0;
    while ht[i] != EMPTY
      invariant i == Probe(hash, k, ht.Length) && k <= last
      invariant ht[..] == t && t[vacant] == EMPTY && Passes(t, hash, k, slot.name)
      decreases last - k
    {
      ProbeNext(hash, k, ht.Length);
      i := (i + step) % ht.Length;
      k := k + 1;
    }
    OccupiedAfter(t, i, slot);
    PlacedNow(t, i, hash, k, slot);
    FilledAfter(t, i, names, slots, slot);
    ht[i] := slot;
    assert ht[..] == t[i := slot];
  }

  /** Builds the table. It has more slots than there are names, so every insertion ends. */
  method Build(names: seq<Name>, slots: seq<Slot>, poolSize: int) returns (ht: array<Slot>)
    requires Tiles(names, slots, poolSize)
    ensures fresh(ht) && ht.Length == BitCeil(|names| * 5 / 4 + 1) > |names|
    ensures Filled(ht[..], names, slots) && |Occupied(ht[..])| == |names|
  {
    ht := new Slot[BitCeil(|names| * 5 / 4 + 1)](_ => EMPTY);
    NamesAreDistinct(names, slots, poolSize);
    assert Occupied(ht[..]) == {};
    assert slots[..0] == [];
    for i := 0 to |names|
      invariant |Occupied(ht[..])| == i
      invariant Filled(ht[..], names, slots[..i])
    {
      NewName(slots, i);
      Insert(ht, names[i].hash, slots[i], names, slots[..i]);
      OneMore(slots, i);
    }
    assert slots[..|names|] == slots;
  }

  lemma OneMore(slots: seq<Slot>, i: nat)
    requires i < |slots|
    ensures slots[..i + 1] == slots[..i] + [slots[i]]
  {
  }

  lemma NewName(slots: seq<Slot>, i: nat)
    requires i < |slots| && forall j :: 0 <= j < |slots| ==> slots[j].name > 0
    requires forall j, k :: 0 <= j < k < |slots| ==> slots[j].name != slots[k].name
    ensures slots[i] != EMPTY && forall s :: s in slots[..i] ==> s != EMPTY && s.name != slots[i].name
  {
  }

  // ----- What a debugger finds -----

  /** Follows the probe sequence to the name or to an empty slot. */
  function Search(t: seq<Slot>, hash: nat, name: int, k: nat): Option<Slot>
    requires |t| > 0
    decreases |t| - k
  {
    if k >= |t| || t[Probe(hash, k, |t|)] == EMPTY then None
    else if t[Probe(hash, k, |t|)].name == name then Some(t[Probe(hash, k, |t|)])
    else Search(t, hash, name, k + 1)
  }

  lemma {:induction false} SearchReaches(t: seq<Slot>, hash: nat, slot: Slot, j: nat, k: nat)
    requires |t| > 0 && j <= k < |t| && slot != EMPTY
    requires t[Probe(hash, k, |t|)] == slot && Passes(t, hash, k, slot.name)
    ensures Search(t, hash, slot.name, j) == Some(slot)
    decreases k - j
  {
    if j < k {
      SearchReaches(t, hash, slot, j + 1, k);
    }
  }

  lemma {:induction false} SearchIsSound(t: seq<Slot>, hash: nat, name: int, k: nat)
    requires |t| > 0
    ensures var r := Search(t, hash, name, k); r.Some? ==> r.value in t && r.value != EMPTY && r.value.name == name
    decreases |t| - k
  {
    if k < |t| && t[Probe(hash, k, |t|)] != EMPTY && t[Probe(hash, k, |t|)].name != name {
      SearchIsSound(t, hash, name, k + 1);
    }
  }

  /** A name that was inserted is found by its hash, with its own type vector. */
  lemma FindsEveryName(t: seq<Slot>, names: seq<Name>, slots: seq<Slot>, poolSize: int, i: nat)
    requires Tiles(names, slots, poolSize) && Filled(t, names, slots) && i < |names|
    ensures Search(t, names[i].hash, slots[i].name, 0) == Some(slots[i])
  {
    NamesAreDistinct(names, slots, poolSize);
    var hash := names[i].hash;
    var k: nat :| k < |t| && t[Probe(hash, k, |t|)] == slots[i] && Passes(t, hash, k, slots[i].name);
    SearchReaches(t, hash, slots[i], 0, k);
  }

  /** A name that was not inserted is not found, by whatever hash. */
  lemma FindsNothingElse(t: seq<Slot>, names: seq<Name>, slots: seq<Slot>, hash: nat, name: int)
    requires |slots| <= |names| && Filled(t, names, slots) && forall s :: s in slots ==> s.name != name
    ensures Search(t, hash, name, 0) == None
  {
    SearchIsSound(t, hash, name, 0);
  }
}
