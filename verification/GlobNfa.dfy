/** Glob::Nfa: many patterns matched together, one bit per state, packed back to back
    into 64-bit words. */
module GlobNfa {
  import opened Bytes
  import opened GlobSyntax
  import opened GlobPattern
  import opened Words

  // ----- One pattern as an automaton -----

  /** State j is entered by a byte in chars[j - 1]; a starred state also keeps itself. */
  datatype Machine = Machine(chars: seq<set<byte>>, stars: seq<bool>) {
    ghost predicate Valid() { |stars| == |chars| + 1 }
  }

  ghost function Build(es: seq<Elem>): (m: Machine)
    ensures m.Valid()
  {
    if es == [] then Machine([], [false]) else
      var m := Build(es[..|es| - 1]);
      match es[|es| - 1]
      case Any => m.(stars := m.stars[..|m.chars|] + [true])
      case Class(cs) => Machine(m.chars + [cs], m.stars + [false])
  }

  lemma BuildSnoc(es: seq<Elem>, e: Elem)
    ensures Build(es + [e]) ==
            var m := Build(es);
            match e
            case Any => m.(stars := m.stars[..|m.chars|] + [true])
            case Class(cs) => Machine(m.chars + [cs], m.stars + [false])
  {
    assert (es + [e])[..|es|] == es;
  }

  ghost predicate Active(m: Machine, j: int, t: Str)
    requires m.Valid() && 0 <= j <= |m.chars|
    decreases |t|
  {
    if t == [] then j == 0 else
      var c, t' := t[|t| - 1], t[..|t| - 1];
      || (m.stars[j] && Active(m, j, t'))
      || (j > 0 && c in m.chars[j - 1] && Active(m, j - 1, t'))
  }

  lemma {:induction false} ActiveAgrees(m: Machine, n: Machine, j: int, t: Str)
    requires m.Valid() && n.Valid() && 0 <= j <= |m.chars| && j <= |n.chars|
    requires m.chars[..j] == n.chars[..j] && m.stars[..j + 1] == n.stars[..j + 1]
    ensures Active(m, j, t) <==> Active(n, j, t)
    decreases |t|
  {
    if t != [] {
      assert m.stars[j] == m.stars[..j + 1][j] == n.stars[j];
      ActiveAgrees(m, n, j, t[..|t| - 1]);
      if j > 0 {
        assert m.chars[j - 1] == m.chars[..j][j - 1] == n.chars[j - 1];
        assert m.chars[..j - 1] == m.chars[..j][..j - 1] && n.chars[..j - 1] == n.chars[..j][..j - 1];
        assert m.stars[..j] == m.stars[..j + 1][..j] && n.stars[..j] == n.stars[..j + 1][..j];
        ActiveAgrees(m, n, j - 1, t[..|t| - 1]);
      }
    }
  }

  /** Starring the last state lets it stay on from the moment it is first reached. */
  lemma {:induction false} ActiveStarred(m: Machine, t: Str)
    requires m.Valid()
    ensures var n := |m.chars|;
      Active(m.(stars := m.stars[..n] + [true]), n, t)
      <==> exists k :: 0 <= k <= |t| && Active(m, n, t[..k])
    decreases |t|
  {
    var n := |m.chars|;
    var m' := m.(stars := m.stars[..n] + [true]);
    if t == [] {
      assert t[..0] == t;
    } else {
      var t' := t[..|t| - 1];
      ActiveStarred(m, t');
      if n > 0 {
        assert m.stars[..n][..n] == m'.stars[..n][..n];
        ActiveAgrees(m, m', n - 1, t');
      }
      if k :| 0 <= k <= |t'| && Active(m, n, t'[..k]) {
        assert t'[..k] == t[..k];
      }
      if k :| 0 <= k <= |t| && Active(m, n, t[..k]) {
        if k < |t| {
          assert t'[..k] == t[..k];
        } else {
          assert t[..k] == t;
          assert Active(m, n, t') ==> t'[..|t'|] == t';
        }
      }
      if Active(m', n, t) && !(exists k :: 0 <= k <= |t'| && Active(m, n, t'[..k])) {
        assert t[..|t|] == t;
      }
    }
  }

  lemma ClassAccepts(q: seq<Elem>, e: Elem, t: Str)
    requires e.Class?
    requires forall k :: 0 <= k <= |t| ==> (Accepts(q, t[..k]) <==> Active(Build(q), |Build(q).chars|, t[..k]))
    ensures Accepts(q + [e], t) <==> Active(Build(q + [e]), |Build(q + [e]).chars|, t)
  {
    var p, m := Build(q), Build(q + [e]);
    BuildSnoc(q, e);
    AcceptsSnocClass(q, e, t);
    if t != [] {
      var t' := t[..|t| - 1];
      assert p.chars[..|p.chars|] == m.chars[..|p.chars|];
      assert p.stars[..|p.stars|] == m.stars[..|p.stars|];
      ActiveAgrees(p, m, |p.chars|, t');
    }
  }

  lemma AnyAccepts(q: seq<Elem>, t: Str)
    requires forall k :: 0 <= k <= |t| ==> (Accepts(q, t[..k]) <==> Active(Build(q), |Build(q).chars|, t[..k]))
    ensures Accepts(q + [Any], t) <==> Active(Build(q + [Any]), |Build(q + [Any]).chars|, t)
  {
    BuildSnoc(q, Any);
    AcceptsSnocAny(q, t);
    ActiveStarred(Build(q), t);
  }

  /** The automaton's last state is reached by exactly the strings the elements match. */
  lemma {:induction false} BuildAccepts(es: seq<Elem>, t: Str)
    ensures Accepts(es, t) <==> Active(Build(es), |Build(es).chars|, t)
    decreases |es|
  {
    var m := Build(es);
    if es == [] {
      NoStates(t);
    } else {
      var q, e := es[..|es| - 1], es[|es| - 1];
      var p := Build(q);
      assert es == q + [e];
      forall k | 0 <= k <= |t| ensures Accepts(q, t[..k]) <==> Active(p, |p.chars|, t[..k]) {
        BuildAccepts(q, t[..k]);
      }
      if e.Class? { ClassAccepts(q, e, t); } else { AnyAccepts(q, t); }
    }
  }

  lemma NoStates(t: Str)
    ensures Active(Machine([], [false]), 0, t) <==> t == []
  {
  }

  // ----- All patterns side by side -----

  datatype Cell = Cell(chars: set<byte>, start: bool, star: bool, accept: bool, value: int)

  ghost function Open(m: Machine): (r: seq<Cell>)
    requires m.Valid()
    ensures |r| == |m.chars| + 1
  {
    seq(|m.chars| + 1, j requires 0 <= j <= |m.chars| =>
      Cell(if j == 0 then {} else m.chars[j - 1], j == 0, m.stars[j], false, -1))
  }

  ghost function Close(cells: seq<Cell>, value: int): (r: seq<Cell>)
    requires cells != []
  {
    cells[|cells| - 1 := cells[|cells| - 1].(accept := true, value := value)]
  }

  ghost function Block(p: Pattern): (r: seq<Cell>)
    ensures r != []
  {
    Close(Open(Build(Flat(p.tokens))), p.value)
  }

  ghost function Layout(ps: seq<Pattern>): seq<Cell> {
    if ps == [] then [] else Layout(ps[..|ps| - 1]) + Block(ps[|ps| - 1])
  }

  /** Cell i is on after reading t. */
  ghost predicate On(cells: seq<Cell>, i: int, t: Str)
    requires 0 <= i < |cells|
    decreases |t|
  {
    if t == [] then cells[i].start else
      var c, t' := t[|t| - 1], t[..|t| - 1];
      || (cells[i].star && On(cells, i, t'))
      || (i > 0 && c in cells[i].chars && On(cells, i - 1, t'))
  }

  lemma {:induction false} OnPrefix(a: seq<Cell>, b: seq<Cell>, i: int, t: Str)
    requires 0 <= i < |a|
    ensures On(a + b, i, t) <==> On(a, i, t)
    decreases |t|
  {
    if t != [] {
      OnPrefix(a, b, i, t[..|t| - 1]);
      if i > 0 { OnPrefix(a, b, i - 1, t[..|t| - 1]); }
    }
  }

  /** A pattern's states run as if it were alone: nothing leaks in from the one before it. */
  lemma NoLeak(before: seq<Cell>, m: Machine, value: int, j: int, t: Str)
    requires m.Valid() && 0 <= j <= |m.chars|
    ensures |Close(Open(m), value)| == |m.chars| + 1
    ensures On(before + Close(Open(m), value), |before| + j, t) <==> Active(m, j, t)
  {
    var block := Close(Open(m), value);
    BlockCells(m, value);
    Beside(before, block, m);
    NoLeakIn(before + block, |before|, m, j, t);
  }

  /** Cell base + i does what state i of the machine does. */
  ghost predicate IsCell(cells: seq<Cell>, base: nat, m: Machine, i: int)
    requires m.Valid() && base + |m.chars| < |cells| && 0 <= i <= |m.chars|
  {
    var cell := cells[base + i];
    cell.start == (i == 0) && cell.star == m.stars[i] && cell.chars == if i == 0 then {} else m.chars[i - 1]
  }

  lemma BlockCells(m: Machine, value: int)
    requires m.Valid()
    ensures |Close(Open(m), value)| == |m.chars| + 1
    ensures forall i :: 0 <= i <= |m.chars| ==> IsCell(Close(Open(m), value), 0, m, i)
  {
  }

  lemma Beside(before: seq<Cell>, block: seq<Cell>, m: Machine)
    requires m.Valid() && |block| == |m.chars| + 1 && forall i :: 0 <= i <= |m.chars| ==> IsCell(block, 0, m, i)
    ensures forall i :: 0 <= i <= |m.chars| ==> IsCell(before + block, |before|, m, i)
  {
    forall i | 0 <= i <= |m.chars| ensures IsCell(before + block, |before|, m, i) {
      assert IsCell(block, 0, m, i);
    }
  }

  lemma {:induction false} NoLeakIn(cells: seq<Cell>, base: nat, m: Machine, j: int, t: Str)
    requires m.Valid() && base + |m.chars| < |cells| && 0 <= j <= |m.chars|
    requires forall i :: 0 <= i <= |m.chars| ==> IsCell(cells, base, m, i)
    ensures On(cells, base + j, t) <==> Active(m, j, t)
    decreases |t|
  {
    assert IsCell(cells, base, m, j);
    if t != [] {
      NoLeakIn(cells, base, m, j, t[..|t| - 1]);
      if j > 0 { NoLeakIn(cells, base, m, j - 1, t[..|t| - 1]); }
    }
  }

  lemma LastCell(before: seq<Cell>, m: Machine, value: int, block: seq<Cell>, i: int, t: Str)
    requires m.Valid() && block == Close(Open(m), value) && i == |before| + |block| - 1
    ensures 0 <= i < |before + block| && On(before + block, i, t) == Active(m, |m.chars|, t)
  {
    NoLeak(before, m, value, |m.chars|, t);
  }

  lemma LastActive(ts: seq<Token>, m: Machine, t: Str)
    requires m == Build(Flat(ts))
    ensures Active(m, |m.chars|, t) == Matches(ts, t)
  {
    BuildAccepts(Flat(ts), t);
    MatchesIsAccepts(ts, t);
  }

  lemma MatchesIsAccepts(ts: seq<Token>, t: Str)
    ensures Matches(ts, t) <==> Accepts(Flat(ts), t)
  {
    AcceptsIsDenotes(Flat(ts), t);
  }

  lemma LastOn(before: seq<Cell>, p: Pattern, block: seq<Cell>, i: int, t: Str)
    requires block == Block(p) && i == |before| + |block| - 1
    ensures 0 <= i < |before + block| && On(before + block, i, t) == Matches(p.tokens, t)
  {
    var m := Build(Flat(p.tokens));
    LastCell(before, m, p.value, block, i, t);
    LastActive(p.tokens, m, t);
  }

  /** Every accepting cell that is on belongs to a matching pattern. */
  lemma {:induction false} AcceptingCell(ps: seq<Pattern>, i: int, t: Str)
    requires 0 <= i < |Layout(ps)| && Layout(ps)[i].accept && On(Layout(ps), i, t)
    ensures exists p :: p in ps && Matches(p.tokens, t) && p.value == Layout(ps)[i].value
    decreases |ps|
  {
    var before, p := Layout(ps[..|ps| - 1]), ps[|ps| - 1];
    if i < |before| {
      OnPrefix(before, Block(p), i, t);
      AcceptingCell(ps[..|ps| - 1], i, t);
      var q :| q in ps[..|ps| - 1] && Matches(q.tokens, t) && q.value == Layout(ps)[i].value;
      assert q in ps;
    } else {
      assert Layout(ps)[i] == Block(p)[i - |before|];
      LastOn(before, p, Block(p), i, t);
      assert p in ps;
    }
  }

  /** Every matching pattern has an accepting cell that is on. */
  lemma {:induction false} CellOf(ps: seq<Pattern>, k: int, t: Str) returns (i: int)
    requires 0 <= k < |ps| && Matches(ps[k].tokens, t)
    ensures 0 <= i < |Layout(ps)| && Layout(ps)[i].accept && On(Layout(ps), i, t)
    ensures Layout(ps)[i].value == ps[k].value
    decreases |ps|
  {
    var before, p := Layout(ps[..|ps| - 1]), ps[|ps| - 1];
    if k < |ps| - 1 {
      i := CellOf(ps[..|ps| - 1], k, t);
      OnPrefix(before, Block(p), i, t);
    } else {
      i := |before| + |Block(p)| - 1;
      LastOn(before, p, Block(p), i, t);
    }
  }

  // ----- How the layout grows -----

  ghost function Width(es: seq<Elem>): nat { |Build(es).chars| }

  lemma {:induction false} WidthGrows(es: seq<Elem>, fs: seq<Elem>)
    ensures Width(es) <= Width(es + fs)
    decreases |fs|
  {
    if fs == [] {
      assert es + fs == es;
    } else {
      WidthGrows(es, fs[..|fs| - 1]);
      assert es + fs == (es + fs[..|fs| - 1]) + [fs[|fs| - 1]];
      BuildSnoc(es + fs[..|fs| - 1], fs[|fs| - 1]);
    }
  }

  lemma {:induction false} WidthText(es: seq<Elem>, w: Str)
    ensures Width(es + Lits(w)) == Width(es) + |w|
    decreases |w|
  {
    if w == [] {
      assert es + Lits(w) == es;
    } else {
      var w' := w[..|w| - 1];
      WidthText(es, w');
      assert es + Lits(w) == (es + Lits(w')) + [Lit(w[|w| - 1])];
      BuildSnoc(es + Lits(w'), Lit(w[|w| - 1]));
    }
  }

  lemma OpenClass(es: seq<Elem>, cs: set<byte>)
    ensures Open(Build(es + [Class(cs)])) == Open(Build(es)) + [Cell(cs, false, false, false, -1)]
  {
    BuildSnoc(es, Class(cs));
  }

  lemma OpenAny(es: seq<Elem>)
    ensures var cells := Open(Build(es));
      Open(Build(es + [Any])) == cells[|cells| - 1 := cells[|cells| - 1].(star := true)]
  {
    BuildSnoc(es, Any);
  }

  lemma LayoutSnoc(ps: seq<Pattern>, k: int)
    requires 0 <= k < |ps|
    ensures Layout(ps[..k + 1]) == Layout(ps[..k]) + Block(ps[k])
  {
    assert ps[..k + 1][..k] == ps[..k];
  }

  lemma {:induction false} LayoutGrows(ps: seq<Pattern>, k: int)
    requires 0 <= k <= |ps|
    ensures |Layout(ps[..k])| <= |Layout(ps)|
    decreases |ps| - k
  {
    if k == |ps| {
      assert ps[..k] == ps;
    } else {
      LayoutSnoc(ps, k);
      LayoutGrows(ps, k + 1);
    }
  }

  lemma FlatTake(ts: seq<Token>, k: int)
    requires 0 <= k < |ts|
    ensures Flat(ts[..k + 1]) == Flat(ts[..k]) + Elems(ts[k])
  {
    assert ts[..k + 1] == ts[..k] + [ts[k]];
    FlatSnoc(ts[..k], ts[k]);
  }

  /** The counting pass: how many states the patterns need together. */
  method CountStates(ps: seq<Pattern>) returns (n: nat)
    ensures n == |Layout(ps)|
  {
    n := 0;
    for k := 0 to |ps|
      invariant n == |Layout(ps[..k])|
    {
      var ts := ps[k].tokens;
      LayoutSnoc(ps, k);
      n := n + 1;
      for j := 0 to |ts|
        invariant n == |Layout(ps[..k])| + 1 + Width(Flat(ts[..j]))
      {
        FlatTake(ts, j);
        match ts[j]
        case Text(w) => WidthText(Flat(ts[..j]), w); n := n + |w|;
        case Star => BuildSnoc(Flat(ts[..j]), Any);
        case Question => BuildSnoc(Flat(ts[..j]), Class(ALL)); n := n + 1;
        case Bracket(cs) => BuildSnoc(Flat(ts[..j]), Class(cs)); n := n + 1;
      }
      assert ts[..|ts|] == ts;
    }
    assert ps[..|ps|] == ps;
  }

  // ----- The packed words -----

  /** The words hold these bits, 64 to a word, with every unused bit clear. */
  ghost predicate Holds(v: seq<Word>, bits: Bits) {
    && |bits| <= 64 * |v|
    && forall w, b :: 0 <= w < |v| && 0 <= b < 64 ==>
         (v[w][b] <==> 64 * w + b < |bits| && bits[64 * w + b])
  }

  function SetBit(v: seq<Word>, i: nat): (r: seq<Word>)
    requires i < 64 * |v|
  {
    v[i / 64 := Or(v[i / 64], One(i % 64))]
  }

  lemma SetBitHolds(v: seq<Word>, bits: Bits, i: nat)
    requires Holds(v, bits) && i < |bits|
    ensures Holds(SetBit(v, i), bits[i := true])
  {
    var r, w', b' := SetBit(v, i), i / 64, i % 64;
    forall w, b | 0 <= w < |r| && 0 <= b < 64
      ensures r[w][b] <==> 64 * w + b < |bits| && bits[i := true][64 * w + b]
    {
      assert v[w][b] <==> 64 * w + b < |bits| && bits[64 * w + b];
      assert 64 * w + b == i <==> w == w' && b == b';
      if w == w' { assert r[w][b] == (v[w][b] || b == b'); }
    }
  }

  lemma GrowHolds(v: seq<Word>, bits: Bits)
    requires Holds(v, bits) && |bits| < 64 * |v|
    ensures Holds(v, bits + [false])
  {
  }

  predicate CarryInto(was: seq<Word>, k: nat)
    requires k <= |was|
  {
    k > 0 && TopBit(was[k - 1])
  }

  /** The next value of one word: starred states stay on, others come from the shifted word. */
  function NextWord(was: Word, carry: bool, stars: Word, mask: Word): Word {
    Or(And(was, stars), And(ShiftIn(was, carry), mask))
  }

  lemma NextWordBit(was: Word, carry: bool, stars: Word, mask: Word, b: int)
    requires 0 <= b < 64
    ensures NextWord(was, carry, stars, mask)[b] <==>
            (was[b] && stars[b]) || ((if b == 0 then carry else was[b - 1]) && mask[b])
  {
  }

  ghost predicate Stepped(was: seq<Word>, now: seq<Word>, stars: seq<Word>, mask: seq<Word>, n: int)
    requires |was| == |now| == |stars| == |mask| && 0 <= n <= |was|
  {
    forall k :: 0 <= k < n ==> now[k] == NextWord(was[k], CarryInto(was, k), stars[k], mask[k])
  }

  ghost predicate NextBits(was: Bits, now: Bits, stars: Bits, mask: Bits) {
    && |was| == |now| == |stars| == |mask|
    && forall i {:trigger NextBit(was, now, stars, mask, i)} :: 0 <= i < |was| ==> NextBit(was, now, stars, mask, i)
  }

  ghost predicate NextBit(was: Bits, now: Bits, stars: Bits, mask: Bits, i: int)
    requires |was| == |now| == |stars| == |mask| && 0 <= i < |was|
  {
    now[i] <==> (was[i] && stars[i]) || (i > 0 && was[i - 1] && mask[i])
  }

  /** Shifting word by word with a carry shifts the whole bit string by one. */
  lemma SteppedHolds(was: seq<Word>, now: seq<Word>, stars: seq<Word>, mask: seq<Word>,
                     a: Bits, b: Bits, s: Bits, m: Bits)
    requires |was| == |now| == |stars| == |mask| && Stepped(was, now, stars, mask, |was|)
    requires Holds(was, a) && Holds(stars, s) && Holds(mask, m) && NextBits(a, b, s, m)
    ensures Holds(now, b)
  {
    forall k, j | 0 <= k < |now| && 0 <= j < 64
      ensures now[k][j] <==> 64 * k + j < |b| && b[64 * k + j]
    {
      BitBefore(was, a, k, j);
      HoldsAt(was, a, k, j);
      HoldsAt(stars, s, k, j);
      HoldsAt(mask, m, k, j);
      SteppedBit(was, now, stars, mask, a, b, s, m, k, j, 64 * k + j);
    }
  }

  /** One input byte: all words shift by one bit, and the top bit of each carries into the next. */
  method StepWords(was: seq<Word>, stars: seq<Word>, mask: seq<Word>) returns (states: seq<Word>)
    requires |was| == |stars| == |mask|
    ensures |states| == |was| && Stepped(was, states, stars, mask, |was|)
  {
    states := was;
    var carry := false;
    for k := 0 to |states|
      invariant |states| == |was| && states[k..] == was[k..]
      invariant carry == CarryInto(was, k)
      invariant Stepped(was, states, stars, mask, k)
    {
      var cur := states[k];
      states := states[k := NextWord(cur, carry, stars[k], mask[k])];
      carry := TopBit(cur);
    }
  }

  lemma HoldsAt(v: seq<Word>, bits: Bits, k: nat, j: nat)
    requires Holds(v, bits) && k < |v| && j < 64
    ensures v[k][j] <==> 64 * k + j < |bits| && bits[64 * k + j]
  {
  }

  /** The bit before j, across the word boundary. */
  lemma BitBefore(v: seq<Word>, bits: Bits, k: nat, j: nat)
    requires Holds(v, bits) && k < |v| && j < 64
    ensures var i := 64 * k + j;
      (if j == 0 then CarryInto(v, k) else v[k][j - 1]) <==> 0 < i <= |bits| && bits[i - 1]
  {
    if j > 0 { HoldsAt(v, bits, k, j - 1); } else if k > 0 { HoldsAt(v, bits, k - 1, 63); }
  }

  lemma SteppedBit(was: seq<Word>, now: seq<Word>, stars: seq<Word>, mask: seq<Word>,
                   a: Bits, b: Bits, s: Bits, m: Bits, k: nat, j: nat, i: nat)
    requires |was| == |now| == |stars| == |mask| && Stepped(was, now, stars, mask, |was|) && k < |was| && j < 64
    requires NextBits(a, b, s, m) && i == 64 * k + j
    requires was[k][j] <==> i < |a| && a[i]
    requires stars[k][j] <==> i < |s| && s[i]
    requires mask[k][j] <==> i < |m| && m[i]
    requires (if j == 0 then CarryInto(was, k) else was[k][j - 1]) <==> 0 < i <= |a| && a[i - 1]
    ensures now[k][j] <==> i < |b| && b[i]
  {
    assert now[k] == NextWord(was[k], CarryInto(was, k), stars[k], mask[k]);
    NextWordBit(was[k], CarryInto(was, k), stars[k], mask[k], j);
    if i < |b| {
      assert NextBit(a, b, s, m, i);
    }
  }

  // ----- The automaton object -----

  ghost function Starts(cells: seq<Cell>): (r: Bits)
    ensures |r| == |cells|
  { seq(|cells|, i requires 0 <= i < |cells| => cells[i].start) }

  ghost function Stars(cells: seq<Cell>): (r: Bits)
    ensures |r| == |cells|
  { seq(|cells|, i requires 0 <= i < |cells| => cells[i].star) }

  ghost function Accepting(cells: seq<Cell>): (r: Bits)
    ensures |r| == |cells|
  { seq(|cells|, i requires 0 <= i < |cells| => cells[i].accept) }

  ghost function Entering(cells: seq<Cell>, c: byte): (r: Bits)
    ensures |r| == |cells|
  { seq(|cells|, i requires 0 <= i < |cells| => c in cells[i].chars) }

  const BLANK: Cell := Cell({}, false, false, false, -1)

  /** c * w, where row c of a table of rows of w words starts. */
  function RowStart(c: nat, w: nat): (r: nat)
    decreases c
  {
    if c == 0 then 0 else RowStart(c - 1, w) + w
  }

  lemma {:induction false} RowStartIs(c: nat, w: nat)
    ensures RowStart(c, w) == c * w
    decreases c
  {
    if c > 0 {
      RowStartIs(c - 1, w);
      assert c * w == (c - 1) * w + w;
    }
  }

  lemma {:induction false} RowsApart(c: nat, d: nat, w: nat)
    requires c < d
    ensures RowStart(c, w) + w <= RowStart(d, w)
    decreases d
  {
    if c + 1 < d {
      RowsApart(c, d - 1, w);
    }
  }

  lemma RowInside(c: byte, w: nat)
    ensures RowStart(c, w) + w <= 256 * w
  {
    RowsApart(c, 256, w);
    RowStartIs(256, w);
  }

  /** The c-th row of a table stored row by row. */
  function Row(v: seq<Word>, w: nat, c: byte): (r: seq<Word>)
    requires |v| == 256 * w
    ensures |r| == w
  {
    RowInside(c, w);
    v[RowStart(c, w)..RowStart(c, w) + w]
  }

  lemma RowUpdate(v: seq<Word>, w: nat, c: byte, k: nat, x: Word, d: byte)
    requires |v| == 256 * w && k < w
    ensures RowStart(c, w) + k < |v|
    ensures Row(v[RowStart(c, w) + k := x], w, d) == if d == c then Row(v, w, d)[k := x] else Row(v, w, d)
  {
    RowInside(c, w);
    RowInside(d, w);
    if c < d { RowsApart(c, d, w); } else if d < c { RowsApart(d, c, w); }
    SliceUpdate(v, RowStart(c, w), k, x, RowStart(d, w), w, c == d);
  }

  lemma SliceUpdate(v: seq<Word>, a: nat, k: nat, x: Word, b: nat, w: nat, same: bool)
    requires k < w && a + w <= |v| && b + w <= |v| && if same then a == b else a + w <= b || b + w <= a
    ensures v[a + k := x][b..b + w] == if same then v[b..b + w][k := x] else v[b..b + w]
  {
  }

  lemma SameColumns(cells: seq<Cell>, i: nat, cell: Cell)
    requires i < |cells|
    ensures cell.start == cells[i].start ==> Starts(cells[i := cell]) == Starts(cells)
    ensures cell.start ==> Starts(cells[i := cell]) == Starts(cells)[i := true]
    ensures cell.star == cells[i].star ==> Stars(cells[i := cell]) == Stars(cells)
    ensures cell.star ==> Stars(cells[i := cell]) == Stars(cells)[i := true]
    ensures cell.accept == cells[i].accept ==> Accepting(cells[i := cell]) == Accepting(cells)
    ensures cell.accept ==> Accepting(cells[i := cell]) == Accepting(cells)[i := true]
    ensures forall c: byte :: (c in cell.chars <==> c in cells[i].chars) ==>
              Entering(cells[i := cell], c) == Entering(cells, c)
    ensures forall c: byte :: c in cell.chars ==> Entering(cells[i := cell], c) == Entering(cells, c)[i := true]
  {
  }

  ghost predicate MasksHold(v: seq<Word>, w: nat, cells: seq<Cell>) {
    |v| == 256 * w && forall c: byte :: Holds(Row(v, w, c), Entering(cells, c))
  }

  /** Sets the bit for byte c and state i. */
  function SetMaskBit(v: seq<Word>, w: nat, c: byte, i: nat): (r: seq<Word>)
    requires |v| == 256 * w && i < 64 * w
    ensures |r| == |v|
  {
    RowInside(c, w);
    v[RowStart(c, w) + i / 64 := Or(v[RowStart(c, w) + i / 64], One(i % 64))]
  }

  lemma SetMaskBitRow(v: seq<Word>, w: nat, c: byte, i: nat, d: byte)
    requires |v| == 256 * w && i < 64 * w
    ensures Row(SetMaskBit(v, w, c, i), w, d) == if d == c then SetBit(Row(v, w, d), i) else Row(v, w, d)
  {
    RowInside(c, w);
    RowUpdate(v, w, c, i / 64, Or(v[RowStart(c, w) + i / 64], One(i % 64)), d);
  }

  lemma SetMaskBitHolds(v: seq<Word>, w: nat, cells: seq<Cell>, c: byte, i: nat)
    requires MasksHold(v, w, cells) && i < |cells| <= 64 * w
    ensures MasksHold(SetMaskBit(v, w, c, i), w, cells[i := cells[i].(chars := cells[i].chars + {c})])
  {
    var cell := cells[i].(chars := cells[i].chars + {c});
    SameColumns(cells, i, cell);
    var r, cells' := SetMaskBit(v, w, c, i), cells[i := cell];
    forall d: byte ensures Holds(Row(r, w, d), Entering(cells', d)) {
      assert Holds(Row(v, w, d), Entering(cells, d));
      SetMaskBitRow(v, w, c, i, d);
      if d == c { SetBitHolds(Row(v, w, d), Entering(cells, d), i); }
    }
  }

  class Nfa {
    var initialStates: seq<Word>
    var starStates: seq<Word>
    var acceptStates: seq<Word>
    var charMasks: seq<Word>
    var values: seq<int>

    constructor ()
      ensures Encodes([]) && IsEmpty()
    {
      initialStates, starStates, acceptStates, charMasks, values := [], [], [], [], [];
    }

    predicate IsEmpty() reads this { initialStates == [] }

    /** The words hold exactly these cells. */
    ghost predicate Encodes(cells: seq<Cell>) reads this {
      && |starStates| == |initialStates| && |acceptStates| == |initialStates|
      && |cells| <= |values| <= 64 * |initialStates|
      && Holds(initialStates, Starts(cells))
      && Holds(starStates, Stars(cells))
      && Holds(acceptStates, Accepting(cells))
      && MasksHold(charMasks, |initialStates|, cells)
      && (forall i :: 0 <= i < |values| ==> values[i] == if i < |cells| then cells[i].value else -1)
    }

    /** All bits beyond the last cell are clear, so a cell with nothing set is there already. */
    lemma NewCell(cells: seq<Cell>)
      requires Encodes(cells) && |cells| < |values|
      ensures Encodes(cells + [BLANK])
    {
      var more := cells + [BLANK];
      GrowHolds(initialStates, Starts(cells));
      GrowHolds(starStates, Stars(cells));
      GrowHolds(acceptStates, Accepting(cells));
      assert Starts(more) == Starts(cells) + [false];
      assert Stars(more) == Stars(cells) + [false];
      assert Accepting(more) == Accepting(cells) + [false];
      forall c: byte ensures Holds(Row(charMasks, |initialStates|, c), Entering(more, c)) {
        assert Holds(Row(charMasks, |initialStates|, c), Entering(cells, c));
        GrowHolds(Row(charMasks, |initialStates|, c), Entering(cells, c));
        assert Entering(more, c) == Entering(cells, c) + [false];
      }
    }

    method SetInitial(i: nat, ghost cells: seq<Cell>)
      requires Encodes(cells) && i < |cells|
      modifies this`initialStates
      ensures |initialStates| == old(|initialStates|)
      ensures Encodes(cells[i := cells[i].(start := true)])
    {
      SameColumns(cells, i, cells[i].(start := true));
      SetBitHolds(initialStates, Starts(cells), i);
      initialStates := SetBit(initialStates, i);
    }

    method SetStar(i: nat, ghost cells: seq<Cell>)
      requires Encodes(cells) && i < |cells|
      modifies this`starStates
      ensures Encodes(cells[i := cells[i].(star := true)])
    {
      SameColumns(cells, i, cells[i].(star := true));
      SetBitHolds(starStates, Stars(cells), i);
      starStates := SetBit(starStates, i);
    }

    method SetAccept(i: nat, value: int, ghost cells: seq<Cell>)
      requires Encodes(cells) && i < |cells|
      modifies this`acceptStates, this`values
      ensures |values| == old(|values|)
      ensures Encodes(cells[i := cells[i].(accept := true, value := value)])
    {
      SameColumns(cells, i, cells[i].(accept := true, value := value));
      SetBitHolds(acceptStates, Accepting(cells), i);
      acceptStates := SetBit(acceptStates, i);
      values := values[i := value];
    }

    method SetMask(c: byte, i: nat, ghost cells: seq<Cell>)
      requires Encodes(cells) && i < |cells|
      modifies this`charMasks
      ensures Encodes(cells[i := cells[i].(chars := cells[i].chars + {c})])
    {
      SameColumns(cells, i, cells[i].(chars := cells[i].chars + {c}));
      SetMaskBitHolds(charMasks, |initialStates|, cells, c, i);
      charMasks := SetMaskBit(charMasks, |initialStates|, c, i);
    }
  
    /** One more byte of text: a state entered by that byte alone. */
    method PushByte(state: nat, c: byte, ghost before: seq<Cell>, ghost es: seq<Elem>)
      requires Encodes(before + Open(Build(es))) && state == |before| + Width(es) + 1 < |values|
      modifies this`charMasks
      ensures Encodes(before + Open(Build(es + [Lit(c)])))
    {
      ghost var cells := before + Open(Build(es));
      NewCell(cells);
      OpenClass(es, {c});
      SetMask(c, state, cells + [BLANK]);
      assert BLANK.chars + {c} == {c};
      assert (cells + [BLANK])[state := BLANK.(chars := {c})] == before + Open(Build(es + [Lit(c)]));
    }

    /** A `?` or a bracket: a state entered by any byte of a class. */
    method PushClass(state: nat, cs: set<byte>, ghost before: seq<Cell>, ghost es: seq<Elem>)
      requires Encodes(before + Open(Build(es))) && state == |before| + Width(es) + 1 < |values|
      modifies this`charMasks
      ensures Encodes(before + Open(Build(es + [Class(cs)])))
    {
      ghost var cells := before + Open(Build(es));
      NewCell(cells);
      OpenClass(es, cs);
      var c: int := 0;
      ghost var seen: set<byte> := {};
      while c < 256
        invariant 0 <= c <= 256
        invariant seen == set d | d in cs && d < c
        invariant Encodes(cells + [BLANK.(chars := seen)])
      {
        if c in cs {
          SetMask(c, state, cells + [BLANK.(chars := seen)]);
          assert (cells + [BLANK.(chars := seen)])[state := BLANK.(chars := seen + {c})]
              == cells + [BLANK.(chars := seen + {c})];
          seen := seen + {c};
        }
        c := c + 1;
      }
      assert seen == cs;
      assert cells + [BLANK.(chars := cs)] == before + Open(Build(es + [Class(cs)]));
    }

    method PushStar(state: nat, ghost before: seq<Cell>, ghost es: seq<Elem>)
      requires Encodes(before + Open(Build(es))) && state == |before| + Width(es)
      modifies this`starStates
      ensures Encodes(before + Open(Build(es + [Any])))
    {
      ghost var cells := before + Open(Build(es));
      OpenAny(es);
      SetStar(state, cells);
      assert cells[state := cells[state].(star := true)] == before + Open(Build(es + [Any]));
    }

    method PushText(state: nat, w: Str, ghost before: seq<Cell>, ghost es: seq<Elem>) returns (n: nat)
      requires Encodes(before + Open(Build(es))) && state == |before| + Width(es)
      requires state + |w| < |values|
      modifies this`charMasks
      ensures Encodes(before + Open(Build(es + Lits(w)))) && n == |before| + Width(es + Lits(w))
    {
      n := state;
      assert es + Lits(w[..0]) == es;
      for j := 0 to |w|
        invariant Encodes(before + Open(Build(es + Lits(w[..j]))))
        invariant n == |before| + Width(es + Lits(w[..j])) == state + j
      {
        n := n + 1;
        PushByte(n, w[j], before, es + Lits(w[..j]));
        BuildSnoc(es + Lits(w[..j]), Lit(w[j]));
        assert (es + Lits(w[..j])) + [Lit(w[j])] == es + Lits(w[..j + 1]);
      }
      assert w[..|w|] == w;
    }

    method PushToken(t: Token, state: nat, ghost before: seq<Cell>, ghost es: seq<Elem>) returns (n: nat)
      requires Encodes(before + Open(Build(es))) && state == |before| + Width(es)
      requires |before| + Width(es + Elems(t)) < |values|
      modifies this`starStates, this`charMasks
      ensures Encodes(before + Open(Build(es + Elems(t)))) && n == |before| + Width(es + Elems(t))
    {
      match t
      case Text(w) =>
        WidthText(es, w);
        n := PushText(state, w, before, es);
      case Star =>
        BuildSnoc(es, Any);
        PushStar(state, before, es);
        n := state;
      case Question =>
        BuildSnoc(es, Class(ALL));
        n := state + 1;
        PushClass(n, ALL, before, es);
      case Bracket(cs) =>
        BuildSnoc(es, Class(cs));
        n := state + 1;
        PushClass(n, cs, before, es);
    }

    method PushTokens(ts: seq<Token>, first: nat, ghost before: seq<Cell>) returns (state: nat)
      requires Encodes(before + Open(Build([]))) && first == |before|
      requires |before| + Width(Flat(ts)) < |values|
      modifies this`starStates, this`charMasks
      ensures Encodes(before + Open(Build(Flat(ts)))) && state == |before| + Width(Flat(ts))
    {
      state := first;
      for k := 0 to |ts|
        invariant Encodes(before + Open(Build(Flat(ts[..k]))))
        invariant state == |before| + Width(Flat(ts[..k]))
      {
        FlatTake(ts, k);
        assert ts == ts[..k + 1] + ts[k + 1..];
        FlatJoin(ts[..k + 1], ts[k + 1..]);
        WidthGrows(Flat(ts[..k + 1]), Flat(ts[k + 1..]));
        state := PushToken(ts[k], state, before, Flat(ts[..k]));
      }
      assert ts[..|ts|] == ts;
    }

    /** Lays out one pattern after the ones before it. */
    method CompilePattern(p: Pattern, first: nat, ghost before: seq<Cell>) returns (next: nat)
      requires Encodes(before) && first == |before| && |before| + |Block(p)| <= |values|
      modifies this
      ensures |values| == old(|values|)
      ensures Encodes(before + Block(p)) && next == |before + Block(p)|
    {
      NewCell(before);
      SetInitial(first, before + [BLANK]);
      assert (before + [BLANK])[first := BLANK.(start := true)] == before + Open(Build([]));
      var state := PushTokens(p.tokens, first, before);
      ghost var cells := before + Open(Build(Flat(p.tokens)));
      SetAccept(state, p.value, cells);
      assert cells[state := cells[state].(accept := true, value := p.value)] == before + Block(p);
      next := state + 1;
    }

    /** Zeroed tables with room for so many states. */
    method Reserve(numStates: nat)
      modifies this
      ensures Encodes([]) && |values| == numStates
    {
      var numWords := (numStates + 63) / 64;
      initialStates := seq(numWords, _ => ZERO);
      starStates := seq(numWords, _ => ZERO);
      acceptStates := seq(numWords, _ => ZERO);
      charMasks := seq(256 * numWords, _ => ZERO);
      values := seq(numStates, _ => -1);
      forall c: byte ensures Holds(Row(charMasks, numWords, c), Entering([], c)) {
        RowInside(c, numWords);
      }
    }

    /** Nfa::compile, on a freshly made automaton. */
    method Compile(ps: seq<Pattern>)
      requires Encodes([]) && IsEmpty()
      modifies this
      ensures Encodes(Layout(ps)) && (ps != [] ==> !IsEmpty())
    {
      var numStates := CountStates(ps);
      Reserve(numStates);
      var state := 0;
      for k := 0 to |ps|
        invariant Encodes(Layout(ps[..k])) && |values| == numStates && state == |Layout(ps[..k])|
      {
        LayoutSnoc(ps, k);
        LayoutGrows(ps, k + 1);
        state := CompilePattern(ps[k], state, Layout(ps[..k]));
      }
      assert ps != [] ==> |Layout(ps)| >= |Block(ps[|ps| - 1])| > 0;
      assert ps[..|ps|] == ps;
    }

    ghost function OnBits(cells: seq<Cell>, t: Str): (r: Bits)
      ensures |r| == |cells|
    { seq(|cells|, i requires 0 <= i < |cells| => On(cells, i, t)) }

    lemma OnBitsNext(cells: seq<Cell>, str: Str, n: nat)
      requires n < |str|
      ensures NextBits(OnBits(cells, str[..n]), OnBits(cells, str[..n + 1]), Stars(cells), Entering(cells, str[n]))
    {
      assert str[..n + 1][..n] == str[..n];
    }

    /** Feeds the input to all patterns at once: after each byte the words hold exactly the
        states each pattern would be in on its own. */
    method Run(str: Str, ghost cells: seq<Cell>) returns (states: seq<Word>)
      requires Encodes(cells)
      ensures Holds(states, OnBits(cells, str)) && |states| == |initialStates|
    {
      states := initialStates;
      assert OnBits(cells, []) == Starts(cells);
      for n := 0 to |str|
        invariant |states| == |initialStates| && Holds(states, OnBits(cells, str[..n]))
      {
        var mask := Row(charMasks, |states|, str[n]);
        ghost var was := states;
        states := StepWords(states, starStates, mask);
        OnBitsNext(cells, str, n);
        SteppedHolds(was, states, starStates, mask, OnBits(cells, str[..n]), OnBits(cells, str[..n + 1]),
                     Stars(cells), Entering(cells, str[n]));
      }
      assert str[..|str|] == str;
    }

    ghost predicate Hit(cells: seq<Cell>, i: int, str: Str) {
      0 <= i < |cells| && cells[i].accept && On(cells, i, str)
    }

    /** The largest value of an accepting cell below n that is on, or -1. */
    ghost predicate IsBestHit(cells: seq<Cell>, str: Str, n: int, value: int) {
      && (value == -1 || exists i :: Hit(cells, i, str) && cells[i].value == value)
      && forall i :: i < n && Hit(cells, i, str) ==> cells[i].value <= value
    }

    lemma HitBits(cells: seq<Cell>, str: Str, states: seq<Word>, k: int, b: int)
      requires Encodes(cells) && Holds(states, OnBits(cells, str)) && |states| == |initialStates|
      requires 0 <= k < |states| && 0 <= b < 64
      ensures And(states[k], acceptStates[k])[b] <==> Hit(cells, 64 * k + b, str)
    {
      assert states[k][b] <==> 64 * k + b < |cells| && OnBits(cells, str)[64 * k + b];
      assert acceptStates[k][b] <==> 64 * k + b < |cells| && Accepting(cells)[64 * k + b];
    }

    lemma BestHit(ps: seq<Pattern>, str: Str, value: int)
      requires IsBestHit(Layout(ps), str, |Layout(ps)|, value)
      ensures IsBest(value, iset p | p in ps && Matches(p.tokens, str) :: p.value)
    {
      if value != -1 {
        var i :| Hit(Layout(ps), i, str) && Layout(ps)[i].value == value;
        AcceptingCell(ps, i, str);
      }
      forall p | p in ps && Matches(p.tokens, str) ensures p.value <= value {
        var k :| 0 <= k < |ps| && ps[k] == p;
        var i := CellOf(ps, k, str);
        assert Hit(Layout(ps), i, str);
      }
    }

    /** The largest value of an accepting state that is on, or -1. */
    method BestState(states: seq<Word>, ghost cells: seq<Cell>, ghost str: Str) returns (value: int)
      requires Encodes(cells) && Holds(states, OnBits(cells, str)) && |states| == |initialStates|
      ensures IsBestHit(cells, str, |cells|, value)
    {
      value := -1;
      for k := 0 to |states|
        invariant IsBestHit(cells, str, 64 * k, value)
      {
        var word := And(states[k], acceptStates[k]);
        forall b | 0 <= b < 64 ensures word[b] <==> Hit(cells, 64 * k + b, str) {
          HitBits(cells, str, states, k, b);
        }
        ghost var best := value;
        value := BestInWord(word, values, 64 * k, value);
        if value != best {
          ghost var b :| 0 <= b < 64 && word[b] && values[64 * k + b] == value;
          assert Hit(cells, 64 * k + b, str);
        }
        forall i | i < 64 * (k + 1) && Hit(cells, i, str) ensures cells[i].value <= value {
          if i >= 64 * k { assert word[i - 64 * k]; }
        }
      }
    }

    /** Nfa::match: the largest value of a matching pattern, or -1. */
    method Match(str: Str, ghost ps: seq<Pattern>) returns (value: int)
      requires Encodes(Layout(ps))
      ensures IsBest(value, iset p | p in ps && Matches(p.tokens, str) :: p.value)
    {
      ghost var cells := Layout(ps);
      var states := Run(str, cells);
      value := BestState(states, cells, str);
      BestHit(ps, str, value);
    }
  }

  /** Scans the set bits of one word, lowest first, for the largest value. */
  method BestInWord(bits: Word, values: seq<int>, base: nat, best: int) returns (r: int)
    requires forall b :: 0 <= b < 64 && bits[b] ==> base + b < |values|
    ensures best <= r && (r == best || exists b :: 0 <= b < 64 && bits[b] && values[base + b] == r)
    ensures forall b :: 0 <= b < 64 && bits[b] ==> values[base + b] <= r
  {
    r := best;
    var word := bits;
    ghost var done := 0;
    while word != ZERO
      invariant 0 <= done <= 64
      invariant forall b :: 0 <= b < 64 ==> (word[b] <==> bits[b] && done <= b)
      invariant best <= r && (r == best || exists b :: 0 <= b < 64 && bits[b] && values[base + b] == r)
      invariant forall b :: 0 <= b < done && bits[b] ==> values[base + b] <= r
      decreases 64 - done
    {
      var bit := CountrZero(word);
      if r < values[base + bit] { r := values[base + bit]; }
      forall b | 0 <= b < 64 ensures word[b] && Decrement(word)[b] <==> word[b] && b != bit {
        DecrementAt(word, bit, b);
      }
      word := And(word, Decrement(word));
      done := bit + 1;
    }
  }
}
