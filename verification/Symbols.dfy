/** Symbol resolution. Every file claims, under each symbol's lock, the symbols it defines; the
    claims of all files may come in any order. */
module Symbols {

  const RANK_UNIT := 0x1000000
  const UNCLAIMED := 7 * RANK_UNIT

  /** A symbol table entry of a file. */
  datatype Elf = Elf(common: bool, weak: bool, value: int, version: int)

  datatype File = File(isDso: bool, reachable: bool, priority: int, syms: seq<Elf>)

  /** File `file` claims symbol `sym` with its entry `idx`. A proxy claim is a shared library's
      claim on the versioned name of a symbol that has the default version. */
  datatype Claim = Claim(sym: int, file: int, idx: int, proxy: bool)

  /** A symbol; `file` is -1 if no file has claimed it. */
  datatype Symbol = Symbol(file: int, idx: int, proxy: bool, fields: Fields)

  datatype Fields = Fields(value: int, version: int, weak: bool)

  const CLEARED := Symbol(-1, -1, false, Fields(-1, -1, false))

  datatype Link = Link(files: seq<File>, defaultVersion: int) {
    ghost predicate Valid() {
      && (forall f :: 0 <= f < |files| ==> 0 <= files[f].priority < RANK_UNIT)
      && (forall f, g :: 0 <= f < g < |files| ==> files[f].priority != files[g].priority)
    }

    predicate HasEntry(f: int, i: int) {
      && 0 <= f < |files| && 0 <= i < |files[f].syms|
      && (files[f].syms[i].common ==> !files[f].isDso)
    }
  }

  // ----- Ranks -----

  function SymRank(file: File, e: Elf, inArchive: bool): (r: int)
    ensures 1 <= r <= 6
  {
    if e.common then if inArchive then 6 else 5
    else if file.isDso || inArchive then if e.weak then 4 else 3
    else if e.weak then 2 else 1
  }

  function Rank(file: File, e: Elf, inArchive: bool): int {
    SymRank(file, e, inArchive) * RANK_UNIT + file.priority
  }

  /** get_rank(sym): the rank of the definition the symbol is bound to. */
  function SymbolRank(l: Link, s: Symbol): int
    requires s.file == -1 || l.HasEntry(s.file, s.idx)
  {
    if s.file == -1 then UNCLAIMED
    else Rank(l.files[s.file], l.files[s.file].syms[s.idx], !l.files[s.file].reachable)
  }

  /** The rank a claim competes with: shared libraries ignore whether they are reachable. */
  function ClaimRank(l: Link, c: Claim): int
    requires l.HasEntry(c.file, c.idx)
  {
    var file := l.files[c.file];
    Rank(file, file.syms[c.idx], if file.isDso then false else !file.reachable)
  }

  /** A claim that has been accepted competes with the rank it had. */
  lemma AcceptedRank(l: Link, c: Claim)
    requires l.HasEntry(c.file, c.idx)
    ensures forall p, fields :: SymbolRank(l, Symbol(c.file, c.idx, p, fields)) == ClaimRank(l, c)
  {
  }

  function Kind(l: Link, c: Claim): int
    requires l.HasEntry(c.file, c.idx)
  {
    SymRank(l.files[c.file], l.files[c.file].syms[c.idx], !l.files[c.file].reachable)
  }

  /** Kind first, then file priority; and no real definition ranks with an unclaimed symbol. */
  lemma RankOrder(l: Link, a: Claim, b: Claim)
    requires l.Valid() && l.HasEntry(a.file, a.idx) && l.HasEntry(b.file, b.idx)
    ensures ClaimRank(l, a) < ClaimRank(l, b) <==>
      || Kind(l, a) < Kind(l, b)
      || (Kind(l, a) == Kind(l, b) && l.files[a.file].priority < l.files[b.file].priority)
    ensures ClaimRank(l, a) < UNCLAIMED
    ensures ClaimRank(l, a) == ClaimRank(l, b) ==> a.file == b.file
  {
    var f, g := l.files[a.file], l.files[b.file];
    if ClaimRank(l, a) == ClaimRank(l, b) {
      assert f.priority == g.priority;
    }
  }

  /** Defined in an object file that is part of the link. */
  predicate InObject(l: Link, c: Claim)
    requires l.HasEntry(c.file, c.idx)
  {
    !l.files[c.file].isDso && l.files[c.file].reachable && !l.files[c.file].syms[c.idx].common
  }

  /** Which of two definitions of different kinds is taken, whatever the file priorities. */
  lemma Preferences(l: Link, a: Claim, b: Claim)
    requires l.Valid() && l.HasEntry(a.file, a.idx) && l.HasEntry(b.file, b.idx)
    ensures var e, f := l.files[a.file].syms[a.idx], l.files[b.file].syms[b.idx];
      var better := ClaimRank(l, a) < ClaimRank(l, b);
      && (InObject(l, a) && !InObject(l, b) ==> better)
      && (!e.common && f.common ==> better)
      && ((InObject(l, a) <==> InObject(l, b)) && !e.common && !f.common && !e.weak && f.weak ==> better)
      && (e.common && f.common && l.files[a.file].reachable && !l.files[b.file].reachable ==> better)
  {
    RankOrder(l, a, b);
  }

  /** The documented order, read off the entries: a real definition before a common symbol, one in
      a linked object file before the others, strong before weak, and last the file's priority. */
  ghost predicate Better(l: Link, a: Claim, b: Claim)
    requires l.HasEntry(a.file, a.idx) && l.HasEntry(b.file, b.idx)
  {
    var f, g := l.files[a.file], l.files[b.file];
    var d, e := f.syms[a.idx], g.syms[b.idx];
    if d.common != e.common then e.common
    else if d.common && f.reachable != g.reachable then f.reachable
    else if !d.common && InObject(l, a) != InObject(l, b) then InObject(l, a)
    else if !d.common && d.weak != e.weak then e.weak
    else f.priority < g.priority
  }

  lemma RankIsBetter(l: Link, a: Claim, b: Claim)
    requires l.Valid() && l.HasEntry(a.file, a.idx) && l.HasEntry(b.file, b.idx)
    ensures ClaimRank(l, a) < ClaimRank(l, b) <==> Better(l, a, b)
  {
    RankOrder(l, a, b);
  }

  // ----- Resolution -----

  function Recorded(l: Link, c: Claim): Fields
    requires l.HasEntry(c.file, c.idx)
  {
    var file := l.files[c.file];
    var e := file.syms[c.idx];
    if file.isDso then Fields(e.value, e.version, true) else Fields(e.value, l.defaultVersion, e.weak)
  }

  /** One claim under the symbol's lock. A proxy claim leaves the recorded fields alone. */
  function Resolve(l: Link, s: Symbol, c: Claim): Symbol
    requires s.file == -1 || l.HasEntry(s.file, s.idx)
    requires l.HasEntry(c.file, c.idx)
  {
    if ClaimRank(l, c) < SymbolRank(l, s)
    then Symbol(c.file, c.idx, c.proxy, if c.proxy then s.fields else Recorded(l, c))
    else s
  }

  ghost predicate Claims(l: Link, claims: seq<Claim>) {
    forall c :: c in claims ==> l.HasEntry(c.file, c.idx)
  }

  /** One definition of a symbol per file. */
  ghost predicate OnePerFile(claims: seq<Claim>) {
    forall c, d :: c in claims && d in claims && c.sym == d.sym && c.file == d.file ==> c == d
  }

  /** The symbol x after the claims in the order given, starting with a cleared symbol. */
  ghost function Run(l: Link, claims: seq<Claim>, x: int): (s: Symbol)
    requires Claims(l, claims)
    ensures if s.file == -1 then s == CLEARED else l.HasEntry(s.file, s.idx)
  {
    if claims == [] then CLEARED else
      var c := claims[|claims| - 1];
      var before := Run(l, claims[..|claims| - 1], x);
      if c.sym == x then Resolve(l, before, c) else before
  }

  ghost predicate Bound(s: Symbol, c: Claim) { s.file == c.file && s.idx == c.idx && s.proxy == c.proxy }

  ghost predicate Claimed(claims: seq<Claim>, x: int, c: Claim) { c in claims && c.sym == x }

  lemma {:induction false} LowestSoFar(l: Link, claims: seq<Claim>, x: int)
    requires l.Valid() && Claims(l, claims)
    ensures var s := Run(l, claims, x);
      && (s.file != -1 ==> exists c :: Claimed(claims, x, c) && Bound(s, c))
      && (forall c :: Claimed(claims, x, c) ==> SymbolRank(l, s) <= ClaimRank(l, c))
      && SymbolRank(l, s) <= UNCLAIMED
  {
    if claims != [] {
      var last := claims[|claims| - 1];
      var rest := claims[..|claims| - 1];
      assert forall c :: c in claims <==> c in rest || c == last;
      LowestSoFar(l, rest, x);
      var before, s := Run(l, rest, x), Run(l, claims, x);
      AcceptedRank(l, last);
      if s == before && s.file != -1 {
        var c :| Claimed(rest, x, c) && Bound(before, c);
        assert Claimed(claims, x, c);
      } else if s != before {
        assert Claimed(claims, x, last) && Bound(s, last);
      }
      forall c | Claimed(claims, x, c) ensures SymbolRank(l, s) <= ClaimRank(l, c) {
        if c in rest {
          assert Claimed(rest, x, c);
        }
      }
    }
  }

  /** Whatever the order of the claims, a symbol nobody claims stays unclaimed, and any other
      is bound to the claim of the lowest rank; every other claim ranks strictly higher. */
  lemma LowestRankWins(l: Link, claims: seq<Claim>, x: int)
    requires l.Valid() && Claims(l, claims) && OnePerFile(claims)
    ensures var s := Run(l, claims, x);
      if s.file == -1 then forall c :: !Claimed(claims, x, c)
      else exists c :: Claimed(claims, x, c) && Bound(s, c) && IsLowest(l, claims, c)
  {
    LowestSoFar(l, claims, x);
    var s := Run(l, claims, x);
    if s.file == -1 {
      forall c ensures !Claimed(claims, x, c) {
        if Claimed(claims, x, c) {
          RankOrder(l, c, c);
        }
      }
    } else {
      var c :| Claimed(claims, x, c) && Bound(s, c);
      AcceptedRank(l, c);
      forall d | Claimed(claims, x, d) && d != c ensures ClaimRank(l, c) < ClaimRank(l, d) {
        RankOrder(l, c, d);
      }
    }
  }

  /** In every order of the claims, the definition a symbol is bound to is better than all others. */
  lemma BestClaimWins(l: Link, claims: seq<Claim>, x: int, d: Claim)
    requires l.Valid() && Claims(l, claims) && OnePerFile(claims) && Claimed(claims, x, d)
    ensures var s := Run(l, claims, x);
      s.file != -1 && (Bound(s, d) || exists c :: Claimed(claims, x, c) && Bound(s, c) && Better(l, c, d))
  {
    LowestRankWins(l, claims, x);
    var s := Run(l, claims, x);
    var c :| Claimed(claims, x, c) && Bound(s, c) && IsLowest(l, claims, c);
    if c != d { RankIsBetter(l, c, d); }
  }

  ghost predicate IsLowest(l: Link, claims: seq<Claim>, c: Claim)
    requires Claims(l, claims) && c in claims
  {
    forall d :: Claimed(claims, c.sym, d) && d != c ==> ClaimRank(l, c) < ClaimRank(l, d)
  }

  /** Two orders of the same claims, repeats allowed, bind every symbol alike. */
  lemma OrderDoesNotMatter(l: Link, a: seq<Claim>, b: seq<Claim>, x: int)
    requires l.Valid() && Claims(l, a) && OnePerFile(a)
    requires forall c :: c in a <==> c in b
    ensures var s, t := Run(l, a, x), Run(l, b, x); s.file == t.file && s.idx == t.idx && s.proxy == t.proxy
  {
    LowestRankWins(l, a, x);
    LowestRankWins(l, b, x);
    var s, t := Run(l, a, x), Run(l, b, x);
    if s.file != -1 {
      var c :| Claimed(a, x, c) && Bound(s, c) && IsLowest(l, a, c);
      assert Claimed(b, x, c);
      var d :| Claimed(b, x, d) && Bound(t, d) && IsLowest(l, b, d);
      assert Claimed(a, x, d);
    } else if t.file != -1 {
      var d :| Claimed(b, x, d) && Bound(t, d) && IsLowest(l, b, d);
      assert Claimed(a, x, d);
    }
  }

  // ----- The fields recorded with the binding -----

  /** A symbol nobody claims is as clear_symbols() left it. */
  lemma NobodyClaims(l: Link, claims: seq<Claim>, x: int)
    requires l.Valid() && Claims(l, claims) && OnePerFile(claims) && forall c :: !Claimed(claims, x, c)
    ensures Run(l, claims, x) == Symbol(-1, -1, false, Fields(-1, -1, false))
  {
    LowestRankWins(l, claims, x);
  }

  lemma {:induction false} DirectRecords(l: Link, claims: seq<Claim>, x: int)
    requires l.Valid() && Claims(l, claims)
    ensures var s := Run(l, claims, x);
      s.file != -1 && !s.proxy ==> s.fields == Recorded(l, Claim(x, s.file, s.idx, false))
  {
    if claims != [] {
      DirectRecords(l, claims[..|claims| - 1], x);
    }
  }

  /** In every order, a direct winner's symbol has its entry's value, an object file's default
      version or a library's own one, and is weak if the entry is or comes from a library. */
  lemma DirectFields(l: Link, claims: seq<Claim>, x: int)
    requires l.Valid() && Claims(l, claims)
    ensures var s := Run(l, claims, x);
      s.file != -1 && !s.proxy ==>
        var f := l.files[s.file];
        && s.fields.value == f.syms[s.idx].value
        && s.fields.version == (if f.isDso then f.syms[s.idx].version else l.defaultVersion)
        && s.fields.weak == (f.isDso || f.syms[s.idx].weak)
  {
    DirectRecords(l, claims, x);
  }

  /** A proxy's fields are left over from a direct claim that came before, if any did. */
  lemma {:induction false} ProxyFields(l: Link, claims: seq<Claim>, x: int)
    requires l.Valid() && Claims(l, claims)
    requires forall c :: Claimed(claims, x, c) && !c.proxy ==> Recorded(l, c) == CLEARED.fields
    ensures Run(l, claims, x).fields == CLEARED.fields
  {
    if claims != [] {
      var last := claims[|claims| - 1];
      var rest := claims[..|claims| - 1];
      forall c | Claimed(rest, x, c) ensures Claimed(claims, x, c) {
      }
      ProxyFields(l, rest, x);
      assert last.sym == x ==> Claimed(claims, x, last);
    }
  }

  /** No claim displaces a lower one. */
  lemma {:induction false} LowestStays(l: Link, first: seq<Claim>, more: seq<Claim>, w: Claim)
    requires Claims(l, first + more) && Claims(l, first)
    requires Bound(Run(l, first, w.sym), w) && l.HasEntry(w.file, w.idx)
    requires forall d :: Claimed(more, w.sym, d) ==> l.HasEntry(d.file, d.idx) && ClaimRank(l, w) <= ClaimRank(l, d)
    ensures Run(l, first + more, w.sym) == Run(l, first, w.sym)
    decreases |more|
  {
    if more == [] {
      assert first + more == first;
    } else {
      var last := more[|more| - 1];
      var rest := more[..|more| - 1];
      var all := first + more;
      assert all[..|all| - 1] == first + rest && all[|all| - 1] == last;
      forall d | Claimed(rest, w.sym, d) ensures Claimed(more, w.sym, d) {
      }
      LowestStays(l, first, rest, w);
      AcceptedRank(l, w);
      assert last.sym == w.sym ==> Claimed(more, w.sym, last);
    }
  }

  lemma SameMembers(a: seq<Claim>, b: seq<Claim>)
    requires multiset(a) == multiset(b)
    ensures forall c :: c in a <==> c in b
  {
    forall c ensures c in a <==> c in b {
      assert c in multiset(a) <==> c in multiset(b);
    }
  }

  /** b is a permutation of the claims; the second half follows from that. */
  ghost predicate Reordered(l: Link, claims: seq<Claim>, b: seq<Claim>) {
    multiset(claims) == multiset(b) && Claims(l, b)
  }

  /** The whole symbol, fields included, is the same in every order. */
  ghost predicate Determined(l: Link, claims: seq<Claim>, x: int)
    requires Claims(l, claims)
  {
    forall b :: Reordered(l, claims, b) ==> Run(l, b, x) == Run(l, claims, x)
  }

  /** No proxy wins over a direct claim that has something to record. */
  ghost predicate NothingLeftOver(l: Link, claims: seq<Claim>, x: int)
    requires Claims(l, claims)
  {
    forall w, c ::
      Claimed(claims, x, w) && w.proxy && IsLowest(l, claims, w) && Claimed(claims, x, c) && !c.proxy ==>
      Recorded(l, c) == CLEARED.fields
  }

  /** The claims without one occurrence of c. */
  ghost function Without(claims: seq<Claim>, c: Claim): (r: seq<Claim>)
    requires c in claims
    ensures multiset(claims) == multiset([c] + r)
  {
    assert claims == [claims[0]] + claims[1..];
    if claims[0] == c then claims[1..] else [claims[0]] + Without(claims[1..], c)
  }

  lemma StaysInside(claims: seq<Claim>, w: Claim, c: Claim)
    requires w in claims && c in claims && c != w
    ensures c in Without(claims, w)
    ensures multiset(claims) == multiset([c, w] + Without(Without(claims, w), c))
  {
    var rest := Without(claims, w);
    SameMembers(claims, [w] + rest);
    assert c in rest;
    Front([c, w], Without(rest, c));
  }

  lemma Front(pair: seq<Claim>, rest: seq<Claim>)
    ensures multiset(pair + rest) == multiset(pair) + multiset(rest)
  {
  }

  /** Behind the winner, the order of the others does not matter. */
  lemma WinnerFirst(l: Link, claims: seq<Claim>, first: seq<Claim>, rest: seq<Claim>, w: Claim)
    requires Claims(l, claims) && Claims(l, first) && multiset(claims) == multiset(first + rest)
    requires w in claims && IsLowest(l, claims, w) && Bound(Run(l, first, w.sym), w)
    ensures Reordered(l, claims, first + rest) && Run(l, first + rest, w.sym) == Run(l, first, w.sym)
  {
    SameMembers(claims, first + rest);
    forall d | Claimed(rest, w.sym, d) ensures l.HasEntry(d.file, d.idx) && ClaimRank(l, w) <= ClaimRank(l, d) {
      assert d in first + rest;
      assert Claimed(claims, w.sym, d);
    }
    LowestStays(l, first, rest, w);
  }

  /** A proxy alone, and behind a direct claim that ranks higher. */
  lemma ProxyRuns(l: Link, w: Claim, c: Claim)
    requires l.Valid() && Claims(l, [w]) && Claims(l, [c, w]) && w.sym == c.sym && w.proxy && !c.proxy
    requires l.HasEntry(w.file, w.idx) && l.HasEntry(c.file, c.idx) && ClaimRank(l, w) < ClaimRank(l, c)
    ensures Bound(Run(l, [w], w.sym), w) && Run(l, [w], w.sym).fields == CLEARED.fields
    ensures Bound(Run(l, [c, w], w.sym), w) && Run(l, [c, w], w.sym).fields == Recorded(l, c)
  {
    RankOrder(l, w, w);
    RankOrder(l, c, c);
    assert [w][..0] == [] && [c][..0] == [] && [c, w][..1] == [c];
    AcceptedRank(l, c);
  }

  /** The winning proxy first, or right after a direct claim. */
  lemma LeftOver(l: Link, claims: seq<Claim>, x: int, w: Claim, c: Claim)
    requires l.Valid() && Claims(l, claims) && OnePerFile(claims)
    requires Claimed(claims, x, w) && w.proxy && IsLowest(l, claims, w)
    requires Claimed(claims, x, c) && !c.proxy
    ensures c in Without(claims, w)
    ensures var a, b := [w] + Without(claims, w), [c, w] + Without(Without(claims, w), c);
      && Reordered(l, claims, a) && Run(l, a, x).fields == CLEARED.fields
      && Reordered(l, claims, b) && Run(l, b, x).fields == Recorded(l, c)
  {
    ProxyRuns(l, w, c);
    StaysInside(claims, w, c);
    WinnerFirst(l, claims, [w], Without(claims, w), w);
    WinnerFirst(l, claims, [c, w], Without(Without(claims, w), c), w);
  }

  lemma OrderShows(l: Link, claims: seq<Claim>, x: int, a: seq<Claim>, b: seq<Claim>)
    requires Claims(l, claims) && Reordered(l, claims, a) && Reordered(l, claims, b)
    requires Run(l, a, x) != Run(l, b, x)
    ensures !Determined(l, claims, x)
  {
  }

  /** Exactly when the order does not show in the symbol's value, version and weakness. */
  lemma FieldsAreDetermined(l: Link, claims: seq<Claim>, x: int)
    requires l.Valid() && Claims(l, claims) && OnePerFile(claims)
    ensures Determined(l, claims, x) <==> NothingLeftOver(l, claims, x)
  {
    if NothingLeftOver(l, claims, x) {
      forall b | Reordered(l, claims, b) ensures Run(l, b, x) == Run(l, claims, x) {
        SameFields(l, claims, b, x);
      }
    } else {
      var w, c :|
        Claimed(claims, x, w) && w.proxy && IsLowest(l, claims, w) && Claimed(claims, x, c) && !c.proxy &&
        Recorded(l, c) != CLEARED.fields;
      LeftOver(l, claims, x, w, c);
      OrderShows(l, claims, x, [w] + Without(claims, w), [c, w] + Without(Without(claims, w), c));
    }
  }

  const EXAMPLE := Link([File(false, false, 1, [Elf(false, true, 8, 0)]),
                         File(true, true, 2, [Elf(false, false, 16, 3)])], 2)
  const MEMBER := Claim(0, 0, 0, false)
  const LIBRARY := Claim(0, 1, 0, true)

  lemma ExampleIsLowest()
    ensures EXAMPLE.Valid() && OnePerFile([MEMBER, LIBRARY])
    ensures Claims(EXAMPLE, [MEMBER, LIBRARY]) && IsLowest(EXAMPLE, [MEMBER, LIBRARY], LIBRARY)
    ensures Recorded(EXAMPLE, MEMBER).value == 8
  {
  }

  lemma ExampleOrders()
    ensures Without([MEMBER, LIBRARY], LIBRARY) == [MEMBER] && Without([MEMBER], MEMBER) == []
    ensures [LIBRARY] + [MEMBER] == [LIBRARY, MEMBER] && [MEMBER, LIBRARY] + [] == [MEMBER, LIBRARY]
  {
    assert [MEMBER, LIBRARY][1..] == [LIBRARY];
  }

  /** It can show: a weak definition in an unextracted archive member loses to a library's
      default version, and leaves its value behind exactly if it came first. */
  lemma StaleFields()
    ensures EXAMPLE.Valid() && OnePerFile([MEMBER, LIBRARY])
    ensures Claims(EXAMPLE, [MEMBER, LIBRARY]) && Claims(EXAMPLE, [LIBRARY, MEMBER])
    ensures Run(EXAMPLE, [MEMBER, LIBRARY], 0).fields.value == 8
    ensures Run(EXAMPLE, [LIBRARY, MEMBER], 0).fields.value == -1
    ensures !Determined(EXAMPLE, [MEMBER, LIBRARY], 0)
  {
    var claims := [MEMBER, LIBRARY];
    ExampleIsLowest();
    ExampleOrders();
    assert Claimed(claims, 0, MEMBER) && Claimed(claims, 0, LIBRARY);
    LeftOver(EXAMPLE, claims, 0, LIBRARY, MEMBER);
    OrderShows(EXAMPLE, claims, 0, [LIBRARY, MEMBER], claims);
  }

  lemma SameFields(l: Link, a: seq<Claim>, b: seq<Claim>, x: int)
    requires l.Valid() && Claims(l, a) && OnePerFile(a) && Reordered(l, a, b) && NothingLeftOver(l, a, x)
    ensures Run(l, a, x) == Run(l, b, x)
  {
    SameMembers(a, b);
    OrderDoesNotMatter(l, a, b, x);
    var s := Run(l, a, x);
    if s.file != -1 {
      if s.proxy {
        LowestRankWins(l, a, x);
        ProxyFields(l, a, x);
        assert forall c :: Claimed(b, x, c) ==> Claimed(a, x, c);
        ProxyFields(l, b, x);
      } else {
        DirectRecords(l, a, x);
        DirectRecords(l, b, x);
      }
    }
  }
}
