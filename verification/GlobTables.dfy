/** What each of the matchers behind a Glob holds, in terms of the patterns added. */
module GlobTables {
  import opened Bytes
  import opened GlobSyntax
  import opened GlobPattern
  import opened GlobRoutes
  import AC = AhoCorasick

  datatype Entry = Entry(pat: Str, value: int)

  /** The values of the added patterns that hit `str`. */
  ghost function Wanted(added: set<Entry>, str: Str): iset<int> {
    iset e | e in added && Hits(e.pat, str) :: e.value
  }

  ghost function WantedBy(added: set<Entry>, route: Route, str: Str): iset<int> {
    iset e | e in added && RouteOf(e.pat) == route && Hits(e.pat, str) :: e.value
  }

  lemma WantedByRoute(added: set<Entry>, str: Str)
    ensures Wanted(added, str) ==
      WantedBy(added, Everything, str) + WantedBy(added, Exact, str) + WantedBy(added, Prefix, str) +
      WantedBy(added, Suffix, str) + WantedBy(added, Tokens, str) + WantedBy(added, Substring, str)
  {
    var all :=
      WantedBy(added, Everything, str) + WantedBy(added, Exact, str) + WantedBy(added, Prefix, str) +
      WantedBy(added, Suffix, str) + WantedBy(added, Tokens, str) + WantedBy(added, Substring, str);
    forall v | v in Wanted(added, str) ensures v in all {
      var e :| e in added && Hits(e.pat, str) && e.value == v;
      assert v in WantedBy(added, RouteOf(e.pat), str);
    }
    forall route ensures WantedBy(added, route, str) <= Wanted(added, str) {
    }
  }

  /** r is the larger of v and the best of the given values. */
  ghost predicate Raises(v: int, r: int, vals: iset<int>) {
    && v <= r && (r == v || r in vals)
    && forall x :: x in vals ==> x <= r
  }

  lemma RaisesMore(v: int, r: int, vals: iset<int>, hit: bool, x: int, r': int)
    requires Raises(v, r, vals) && r' == if hit && r < x then x else r
    ensures Raises(v, r', vals + If(hit, x))
  {
  }

  lemma BestRaised(v: int, r: int, a: iset<int>, b: iset<int>)
    requires IsBest(v, a) && Raises(v, r, b)
    ensures IsBest(r, a + b)
  {
  }

  lemma BestRaises(v: int, x: int, b: iset<int>)
    requires IsBest(x, b) && v >= -1
    ensures Raises(v, AC.Max(v, x), b)
  {
  }

  // ----- What the fields hold -----

  ghost predicate HoldsAll(added: set<Entry>, matchAll: int) {
    IsBest(matchAll, iset e | e in added && RouteOf(e.pat) == Everything :: e.value)
  }

  ghost predicate Covered(e: Entry, exacts: seq<Entry>) {
    exists x :: x in exacts && x.pat == e.pat && e.value <= x.value
  }

  /** At least one entry per name, with its largest value. */
  ghost predicate HoldsExact(added: set<Entry>, exacts: seq<Entry>) {
    && (forall x :: x in exacts ==> x in added && RouteOf(x.pat) == Exact)
    && (forall e {:trigger Covered(e, exacts)} :: e in added && RouteOf(e.pat) == Exact ==> Covered(e, exacts))
  }

  ghost function Starred(x: Entry): Entry { Entry(x.pat + [STAR], x.value) }

  ghost predicate FromPrefix(x: Entry, added: set<Entry>) { Starred(x) in added && RouteOf(Starred(x).pat) == Prefix }

  ghost predicate HasPrefix(e: Entry, prefixes: seq<Entry>) {
    e.pat != [] && Entry(e.pat[..|e.pat| - 1], e.value) in prefixes
  }

  ghost predicate HoldsPrefix(added: set<Entry>, prefixes: seq<Entry>) {
    && (forall x {:trigger FromPrefix(x, added)} :: x in prefixes ==> FromPrefix(x, added))
    && (forall e {:trigger HasPrefix(e, prefixes)} :: e in added && RouteOf(e.pat) == Prefix ==> HasPrefix(e, prefixes))
  }

  ghost function StarBefore(x: Entry): Entry { Entry([STAR] + x.pat, x.value) }

  ghost predicate FromSuffix(x: Entry, added: set<Entry>) {
    StarBefore(x) in added && RouteOf(StarBefore(x).pat) == Suffix
  }

  ghost predicate HasSuffix(e: Entry, suffixes: seq<Entry>) { e.pat != [] && Entry(e.pat[1..], e.value) in suffixes }

  ghost predicate HoldsSuffix(added: set<Entry>, suffixes: seq<Entry>) {
    && (forall x {:trigger FromSuffix(x, added)} :: x in suffixes ==> FromSuffix(x, added))
    && (forall e {:trigger HasSuffix(e, suffixes)} :: e in added && RouteOf(e.pat) == Suffix ==> HasSuffix(e, suffixes))
  }

  /** The pattern is a compilation of the entry. */
  ghost predicate Compiles(e: Entry, p: Pattern) {
    Read(e.pat).Some? && Flat(p.tokens) == Squeeze(Read(e.pat).value) && p.value == e.value
  }

  ghost predicate FromEntry(p: Pattern, added: set<Entry>) {
    exists e :: e in added && RouteOf(e.pat) == Tokens && Compiles(e, p)
  }

  ghost predicate HasPattern(e: Entry, ps: seq<Pattern>) {
    exists p :: p in ps && Compiles(e, p)
  }

  ghost predicate HoldsTokens(added: set<Entry>, ps: seq<Pattern>) {
    && (forall p {:trigger FromEntry(p, added)} :: p in ps ==> FromEntry(p, added))
    && (forall e {:trigger HasPattern(e, ps)} :: e in added && RouteOf(e.pat) == Tokens ==> HasPattern(e, ps))
  }

  ghost predicate KeyFrom(k: Str, v: int, added: set<Entry>) {
    exists e :: e in added && RouteOf(e.pat) == Substring && AC.Key(e.pat) == k && e.value == v
  }

  ghost predicate HoldsSubstring(added: set<Entry>, best: map<Str, int>) {
    && (forall k {:trigger KeyFrom(k, best[k], added)} :: k in best ==> KeyFrom(k, best[k], added))
    && (forall e {:trigger HasKey(e, best)} :: e in added && RouteOf(e.pat) == Substring ==> HasKey(e, best))
  }

  ghost predicate HasKey(e: Entry, best: map<Str, int>)
    requires RouteOf(e.pat) == Substring
  {
    AC.Key(e.pat) in best && e.value <= best[AC.Key(e.pat)]
  }

  // ----- Adding an entry changes one of them -----

  lemma AddAll(added: set<Entry>, matchAll: int, e: Entry)
    requires HoldsAll(added, matchAll) && e.value >= 0
    ensures HoldsAll(added + {e}, if RouteOf(e.pat) == Everything then AC.Max(matchAll, e.value) else matchAll)
  {
    var a := iset x | x in added && RouteOf(x.pat) == Everything :: x.value;
    var b := iset x | x in added + {e} && RouteOf(x.pat) == Everything :: x.value;
    if RouteOf(e.pat) == Everything {
      assert e in added + {e};
      assert b == a + iset{e.value};
    } else {
      assert b == a;
    }
  }

  lemma AddExact(added: set<Entry>, exacts: seq<Entry>, e: Entry)
    requires HoldsExact(added, exacts)
    ensures HoldsExact(added + {e}, if RouteOf(e.pat) == Exact then exacts + [e] else exacts)
  {
    var now := if RouteOf(e.pat) == Exact then exacts + [e] else exacts;
    forall d | d in added + {e} && RouteOf(d.pat) == Exact ensures Covered(d, now) {
      if d in added {
        assert Covered(d, exacts);
        var x :| x in exacts && x.pat == d.pat && d.value <= x.value;
        assert x in now;
      } else {
        assert e in now;
      }
    }
  }

  lemma AddPrefix(added: set<Entry>, prefixes: seq<Entry>, e: Entry)
    requires HoldsPrefix(added, prefixes)
    ensures HoldsPrefix(added + {e},
      if RouteOf(e.pat) == Prefix then prefixes + [Entry(e.pat[..|e.pat| - 1], e.value)] else prefixes)
  {
    var now := if RouteOf(e.pat) == Prefix then prefixes + [Entry(e.pat[..|e.pat| - 1], e.value)] else prefixes;
    forall x | x in now ensures FromPrefix(x, added + {e}) {
      if x in prefixes {
        assert FromPrefix(x, added);
      } else {
        assert e.pat[..|e.pat| - 1] + [STAR] == e.pat;
      }
    }
    forall d | d in added + {e} && RouteOf(d.pat) == Prefix ensures HasPrefix(d, now) {
      if d in added {
        assert HasPrefix(d, prefixes);
      }
    }
  }

  lemma AddSuffix(added: set<Entry>, suffixes: seq<Entry>, e: Entry)
    requires HoldsSuffix(added, suffixes)
    ensures HoldsSuffix(added + {e},
      if RouteOf(e.pat) == Suffix then suffixes + [Entry(e.pat[1..], e.value)] else suffixes)
  {
    var now := if RouteOf(e.pat) == Suffix then suffixes + [Entry(e.pat[1..], e.value)] else suffixes;
    forall x | x in now ensures FromSuffix(x, added + {e}) {
      if x in suffixes {
        assert FromSuffix(x, added);
      } else {
        assert [STAR] + e.pat[1..] == e.pat;
      }
    }
    forall d | d in added + {e} && RouteOf(d.pat) == Suffix ensures HasSuffix(d, now) {
      if d in added {
        assert HasSuffix(d, suffixes);
      }
    }
  }

  lemma AddTokens(added: set<Entry>, ps: seq<Pattern>, e: Entry, p: Pattern)
    requires HoldsTokens(added, ps) && (RouteOf(e.pat) == Tokens ==> Compiles(e, p))
    ensures HoldsTokens(added + {e}, if RouteOf(e.pat) == Tokens then ps + [p] else ps)
  {
    var now := if RouteOf(e.pat) == Tokens then ps + [p] else ps;
    forall q | q in now ensures FromEntry(q, added + {e}) {
      if q in ps {
        assert FromEntry(q, added);
        var d :| d in added && RouteOf(d.pat) == Tokens && Compiles(d, q);
        assert d in added + {e};
      } else {
        assert e in added + {e};
      }
    }
    forall d | d in added + {e} && RouteOf(d.pat) == Tokens ensures HasPattern(d, now) {
      if d in added {
        assert HasPattern(d, ps);
        var q :| q in ps && Compiles(d, q);
        assert q in now;
      } else {
        assert p in now;
      }
    }
  }

  lemma AddSubstring(added: set<Entry>, best: map<Str, int>, e: Entry)
    requires HoldsSubstring(added, best) && e.value >= 0
    ensures HoldsSubstring(added + {e},
      if RouteOf(e.pat) == Substring then best[AC.Key(e.pat) := AC.Max(AC.Own(best, AC.Key(e.pat)), e.value)] else best)
  {
    var now := if RouteOf(e.pat) == Substring
               then best[AC.Key(e.pat) := AC.Max(AC.Own(best, AC.Key(e.pat)), e.value)] else best;
    forall k | k in now ensures KeyFrom(k, now[k], added + {e}) {
      if k in best && now[k] == best[k] {
        assert KeyFrom(k, best[k], added);
        var d :| d in added && RouteOf(d.pat) == Substring && AC.Key(d.pat) == k && d.value == best[k];
        assert d in added + {e};
      } else {
        assert e in added + {e};
      }
    }
    forall d | d in added + {e} && RouteOf(d.pat) == Substring ensures HasKey(d, now) {
      if d in added {
        assert HasKey(d, best);
      }
    }
  }

  /** All the fields together. */
  ghost predicate HoldsEntries(added: set<Entry>, matchAll: int, exacts: seq<Entry>, prefixes: seq<Entry>,
                               suffixes: seq<Entry>, ps: seq<Pattern>, best: map<Str, int>) {
    && HoldsAll(added, matchAll) && HoldsExact(added, exacts)
    && HoldsPrefix(added, prefixes) && HoldsSuffix(added, suffixes)
    && HoldsTokens(added, ps) && HoldsSubstring(added, best)
  }

  lemma AddEntry(added: set<Entry>, matchAll: int, exacts: seq<Entry>, prefixes: seq<Entry>,
                 suffixes: seq<Entry>, ps: seq<Pattern>, best: map<Str, int>, e: Entry, p: Pattern)
    requires HoldsEntries(added, matchAll, exacts, prefixes, suffixes, ps, best)
    requires e.value >= 0 && (RouteOf(e.pat) == Tokens ==> Compiles(e, p))
    ensures var r := RouteOf(e.pat);
      HoldsEntries(added + {e},
        if r == Everything then AC.Max(matchAll, e.value) else matchAll,
        if r == Exact then exacts + [e] else exacts,
        if r == Prefix then prefixes + [Entry(e.pat[..|e.pat| - 1], e.value)] else prefixes,
        if r == Suffix then suffixes + [Entry(e.pat[1..], e.value)] else suffixes,
        if r == Tokens then ps + [p] else ps,
        if r == Substring then best[AC.Key(e.pat) := AC.Max(AC.Own(best, AC.Key(e.pat)), e.value)] else best)
  {
    AddAll(added, matchAll, e);
    AddExact(added, exacts, e);
    AddPrefix(added, prefixes, e);
    AddSuffix(added, suffixes, e);
    AddTokens(added, ps, e, p);
    AddSubstring(added, best, e);
  }

  // ----- Reading the answers off -----

  ghost function PrefixVals(xs: seq<Entry>, str: Str): iset<int> { iset x | x in xs && x.pat <= str :: x.value }

  ghost function SuffixVals(xs: seq<Entry>, str: Str): iset<int> { iset x | x in xs && IsSuffix(x.pat, str) :: x.value }

  ghost function TokenVals(ps: seq<Pattern>, str: Str): iset<int> {
    iset p | p in ps && Matches(p.tokens, str) :: p.value
  }

  ghost function If(cond: bool, v: int): iset<int> { if cond then iset{v} else iset{} }

  lemma PrefixValsSnoc(xs: seq<Entry>, k: int, str: Str)
    requires 0 <= k < |xs|
    ensures PrefixVals(xs[..k + 1], str) == PrefixVals(xs[..k], str) + If(xs[k].pat <= str, xs[k].value)
  {
    assert xs[..k + 1] == xs[..k] + [xs[k]];
  }

  lemma SuffixValsSnoc(xs: seq<Entry>, k: int, str: Str)
    requires 0 <= k < |xs|
    ensures SuffixVals(xs[..k + 1], str) == SuffixVals(xs[..k], str) + If(IsSuffix(xs[k].pat, str), xs[k].value)
  {
    assert xs[..k + 1] == xs[..k] + [xs[k]];
  }

  lemma TokenValsSnoc(ps: seq<Pattern>, k: int, str: Str)
    requires 0 <= k < |ps|
    ensures TokenVals(ps[..k + 1], str) == TokenVals(ps[..k], str) + If(Matches(ps[k].tokens, str), ps[k].value)
  {
    assert ps[..k + 1] == ps[..k] + [ps[k]];
  }

  lemma AllAnswers(added: set<Entry>, matchAll: int, str: Str)
    requires HoldsAll(added, matchAll)
    ensures IsBest(matchAll, WantedBy(added, Everything, str))
  {
    assert WantedBy(added, Everything, str) == iset e | e in added && RouteOf(e.pat) == Everything :: e.value;
  }

  lemma ExactAnswers(added: set<Entry>, exacts: seq<Entry>, str: Str, v: int, r: int)
    requires HoldsExact(added, exacts)
    requires Raises(v, r, iset x | x in exacts && x.pat == str :: x.value)
    ensures Raises(v, r, WantedBy(added, Exact, str))
  {
    var vals := iset x | x in exacts && x.pat == str :: x.value;
    forall e | e in added && RouteOf(e.pat) == Exact && e.pat == str ensures e.value <= r {
      assert Covered(e, exacts);
      var x :| x in exacts && x.pat == e.pat && e.value <= x.value;
      assert x.value in vals;
    }
  }

  lemma PrefixAnswers(added: set<Entry>, prefixes: seq<Entry>, str: Str)
    requires HoldsPrefix(added, prefixes)
    ensures WantedBy(added, Prefix, str) == PrefixVals(prefixes, str)
  {
    var want, vals := WantedBy(added, Prefix, str), PrefixVals(prefixes, str);
    forall x | x in prefixes && x.pat <= str ensures x.value in want {
      assert FromPrefix(x, added);
      assert Starred(x).pat[..|x.pat|] == x.pat;
    }
    forall e | e in added && RouteOf(e.pat) == Prefix && Hits(e.pat, str) ensures e.value in vals {
      assert HasPrefix(e, prefixes);
    }
  }

  lemma SuffixAnswers(added: set<Entry>, suffixes: seq<Entry>, str: Str)
    requires HoldsSuffix(added, suffixes)
    ensures WantedBy(added, Suffix, str) == SuffixVals(suffixes, str)
  {
    var want, vals := WantedBy(added, Suffix, str), SuffixVals(suffixes, str);
    forall x | x in suffixes && IsSuffix(x.pat, str) ensures x.value in want {
      assert FromSuffix(x, added);
      assert StarBefore(x).pat[1..] == x.pat;
    }
    forall e | e in added && RouteOf(e.pat) == Suffix && Hits(e.pat, str) ensures e.value in vals {
      assert HasSuffix(e, suffixes);
    }
  }

  lemma TokenAnswers(added: set<Entry>, ps: seq<Pattern>, str: Str)
    requires HoldsTokens(added, ps)
    ensures WantedBy(added, Tokens, str) == TokenVals(ps, str)
  {
    var want, vals := WantedBy(added, Tokens, str), TokenVals(ps, str);
    forall p | p in ps && Matches(p.tokens, str) ensures p.value in want {
      assert FromEntry(p, added);
      var e :| e in added && RouteOf(e.pat) == Tokens && Compiles(e, p);
      CompiledMeaning(e.pat, p.tokens, str);
    }
    forall e | e in added && RouteOf(e.pat) == Tokens && Hits(e.pat, str) ensures e.value in vals {
      assert HasPattern(e, ps);
      var p :| p in ps && Compiles(e, p);
      CompiledMeaning(e.pat, p.tokens, str);
    }
  }

  lemma SubstringAnswers(added: set<Entry>, best: map<Str, int>, str: Str, r: int)
    requires HoldsSubstring(added, best) && IsBest(r, AC.Occurring(best, [0] + str + [0]))
    ensures IsBest(r, WantedBy(added, Substring, str))
  {
    var text: Str := [0] + str + [0];
    var want, vals := WantedBy(added, Substring, str), AC.Occurring(best, text);
    if r != -1 {
      var k :| k in best && Contains(text, k) && best[k] == r;
      assert KeyFrom(k, best[k], added);
      var e :| e in added && RouteOf(e.pat) == Substring && AC.Key(e.pat) == k && e.value == best[k];
      assert e.value in want;
    }
    forall e | e in added && RouteOf(e.pat) == Substring && Hits(e.pat, str) ensures e.value <= r {
      assert HasKey(e, best);
      assert best[AC.Key(e.pat)] in vals;
    }
  }

  /** Every pattern not compiled to tokens is well formed. */
  lemma RoutedReads(pat: Str)
    requires RouteOf(pat) != Tokens
    ensures Read(pat).Some?
  {
    match RouteOf(pat)
    case Everything => EverythingMeaning([]);
    case Exact => ReadLiteralOnly(pat);
    case Prefix =>
      assert pat == pat[..|pat| - 1] + [STAR];
      ReadLiteralStar(pat[..|pat| - 1]);
    case Suffix =>
      assert pat == [STAR] + pat[1..];
      ReadLiteralOnly(pat[1..]);
      ReadStar(pat[1..]);
    case Substring =>
      var w := SubstringShape(pat);
      ReadLiteralStar(w);
      ReadStar(w + [STAR]);
      assert [STAR] + (w + [STAR]) == pat;
  }
}
