/** How Glob::add routes a pattern, and what each route's comparison amounts to. */
module GlobRoutes {
  import opened Bytes
  import opened GlobSyntax
  import opened GlobPattern
  import opened GlobMatch
  import AC = AhoCorasick
  import opened Wrappers

  datatype Route = Everything | Exact | Prefix | Suffix | Substring | Tokens

  function RouteOf(pat: Str): Route {
    if pat == [STAR] then Everything
    else if AC.IsLiteral(pat) then Exact
    else if pat[|pat| - 1] == STAR && AC.IsLiteral(pat[..|pat| - 1]) then Prefix
    else if pat[0] == STAR && AC.IsLiteral(pat[1..]) then Suffix
    else if AC.CanHandle(pat) then Substring
    else Tokens
  }

  /** What the matcher a pattern was routed to decides. */
  ghost predicate Hits(pat: Str, str: Str) {
    match RouteOf(pat)
    case Everything => true
    case Exact => str == pat
    case Prefix => pat[..|pat| - 1] <= str
    case Suffix => IsSuffix(pat[1..], str)
    case Substring => Contains([0] + str + [0], AC.Key(pat))
    case Tokens => Meaning(pat, str)
  }

  // ----- Reading literal patterns -----

  lemma {:induction false} ReadLiteral(w: Str, rest: Str)
    requires AC.IsLiteral(w)
    ensures Read(w + rest) == Resume(Lits(w), Read(rest))
    decreases |w|
  {
    if w == [] {
      assert w + rest == rest;
      assert Read(rest).Some? ==> Lits(w) + Read(rest).value == Read(rest).value;
    } else {
      ReadLiteral(w[1..], rest);
      assert (w + rest)[1..] == w[1..] + rest;
      assert Lits(w) == [Lit(w[0])] + Lits(w[1..]);
      if Read(rest).Some? {
        assert [Lit(w[0])] + (Lits(w[1..]) + Read(rest).value) == Lits(w) + Read(rest).value;
      }
    }
  }

  lemma ReadStar(rest: Str)
    ensures Read([STAR] + rest) == Prepend(Any, Read(rest))
  {
    assert ([STAR] + rest)[1..] == rest;
  }

  lemma ReadLiteralOnly(w: Str)
    requires AC.IsLiteral(w)
    ensures Read(w) == Some(Lits(w))
  {
    ReadLiteral(w, []);
    assert w + [] == w && Lits(w) + [] == Lits(w);
  }

  lemma ReadLiteralStar(w: Str)
    requires AC.IsLiteral(w)
    ensures Read(w + [STAR]) == Some(Lits(w) + [Any])
  {
    ReadLiteral(w, [STAR]);
    ReadStar([]);
    assert [STAR] + [] == [STAR];
    assert [Any] + [] == [Any];
  }

  lemma AcceptsTextAt(w: Str, es: seq<Elem>, s: Str, k: int)
    requires 0 <= k <= |s|
    ensures Accepts(Lits(w) + es, s[k..]) <==> OccursAt(w, s, k) && Accepts(es, s[k + |w|..])
  {
    AcceptsText(w, es, s[k..]);
    if k + |w| <= |s| {
      assert s[k..][..|w|] == s[k..k + |w|];
      assert s[k..][|w|..] == s[k + |w|..];
    }
  }

  lemma AcceptsStarText(w: Str, es: seq<Elem>, s: Str)
    ensures Accepts([Any] + Lits(w) + es, s) <==> exists i :: OccursAt(w, s, i) && Accepts(es, s[i + |w|..])
  {
    var all := [Any] + Lits(w) + es;
    assert all[1..] == Lits(w) + es;
    if Accepts(all, s) {
      var k :| 0 <= k <= |s| && Accepts(all[1..], s[k..]);
      AcceptsTextAt(w, es, s, k);
    }
    if i :| OccursAt(w, s, i) && Accepts(es, s[i + |w|..]) {
      AcceptsTextAt(w, es, s, i);
      assert Accepts(all[1..], s[i..]);
    }
  }

  // ----- Each route agrees with the pattern's meaning -----

  lemma EverythingMeaning(str: Str)
    ensures Meaning([STAR], str)
  {
    ReadStar([]);
    assert [STAR] + [] == [STAR];
    assert [Any] + [] == [Any];
    AcceptsAny(str);
    AcceptsIsDenotes([Any], str);
  }

  lemma ExactMeaning(w: Str, str: Str)
    requires AC.IsLiteral(w)
    ensures Meaning(w, str) <==> str == w
  {
    ReadLiteralOnly(w);
    AcceptsIsDenotes(Lits(w), str);
    AcceptsText(w, [], str);
    assert Lits(w) + [] == Lits(w);
    if w <= str && str[|w|..] == [] { assert str == w; }
    if str == w { assert str[|w|..] == []; }
  }

  lemma PrefixMeaning(w: Str, str: Str)
    requires AC.IsLiteral(w)
    ensures Meaning(w + [STAR], str) <==> w <= str
  {
    ReadLiteralStar(w);
    AcceptsIsDenotes(Lits(w) + [Any], str);
    AcceptsText(w, [Any], str);
    if w <= str { AcceptsAny(str[|w|..]); }
  }

  lemma SuffixMeaning(w: Str, str: Str)
    requires AC.IsLiteral(w)
    ensures Meaning([STAR] + w, str) <==> IsSuffix(w, str)
  {
    ReadLiteralOnly(w);
    ReadStar(w);
    AcceptsIsDenotes([Any] + Lits(w), str);
    AcceptsStarText(w, [], str);
    assert [Any] + Lits(w) + [] == [Any] + Lits(w);
    if i :| OccursAt(w, str, i) && Accepts([], str[i + |w|..]) {
      assert i + |w| == |str|;
    }
    if IsSuffix(w, str) {
      var i := |str| - |w|;
      assert OccursAt(w, str, i) && str[i + |w|..] == [];
    }
  }

  lemma SubstringMeaning(w: Str, str: Str)
    requires AC.IsLiteral(w)
    ensures Meaning([STAR] + w + [STAR], str) <==> Contains(str, w)
  {
    ReadLiteralStar(w);
    ReadStar(w + [STAR]);
    assert [STAR] + (w + [STAR]) == [STAR] + w + [STAR];
    assert [Any] + (Lits(w) + [Any]) == [Any] + Lits(w) + [Any];
    AcceptsIsDenotes([Any] + Lits(w) + [Any], str);
    AcceptsStarText(w, [Any], str);
    if i :| OccursAt(w, str, i) {
      AcceptsAny(str[i + |w|..]);
    }
  }

  // ----- Substring patterns and the end markers -----

  lemma {:induction false} UnstarredLiteral(w: Str)
    requires AC.IsLiteral(w)
    ensures AC.Unstarred(w) == w
    decreases |w|
  {
    if w != [] {
      UnstarredLiteral(w[..|w| - 1]);
      assert w == w[..|w| - 1] + [w[|w| - 1]];
    }
  }

  lemma {:induction false} UnstarredAfterStar(w: Str)
    ensures AC.Unstarred([STAR] + w) == AC.Unstarred(w)
    decreases |w|
  {
    if w == [] {
      assert ([STAR] + w)[..0] == [];
    } else {
      UnstarredAfterStar(w[..|w| - 1]);
      assert ([STAR] + w)[..|w|] == [STAR] + w[..|w| - 1];
    }
  }

  /** A pattern sent to Aho-Corasick is a literal between two stars, searched for as is. */
  lemma SubstringShape(pat: Str) returns (w: Str)
    requires RouteOf(pat) == Substring
    ensures w != [] && AC.IsLiteral(w) && pat == [STAR] + w + [STAR] && AC.Key(pat) == w
  {
    var p := pat[1..];
    assert pat[0] == STAR && p != [] && p[|p| - 1] == STAR;
    w := p[..|p| - 1];
    assert pat == [STAR] + w + [STAR];
    UnstarredLiteral(w);
    UnstarredAfterStar(w);
    assert pat[..|pat| - 1] == [STAR] + w;
  }

  ghost predicate CleanEnds(w: Str)
    requires w != []
  {
    w[0] != 0 && w[|w| - 1] != 0
  }

  /** The end markers add a match exactly when the text itself begins or ends with a marker byte. */
  lemma MarkersAddNothing(w: Str, str: Str)
    requires w != [] && CleanEnds(w)
    ensures Contains([0] + str + [0], w) <==> Contains(str, w)
  {
    var text: Str := [0] + str + [0];
    if i :| OccursAt(w, text, i) {
      assert text[i] == text[i..i + |w|][0] == w[0];
      assert text[i + |w| - 1] == text[i..i + |w|][|w| - 1] == w[|w| - 1];
      assert i != 0 && i + |w| != |text|;
      assert text[i..i + |w|] == str[i - 1..i - 1 + |w|];
      assert OccursAt(w, str, i - 1);
    }
    if i :| OccursAt(w, str, i) {
      assert text[i + 1..i + 1 + |w|] == str[i..i + |w|];
      assert OccursAt(w, text, i + 1);
    }
  }

  /** A text that begins or ends with NUL is found in a name that does not contain it. */
  lemma MarkersAddSomething(w: Str) returns (str: Str)
    requires w != [] && !CleanEnds(w)
    ensures Contains([0] + str + [0], w) && !Contains(str, w)
  {
    str := if w[0] == 0 then w[1..] else w[..|w| - 1];
    var text: Str := [0] + str + [0];
    if w[0] == 0 {
      assert text[0..|w|] == w;
      assert OccursAt(w, text, 0);
    } else {
      assert text[1..1 + |w|] == w;
      assert OccursAt(w, text, 1);
    }
  }

  /** The bytes between the stars of a substring pattern do not begin or end with NUL. */
  ghost predicate NoEdgeNul(pat: Str) {
    RouteOf(pat) == Substring ==> pat[1] != 0 && pat[|pat| - 2] != 0
  }

  lemma RouteMeaning(pat: Str, str: Str)
    requires RouteOf(pat) != Substring
    ensures Hits(pat, str) <==> Meaning(pat, str)
  {
    match RouteOf(pat)
    case Everything => EverythingMeaning(str);
    case Exact => ExactMeaning(pat, str);
    case Prefix =>
      assert pat == pat[..|pat| - 1] + [STAR];
      PrefixMeaning(pat[..|pat| - 1], str);
    case Suffix =>
      assert pat == [STAR] + pat[1..];
      SuffixMeaning(pat[1..], str);
    case Tokens =>
  }

  /** The routed comparison means what the pattern means, for every name, exactly when the
      pattern is not a substring pattern with a NUL at an edge. */
  lemma HitsIsMeaning(pat: Str)
    ensures (forall str :: Hits(pat, str) <==> Meaning(pat, str)) <==> NoEdgeNul(pat)
  {
    if RouteOf(pat) == Substring {
      var w := SubstringShape(pat);
      assert pat[1] == w[0] && pat[|pat| - 2] == w[|w| - 1];
      forall str ensures Meaning(pat, str) <==> Contains(str, w) {
        SubstringMeaning(w, str);
      }
      if CleanEnds(w) {
        forall str ensures Hits(pat, str) <==> Meaning(pat, str) {
          MarkersAddNothing(w, str);
        }
      } else {
        var str := MarkersAddSomething(w);
        assert Hits(pat, str) && !Meaning(pat, str);
      }
    } else {
      forall str ensures Hits(pat, str) <==> Meaning(pat, str) {
        RouteMeaning(pat, str);
      }
    }
  }
}
