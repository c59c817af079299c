/** Glob: the largest value of any added pattern that matches a name. */
module Glob {
  import opened Bytes
  import opened GlobSyntax
  import opened GlobPattern
  import opened GlobRoutes
  import opened GlobTables
  import opened GlobExacts
  import GlobMatch
  import GlobNfa
  import AC = AhoCorasick

  method BestPrefix(prefixes: seq<Entry>, str: Str, val: int) returns (r: int)
    ensures Raises(val, r, PrefixVals(prefixes, str))
  {
    r := val;
    for k := 0 to |prefixes|
      invariant Raises(val, r, PrefixVals(prefixes[..k], str))
    {
      ghost var before := r;
      if r < prefixes[k].value && prefixes[k].pat <= str {
        r := prefixes[k].value;
      }
      PrefixValsSnoc(prefixes, k, str);
      RaisesMore(val, before, PrefixVals(prefixes[..k], str), prefixes[k].pat <= str, prefixes[k].value, r);
    }
    assert prefixes[..|prefixes|] == prefixes;
  }

  method BestSuffix(suffixes: seq<Entry>, str: Str, val: int) returns (r: int)
    ensures Raises(val, r, SuffixVals(suffixes, str))
  {
    r := val;
    for k := 0 to |suffixes|
      invariant Raises(val, r, SuffixVals(suffixes[..k], str))
    {
      ghost var before := r;
      if r < suffixes[k].value && IsSuffix(suffixes[k].pat, str) {
        r := suffixes[k].value;
      }
      SuffixValsSnoc(suffixes, k, str);
      RaisesMore(val, before, SuffixVals(suffixes[..k], str), IsSuffix(suffixes[k].pat, str), suffixes[k].value, r);
    }
    assert suffixes[..|suffixes|] == suffixes;
  }

  method RaiseIfMatch(p: Pattern, str: Str, val: int) returns (r: int)
    ensures r == if Matches(p.tokens, str) && val < p.value then p.value else val
  {
    r := val;
    if val < p.value {
      var matched := GlobMatch.Match(p.tokens, str);
      if matched { r := p.value; }
    }
  }

  method BestPattern(patterns: seq<Pattern>, str: Str, val: int) returns (r: int)
    ensures Raises(val, r, TokenVals(patterns, str))
  {
    r := val;
    for k := 0 to |patterns|
      invariant Raises(val, r, TokenVals(patterns[..k], str))
    {
      ghost var before := r;
      r := RaiseIfMatch(patterns[k], str, r);
      TokenValsSnoc(patterns, k, str);
      RaisesMore(val, before, TokenVals(patterns[..k], str), Matches(patterns[k].tokens, str), patterns[k].value, r);
    }
    assert patterns[..|patterns|] == patterns;
  }

  /** From this many patterns on, the automaton takes over. */
  const NFA_THRESHOLD := 64

  class Glob {
    var isEmpty: bool
    var isCompiled: bool
    var matchAll: int
    var exacts: seq<Entry>
    var prefixes: seq<Entry>
    var suffixes: seq<Entry>
    var patterns: seq<Pattern>
    const nfa: GlobNfa.Nfa
    const ahoCorasick: AC.AhoCorasick

    /** The patterns successfully added, and the token patterns among them. */
    ghost var added: set<Entry>
    ghost var compiled: seq<Pattern>

    constructor ()
      ensures Valid() && fresh(this) && fresh(nfa) && fresh(ahoCorasick)
      ensures added == {} && isEmpty && !isCompiled
    {
      isEmpty, isCompiled, matchAll := true, false, -1;
      exacts, prefixes, suffixes, patterns := [], [], [], [];
      nfa := new GlobNfa.Nfa();
      ahoCorasick := new AC.AhoCorasick();
      added, compiled := {}, [];
    }

    ghost predicate Valid() reads this, nfa, ahoCorasick {
      HoldsAdded() && if isCompiled then Ready() else Open()
    }

    ghost predicate HoldsAdded() reads this, ahoCorasick {
      && matchAll >= -1
      && HoldsEntries(added, matchAll, exacts, prefixes, suffixes, compiled, ahoCorasick.best)
    }

    ghost predicate Open() reads this, nfa, ahoCorasick {
      patterns == compiled && nfa.Encodes([]) && nfa.IsEmpty() && ahoCorasick.Building()
    }

    /** At most one of the two token matchers is in use. */
    ghost predicate Ready() reads this, nfa, ahoCorasick {
      && StrictNames(exacts) && ahoCorasick.Compiled()
      && (nfa.IsEmpty() ==> patterns == compiled)
      && (!nfa.IsEmpty() ==> patterns == [] && nfa.Encodes(GlobNfa.Layout(compiled)))
    }

    /** Match-all, exact, prefix and suffix patterns are plain string comparisons. */
    method AddLiteral(pat: Str, val: int)
      requires HoldsAdded() && val >= 0 && RouteOf(pat) != Substring && RouteOf(pat) != Tokens
      modifies this`matchAll, this`exacts, this`prefixes, this`suffixes, this`added
      ensures HoldsAdded() && added == old(added) + {Entry(pat, val)}
    {
      AddEntry(added, matchAll, exacts, prefixes, suffixes, compiled, ahoCorasick.best,
               Entry(pat, val), Pattern([], val));
      match RouteOf(pat) {
        case Everything => matchAll := AC.Max(matchAll, val);
        case Exact => exacts := exacts + [Entry(pat, val)];
        case Prefix => prefixes := prefixes + [Entry(pat[..|pat| - 1], val)];
        case Suffix => suffixes := suffixes + [Entry(pat[1..], val)];
      }
      added := added + {Entry(pat, val)};
    }

    method AddSubstring(pat: Str, val: int)
      requires HoldsAdded() && ahoCorasick.Building() && val >= 0 && RouteOf(pat) == Substring
      modifies this`added, ahoCorasick
      ensures HoldsAdded() && ahoCorasick.Building() && added == old(added) + {Entry(pat, val)}
    {
      AddEntry(added, matchAll, exacts, prefixes, suffixes, compiled, ahoCorasick.best,
               Entry(pat, val), Pattern([], val));
      ahoCorasick.Add(pat, val);
      added := added + {Entry(pat, val)};
    }

    method AddTokens(pat: Str, p: Pattern)
      requires HoldsAdded() && p.value >= 0 && RouteOf(pat) == Tokens && Compiles(Entry(pat, p.value), p)
      requires patterns == compiled
      modifies this`patterns, this`compiled, this`added
      ensures HoldsAdded() && added == old(added) + {Entry(pat, p.value)} && patterns == compiled
    {
      AddEntry(added, matchAll, exacts, prefixes, suffixes, compiled, ahoCorasick.best, Entry(pat, p.value), p);
      patterns := patterns + [p];
      compiled := compiled + [p];
      added := added + {Entry(pat, p.value)};
    }

    /** Glob::add fails exactly on a malformed pattern. */
    method Add(pat: Str, val: int) returns (ok: bool)
      requires Valid() && !isCompiled && val >= 0
      modifies this, ahoCorasick
      ensures Valid() && !isCompiled && !isEmpty
      ensures ok <==> Read(pat).Some?
      ensures added == if ok then old(added) + {Entry(pat, val)} else old(added)
    {
      isEmpty := false;
      ok := AddByRoute(pat, val);
    }

    method AddByRoute(pat: Str, val: int) returns (ok: bool)
      requires HoldsAdded() && ahoCorasick.Building() && patterns == compiled && val >= 0
      modifies this`matchAll, this`exacts, this`prefixes, this`suffixes, this`patterns, this`compiled, this`added
      modifies ahoCorasick
      ensures HoldsAdded() && ahoCorasick.Building() && patterns == compiled
      ensures ok <==> Read(pat).Some?
      ensures added == if ok then old(added) + {Entry(pat, val)} else old(added)
    {
      if RouteOf(pat) != Tokens { RoutedReads(pat); }
      match RouteOf(pat) {
        case Substring =>
          AddSubstring(pat, val);
        case Tokens =>
          var p := Compile(pat, val);
          if p.None? { return false; }
          AddTokens(pat, p.value);
        case _ =>
          AddLiteral(pat, val);
      }
      return true;
    }

    /** What the first call of find() does. */
    method Prepare()
      requires Valid()
      modifies this, nfa, ahoCorasick
      ensures Valid() && isCompiled && added == old(added) && isEmpty == old(isEmpty)
    {
      if isCompiled { return; }
      SortExacts();
      PackPatterns();
      assert HoldsEntries(added, matchAll, exacts, prefixes, suffixes, compiled, ahoCorasick.best);
      ahoCorasick.Compile();
      isCompiled := true;
    }

    method SortExacts()
      requires HoldsExact(added, exacts)
      modifies this`exacts
      ensures HoldsExact(added, exacts) && StrictNames(exacts)
    {
      var sorted := Sort(exacts);
      var unique := Unique(sorted);
      UniqueHolds(added, exacts, sorted, unique);
      exacts := unique;
    }

    /** Many patterns move into the automaton; few stay as they are. */
    method PackPatterns()
      requires patterns == compiled && nfa.Encodes([]) && nfa.IsEmpty()
      modifies this`patterns, nfa
      ensures nfa.IsEmpty() ==> patterns == compiled
      ensures !nfa.IsEmpty() ==> patterns == [] && nfa.Encodes(GlobNfa.Layout(compiled))
      ensures nfa.IsEmpty() <==> |compiled| < NFA_THRESHOLD
    {
      if |patterns| >= NFA_THRESHOLD {
        nfa.Compile(patterns);
        patterns := [];
      }
    }

    /** The patterns that need a real matcher, by whichever of the two is in use. */
    method BestTokens(str: Str, val: int) returns (r: int)
      requires Valid() && isCompiled && val >= -1
      ensures Raises(val, r, WantedBy(added, Tokens, str))
    {
      TokenAnswers(added, compiled, str);
      r := val;
      if !nfa.IsEmpty() {
        var best := nfa.Match(str, compiled);
        BestRaises(val, best, WantedBy(added, Tokens, str));
        if r < best { r := best; }
      }
      r := BestPattern(patterns, str, r);
    }

    /** The patterns that need only string comparisons. */
    method BestLiteral(str: Str) returns (val: int)
      requires Valid() && isCompiled
      ensures val >= -1
      ensures IsBest(val, WantedBy(added, Everything, str) + WantedBy(added, Exact, str) +
                          WantedBy(added, Prefix, str) + WantedBy(added, Suffix, str))
    {
      val := matchAll;
      AllAnswers(added, matchAll, str);
      ghost var seen := WantedBy(added, Everything, str);

      var r := Lookup(exacts, str, val);
      ExactAnswers(added, exacts, str, val, r);
      BestRaised(val, r, seen, WantedBy(added, Exact, str));
      val, seen := r, seen + WantedBy(added, Exact, str);

      r := BestPrefix(prefixes, str, val);
      PrefixAnswers(added, prefixes, str);
      BestRaised(val, r, seen, WantedBy(added, Prefix, str));
      val, seen := r, seen + WantedBy(added, Prefix, str);

      r := BestSuffix(suffixes, str, val);
      SuffixAnswers(added, suffixes, str);
      BestRaised(val, r, seen, WantedBy(added, Suffix, str));
      val := r;
    }

    /** Glob::find answers with the largest value of an added pattern that hits the name, or -1. */
    method Find(str: Str) returns (val: int)
      requires Valid()
      modifies this, nfa, ahoCorasick
      ensures Valid() && isCompiled && added == old(added) && isEmpty == old(isEmpty)
      ensures IsBest(val, Wanted(added, str))
      ensures (forall e :: e in added ==> NoEdgeNul(e.pat)) ==> IsBest(val, Meant(added, str))
    {
      Prepare();
      val := BestLiteral(str);
      ghost var seen :=
        WantedBy(added, Everything, str) + WantedBy(added, Exact, str) + WantedBy(added, Prefix, str) +
        WantedBy(added, Suffix, str);

      var r := BestTokens(str, val);
      BestRaised(val, r, seen, WantedBy(added, Tokens, str));
      val, seen := r, seen + WantedBy(added, Tokens, str);

      r := ahoCorasick.Find(str);
      SubstringAnswers(added, ahoCorasick.best, str, r);
      BestRaises(val, r, WantedBy(added, Substring, str));
      BestRaised(val, AC.Max(val, r), seen, WantedBy(added, Substring, str));
      WantedByRoute(added, str);
      if forall e :: e in added ==> NoEdgeNul(e.pat) { WantedIsMeant(added, str); }
      val := AC.Max(val, r);
    }
  }

  lemma UniqueHolds(added: set<Entry>, xs: seq<Entry>, sorted: seq<Entry>, unique: seq<Entry>)
    requires HoldsExact(added, xs) && (forall e :: e in sorted <==> e in xs)
    requires (forall y :: y in unique ==> y in sorted) && (forall x :: x in sorted ==> Covered(x, unique))
    ensures HoldsExact(added, unique)
  {
    forall e | e in added && RouteOf(e.pat) == Exact ensures Covered(e, unique) {
      assert Covered(e, xs);
      var x :| x in xs && x.pat == e.pat && e.value <= x.value;
      assert Covered(x, unique);
      var y :| y in unique && y.pat == x.pat && x.value <= y.value;
    }
  }

  /** The values of the added patterns whose reference reading matches `str`. */
  ghost function Meant(added: set<Entry>, str: Str): iset<int> {
    iset e | e in added && Meaning(e.pat, str) :: e.value
  }

  /** With no NUL at the edge of a substring pattern, the answer is the best over what the
      patterns mean. */
  lemma WantedIsMeant(added: set<Entry>, str: Str)
    requires forall e :: e in added ==> NoEdgeNul(e.pat)
    ensures Wanted(added, str) == Meant(added, str)
  {
    forall e | e in added ensures Hits(e.pat, str) <==> Meaning(e.pat, str) {
      assert NoEdgeNul(e.pat);
      HitsIsMeaning(e.pat);
    }
  }
}
