/** Glob::Pattern: the compiled token form of a pattern, and what it means. */
module GlobPattern {
  import opened Bytes
  import opened GlobSyntax
  import opened Wrappers

  datatype Token = Text(str: Str) | Star | Question | Bracket(chars: set<byte>)

  datatype Pattern = Pattern(tokens: seq<Token>, value: int)

  // ----- What tokens mean -----

  function Lits(w: Str): (es: seq<Elem>)
    ensures |es| == |w| && forall i :: 0 <= i < |w| ==> es[i] == Lit(w[i])
  {
    seq(|w|, i requires 0 <= i < |w| => Lit(w[i]))
  }

  function Elems(t: Token): seq<Elem> {
    match t
    case Text(w) => Lits(w)
    case Star => [Any]
    case Question => [Class(ALL)]
    case Bracket(chars) => [Class(chars)]
  }

  function Flat(ts: seq<Token>): seq<Elem> {
    if ts == [] then [] else Elems(ts[0]) + Flat(ts[1..])
  }

  ghost predicate Matches(ts: seq<Token>, s: Str) {
    Denotes(Flat(ts), s)
  }

  lemma {:induction false} FlatJoin(a: seq<Token>, b: seq<Token>)
    ensures Flat(a + b) == Flat(a) + Flat(b)
    decreases |a|
  {
    if a == [] {
      assert a + b == b;
    } else {
      FlatJoin(a[1..], b);
      assert (a + b)[1..] == a[1..] + b;
    }
  }

  // ----- Compiling -----

  /** Adjacent stars collapsed to one, as the compiler does. */
  ghost function Squeeze(es: seq<Elem>): seq<Elem> {
    if es == [] then [] else
      var p := Squeeze(es[..|es| - 1]);
      var e := es[|es| - 1];
      if e.Any? && p != [] && p[|p| - 1].Any? then p else p + [e]
  }

  lemma SqueezeSnoc(es: seq<Elem>, e: Elem)
    ensures Squeeze(es + [e]) ==
            var p := Squeeze(es);
            if e.Any? && p != [] && p[|p| - 1].Any? then p else p + [e]
  {
    assert (es + [e])[..|es|] == es;
  }

  lemma AcceptsSnocClass(es: seq<Elem>, e: Elem, s: Str)
    requires e.Class?
    ensures Accepts(es + [e], s) <==>
            s != [] && s[|s| - 1] in e.chars && Accepts(es, s[..|s| - 1])
  {
    if Accepts(es + [e], s) {
      var k := AcceptsCut(es, [e], s);
      assert s[k..][1..] == [];
      assert k == |s| - 1;
    }
    if s != [] && s[|s| - 1] in e.chars && Accepts(es, s[..|s| - 1]) {
      var t := s[|s| - 1..];
      assert t[1..] == [];
      assert Accepts([e], t);
      AcceptsJoin(es, [e], s[..|s| - 1], t);
      assert s[..|s| - 1] + t == s;
    }
  }

  lemma AcceptsSnocAny(es: seq<Elem>, s: Str)
    ensures Accepts(es + [Any], s) <==> exists k :: 0 <= k <= |s| && Accepts(es, s[..k])
  {
    if Accepts(es + [Any], s) {
      var k := AcceptsCut(es, [Any], s);
    }
    forall k | 0 <= k <= |s| && Accepts(es, s[..k]) ensures Accepts(es + [Any], s) {
      AcceptsThenAny(es, s, k);
    }
  }

  lemma AcceptsThenAny(es: seq<Elem>, s: Str, k: nat)
    requires k <= |s| && Accepts(es, s[..k])
    ensures Accepts(es + [Any], s)
  {
    AcceptsAny(s[k..]);
    AcceptsJoin(es, [Any], s[..k], s[k..]);
    assert s[..k] + s[k..] == s;
  }

  lemma AcceptsAny(s: Str)
    ensures Accepts([Any], s)
  {
    assert s[|s|..] == [] && [Any][1..] == [];
    assert Accepts([], s[|s|..]);
  }

  lemma AcceptsTwoStars(es: seq<Elem>, s: Str)
    ensures Accepts(es + [Any] + [Any], s) <==> Accepts(es + [Any], s)
  {
    AcceptsSnocAny(es + [Any], s);
    AcceptsSnocAny(es, s);
    if k :| 0 <= k <= |s| && Accepts(es + [Any], s[..k]) {
      AcceptsSnocAny(es, s[..k]);
      var j :| 0 <= j <= k && Accepts(es, s[..k][..j]);
      assert s[..k][..j] == s[..j];
    }
    if Accepts(es + [Any], s) {
      assert s[..|s|] == s;
    }
  }

  /** Collapsing stars keeps the meaning. */
  lemma {:induction false} SqueezeAccepts(es: seq<Elem>, s: Str)
    ensures Accepts(Squeeze(es), s) <==> Accepts(es, s)
    decreases |es|
  {
    if es != [] {
      var q, e := es[..|es| - 1], es[|es| - 1];
      var p := Squeeze(q);
      assert es == q + [e];
      forall t ensures Accepts(p, t) <==> Accepts(q, t) {
        SqueezeAccepts(q, t);
      }
      if e.Class? {
        AcceptsSnocClass(q, e, s);
        AcceptsSnocClass(p, e, s);
      } else {
        AcceptsSnocAny(q, s);
        AcceptsSnocAny(p, s);
        if p != [] && p[|p| - 1].Any? {
          assert p == p[..|p| - 1] + [Any];
          AcceptsTwoStars(p[..|p| - 1], s);
        }
      }
    }
  }

  /** Adjacent text and adjacent stars are merged, and no text token is empty. */
  ghost predicate Merged(ts: seq<Token>) {
    && (forall i :: 0 <= i < |ts| && ts[i].Text? ==> ts[i].str != [])
    && (forall i :: 0 < i < |ts| && ts[i].Text? ==> !ts[i - 1].Text?)
    && (forall i :: 0 < i < |ts| && ts[i].Star? ==> !ts[i - 1].Star?)
  }

  /** The bracket case of Pattern::compile; `pat` starts after the opening bracket. */
  method CompileBracket(pat: Str) returns (r: Option<(set<byte>, Str)>)
    ensures var negated := pat != [] && (pat[0] == BANG || pat[0] == CARET);
      r == match ReadClass(if negated then pat[1..] else pat, {})
           case None => None
           case Some((chars, rest)) => Some((if negated then ALL - chars else chars, rest))
  {
    var p, chars := pat, {};
    var negate, closed := false, false;
    if p != [] && (p[0] == BANG || p[0] == CARET) {
      negate := true;
      p := p[1..];
    }
    ghost var want := ReadClass(p, {});
    while p != []
      invariant if closed then want == Some((chars, p)) else want == ReadClass(p, chars)
      decreases |p|
    {
      if p[0] == RBRACKET {
        p := p[1..];
        closed := true;
        break;
      }
      if p[0] == BACKSLASH {
        p := p[1..];
        if p == [] { return None; }
      }
      if |p| >= 3 && p[1] == DASH {
        var start, end := p[0], p[2];
        p := p[3..];
        if end == BACKSLASH {
          if p == [] { return None; }
          end := p[0];
          p := p[1..];
        }
        if end < start { return None; }
        chars := AddRange(chars, start, end);
      } else {
        chars := chars + {p[0]};
        p := p[1..];
      }
    }
    if !closed { return None; }
    return Some((if negate then ALL - chars else chars, p));
  }

  method AddRange(chars: set<byte>, start: byte, end: byte) returns (r: set<byte>)
    requires start <= end
    ensures r == chars + Range(start, end)
  {
    r := chars;
    var i: int := start;
    while i <= end
      invariant start <= i <= end + 1
      invariant r == chars + (set c | c in ALL && start <= c < i)
    {
      r := r + {i};
      i := i + 1;
    }
  }

  lemma ReadBracketStep(pat: Str)
    requires pat != [] && pat[0] == LBRACKET
    ensures var negated := |pat| >= 2 && (pat[1] == BANG || pat[1] == CARET);
      Read(pat) ==
        match ReadClass(if negated then pat[1..][1..] else pat[1..], {})
        case None => None
        case Some((chars, rest)) => Prepend(Class(if negated then ALL - chars else chars), Read(rest))
  {
    assert |pat| >= 2 ==> pat[1..][1..] == pat[2..];
  }

  /** The elements read so far, with what the rest of the pattern still adds. */
  ghost function Resume(done: seq<Elem>, rest: Option<seq<Elem>>): Option<seq<Elem>> {
    match rest
    case None => None
    case Some(es) => Some(done + es)
  }

  lemma ResumeSnoc(done: seq<Elem>, e: Elem, rest: Option<seq<Elem>>)
    ensures Resume(done, Prepend(e, rest)) == Resume(done + [e], rest)
  {
    if rest.Some? {
      assert done + ([e] + rest.value) == done + [e] + rest.value;
    }
  }

  /** What pushing one more literal byte does to the token list. */
  function PushByte(ts: seq<Token>, c: byte): seq<Token> {
    if ts == [] || !ts[|ts| - 1].Text? then ts + [Text([c])]
    else ts[..|ts| - 1] + [Text(ts[|ts| - 1].str + [c])]
  }

  lemma FlatSnoc(ts: seq<Token>, t: Token)
    ensures Flat(ts + [t]) == Flat(ts) + Elems(t)
  {
    FlatJoin(ts, [t]);
    assert [t][1..] == [];
  }

  lemma MergedPushByte(ts: seq<Token>, c: byte)
    requires Merged(ts)
    ensures Merged(PushByte(ts, c))
  {
    var us := PushByte(ts, c);
    forall i | 0 <= i < |us| && us[i].Text? ensures us[i].str != [] && (i > 0 ==> !us[i - 1].Text?) {
      if i < |ts| { assert ts[i].Text?; }
    }
    forall i | 0 < i < |us| && us[i].Star? ensures !us[i - 1].Star? {
      assert us[i] == ts[i];
    }
  }

  lemma FlatPushByte(ts: seq<Token>, c: byte)
    ensures Flat(PushByte(ts, c)) == Flat(ts) + [Lit(c)]
  {
    if ts == [] || !ts[|ts| - 1].Text? {
      FlatSnoc(ts, Text([c]));
    } else {
      var init, w := ts[..|ts| - 1], ts[|ts| - 1].str;
      assert ts == init + [Text(w)];
      FlatSnoc(init, Text(w));
      FlatSnoc(init, Text(w + [c]));
      assert Lits(w + [c]) == Lits(w) + [Lit(c)];
    }
  }

  lemma FlatLast(ts: seq<Token>)
    requires Merged(ts) && ts != []
    ensures Flat(ts) != []
    ensures var f := Flat(ts); f[|f| - 1].Any? <==> ts[|ts| - 1].Star?
  {
    var t := ts[|ts| - 1];
    assert ts == ts[..|ts| - 1] + [t];
    FlatSnoc(ts[..|ts| - 1], t);
  }

  /** Part of `pat` has been read into `tokens`; `p` is still to come. */
  ghost predicate Progress(pat: Str, done: seq<Elem>, p: Str, tokens: seq<Token>) {
    && Read(pat) == Resume(done, Read(p))
    && Merged(tokens)
    && Flat(tokens) == Squeeze(done)
  }

  lemma MergedSnoc(ts: seq<Token>, t: Token)
    requires Merged(ts) && !t.Text? && (t.Star? ==> ts == [] || !ts[|ts| - 1].Star?)
    ensures Merged(ts + [t])
  {
  }

  lemma PushToken(pat: Str, done: seq<Elem>, p: Str, tokens: seq<Token>, t: Token, e: Elem, rest: Str)
    requires Progress(pat, done, p, tokens)
    requires !t.Text? && !t.Star? && Elems(t) == [e]
    requires Read(p) == Prepend(e, Read(rest))
    ensures Progress(pat, done + [e], rest, tokens + [t])
  {
    ResumeSnoc(done, e, Read(rest));
    SqueezeSnoc(done, e);
    FlatSnoc(tokens, t);
    MergedSnoc(tokens, t);
  }

  lemma PushLit(pat: Str, done: seq<Elem>, p: Str, tokens: seq<Token>, c: byte, rest: Str)
    requires Progress(pat, done, p, tokens)
    requires Read(p) == Prepend(Lit(c), Read(rest))
    ensures Progress(pat, done + [Lit(c)], rest, PushByte(tokens, c))
  {
    ResumeSnoc(done, Lit(c), Read(rest));
    SqueezeSnoc(done, Lit(c));
    MergedPushByte(tokens, c);
    FlatPushByte(tokens, c);
  }

  lemma PushStar(pat: Str, done: seq<Elem>, p: Str, tokens: seq<Token>, rest: Str)
    requires Progress(pat, done, p, tokens)
    requires Read(p) == Prepend(Any, Read(rest))
    ensures Progress(pat, done + [Any], rest,
                     if tokens == [] || !tokens[|tokens| - 1].Star? then tokens + [Star] else tokens)
  {
    ResumeSnoc(done, Any, Read(rest));
    FlatPushStar(tokens, done);
    if tokens == [] || !tokens[|tokens| - 1].Star? { MergedSnoc(tokens, Star); }
  }

  lemma FlatPushStar(tokens: seq<Token>, done: seq<Elem>)
    requires Merged(tokens) && Flat(tokens) == Squeeze(done)
    ensures Flat(if tokens == [] || !tokens[|tokens| - 1].Star? then tokens + [Star] else tokens)
            == Squeeze(done + [Any])
  {
    SqueezeSnoc(done, Any);
    if tokens != [] { FlatLast(tokens); }
    FlatSnoc(tokens, Star);
  }

  /** Pattern::compile succeeds exactly on well-formed patterns, and its tokens then mean
      what the pattern means. */
  method Compile(pat: Str, value: int) returns (r: Option<Pattern>)
    ensures r.None? <==> Read(pat).None?
    ensures r.Some? ==> Merged(r.value.tokens) && r.value.value == value
    ensures r.Some? ==> Flat(r.value.tokens) == Squeeze(Read(pat).value)
  {
    var p, tokens := pat, [];
    ghost var done: seq<Elem> := [];
    assert Read(pat).Some? ==> done + Read(pat).value == Read(pat).value;
    while p != []
      invariant Progress(pat, done, p, tokens)
      decreases |p|
    {
      var c := p[0];
      if c == LBRACKET {
        ReadBracketStep(p);
        var b := CompileBracket(p[1..]);
        if b.None? { return None; }
        PushToken(pat, done, p, tokens, Bracket(b.value.0), Class(b.value.0), b.value.1);
        done := done + [Class(b.value.0)];
        tokens := tokens + [Bracket(b.value.0)];
        p := b.value.1;
      } else if c == QUESTION {
        PushToken(pat, done, p, tokens, Question, Class(ALL), p[1..]);
        done := done + [Class(ALL)];
        tokens := tokens + [Question];
        p := p[1..];
      } else if c == STAR {
        PushStar(pat, done, p, tokens, p[1..]);
        done := done + [Any];
        if tokens == [] || !tokens[|tokens| - 1].Star? {
          tokens := tokens + [Star];
        }
        p := p[1..];
      } else {
        var rest := p[1..];
        if c == BACKSLASH {
          if rest == [] { return None; }
          c := rest[0];
          rest := rest[1..];
          assert rest == p[2..];
        }
        PushLit(pat, done, p, tokens, c, rest);
        done := done + [Lit(c)];
        tokens := PushByte(tokens, c);
        p := rest;
      }
    }
    assert done + [] == done;
    return Some(Pattern(tokens, value));
  }

  lemma CompiledMeaning(pat: Str, tokens: seq<Token>, s: Str)
    requires Read(pat).Some? && Flat(tokens) == Squeeze(Read(pat).value)
    ensures Matches(tokens, s) <==> Meaning(pat, s)
  {
    SqueezeAccepts(Read(pat).value, s);
    AcceptsIsDenotes(Read(pat).value, s);
    AcceptsIsDenotes(Flat(tokens), s);
  }
}
