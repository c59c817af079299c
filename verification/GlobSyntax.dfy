/** What a glob pattern means: the reference reading of the pattern syntax,
    one element per pattern character, against which the compiled token form
    and the fast matchers are proved. */
module GlobSyntax {
  import opened Bytes
  import opened Wrappers

  const STAR: byte := 42
  const QUESTION: byte := 63
  const LBRACKET: byte := 91
  const RBRACKET: byte := 93
  const BACKSLASH: byte := 92
  const BANG: byte := 33
  const CARET: byte := 94
  const DASH: byte := 45

  /** One pattern element: a class consumes exactly one byte, Any consumes any number. */
  datatype Elem = Class(chars: set<byte>) | Any

  const ALL: set<byte> := set c: byte | 0 <= c < 256

  function Lit(c: byte): Elem { Class({c}) }

  function Range(lo: byte, hi: byte): set<byte> { set c | c in ALL && lo <= c <= hi }

  ghost predicate Fits(e: Elem, piece: Str) {
    e.Class? ==> |piece| == 1 && piece[0] in e.chars
  }

  ghost function Join(pieces: seq<Str>): Str {
    if pieces == [] then [] else pieces[0] + Join(pieces[1..])
  }

  ghost predicate Assignment(es: seq<Elem>, s: Str, pieces: seq<Str>) {
    && |pieces| == |es|
    && Join(pieces) == s
    && forall i :: 0 <= i < |es| ==> Fits(es[i], pieces[i])
  }

  /** Some way of cutting `s` into consecutive pieces gives every element a piece it accepts. */
  ghost predicate Denotes(es: seq<Elem>, s: Str) {
    exists pieces :: Assignment(es, s, pieces)
  }

  /** The same meaning read left to right. */
  ghost predicate Accepts(es: seq<Elem>, s: Str) {
    if es == [] then s == []
    else if es[0].Any? then exists k :: 0 <= k <= |s| && Accepts(es[1..], s[k..])
    else s != [] && s[0] in es[0].chars && Accepts(es[1..], s[1..])
  }

  lemma {:induction false} AssignmentAccepts(es: seq<Elem>, s: Str, pieces: seq<Str>)
    requires Assignment(es, s, pieces)
    ensures Accepts(es, s)
    decreases |es|
  {
    if es != [] {
      var k := |pieces[0]|;
      assert s[k..] == Join(pieces[1..]);
      forall i | 0 <= i < |es| - 1 ensures Fits(es[1..][i], pieces[1..][i]) {
        assert Fits(es[i + 1], pieces[i + 1]);
      }
      AssignmentAccepts(es[1..], s[k..], pieces[1..]);
      assert Fits(es[0], pieces[0]);
    }
  }

  lemma {:induction false} AcceptsAssignment(es: seq<Elem>, s: Str) returns (pieces: seq<Str>)
    requires Accepts(es, s)
    ensures Assignment(es, s, pieces)
    decreases |es|
  {
    if es == [] {
      pieces := [];
    } else {
      var k := 1;
      if es[0].Any? {
        k :| 0 <= k <= |s| && Accepts(es[1..], s[k..]);
      }
      var rest := AcceptsAssignment(es[1..], s[k..]);
      pieces := [s[..k]] + rest;
      assert pieces[1..] == rest;
      assert s == s[..k] + s[k..];
      forall i | 0 <= i < |es| ensures Fits(es[i], pieces[i]) {
        if i > 0 { assert Fits(es[1..][i - 1], rest[i - 1]); }
      }
    }
  }

  /** Reading left to right finds exactly the assignments of input to elements. */
  lemma AcceptsIsDenotes(es: seq<Elem>, s: Str)
    ensures Accepts(es, s) <==> Denotes(es, s)
  {
    if Accepts(es, s) {
      var pieces := AcceptsAssignment(es, s);
    }
    if Denotes(es, s) {
      var pieces :| Assignment(es, s, pieces);
      AssignmentAccepts(es, s, pieces);
    }
  }

  lemma {:induction false} AcceptsJoin(a: seq<Elem>, b: seq<Elem>, s: Str, t: Str)
    requires Accepts(a, s) && Accepts(b, t)
    ensures Accepts(a + b, s + t)
    decreases |a|
  {
    if a == [] {
      assert a + b == b && s + t == t;
    } else {
      var k := 1;
      if a[0].Any? {
        k :| 0 <= k <= |s| && Accepts(a[1..], s[k..]);
      }
      AcceptsJoin(a[1..], b, s[k..], t);
      assert (a + b)[1..] == a[1..] + b;
      assert (s + t)[k..] == s[k..] + t;
    }
  }

  lemma CutAgain(s: Str, j: nat, i: nat)
    requires j + i <= |s|
    ensures s[..j + i][j..] == s[j..][..i] && s[j + i..] == s[j..][i..]
  {
  }

  lemma {:induction false} AcceptsCut(a: seq<Elem>, b: seq<Elem>, s: Str) returns (k: nat)
    requires Accepts(a + b, s)
    ensures k <= |s| && Accepts(a, s[..k]) && Accepts(b, s[k..])
    decreases |a|
  {
    if a == [] {
      assert a + b == b && s[0..] == s;
      k := 0;
    } else {
      assert (a + b)[1..] == a[1..] + b;
      var j := 1;
      if a[0].Any? {
        j :| 0 <= j <= |s| && Accepts((a + b)[1..], s[j..]);
      }
      var i := AcceptsCut(a[1..], b, s[j..]);
      k := j + i;
      CutAgain(s, j, i);
    }
  }

  /** A pattern cut in two matches exactly the strings that can be cut to match. */
  lemma AcceptsSplit(a: seq<Elem>, b: seq<Elem>, s: Str)
    ensures Accepts(a + b, s) <==> exists k :: 0 <= k <= |s| && Accepts(a, s[..k]) && Accepts(b, s[k..])
  {
    if Accepts(a + b, s) {
      var k := AcceptsCut(a, b, s);
    }
    forall k | 0 <= k <= |s| && Accepts(a, s[..k]) && Accepts(b, s[k..]) ensures Accepts(a + b, s) {
      AcceptsJoinAt(a, b, s, k);
    }
  }

  lemma AcceptsJoinAt(a: seq<Elem>, b: seq<Elem>, s: Str, k: nat)
    requires k <= |s| && Accepts(a, s[..k]) && Accepts(b, s[k..])
    ensures Accepts(a + b, s)
  {
    AcceptsJoin(a, b, s[..k], s[k..]);
    assert s[..k] + s[k..] == s;
  }

  // ----- Reading a pattern -----

  /** The body of a bracket expression up to its closing bracket: the listed bytes and
      what follows the bracket. None for an unterminated bracket, a dangling escape or
      a range that runs backwards. */
  function ReadClass(pat: Str, chars: set<byte>): (r: Option<(set<byte>, Str)>)
    ensures r.Some? ==> |r.value.1| < |pat|
    decreases |pat|
  {
    if pat == [] then None
    else if pat[0] == RBRACKET then Some((chars, pat[1..]))
    else
      var p := if pat[0] == BACKSLASH then pat[1..] else pat;
      if p == [] then None
      else if |p| >= 3 && p[1] == DASH then
        if p[2] == BACKSLASH then
          if |p| == 3 || p[3] < p[0] then None
          else ReadClass(p[4..], chars + Range(p[0], p[3]))
        else if p[2] < p[0] then None
        else ReadClass(p[3..], chars + Range(p[0], p[2]))
      else ReadClass(p[1..], chars + {p[0]})
  }

  /** The elements a pattern stands for, or None if it is malformed. */
  function Read(pat: Str): Option<seq<Elem>>
    decreases |pat|
  {
    if pat == [] then Some([])
    else if pat[0] == LBRACKET then
      var negated := |pat| >= 2 && (pat[1] == BANG || pat[1] == CARET);
      match ReadClass(pat[if negated then 2 else 1..], {})
      case None => None
      case Some((chars, rest)) => Prepend(Class(if negated then ALL - chars else chars), Read(rest))
    else if pat[0] == QUESTION then Prepend(Class(ALL), Read(pat[1..]))
    else if pat[0] == STAR then Prepend(Any, Read(pat[1..]))
    else if pat[0] == BACKSLASH then
      if |pat| == 1 then None else Prepend(Lit(pat[1]), Read(pat[2..]))
    else Prepend(Lit(pat[0]), Read(pat[1..]))
  }

  function Prepend(e: Elem, rest: Option<seq<Elem>>): Option<seq<Elem>> {
    match rest
    case None => None
    case Some(es) => Some([e] + es)
  }

  /** What the pattern `pat` matches. A malformed pattern matches nothing. */
  ghost predicate Meaning(pat: Str, s: Str) {
    Read(pat).Some? && Denotes(Read(pat).value, s)
  }

  // ----- Every element sequence has a pattern -----

  ghost function ShowMembers(cs: seq<byte>): Str {
    if cs == [] then [] else [BACKSLASH, cs[0]] + ShowMembers(cs[1..])
  }

  ghost function Members(chars: set<byte>): (cs: seq<byte>)
    ensures forall c :: c in cs <==> c in chars
  {
    if chars == {} then [] else
      var c :| c in chars;
      [c] + Members(chars - {c})
  }

  ghost function ShowElem(e: Elem): Str {
    if e.Any? then [STAR] else [LBRACKET] + ShowMembers(Members(e.chars)) + [RBRACKET]
  }

  ghost function Show(es: seq<Elem>): Str {
    if es == [] then [] else ShowElem(es[0]) + Show(es[1..])
  }

  lemma {:induction false} ReadShownMembers(cs: seq<byte>, chars: set<byte>, all: set<byte>, rest: Str)
    requires forall c :: c in all <==> c in chars || c in cs
    ensures ReadClass(ShowMembers(cs) + [RBRACKET] + rest, chars) == Some((all, rest))
    decreases |cs|
  {
    var pat := ShowMembers(cs) + [RBRACKET] + rest;
    if cs == [] {
      assert pat[1..] == rest;
      assert all == chars;
    } else {
      var tail := ShowMembers(cs[1..]) + [RBRACKET] + rest;
      assert pat == [BACKSLASH, cs[0]] + tail;
      assert pat[1..][1..] == tail;
      assert tail[0] == if |cs| == 1 then RBRACKET else BACKSLASH;
      ReadShownMembers(cs[1..], chars + {cs[0]}, all, rest);
    }
  }

  lemma ReadShownClass(chars: set<byte>, rest: Str)
    ensures Read(ShowElem(Class(chars)) + rest) == Prepend(Class(chars), Read(rest))
  {
    var cs := Members(chars);
    var pat := ShowElem(Class(chars)) + rest;
    ReadShownMembers(cs, {}, chars, rest);
    assert pat[1..] == ShowMembers(cs) + [RBRACKET] + rest;
    assert pat[1] == if cs == [] then RBRACKET else BACKSLASH;
  }

  /** Round trip: every element sequence is written by some pattern, and reading it back gives it. */
  lemma {:induction false} ReadShow(es: seq<Elem>)
    ensures Read(Show(es)) == Some(es)
    decreases |es|
  {
    if es != [] {
      ReadShow(es[1..]);
      assert es == [es[0]] + es[1..];
      if es[0].Any? {
        assert Show(es)[1..] == Show(es[1..]);
      } else {
        ReadShownClass(es[0].chars, Show(es[1..]));
      }
    }
  }
}
