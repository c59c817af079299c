/** Glob::Pattern::match: one pass with a single restart point, the last star seen. */
module GlobMatch {
  import opened Bytes
  import opened GlobSyntax
  import opened GlobPattern

  /** Tokens from `y` on match the input from `x` on. */
  ghost predicate Rest(ts: seq<Token>, s: Str, y: int, x: int)
    requires 0 <= y <= |ts| && 0 <= x <= |s|
  {
    Accepts(Flat(ts[y..]), s[x..])
  }

  /** A table of Rest: what the scan reasons about, one entry for each token and position. */
  type Table = (int, int) -> bool

  ghost predicate IsTable(ts: seq<Token>, s: Str, R: Table) {
    forall y, x {:trigger Rest(ts, s, y, x)} ::
      0 <= y <= |ts| && 0 <= x <= |s| ==> (R(y, x) <==> Rest(ts, s, y, x))
  }

  lemma MakeTable(ts: seq<Token>, s: Str) returns (R: Table)
    ensures IsTable(ts, s, R)
  {
    R := (y, x) => 0 <= y <= |ts| && 0 <= x <= |s| && Rest(ts, s, y, x);
  }

  /** Tokens from `y` on match starting somewhere in x..n. */
  ghost predicate Later(R: Table, n: int, y: int, x: int) {
    exists k :: x <= k <= n && R(y, k)
  }

  ghost predicate NotIn(w: Str, s: Str, x: int, pos: int) {
    forall k :: x <= k < pos ==> !OccursAt(w, s, k)
  }

  ghost function Width(ts: seq<Token>, a: int, b: int): nat
    requires 0 <= a <= b <= |ts|
    decreases b - a
  {
    if a == b then 0 else (if ts[a].Text? then |ts[a].str| else 1) + Width(ts, a + 1, b)
  }

  ghost predicate StarFree(ts: seq<Token>, a: int, b: int)
    requires 0 <= a <= b <= |ts|
  {
    forall i :: a <= i < b ==> !ts[i].Star?
  }

  lemma FlatStep(ts: seq<Token>, y: int)
    requires 0 <= y < |ts|
    ensures Flat(ts[y..]) == Elems(ts[y]) + Flat(ts[y + 1..])
  {
    assert ts[y..][1..] == ts[y + 1..];
  }

  lemma {:induction false} AcceptsText(w: Str, es: seq<Elem>, s: Str)
    ensures Accepts(Lits(w) + es, s) <==> w <= s && Accepts(es, s[|w|..])
    decreases |w|
  {
    if w == [] {
      assert Lits(w) + es == es && s[0..] == s;
    } else {
      assert (Lits(w) + es)[1..] == Lits(w[1..]) + es;
      assert w == [w[0]] + w[1..];
      if s != [] {
        AcceptsText(w[1..], es, s[1..]);
        assert s == [s[0]] + s[1..];
        if w <= s { assert s[1..][|w| - 1..] == s[|w|..]; }
      }
    }
  }

  lemma RestText(ts: seq<Token>, s: Str, R: Table, y: int, x: int)
    requires IsTable(ts, s, R) && 0 <= y < |ts| && 0 <= x <= |s| && ts[y].Text?
    ensures R(y, x) <==> OccursAt(ts[y].str, s, x) && R(y + 1, x + |ts[y].str|)
  {
    var w := ts[y].str;
    FlatStep(ts, y);
    AcceptsText(w, Flat(ts[y + 1..]), s[x..]);
    assert R(y, x) <==> Rest(ts, s, y, x);
    if x + |w| <= |s| {
      assert s[x..][..|w|] == s[x..x + |w|];
      assert s[x..][|w|..] == s[x + |w|..];
      assert R(y + 1, x + |w|) <==> Rest(ts, s, y + 1, x + |w|);
    }
  }

  lemma RestOne(ts: seq<Token>, s: Str, R: Table, y: int, x: int)
    requires IsTable(ts, s, R) && 0 <= y < |ts| && 0 <= x <= |s| && (ts[y].Question? || ts[y].Bracket?)
    ensures R(y, x) <==> x < |s| && s[x] in Elems(ts[y])[0].chars && R(y + 1, x + 1)
  {
    FlatStep(ts, y);
    var es := Flat(ts[y..]);
    assert es[1..] == Flat(ts[y + 1..]);
    assert R(y, x) <==> Rest(ts, s, y, x);
    if x < |s| {
      assert s[x..][1..] == s[x + 1..];
      assert R(y + 1, x + 1) <==> Rest(ts, s, y + 1, x + 1);
    }
  }

  lemma RestStar(ts: seq<Token>, s: Str, R: Table, y: int, x: int)
    requires IsTable(ts, s, R) && 0 <= y < |ts| && 0 <= x <= |s| && ts[y].Star?
    ensures R(y, x) <==> Later(R, |s|, y + 1, x)
  {
    var z := y + 1;
    FlatStep(ts, y);
    var es := Flat(ts[y..]);
    assert es[1..] == Flat(ts[z..]);
    assert R(y, x) <==> Rest(ts, s, y, x);
    if R(y, x) {
      var k :| 0 <= k <= |s[x..]| && Accepts(es[1..], s[x..][k..]);
      assert s[x..][k..] == s[x + k..];
      assert Rest(ts, s, z, x + k);
      assert R(z, x + k);
    }
    if k :| x <= k <= |s| && R(z, k) {
      assert Rest(ts, s, z, k);
      assert s[k..] == s[x..][k - x..];
    }
  }

  lemma RestEnd(ts: seq<Token>, s: Str, R: Table, x: int)
    requires IsTable(ts, s, R) && 0 <= x <= |s|
    ensures R(|ts|, x) <==> x == |s|
  {
    assert R(|ts|, x) <==> Rest(ts, s, |ts|, x);
  }

  /** Tokens without a star take up a fixed amount of input. */
  lemma {:induction false} FixedWidth(ts: seq<Token>, s: Str, R: Table, a: int, b: int, x: int)
    requires IsTable(ts, s, R) && 0 <= a <= b <= |ts| && 0 <= x <= |s|
    requires StarFree(ts, a, b) && R(a, x)
    ensures x + Width(ts, a, b) <= |s| && R(b, x + Width(ts, a, b))
    decreases b - a
  {
    if a < b {
      if ts[a].Text? {
        RestText(ts, s, R, a, x);
        FixedWidth(ts, s, R, a + 1, b, x + |ts[a].str|);
      } else {
        RestOne(ts, s, R, a, x);
        FixedWidth(ts, s, R, a + 1, b, x + 1);
      }
    }
  }

  lemma {:induction false} WidthSnoc(ts: seq<Token>, a: int, b: int)
    requires 0 <= a <= b < |ts|
    ensures Width(ts, a, b + 1) == Width(ts, a, b) + (if ts[b].Text? then |ts[b].str| else 1)
    decreases b - a
  {
    if a < b { WidthSnoc(ts, a + 1, b); }
  }

  /** The leftmost match is the best one: once the tokens between two stars have matched
      as early as possible, retrying the earlier star can reach nothing new. */
  lemma LeftmostSuffices(ts: seq<Token>, s: Str, R: Table, star: int, retryX: int, y: int, x: int)
    requires IsTable(ts, s, R) && 0 <= star < y < |ts| && 1 <= retryX && 0 <= x <= |s|
    requires StarFree(ts, star + 1, y) && ts[y].Star?
    requires x == retryX - 1 + Width(ts, star + 1, y)
    requires Later(R, |s|, star + 1, retryX)
    ensures R(y, x)
  {
    var a, z := star + 1, y + 1;
    var k :| retryX <= k <= |s| && R(a, k);
    FixedWidth(ts, s, R, a, y, k);
    var m := k + Width(ts, a, y);
    RestStar(ts, s, R, y, m);
    var j :| m <= j <= |s| && R(z, j);
    assert x <= j;
    RestStar(ts, s, R, y, x);
  }

  lemma LaterStep(R: Table, n: int, y: int, x: int)
    requires x <= n
    ensures Later(R, n, y, x) <==> R(y, x) || Later(R, n, y, x + 1)
  {
  }

  /** Skipping to the first occurrence of the text after a star loses nothing. */
  lemma LaterFrom(ts: seq<Token>, s: Str, R: Table, y: int, x: int, pos: int)
    requires IsTable(ts, s, R) && 0 <= y < |ts| && ts[y].Text?
    requires 0 <= x <= pos && NotIn(ts[y].str, s, x, pos)
    ensures Later(R, |s|, y, x) <==> Later(R, |s|, y, pos)
  {
    if k :| x <= k <= |s| && R(y, k) {
      RestText(ts, s, R, y, k);
      assert pos <= k;
    }
  }

  lemma SuffixNeeded(ts: seq<Token>, s: Str)
    requires ts != [] && ts[|ts| - 1].Text? && Matches(ts, s)
    ensures IsSuffix(ts[|ts| - 1].str, s)
  {
    AcceptsIsDenotes(Flat(ts), s);
    var n := |ts| - 1;
    var w := ts[n].str;
    assert ts == ts[..n] + [ts[n]];
    FlatSnoc(ts[..n], ts[n]);
    var k := AcceptsCut(Flat(ts[..n]), Lits(w), s);
    AcceptsText(w, [], s[k..]);
    assert Lits(w) + [] == Lits(w);
    assert s[k..][|w|..] == [];
    assert s[k..] == w;
  }

  /** string_view::find: the first occurrence at or after `x`, or -1 for npos. */
  method FindFrom(s: Str, w: Str, x: nat) returns (pos: int)
    requires x <= |s|
    ensures pos == -1 ==> NotIn(w, s, x, |s| + 1)
    ensures pos != -1 ==> x <= pos && OccursAt(w, s, pos) && NotIn(w, s, x, pos)
  {
    pos := x;
    while pos + |w| <= |s|
      invariant x <= pos
      invariant NotIn(w, s, x, pos)
      decreases |s| - pos
    {
      if s[pos..pos + |w|] == w { return; }
      pos := pos + 1;
    }
    pos := -1;
  }

  /** Where the scan stands: tokens before `y` have consumed the input before `x`, and the
      whole pattern matches exactly if the rest does or a later retry of the last star does. */
  ghost predicate Scanning(ts: seq<Token>, n: int, R: Table, x: int, y: int, nextX: int, nextY: int) {
    && 0 <= x <= n && 0 <= y <= |ts|
    && (nextY == -1 ==> nextX == -1 && (R(0, 0) <==> R(y, x)))
    && (nextY != -1 ==>
        && 0 <= nextY <= y && nextY < |ts| && 1 <= nextX && ts[nextY].Star?
        && (R(0, 0) <==> R(y, x) || Later(R, n, nextY + 1, nextX))
        && (y == nextY ==> x == nextX)
        && (y > nextY ==> StarFree(ts, nextY + 1, y) && x == nextX - 1 + Width(ts, nextY + 1, y)))
  }

  lemma AtStar(ts: seq<Token>, s: Str, R: Table, x: int, y: int, nextX: int, nextY: int)
    requires IsTable(ts, s, R) && Scanning(ts, |s|, R, x, y, nextX, nextY) && y < |ts| && ts[y].Star?
    ensures R(0, 0) <==> Later(R, |s|, y + 1, x)
  {
    RestStar(ts, s, R, y, x);
    if nextY != -1 && y != nextY && Later(R, |s|, nextY + 1, nextX) {
      LeftmostSuffices(ts, s, R, nextY, nextX, y, x);
    }
  }

  lemma StarStep(ts: seq<Token>, s: Str, R: Table, x: int, y: int, nextX: int, nextY: int)
    requires IsTable(ts, s, R) && Scanning(ts, |s|, R, x, y, nextX, nextY) && y < |ts| && ts[y].Star?
    ensures Scanning(ts, |s|, R, x, y + 1, x + 1, y)
  {
    AtStar(ts, s, R, x, y, nextX, nextY);
    LaterStep(R, |s|, y + 1, x);
  }

  lemma StarTextStep(ts: seq<Token>, s: Str, R: Table, x: int, y: int, nextX: int, nextY: int, pos: int)
    requires IsTable(ts, s, R) && Scanning(ts, |s|, R, x, y, nextX, nextY)
    requires y + 1 < |ts| && ts[y].Star? && ts[y + 1].Text?
    requires x <= pos && OccursAt(ts[y + 1].str, s, pos) && NotIn(ts[y + 1].str, s, x, pos)
    ensures Scanning(ts, |s|, R, pos + |ts[y + 1].str|, y + 2, pos + 1, y)
  {
    AtStar(ts, s, R, x, y, nextX, nextY);
    LaterFrom(ts, s, R, y + 1, x, pos);
    LaterStep(R, |s|, y + 1, pos);
    RestText(ts, s, R, y + 1, pos);
    WidthSnoc(ts, y + 1, y + 1);
  }

  /** How many bytes the token at hand takes at `x`, or -1 if it does not fit there. */
  function Taken(t: Token, s: Str, x: nat): int
    requires !t.Star?
  {
    match t
    case Text(w) => if OccursAt(w, s, x) then |w| else -1
    case Question => if x < |s| then 1 else -1
    case Bracket(chars) => if x < |s| && s[x] in chars then 1 else -1
  }

  lemma PlainStep(ts: seq<Token>, s: Str, R: Table, x: int, y: int, nextX: int, nextY: int)
    requires IsTable(ts, s, R) && Scanning(ts, |s|, R, x, y, nextX, nextY) && y < |ts| && !ts[y].Star?
    ensures var d := Taken(ts[y], s, x);
      if d == -1 then !R(y, x) else d >= 0 && Scanning(ts, |s|, R, x + d, y + 1, nextX, nextY)
  {
    if ts[y].Text? { RestText(ts, s, R, y, x); } else { RestOne(ts, s, R, y, x); }
    if nextY != -1 && y != nextY { WidthSnoc(ts, nextY + 1, y); }
  }

  lemma StepBack(ts: seq<Token>, s: Str, R: Table, x: int, y: int, nextX: int, nextY: int)
    requires IsTable(ts, s, R) && Scanning(ts, |s|, R, x, y, nextX, nextY) && !R(y, x)
    requires nextY != -1 && nextX <= |s|
    ensures Scanning(ts, |s|, R, nextX, nextY, nextX, nextY)
  {
    RestStar(ts, s, R, nextY, nextX);
  }

  lemma WholeTable(ts: seq<Token>, s: Str, R: Table)
    requires IsTable(ts, s, R)
    ensures R(0, 0) <==> Matches(ts, s)
  {
    assert R(0, 0) <==> Rest(ts, s, 0, 0);
    assert ts[0..] == ts && s[0..] == s;
    AcceptsIsDenotes(Flat(ts), s);
  }

  /** The star case: remembers the star, and jumps to the text after it if there is one. */
  method PassStar(ts: seq<Token>, str: Str, ghost R: Table, x: int, y: int, ghost nextX: int, ghost nextY: int)
    returns (ok: bool, x': int, y': int, nextX': int, nextY': int)
    requires IsTable(ts, str, R) && Scanning(ts, |str|, R, x, y, nextX, nextY) && y < |ts| && ts[y].Star?
    ensures !ok ==> !R(0, 0)
    ensures ok ==> Scanning(ts, |str|, R, x', y', nextX', nextY') && nextY' == y < y' && x < nextX' <= |str| + 1
  {
    nextY', nextX' := y, x + 1;
    x', y' := x, y + 1;
    if y + 1 < |ts| && ts[y + 1].Text? {
      var w := ts[y + 1].str;
      var pos := FindFrom(str, w, x);
      if pos == -1 {
        AtStar(ts, str, R, x, y, nextX, nextY);
        LaterFrom(ts, str, R, y + 1, x, |str| + 1);
        return false, x', y', nextX', nextY';
      }
      StarTextStep(ts, str, R, x, y, nextX, nextY, pos);
      nextX' := pos + 1;
      x', y' := pos + |w|, y + 2;
    } else {
      StarStep(ts, str, R, x, y, nextX, nextY);
    }
    ok := true;
  }

  /** Pattern::match answers exactly whether some assignment of input to the tokens exists. */
  method Match(ts: seq<Token>, str: Str) returns (matched: bool)
    ensures matched <==> Matches(ts, str)
  {
    if ts != [] && ts[|ts| - 1].Text? && !IsSuffix(ts[|ts| - 1].str, str) {
      if Matches(ts, str) { SuffixNeeded(ts, str); }
      return false;
    }

    ghost var R := MakeTable(ts, str);
    WholeTable(ts, str, R);
    var x, y, nextX, nextY := 0, 0, -1, -1;
    while x < |str| || y < |ts|
      invariant Scanning(ts, |str|, R, x, y, nextX, nextY)
      decreases |ts| - nextY, |str| - nextX, if y == nextY then 0 else 1, |ts| - y
    {
      if y < |ts| {
        if ts[y].Star? {
          var ok;
          ok, x, y, nextX, nextY := PassStar(ts, str, R, x, y, nextX, nextY);
          if !ok { return false; }
          continue;
        }
        PlainStep(ts, str, R, x, y, nextX, nextY);
        var d := Taken(ts[y], str, x);
        if d != -1 {
          x, y := x + d, y + 1;
          continue;
        }
      }

      if y == |ts| { RestEnd(ts, str, R, x); }
      if nextX != -1 && nextX <= |str| {
        StepBack(ts, str, R, x, y, nextX, nextY);
        x, y := nextX, nextY;
        continue;
      }
      return false;
    }
    RestEnd(ts, str, R, x);
    return true;
  }
}
