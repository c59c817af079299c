/** The pattern syntax as a grammar: every way of writing a pattern, and what it matches, byte by
    byte. A pattern is well formed exactly if the grammar writes it. */
module GlobGrammar {
  import opened Bytes
  import opened GlobSyntax
  import opened Wrappers

  // ----- The grammar -----

  /** An entry of a bracket expression; the flags say which bytes have a backslash before them. */
  datatype Item =
    | One(c: byte, escaped: bool)
    | Span(lo: byte, hi: byte, escapedLo: bool, escapedHi: bool)

  /** One unit of a pattern. A bracket expression is negated if it begins with a mark. */
  datatype Unit =
    | Plain(c: byte)
    | Escaped(c: byte)
    | AnyByte
    | AnyBytes
    | Bracket(mark: Str, items: seq<Item>)

  function WriteByte(c: byte, escaped: bool): Str { if escaped then [BACKSLASH, c] else [c] }

  function WriteItem(item: Item): (r: Str)
    ensures r != []
  {
    match item
    case One(c, escaped) => WriteByte(c, escaped)
    case Span(lo, hi, escapedLo, escapedHi) => WriteByte(lo, escapedLo) + [DASH] + WriteByte(hi, escapedHi)
  }

  function WriteItems(items: seq<Item>): Str {
    if items == [] then [] else WriteItem(items[0]) + WriteItems(items[1..])
  }

  function WriteUnit(u: Unit): (r: Str)
    ensures r != []
  {
    match u
    case Plain(c) => [c]
    case Escaped(c) => [BACKSLASH, c]
    case AnyByte => [QUESTION]
    case AnyBytes => [STAR]
    case Bracket(mark, items) => [LBRACKET] + mark + WriteItems(items) + [RBRACKET]
  }

  function Write(units: seq<Unit>): Str {
    if units == [] then [] else WriteUnit(units[0]) + Write(units[1..])
  }

  /** A closing bracket or a backslash needs a backslash, and ranges do not run backwards. */
  predicate GoodItem(item: Item) {
    match item
    case One(c, escaped) => escaped || (c != RBRACKET && c != BACKSLASH)
    case Span(lo, hi, escapedLo, escapedHi) =>
      lo <= hi && (escapedLo || (lo != RBRACKET && lo != BACKSLASH)) && (escapedHi || hi != BACKSLASH)
  }

  /** A single byte is not followed by a plain dash, which would make it a range. */
  predicate GoodItems(items: seq<Item>) {
    items == [] ||
    (&& GoodItem(items[0])
     && (items[0].One? && |items| > 1 ==> WriteItem(items[1])[0] != DASH)
     && GoodItems(items[1..]))
  }

  predicate GoodUnit(u: Unit) {
    match u
    case Plain(c) => c != LBRACKET && c != QUESTION && c != STAR && c != BACKSLASH
    case Escaped(_) => true
    case AnyByte => true
    case AnyBytes => true
    case Bracket(mark, items) =>
      && (mark == [] || mark == [BANG] || mark == [CARET]) && GoodItems(items)
      && (mark == [] && items != [] ==> WriteItem(items[0])[0] != BANG && WriteItem(items[0])[0] != CARET)
  }

  ghost predicate Good(units: seq<Unit>) { forall i :: 0 <= i < |units| ==> GoodUnit(units[i]) }

  // ----- What it matches -----

  predicate Has(item: Item, b: byte) {
    match item
    case One(c, _) => b == c
    case Span(lo, hi, _, _) => lo <= b <= hi
  }

  ghost predicate Lists(items: seq<Item>, b: byte) { exists item :: item in items && Has(item, b) }

  /** The unit takes the byte b. */
  ghost predicate Takes(u: Unit, b: byte) {
    match u
    case Plain(c) => b == c
    case Escaped(c) => b == c
    case AnyByte => true
    case AnyBytes => true
    case Bracket(mark, items) => if mark == [] then Lists(items, b) else !Lists(items, b)
  }

  ghost predicate Matches(units: seq<Unit>, s: Str) {
    if units == [] then s == []
    else if units[0].AnyBytes? then exists k :: 0 <= k <= |s| && Matches(units[1..], s[k..])
    else s != [] && Takes(units[0], s[0]) && Matches(units[1..], s[1..])
  }

  // ----- Reading what was written -----

  ghost predicate Collects(r: Option<(set<byte>, Str)>, chars: set<byte>, items: seq<Item>, rest: Str) {
    r.Some? && r.value.1 == rest && forall b: byte :: b in r.value.0 <==> b in chars || Lists(items, b)
  }

  /** The bytes of one item. */
  ghost function BytesOf(item: Item): (r: set<byte>)
    ensures forall b: byte :: b in r <==> Has(item, b)
  {
    set b: byte | b in ALL && Has(item, b)
  }

  lemma RangeIsSpan(item: Item)
    requires item.Span?
    ensures Range(item.lo, item.hi) == BytesOf(item)
  {
  }

  lemma ReadOne(item: Item, chars: set<byte>, after: Str)
    requires item.One? && GoodItem(item) && after != [] && after[0] != DASH
    ensures ReadClass(WriteItem(item) + after, chars) == ReadClass(after, chars + BytesOf(item))
  {
    var pat := WriteItem(item) + after;
    var p := [item.c] + after;
    assert pat == if item.escaped then [BACKSLASH] + p else p;
    assert item.escaped ==> pat[1..] == p;
    assert p[1..] == after && p[1] == after[0];
    assert {item.c} == BytesOf(item);
  }

  lemma ReadSpan(item: Item, chars: set<byte>, after: Str)
    requires item.Span? && GoodItem(item)
    ensures ReadClass(WriteItem(item) + after, chars) == ReadClass(after, chars + BytesOf(item))
  {
    var pat := WriteItem(item) + after;
    var p := [item.lo, DASH] + WriteByte(item.hi, item.escapedHi) + after;
    assert pat == if item.escapedLo then [BACKSLASH] + p else p;
    assert item.escapedLo ==> pat[1..] == p;
    assert if item.escapedHi then p[2] == BACKSLASH && p[3] == item.hi && p[4..] == after
           else p[2] == item.hi && p[3..] == after;
    RangeIsSpan(item);
  }

  lemma ListsFirst(items: seq<Item>, b: byte)
    requires items != []
    ensures Lists(items, b) <==> Has(items[0], b) || Lists(items[1..], b)
  {
    if Lists(items, b) {
      var item :| item in items && Has(item, b);
      assert items == [items[0]] + items[1..];
    }
  }

  lemma {:induction false} ReadItems(items: seq<Item>, chars: set<byte>, rest: Str)
    requires GoodItems(items)
    ensures Collects(ReadClass(WriteItems(items) + [RBRACKET] + rest, chars), chars, items, rest)
    decreases |items|
  {
    var pat := WriteItems(items) + [RBRACKET] + rest;
    if items == [] {
      assert pat[0] == RBRACKET && pat[1..] == rest;
    } else {
      var after := WriteItems(items[1..]) + [RBRACKET] + rest;
      assert pat == WriteItem(items[0]) + after;
      if items[0].One? {
        assert after[0] != DASH by {
          if |items| > 1 { assert after[0] == WriteItem(items[1])[0]; }
        }
        ReadOne(items[0], chars, after);
      } else {
        ReadSpan(items[0], chars, after);
      }
      ReadItems(items[1..], chars + BytesOf(items[0]), rest);
      forall b: byte ensures Lists(items, b) <==> Has(items[0], b) || Lists(items[1..], b) {
        ListsFirst(items, b);
      }
    }
  }

  ghost function ElemOf(u: Unit): Elem {
    if u.AnyBytes? then Any else Class(set b: byte | b in ALL && Takes(u, b))
  }

  ghost function ElemsOf(units: seq<Unit>): (es: seq<Elem>)
    ensures |es| == |units|
  {
    if units == [] then [] else [ElemOf(units[0])] + ElemsOf(units[1..])
  }

  lemma ReadBracket(u: Unit, rest: Str)
    requires u.Bracket? && GoodUnit(u)
    ensures Read(WriteUnit(u) + rest) == Prepend(ElemOf(u), Read(rest))
  {
    var body := WriteItems(u.items) + [RBRACKET] + rest;
    assert WriteUnit(u) + rest == [LBRACKET] + u.mark + body;
    FirstByte(u.items, rest);
    ReadMarked(u.mark, body);
    ReadItems(u.items, {}, rest);
    BracketChars(u, ReadClass(body, {}).value.0);
  }

  lemma BracketChars(u: Unit, chars: set<byte>)
    requires u.Bracket? && forall b: byte :: b in chars <==> b in {} || Lists(u.items, b)
    ensures ElemOf(u) == Class(if u.mark != [] then ALL - chars else chars)
  {
  }

  lemma FirstByte(items: seq<Item>, rest: Str)
    ensures (WriteItems(items) + [RBRACKET] + rest)[0] == if items == [] then RBRACKET else WriteItem(items[0])[0]
  {
  }

  predicate GoodMark(mark: Str, next: byte) {
    if mark == [] then next != BANG && next != CARET else mark == [BANG] || mark == [CARET]
  }

  /** A bracket expression is read from behind its mark. */
  lemma ReadMarked(mark: Str, body: Str)
    requires body != [] && GoodMark(mark, body[0])
    ensures Read([LBRACKET] + mark + body) ==
      match ReadClass(body, {})
      case None => None
      case Some((chars, rest)) => Prepend(Class(if mark != [] then ALL - chars else chars), Read(rest))
  {
    var pat := [LBRACKET] + mark + body;
    assert mark == [] ==> pat[1] == body[0] && pat[1..] == body;
    assert mark != [] ==> pat[1] == mark[0] && pat[2..] == body;
  }

  lemma ReadUnit(u: Unit, rest: Str)
    requires GoodUnit(u)
    ensures Read(WriteUnit(u) + rest) == Prepend(ElemOf(u), Read(rest))
  {
    var pat := WriteUnit(u) + rest;
    match u
    case Plain(c) =>
      assert pat[1..] == rest;
      assert ElemOf(u) == Lit(c);
    case Escaped(c) =>
      assert pat[2..] == rest;
      assert ElemOf(u) == Lit(c);
    case AnyByte =>
      assert pat[1..] == rest;
      assert ElemOf(u) == Class(ALL);
    case AnyBytes =>
      assert pat[1..] == rest;
    case Bracket(_, _) =>
      ReadBracket(u, rest);
  }

  lemma {:induction false} ReadWrite(units: seq<Unit>)
    requires Good(units)
    ensures Read(Write(units)) == Some(ElemsOf(units))
    decreases |units|
  {
    if units != [] {
      ReadUnit(units[0], Write(units[1..]));
      ReadWrite(units[1..]);
    }
  }

  lemma {:induction false} ElemsMatch(units: seq<Unit>, s: Str)
    ensures Accepts(ElemsOf(units), s) <==> Matches(units, s)
    decreases |units|
  {
    if units != [] {
      assert ElemsOf(units)[1..] == ElemsOf(units[1..]);
      if units[0].AnyBytes? {
        forall k | 0 <= k <= |s| ensures Accepts(ElemsOf(units[1..]), s[k..]) <==> Matches(units[1..], s[k..]) {
          ElemsMatch(units[1..], s[k..]);
        }
      } else if s != [] {
        ElemsMatch(units[1..], s[1..]);
      }
    }
  }

  /** A pattern means what the units it is written with match. */
  lemma WrittenMeaning(units: seq<Unit>, s: Str)
    requires Good(units)
    ensures Read(Write(units)).Some? && (Meaning(Write(units), s) <==> Matches(units, s))
  {
    ReadWrite(units);
    ElemsMatch(units, s);
    AcceptsIsDenotes(ElemsOf(units), s);
  }

  // ----- The documented examples -----

  function Ascii(s: string): Str
    requires forall i :: 0 <= i < |s| ==> s[i] as int < 256
  {
    seq(|s|, i requires 0 <= i < |s| => s[i] as int)
  }

  /** A bracket expression matches the single bytes that it lists, or that it does not. */
  lemma BracketMeaning(mark: Str, items: seq<Item>, s: Str)
    requires GoodUnit(Bracket(mark, items))
    ensures Meaning([LBRACKET] + mark + WriteItems(items) + [RBRACKET], s) <==>
      |s| == 1 && (if mark == [] then Lists(items, s[0]) else !Lists(items, s[0]))
  {
    var u := Bracket(mark, items);
    assert Write([u]) == WriteUnit(u) by { assert [u][1..] == []; }
    WrittenMeaning([u], s);
    OneUnit(u, s);
  }

  lemma OneUnit(u: Unit, s: Str)
    requires !u.AnyBytes?
    ensures Matches([u], s) <==> |s| == 1 && Takes(u, s[0])
  {
    assert [u][1..] == [];
  }

  lemma ConsItem(a: Item, others: seq<Item>)
    requires GoodItem(a) && GoodItems(others) && (others != [] ==> WriteItem(others[0])[0] != DASH)
    ensures GoodItems([a] + others) && WriteItems([a] + others) == WriteItem(a) + WriteItems(others)
    ensures forall x: byte :: Lists([a] + others, x) <==> Has(a, x) || Lists(others, x)
  {
    assert ([a] + others)[1..] == others;
    forall x: byte ensures Lists([a] + others, x) <==> Has(a, x) || Lists(others, x) {
      ListsFirst([a] + others, x);
    }
  }

  lemma ThreeItems(a: Item, b: Item, c: Item)
    requires GoodItem(a) && GoodItem(b) && GoodItem(c)
    requires WriteItem(b)[0] != DASH && WriteItem(c)[0] != DASH
    ensures GoodItems([a, b, c])
    ensures WriteItems([a, b, c]) == WriteItem(a) + (WriteItem(b) + (WriteItem(c) + []))
    ensures forall x: byte :: Lists([a, b, c], x) <==> Has(a, x) || Has(b, x) || Has(c, x)
  {
    ConsItem(c, []);
    assert [c] + [] == [c] && [b] + [c] == [b, c] && [a] + [b, c] == [a, b, c];
    ConsItem(b, [c]);
    ConsItem(a, [b, c]);
  }

  /** [a-czg-i]: a, b, c, z, g, h or i */
  lemma ExampleRanges(s: Str)
    ensures Meaning(Ascii("[a-czg-i]"), s) <==> |s| == 1 && s[0] in Ascii("abczghi")
  {
    var a, z, g := Span(97, 99, false, false), One(122, false), Span(103, 105, false, false);
    ThreeItems(a, z, g);
    assert Ascii("[a-czg-i]") == [LBRACKET] + [] + WriteItems([a, z, g]) + [RBRACKET];
    BracketMeaning([], [a, z, g], s);
    assert Ascii("abczghi") == [97, 98, 99, 122, 103, 104, 105];
  }

  /** [!a-z], and [^a-z]: any byte but the lowercase letters */
  lemma ExampleNegation(s: Str)
    ensures Meaning(Ascii("[!a-z]"), s) <==> |s| == 1 && !('a' as int <= s[0] <= 'z' as int)
    ensures Meaning(Ascii("[^a-z]"), s) <==> |s| == 1 && !('a' as int <= s[0] <= 'z' as int)
  {
    var a := Span(97, 122, false, false);
    assert [a][1..] == [];
    assert WriteItems([a]) == [97, DASH, 122];
    assert Ascii("[!a-z]") == [LBRACKET] + [BANG] + WriteItems([a]) + [RBRACKET];
    assert Ascii("[^a-z]") == [LBRACKET] + [CARET] + WriteItems([a]) + [RBRACKET];
    BracketMeaning([BANG], [a], s);
    BracketMeaning([CARET], [a], s);
    if |s| == 1 { ListsFirst([a], s[0]); }
  }

  /** [$\]!]: $, ] or ! */
  lemma ExampleEscape(s: Str)
    ensures Meaning(Ascii("[$\\]!]"), s) <==> |s| == 1 && s[0] in Ascii("$]!")
  {
    var d, b, e := One(36, false), One(93, true), One(33, false);
    ThreeItems(d, b, e);
    assert Ascii("[$\\]!]") == [LBRACKET] + [] + WriteItems([d, b, e]) + [RBRACKET];
    BracketMeaning([], [d, b, e], s);
    assert Ascii("$]!") == [36, 93, 33];
  }

  /** ?, * and a backslash outside of brackets. */
  lemma ExampleUnits(s: Str)
    ensures Meaning(Ascii("?"), s) <==> |s| == 1
    ensures Meaning(Ascii("*"), s)
    ensures Meaning(Ascii("\\*"), s) <==> s == Ascii("*")
  {
    assert Ascii("?") == [QUESTION] && Ascii("*") == [STAR] && Ascii("\\*") == [BACKSLASH, STAR];
    assert [AnyByte][1..] == [] && [AnyBytes][1..] == [] && [Escaped(STAR)][1..] == [];
    assert Write([AnyByte]) == [QUESTION] && Write([AnyBytes]) == [STAR] && Write([Escaped(STAR)]) == [BACKSLASH, STAR];
    WrittenMeaning([AnyByte], s);
    WrittenMeaning([AnyBytes], s);
    WrittenMeaning([Escaped(STAR)], s);
    OneUnit(AnyByte, s);
    OneUnit(Escaped(STAR), s);
    assert Matches([], s[|s|..]);
  }

  // ----- Everything that can be read was written -----

  lemma {:induction false} ParseItems(pat: Str, chars: set<byte>) returns (items: seq<Item>)
    requires ReadClass(pat, chars).Some?
    ensures GoodItems(items) && pat == WriteItems(items) + [RBRACKET] + ReadClass(pat, chars).value.1
    decreases |pat|
  {
    if pat[0] == RBRACKET {
      items := [];
      assert pat == [RBRACKET] + pat[1..];
    } else {
      var escaped := pat[0] == BACKSLASH;
      var p := if escaped then pat[1..] else pat;
      assert pat == if escaped then [BACKSLASH] + p else p;
      var item, after, more := ParseItem(p, escaped, chars);
      var others := ParseItems(after, more);
      items := [item] + others;
      ItemFirst(item, others, after, ReadClass(pat, chars).value.1);
    }
  }

  lemma ItemFirst(item: Item, others: seq<Item>, after: Str, rest: Str)
    requires GoodItem(item) && GoodItems(others) && after == WriteItems(others) + [RBRACKET] + rest
    requires item.One? ==> after[0] != DASH
    ensures GoodItems([item] + others)
    ensures WriteItem(item) + after == WriteItems([item] + others) + [RBRACKET] + rest
  {
    assert ([item] + others)[1..] == others;
    if others != [] {
      assert after[0] == WriteItem(others[0])[0];
    }
  }

  lemma LoneDash(chars: set<byte>)
    ensures ReadClass([DASH], chars) == None
  {
    assert [DASH][1..] == [];
  }

  /** The first item, what comes after it, and the bytes listed up to it. */
  lemma ParseItem(p: Str, escaped: bool, chars: set<byte>) returns (item: Item, after: Str, more: set<byte>)
    requires p != [] && (!escaped ==> p[0] != RBRACKET && p[0] != BACKSLASH)
    requires ReadClass(if escaped then [BACKSLASH] + p else p, chars).Some?
    ensures GoodItem(item) && (if escaped then [BACKSLASH] + p else p) == WriteItem(item) + after
    ensures |after| < |p| && ReadClass(after, more) == ReadClass(if escaped then [BACKSLASH] + p else p, chars)
    ensures item.One? ==> after != [] && after[0] != DASH
  {
    var pat := if escaped then [BACKSLASH] + p else p;
    assert escaped ==> pat[1..] == p;
    if |p| >= 3 && p[1] == DASH {
      var escapedHi := p[2] == BACKSLASH;
      var hi := if escapedHi then p[3] else p[2];
      item := Span(p[0], hi, escaped, escapedHi);
      after := p[if escapedHi then 4 else 3..];
      more := chars + Range(p[0], hi);
      assert p == [p[0], DASH] + WriteByte(hi, escapedHi) + after;
    } else {
      item := One(p[0], escaped);
      after := p[1..];
      more := chars + {p[0]};
      assert p == [p[0]] + after;
      assert after != [] && after[0] == DASH ==> after == [DASH];
      LoneDash(more);
    }
  }

  lemma ParseBracket(pat: Str) returns (u: Unit, rest: Str)
    requires pat != [] && pat[0] == LBRACKET && Read(pat).Some?
    ensures GoodUnit(u) && pat == WriteUnit(u) + rest && Read(rest).Some?
  {
    var mark, body := Marked(pat);
    ReadMarked(mark, body);
    var items := ParseItems(body, {});
    rest := ReadClass(body, {}).value.1;
    u := Bracket(mark, items);
    BracketWritten(mark, items, body, rest);
  }

  lemma BracketWritten(mark: Str, items: seq<Item>, body: Str, rest: Str)
    requires GoodItems(items) && body == WriteItems(items) + [RBRACKET] + rest && GoodMark(mark, body[0])
    ensures GoodUnit(Bracket(mark, items)) && [LBRACKET] + mark + body == WriteUnit(Bracket(mark, items)) + rest
  {
    FirstByte(items, rest);
  }

  lemma Marked(pat: Str) returns (mark: Str, body: Str)
    requires pat != [] && pat[0] == LBRACKET && Read(pat).Some?
    ensures body != [] && pat == [LBRACKET] + mark + body && GoodMark(mark, body[0])
  {
    var negated := |pat| >= 2 && (pat[1] == BANG || pat[1] == CARET);
    mark := if negated then [pat[1]] else [];
    body := pat[if negated then 2 else 1..];
  }

  lemma ParseUnit(pat: Str) returns (u: Unit, rest: Str)
    requires pat != [] && Read(pat).Some?
    ensures GoodUnit(u) && pat == WriteUnit(u) + rest && Read(rest).Some?
  {
    if pat[0] == LBRACKET {
      u, rest := ParseBracket(pat);
    } else if pat[0] == BACKSLASH {
      u, rest := Escaped(pat[1]), pat[2..];
      assert pat == [BACKSLASH, pat[1]] + rest;
    } else {
      u := if pat[0] == QUESTION then AnyByte else if pat[0] == STAR then AnyBytes else Plain(pat[0]);
      rest := pat[1..];
      assert pat == [pat[0]] + rest;
    }
  }

  lemma {:induction false} Parse(pat: Str) returns (units: seq<Unit>)
    requires Read(pat).Some?
    ensures Good(units) && Write(units) == pat
    decreases |pat|
  {
    if pat == [] {
      units := [];
    } else {
      var u, rest := ParseUnit(pat);
      var others := Parse(rest);
      units := [u] + others;
      assert units[1..] == others;
    }
  }

  /** The pattern is written by the grammar, and that way of writing it matches s. */
  ghost predicate Derives(units: seq<Unit>, pat: Str, s: Str) {
    Good(units) && Write(units) == pat && Matches(units, s)
  }

  /** A pattern is well formed exactly if the grammar writes it. */
  lemma WellFormed(pat: Str)
    ensures Read(pat).Some? <==> exists units :: Good(units) && Write(units) == pat
  {
    if Read(pat).Some? {
      var units := Parse(pat);
    }
    if units :| Good(units) && Write(units) == pat {
      ReadWrite(units);
    }
  }

  /** And it matches exactly what the grammar says. */
  lemma MeaningIsGrammar(pat: Str, s: Str)
    ensures Meaning(pat, s) <==> exists units :: Derives(units, pat, s)
  {
    if Meaning(pat, s) {
      var units := Parse(pat);
      WrittenMeaning(units, s);
      assert Derives(units, pat, s);
    }
    if units :| Derives(units, pat, s) {
      WrittenMeaning(units, s);
    }
  }
}
