/** Range extension thunks on ARM64: short ones for targets within 4 GiB, long ones for the rest,
    and what the instructions do. */
module Arm64Thunk {
  import opened Machine

  const PAGE := 0x1000
  const REACH := 0x1_0000_0000

  function Page(val: nat): nat { val - val % PAGE }

  /** is_int(val, 33) */
  predicate IsInt33(val: int) { -REACH <= S64(val) < REACH }

  predicate IsSmall(prel: int) { IsInt33(prel + PAGE) && IsInt33(prel - PAGE) }

  // ----- The distance in pages -----

  lemma S64Shift(x: int, e: int)
    requires -WORD / 2 <= S64(x) + e < WORD / 2
    ensures S64(x + e) == S64(x) + e
  {
  }

  lemma PagesDiffer(s: nat, p: nat)
    ensures (Page(s) - Page(p)) % PAGE == 0
    ensures s - p - PAGE < Page(s) - Page(p) < s - p + PAGE
  {
  }

  lemma SignedPages(s: nat, p: nat)
    ensures S64(Page(s) - Page(p)) % PAGE == 0
  {
    PagesDiffer(s, p);
  }

  lemma SmallRange(prel: int)
    requires IsSmall(prel)
    ensures -REACH + PAGE <= S64(prel) < REACH - PAGE
  {
    S64Shift(prel + PAGE, -PAGE);
    S64Shift(prel - PAGE, PAGE);
  }

  /** Small is: within 4 GiB less a page on either side. */
  lemma SmallIff(prel: int)
    ensures IsSmall(prel) <==> -0xFFFF_F000 <= S64(prel) < 0xFFFF_F000
  {
    if IsSmall(prel) { SmallRange(prel); }
    if -0xFFFF_F000 <= S64(prel) < 0xFFFF_F000 {
      S64Shift(prel, PAGE);
      S64Shift(prel, -PAGE);
    }
  }

  /** The signed distance in pages is within a page of the signed distance. */
  lemma NearPages(s: nat, p: nat)
    requires -WORD / 2 + PAGE <= S64(s - p) < WORD / 2 - PAGE
    ensures S64(s - p) - PAGE < S64(Page(s) - Page(p)) < S64(s - p) + PAGE
  {
    PagesDiffer(s, p);
    S64Shift(s - p, Page(s) - Page(p) - (s - p));
  }

  lemma NearDistance(s: nat, p: nat)
    requires -WORD / 2 + PAGE <= S64(Page(s) - Page(p)) < WORD / 2 - PAGE
    ensures S64(s - p) - PAGE < S64(Page(s) - Page(p)) < S64(s - p) + PAGE
  {
    PagesDiffer(s, p);
    S64Shift(Page(s) - Page(p), s - p - (Page(s) - Page(p)));
  }

  /** If it only moves toward zero, the distance of a target that was near enough for a short
      thunk still fits into one, in pages. */
  lemma StaysShort(s0: nat, p0: nat, s: nat, p: nat)
    requires IsSmall(Page(s0) - Page(p0))
    requires 0 <= S64(s - p) <= S64(s0 - p0) || S64(s0 - p0) <= S64(s - p) <= 0
    ensures IsInt33(Page(s) - Page(p))
  {
    var d0, n0, d := S64(s0 - p0), S64(Page(s0) - Page(p0)), S64(s - p);
    SmallRange(Page(s0) - Page(p0));
    NearDistance(s0, p0);
    NearPages(s, p);
    SignedPages(s0, p0);
    SignedPages(s, p);
    PageSteps(n0, S64(Page(s) - Page(p)), d0, d);
  }

  lemma PageSteps(n0: int, n: int, d0: int, d: int)
    requires n0 % PAGE == 0 && n % PAGE == 0 && d0 - PAGE < n0 < d0 + PAGE && d - PAGE < n < d + PAGE
    requires -REACH + PAGE <= n0 < REACH - PAGE && (0 <= d <= d0 || d0 <= d <= 0)
    ensures -REACH <= n < REACH
  {
  }

  /** The margin of a page is needed: without it a distance that fits can shrink to one that,
      in pages, does not. */
  lemma MarginIsNeeded()
    ensures var s0, p0, s, p := 0x1_0000_0200, 0x1000, 0x1_0000_0000, 0xfff;
      && IsInt33(Page(s0) - Page(p0)) && !IsSmall(Page(s0) - Page(p0))
      && 0 <= S64(s - p) <= S64(s0 - p0) && !IsInt33(Page(s) - Page(p))
  {
  }

  // ----- The instructions -----

  /** The ARM64 instructions that occur in thunks. */
  datatype Insn =
    | Adr(rd: nat, imm: int)
    | Adrp(rd: nat, imm: int)
    | AddImmediate(rd: nat, rn: nat, imm: int)
    | AddRegister(rd: nat, rn: nat, rm: nat)
    | MovZero(rd: nat, imm: int, lane: nat)
    | MovKeep(rd: nat, imm: int, lane: nat)
    | Br(rn: nat)
    | Other

  function Signed21(imm: nat): int { if imm < 0x10_0000 then imm else imm - 0x20_0000 }

  function Decode(w: nat): Insn {
    var rd, rn, imm16 := w % 0x20, w / 0x20 % 0x20, w / 0x20 % 0x1_0000;
    if w / 0x100_0000 % 0x20 == 0x10 then
      var imm := Signed21(w / 0x20 % 0x8_0000 * 4 + w / 0x2000_0000 % 4);
      if w < 0x8000_0000 then Adr(rd, imm) else Adrp(rd, imm)
    else if w / 0x40_0000 == 0x244 then AddImmediate(rd, rn, w / 0x400 % 0x1000)
    else if w / 0x20_0000 == 0x458 && w / 0x400 % 0x40 == 0 then AddRegister(rd, rn, w / 0x1_0000 % 0x20)
    else if w / 0x80_0000 == 0x1a5 then MovZero(rd, imm16, w / 0x20_0000 % 4)
    else if w / 0x80_0000 == 0x1e5 then MovKeep(rd, imm16, w / 0x20_0000 % 4)
    else if w - rn * 0x20 == 0xd61f_0000 then Br(rn)
    else Other
  }

  datatype Registers = Registers(x16: nat, x17: nat)

  datatype Outcome = Next(r: Registers) | Branch(target: nat) | Unknown

  function Get(r: Registers, reg: nat): nat { if reg == 16 then r.x16 else r.x17 }

  function Set(r: Registers, reg: nat, val: int): Registers {
    if reg == 16 then r.(x16 := U64(val)) else r.(x17 := U64(val))
  }

  function Scale(lane: nat): (r: nat)
    ensures r > 0
  {
    if lane == 0 then 1 else if lane == 1 then 0x1_0000 else if lane == 2 then 0x1_0000_0000 else 0x1_0000_0000_0000
  }

  /** Replaces 16 bits. */
  function Insert(val: nat, imm: int, lane: nat): int {
    val - val / Scale(lane) % 0x1_0000 * Scale(lane) + imm * Scale(lane)
  }

  function Execute(insn: Insn, pc: nat, r: Registers): Outcome {
    match insn
    case Adr(rd, imm) => Next(Set(r, rd, pc + imm))
    case Adrp(rd, imm) => Next(Set(r, rd, Page(pc) + imm * PAGE))
    case AddImmediate(rd, rn, imm) => Next(Set(r, rd, Get(r, rn) + imm))
    case AddRegister(rd, rn, rm) => Next(Set(r, rd, Get(r, rn) + Get(r, rm)))
    case MovZero(rd, imm, lane) => Next(Set(r, rd, imm * Scale(lane)))
    case MovKeep(rd, imm, lane) => Next(Set(r, rd, Insert(Get(r, rd), imm, lane)))
    case Br(rn) => Branch(Get(r, rn))
    case Other => Unknown
  }

  /** Runs the instructions to their branch. */
  function RunFrom(insns: seq<Insn>, pc: nat, r: Registers): Outcome {
    if insns == [] then Unknown else
      match Execute(insns[0], pc, r)
      case Next(r') => RunFrom(insns[1..], pc + 4, r')
      case Branch(target) => Branch(target)
      case Unknown => Unknown
  }

  function DecodeAll(code: seq<nat>): (r: seq<Insn>)
    ensures |r| == |code| && forall i :: 0 <= i < |r| ==> r[i] == Decode(code[i])
  {
    seq(|code|, i requires 0 <= i < |code| => Decode(code[i]))
  }

  function Run(code: seq<nat>, pc: nat, r: Registers): Outcome { RunFrom(DecodeAll(code), pc, r) }

  // ----- Thunk entries -----

  /** The fields that are or'ed in are clear in the template. */
  function WriteAdrp(w: nat, val: nat): nat {
    w + val / 0x1000 % 4 * 0x2000_0000 + val / 0x4000 % 0x8_0000 * 0x20
  }

  function WriteAdr(w: nat, val: nat): nat { w + val % 4 * 0x2000_0000 + val / 4 % 0x8_0000 * 0x20 }

  function ShortEntry(s: nat, p: nat): (r: seq<nat>)
    ensures |r| == 3
  {
    [WriteAdrp(0x9000_0010, U64(Page(s) - Page(p))), 0x9100_0210 + s % PAGE * 0x400, 0xd61f_0200]
  }

  function LongEntry(s: nat, p: nat): (r: seq<nat>)
    ensures |r| == 6
  {
    var d := U64(s - p);
    [WriteAdr(0x1000_0010, d % 0x1_0000),
     0xd2a0_0011 + d / 0x1_0000 % 0x1_0000 * 0x20,
     0xf2c0_0011 + d / 0x1_0000_0000 % 0x1_0000 * 0x20,
     0xf2e0_0011 + d / 0x1_0000_0000_0000 * 0x20,
     0x8b11_0210,
     0xd61f_0200]
  }

  lemma AdrFields(w: nat, template: nat, lo: nat, hi: nat)
    requires template == 0x9000_0010 || template == 0x1000_0010
    requires lo < 4 && hi < 0x8_0000 && w == template + lo * 0x2000_0000 + hi * 0x20
    ensures w % 0x20 == 0x10 && w / 0x100_0000 % 0x20 == 0x10
    ensures w / 0x20 % 0x8_0000 == hi && w / 0x2000_0000 % 4 == lo
  {
  }

  lemma DecodeFields(w: nat, template: nat, lo: nat, hi: nat)
    requires template == 0x9000_0010 || template == 0x1000_0010
    requires lo < 4 && hi < 0x8_0000 && w == template + lo * 0x2000_0000 + hi * 0x20
    ensures Decode(w) ==
      if template == 0x1000_0010 then Adr(16, Signed21(hi * 4 + lo)) else Adrp(16, Signed21(hi * 4 + lo))
  {
    AdrFields(w, template, lo, hi);
  }

  lemma PageFields(val: nat)
    ensures val / 0x4000 % 0x8_0000 * 4 + val / 0x1000 % 4 == val / PAGE % 0x20_0000
  {
    var q := val / 0x1000;
    assert val / 0x4000 == q / 4;
    assert q / 4 % 0x8_0000 * 4 + q % 4 == q % 0x20_0000;
  }

  lemma DecodeAdrp(val: nat)
    ensures Decode(WriteAdrp(0x9000_0010, val)) == Adrp(16, Signed21(val / PAGE % 0x20_0000))
  {
    var lo, hi := val / 0x1000 % 4, val / 0x4000 % 0x8_0000;
    PageFields(val);
    DecodeFields(WriteAdrp(0x9000_0010, val), 0x9000_0010, lo, hi);
  }

  lemma DecodeAdr(val: nat)
    requires val < 0x1_0000
    ensures Decode(WriteAdr(0x1000_0010, val)) == Adr(16, val)
  {
    var lo, hi := val % 4, val / 4 % 0x8_0000;
    assert hi * 4 + lo == val;
    DecodeFields(WriteAdr(0x1000_0010, val), 0x1000_0010, lo, hi);
  }

  lemma DecodeAdd(imm: nat)
    requires imm < PAGE
    ensures Decode(0x9100_0210 + imm * 0x400) == AddImmediate(16, 16, imm)
  {
    var w := 0x9100_0210 + imm * 0x400;
    AddFields(w, imm);
  }

  lemma AddFields(w: nat, imm: nat)
    requires imm < PAGE && w == 0x9100_0210 + imm * 0x400
    ensures w / 0x100_0000 == 0x91 && w / 0x40_0000 == 0x244
    ensures w % 0x20 == 0x10 && w / 0x20 % 0x20 == 0x10 && w / 0x400 % 0x1000 == imm
  {
  }

  lemma DecodeMov(w: nat, imm: nat, lane: nat)
    requires imm < 0x1_0000 && 1 <= lane < 4
    requires w == (if lane == 1 then 0xd2a0_0011 else if lane == 2 then 0xf2c0_0011 else 0xf2e0_0011) + imm * 0x20
    ensures Decode(w) == if lane == 1 then MovZero(17, imm, lane) else MovKeep(17, imm, lane)
  {
    assert w % 0x20 == 0x11 && w / 0x20 % 0x1_0000 == imm && w / 0x20_0000 % 4 == lane;
    assert w / 0x80_0000 == if lane == 1 then 0x1a5 else 0x1e5;
    assert w / 0x100_0000 == if lane == 1 then 0xd2 else 0xf2;
  }

  lemma DecodeFixed()
    ensures Decode(0x8b11_0210) == AddRegister(16, 16, 17) && Decode(0xd61f_0200) == Br(16)
  {
    DecodeSum(0x8b11_0210);
    DecodeBranch(0xd61f_0200);
  }

  lemma DecodeSum(w: nat)
    requires w == 0x8b11_0210
    ensures Decode(w) == AddRegister(16, 16, 17)
  {
    assert w / 0x100_0000 == 0x8b && w / 0x40_0000 == 0x22c && w / 0x20_0000 == 0x458;
    assert w / 0x400 % 0x40 == 0 && w % 0x20 == 0x10 && w / 0x20 % 0x20 == 0x10 && w / 0x1_0000 % 0x20 == 0x11;
  }

  lemma DecodeBranch(w: nat)
    requires w == 0xd61f_0200
    ensures Decode(w) == Br(16)
  {
    assert w / 0x100_0000 == 0xd6 && w / 0x40_0000 == 0x358 && w / 0x20_0000 == 0x6b0 && w / 0x80_0000 == 0x1ac;
    assert w / 0x20 % 0x20 == 0x10;
  }

  /** The page displacement as the instruction has it. */
  function Displacement(prel: int): int { Signed21(U64(prel) / PAGE % 0x20_0000) * PAGE }

  lemma DisplacementIs(prel: int)
    requires prel % PAGE == 0
    ensures -REACH <= Displacement(prel) < REACH
    ensures IsInt33(prel) ==> Displacement(prel) == S64(prel)
  {
    var k := S64(prel) / PAGE;
    assert S64(prel) == k * PAGE;
    var m := U64(prel) / PAGE;
    assert m == k || m == k + 0x10_0000_0000_0000;
  }

  ghost function ShortInsns(imm: int, low: int): seq<Insn> {
    [Adrp(16, imm)] + ([AddImmediate(16, 16, low)] + [Br(16)])
  }

  lemma DecodeShort(s: nat, p: nat, imm: int, low: int)
    requires imm == Signed21(U64(Page(s) - Page(p)) / PAGE % 0x20_0000) && low == s % PAGE
    ensures DecodeAll(ShortEntry(s, p)) == ShortInsns(imm, low)
  {
    DecodeAdrp(U64(Page(s) - Page(p)));
    DecodeAdd(low);
    DecodeFixed();
  }

  lemma RunNext(insn: Insn, rest: seq<Insn>, pc: nat, r: Registers, r': Registers)
    requires Execute(insn, pc, r) == Next(r')
    ensures RunFrom([insn] + rest, pc, r) == RunFrom(rest, pc + 4, r')
  {
    assert ([insn] + rest)[1..] == rest;
  }

  lemma RunThree(imm: int, low: int, p: nat, r: Registers)
    ensures RunFrom(ShortInsns(imm, low), p, r) == Branch(U64(U64(Page(p) + imm * PAGE) + low))
  {
    var last := [AddImmediate(16, 16, low)] + [Br(16)];
    var r1 := r.(x16 := U64(Page(p) + imm * PAGE));
    RunNext(Adrp(16, imm), last, p, r, r1);
    RunNext(AddImmediate(16, 16, low), [Br(16)], p + 4, r1, r.(x16 := U64(r1.x16 + low)));
  }

  /** A short entry branches to its target exactly if the distance in pages fits. */
  lemma ShortReaches(s: nat, p: nat, r: Registers)
    requires s < WORD
    ensures Run(ShortEntry(s, p), p, r) == Branch(s) <==> IsInt33(Page(s) - Page(p))
  {
    var prel := Page(s) - Page(p);
    var imm := Signed21(U64(prel) / PAGE % 0x20_0000);
    DecodeShort(s, p, imm, s % PAGE);
    RunThree(imm, s % PAGE, p, r);
    PagesDiffer(s, p);
    DisplacementIs(prel);
    SameTarget(s, p, Displacement(prel));
  }

  lemma SameTarget(s: nat, p: nat, d: int)
    requires s < WORD && -REACH <= d < REACH
    ensures U64(U64(Page(p) + d) + s % PAGE) == s <==> d == S64(Page(s) - Page(p))
  {
    S64Is(Page(s) - Page(p), d);
    Shifts(Page(s), Page(p), d, s % PAGE);
  }

  lemma Shifts(s: nat, p: nat, d: int, low: nat)
    requires s + low < WORD
    ensures U64(U64(p + d) + low) == s + low <==> U64(s - p) == U64(d)
  {
  }

  lemma S64Is(x: int, d: int)
    requires -WORD / 2 <= d < WORD / 2
    ensures d == S64(x) <==> U64(x) == U64(d)
  {
  }

  lemma FirstMove(b: nat, pc: nat, r: Registers)
    requires b < 0x1_0000
    ensures Execute(MovZero(17, b, 1), pc, r) == Next(r.(x17 := b * 0x1_0000))
  {
  }

  lemma SecondMove(x: nat, c: nat, pc: nat, r: Registers)
    requires c < 0x1_0000 && x < 0x1_0000_0000 && r.x17 == x
    ensures Execute(MovKeep(17, c, 2), pc, r) == Next(r.(x17 := x + c * 0x1_0000_0000))
  {
    assert x / 0x1_0000_0000 % 0x1_0000 == 0;
  }

  lemma ThirdMove(y: nat, e: nat, pc: nat, r: Registers)
    requires e < 0x1_0000 && y < 0x1_0000_0000_0000 && r.x17 == y
    ensures Execute(MovKeep(17, e, 3), pc, r) == Next(r.(x17 := y + e * 0x1_0000_0000_0000))
  {
    assert y / 0x1_0000_0000_0000 % 0x1_0000 == 0;
  }

  lemma RunMoves(b: nat, c: nat, e: nat, rest: seq<Insn>, p: nat, r: Registers)
    requires b < 0x1_0000 && c < 0x1_0000 && e < 0x1_0000
    ensures RunFrom([MovZero(17, b, 1)] + ([MovKeep(17, c, 2)] + ([MovKeep(17, e, 3)] + rest)), p, r) ==
      RunFrom(rest, p + 12, r.(x17 := b * 0x1_0000 + c * 0x1_0000_0000 + e * 0x1_0000_0000_0000))
  {
    var x := b * 0x1_0000;
    var y := x + c * 0x1_0000_0000;
    var z := y + e * 0x1_0000_0000_0000;
    var r2, r3, r4 := r.(x17 := x), r.(x17 := y), r.(x17 := z);
    var fourth := [MovKeep(17, e, 3)] + rest;
    FirstMove(b, p, r);
    RunNext(MovZero(17, b, 1), [MovKeep(17, c, 2)] + fourth, p, r, r2);
    SecondMove(x, c, p + 4, r2);
    RunNext(MovKeep(17, c, 2), fourth, p + 4, r2, r3);
    ThirdMove(y, e, p + 8, r3);
    RunNext(MovKeep(17, e, 3), rest, p + 8, r3, r4);
  }

  lemma RunSum(p: nat, r: Registers)
    ensures RunFrom([AddRegister(16, 16, 17)] + [Br(16)], p, r) == Branch(U64(r.x16 + r.x17))
  {
    RunNext(AddRegister(16, 16, 17), [Br(16)], p, r, r.(x16 := U64(r.x16 + r.x17)));
  }

  ghost function LongInsns(a: nat, b: nat, c: nat, e: nat): seq<Insn> {
    [Adr(16, a)] + ([MovZero(17, b, 1)] + ([MovKeep(17, c, 2)] + ([MovKeep(17, e, 3)] +
    ([AddRegister(16, 16, 17)] + [Br(16)]))))
  }

  lemma RunSix(a: nat, b: nat, c: nat, e: nat, p: nat, r: Registers)
    requires b < 0x1_0000 && c < 0x1_0000 && e < 0x1_0000
    ensures RunFrom(LongInsns(a, b, c, e), p, r) ==
      Branch(U64(U64(p + a) + (b * 0x1_0000 + c * 0x1_0000_0000 + e * 0x1_0000_0000_0000)))
  {
    var last := [AddRegister(16, 16, 17)] + [Br(16)];
    var moves := [MovZero(17, b, 1)] + ([MovKeep(17, c, 2)] + ([MovKeep(17, e, 3)] + last));
    var r1 := r.(x16 := U64(p + a));
    RunNext(Adr(16, a), moves, p, r, r1);
    RunMoves(b, c, e, last, p + 4, r1);
    RunSum(p + 16, r1.(x17 := b * 0x1_0000 + c * 0x1_0000_0000 + e * 0x1_0000_0000_0000));
  }

  lemma DecodeLong(s: nat, p: nat, d: nat, a: nat, b: nat, c: nat, e: nat)
    requires d == U64(s - p) && a == d % 0x1_0000 && b == d / 0x1_0000 % 0x1_0000
    requires c == d / 0x1_0000_0000 % 0x1_0000 && e == d / 0x1_0000_0000_0000
    ensures DecodeAll(LongEntry(s, p)) == LongInsns(a, b, c, e)
  {
    var code := LongEntry(s, p);
    DecodeAdr(a);
    DecodeMov(code[1], b, 1);
    DecodeMov(code[2], c, 2);
    DecodeMov(code[3], e, 3);
    DecodeFixed();
  }

  lemma Chunks(d: nat, a: nat, b: nat, c: nat, e: nat)
    requires d < WORD && a == d % 0x1_0000 && b == d / 0x1_0000 % 0x1_0000
    requires c == d / 0x1_0000_0000 % 0x1_0000 && e == d / 0x1_0000_0000_0000
    ensures d == a + (b * 0x1_0000 + c * 0x1_0000_0000 + e * 0x1_0000_0000_0000)
  {
    var q := d / 0x1_0000;
    var q' := q / 0x1_0000;
    assert d / 0x1_0000_0000 == q' && d / 0x1_0000_0000_0000 == q' / 0x1_0000;
    assert d == q * 0x1_0000 + a && q == q' * 0x1_0000 + b && q' == e * 0x1_0000 + c;
  }

  lemma Arrives(s: nat, p: nat, a: nat, high: nat)
    requires s < WORD && U64(s - p) == a + high
    ensures U64(U64(p + a) + high) == s
  {
    assert U64(U64(p + a) + high) == U64(p + (a + high));
  }

  /** A long entry branches to its target from everywhere. */
  lemma LongReaches(s: nat, p: nat, r: Registers)
    requires s < WORD
    ensures Run(LongEntry(s, p), p, r) == Branch(s)
  {
    var d := U64(s - p);
    var a, b, c, e := d % 0x1_0000, d / 0x1_0000 % 0x1_0000, d / 0x1_0000_0000 % 0x1_0000, d / 0x1_0000_0000_0000;
    Chunks(d, a, b, c, e);
    Arrives(s, p, a, b * 0x1_0000 + c * 0x1_0000_0000 + e * 0x1_0000_0000_0000);
    DecodeLong(s, p, d, a, b, c, e);
    RunSix(a, b, c, e, p, r);
  }

  // ----- Whole thunks -----

  const SHORT := 12
  const LONG := 24

  /** offsets are those of a thunk at addr, with a short entry for each near target. */
  ghost predicate Shrunk(addr: nat, targets: seq<nat>, offsets: seq<nat>) {
    && |offsets| == |targets| + 1 && offsets[0] == 0
    && forall i :: 0 <= i < |targets| ==>
         offsets[i + 1] == offsets[i] + if IsSmall(Page(targets[i]) - Page(addr + offsets[i])) then SHORT else LONG
  }

  /** An entry takes 12 bytes if its target is nearer than 4 GiB less two pages, and 24 if it is
      not nearer than 4 GiB. */
  lemma NearIsShort(addr: nat, targets: seq<nat>, offsets: seq<nat>, i: nat)
    requires Shrunk(addr, targets, offsets) && i < |targets|
    ensures var d := S64(targets[i] - (addr + offsets[i]));
      && (-0xFFFF_E000 <= d < 0xFFFF_E000 ==> offsets[i + 1] - offsets[i] == 12)
      && (d < -0x1_0000_0000 || d >= 0x1_0000_0000 ==> offsets[i + 1] - offsets[i] == 24)
  {
    var s, p := targets[i], addr + offsets[i];
    var d, prel := S64(s - p), Page(s) - Page(p);
    SmallIff(prel);
    if -0xFFFF_E000 <= d < 0xFFFF_E000 {
      NearPages(s, p);
    } else if IsSmall(prel) {
      NearDistance(s, p);
    }
  }

  /** Thunk::shrink_size() */
  method ShrinkSize(addr: nat, targets: seq<nat>) returns (offsets: seq<nat>)
    ensures Shrunk(addr, targets, offsets) && Sizes(offsets)
  {
    offsets := [0];
    var off: nat := 0;
    for i := 0 to |targets|
      invariant |offsets| == i + 1 && offsets[0] == 0 && offsets[i] == off
      invariant forall j :: 0 <= j < i ==>
        offsets[j + 1] == offsets[j] + if IsSmall(Page(targets[j]) - Page(addr + offsets[j])) then SHORT else LONG
    {
      var prel := Page(targets[i]) - Page(addr + off);
      off := off + if IsSmall(prel) then SHORT else LONG;
      offsets := offsets + [off];
    }
  }

  ghost function Entry(addr: nat, targets: seq<nat>, offsets: seq<nat>, i: nat): seq<nat>
    requires i < |targets| && |offsets| == |targets| + 1
  {
    if offsets[i + 1] == offsets[i] + SHORT
    then ShortEntry(targets[i], addr + offsets[i]) else LongEntry(targets[i], addr + offsets[i])
  }

  /** Since the entry was sized, its distance to the target has only moved toward zero. */
  ghost predicate Closer(addr0: nat, targets0: seq<nat>, addr: nat, targets: seq<nat>, offset: nat, i: nat)
    requires i < |targets0| == |targets|
  {
    var d0, d := S64(targets0[i] - (addr0 + offset)), S64(targets[i] - (addr + offset));
    0 <= d <= d0 || d0 <= d <= 0
  }

  /** Every entry of a thunk branches to its target, if since the thunk was sized the distance
      has only moved toward zero. */
  lemma EntriesReach(addr0: nat, targets0: seq<nat>, addr: nat, targets: seq<nat>, offsets: seq<nat>, i: nat,
                     r: Registers)
    requires i < |targets0| == |targets| && Shrunk(addr0, targets0, offsets) && targets[i] < WORD
    requires Closer(addr0, targets0, addr, targets, offsets[i], i)
    ensures Run(Entry(addr, targets, offsets, i), addr + offsets[i], r) == Branch(targets[i])
  {
    var s, p := targets[i], addr + offsets[i];
    if offsets[i + 1] == offsets[i] + SHORT {
      StaysShort(targets0[i], addr0 + offsets[i], s, p);
      ShortReaches(s, p, r);
    } else {
      LongReaches(s, p, r);
    }
  }

  /** Every entry is short or long. */
  ghost predicate Sizes(offsets: seq<nat>) {
    && |offsets| > 0 && offsets[0] == 0
    && forall i :: 0 <= i < |offsets| - 1 ==>
         offsets[i + 1] == offsets[i] + SHORT || offsets[i + 1] == offsets[i] + LONG
  }

  lemma {:induction false} OffsetsGrow(offsets: seq<nat>, i: nat, j: nat)
    requires Sizes(offsets) && i <= j < |offsets|
    ensures offsets[i] <= offsets[j] && offsets[j] % 4 == 0
  {
    if i < j {
      OffsetsGrow(offsets, i, j - 1);
    } else if j > 0 {
      OffsetsGrow(offsets, 0, j - 1);
    }
  }

  /** Entry i of the thunk is in the buffer. */
  ghost predicate Copied(buf: seq<nat>, addr: nat, targets: seq<nat>, offsets: seq<nat>, i: nat)
    requires i < |targets| && |offsets| == |targets| + 1
  {
    offsets[i] / 4 <= offsets[i + 1] / 4 <= |buf| &&
    buf[offsets[i] / 4..offsets[i + 1] / 4] == Entry(addr, targets, offsets, i)
  }

  lemma StillCopied(buf: seq<nat>, buf': seq<nat>, at: nat, addr: nat, targets: seq<nat>, offsets: seq<nat>, i: nat)
    requires i < |targets| && |offsets| == |targets| + 1 && Copied(buf, addr, targets, offsets, i)
    requires offsets[i + 1] / 4 <= at <= |buf| == |buf'| && buf[..at] == buf'[..at]
    ensures Copied(buf', addr, targets, offsets, i)
  {
    var lo, hi := offsets[i] / 4, offsets[i + 1] / 4;
    assert buf[lo..hi] == buf[..at][lo..hi] == buf'[lo..hi];
  }

  method CopyEntry(addr: nat, targets: seq<nat>, offsets: seq<nat>, i: nat, buf: array<nat>)
    requires Sizes(offsets) && |offsets| == |targets| + 1 && i < |targets| && offsets[i + 1] / 4 <= buf.Length
    modifies buf
    ensures Copied(buf[..], addr, targets, offsets, i)
    ensures offsets[i] / 4 <= buf.Length && buf[..offsets[i] / 4] == old(buf[..offsets[i] / 4])
  {
    var s, p := targets[i], addr + offsets[i];
    var entry := if offsets[i + 1] == offsets[i] + SHORT then ShortEntry(s, p) else LongEntry(s, p);
    OffsetsGrow(offsets, i, i);
    Copy(buf, offsets[i] / 4, entry);
  }

  /** Thunk::copy_buf(), with the sizes decided before. */
  method CopyBuf(addr: nat, targets: seq<nat>, offsets: seq<nat>, buf: array<nat>)
    requires Sizes(offsets) && |offsets| == |targets| + 1 && buf.Length == offsets[|targets|] / 4
    modifies buf
    ensures forall i :: 0 <= i < |targets| ==> Copied(buf[..], addr, targets, offsets, i)
  {
    for i := 0 to |targets|
      invariant forall j :: 0 <= j < i ==> Copied(buf[..], addr, targets, offsets, j)
    {
      ghost var before := buf[..];
      OffsetsGrow(offsets, i + 1, |targets|);
      CopyEntry(addr, targets, offsets, i, buf);
      forall j | 0 <= j < i ensures Copied(buf[..], addr, targets, offsets, j) {
        OffsetsGrow(offsets, j + 1, i);
        StillCopied(before, buf[..], offsets[i] / 4, addr, targets, offsets, j);
      }
    }
  }
}
