/** Thumb-2 MOVW/MOVT immediates, as the base relocation THUMB_MOV32 patches them
    (ARM Architecture Reference Manual DDI 0406C, sections A8.8.102 and A8.8.106).
    An instruction is the 32-bit little-endian word holding its two halfwords, first halfword low. */
module Thumb {
  import opened Bits

  datatype Failure = WrongMovw(inst: u32) | WrongMovt(inst: u32) | WontFit(imm: nat)

  /** The two words of the pair after patching, and why patching stopped, if it did. */
  datatype Outcome =
    | Ok(movw: u32, movt: u32)
    | Error(movw: u32, movt: u32, failure: Failure)

  const OPCODE_BITS: nat := 0x8000fbf0
  const OPCODE_AND_RD_BITS: nat := 0x8f00fbf0

  predicate IsMovw(inst: u32) {
    And(inst, OPCODE_BITS) == 0x0000f240
  }

  predicate IsMovt(inst: u32) {
    And(inst, OPCODE_BITS) == 0x0000f2c0
  }

  /** x << n in 32 bits. */
  function ShiftLeft32(x: nat, n: nat): u32 {
    Shl(x, n) % U32
  }

  /** imm4:i:imm3:imm8 of the instruction. */
  function Immediate(inst: u32): nat {
    And(ShiftLeft32(inst, 1), 0x0800) + And(ShiftLeft32(inst, 12), 0xf000)
    + And(Shr(inst, 20), 0x0700) + And(Shr(inst, 16), 0x00ff)
  }

  /** `inst` with its immediate replaced by the low half of `imm`. */
  function WithImmediate(inst: u32, imm: nat): nat {
    And(inst, OPCODE_AND_RD_BITS) + And(Shr(imm, 1), 0x0400) + And(Shr(imm, 12), 0x000f)
    + And(ShiftLeft32(imm, 20), 0x70000000) + And(ShiftLeft32(imm, 16), 0xff0000)
  }

  /** A word seen as its eight bit fields, lowest first: imm4, opcode, i, opcode, imm8, Rd, imm3, top bit. */
  datatype Fields = Fields(imm4: nat, op6: nat, i: nat, op5: nat, imm8: nat, rd: nat, imm3: nat, top: nat) {
    predicate Valid() {
      imm4 < 16 && op6 < 64 && i < 2 && op5 < 32 && imm8 < 256 && rd < 16 && imm3 < 8 && top < 2
    }

    function Word(): nat {
      imm4 + 0x10 * op6 + 0x400 * i + 0x800 * op5
      + 0x1_0000 * imm8 + 0x100_0000 * rd + 0x1000_0000 * imm3 + 0x8000_0000 * top
    }
  }

  function FieldsOf(w: nat): Fields {
    Fields(w % 16, w / 0x10 % 64, w / 0x400 % 2, w / 0x800 % 32, w / 0x1_0000 % 256,
           w / 0x100_0000 % 16, w / 0x1000_0000 % 8, w / 0x8000_0000 % 2)
  }

  lemma LowHalfFields(l: nat, h: nat, imm4: nat, op6: nat, i: nat, op5: nat)
    requires imm4 < 16 && op6 < 64 && i < 2 && op5 < 32
    requires l == imm4 + 0x10 * op6 + 0x400 * i + 0x800 * op5 + 0x1_0000 * h
    ensures l % 16 == imm4 && l / 0x10 % 64 == op6 && l / 0x400 % 2 == i && l / 0x800 % 32 == op5
    ensures l / 0x1_0000 == h
  {
    Peel(l, imm4, op6 + 0x40 * (i + 2 * (op5 + 0x20 * h)), 0x10);
    Peel(l / 0x10, op6, i + 2 * (op5 + 0x20 * h), 0x40);
    Peel(l / 0x400, i, op5 + 0x20 * h, 2);
    Peel(l / 0x800, op5, h, 0x20);
    assert l / 0x10 / 0x40 == l / 0x400;
    assert l / 0x400 / 2 == l / 0x800;
    assert l / 0x800 / 0x20 == l / 0x1_0000;
  }

  lemma Peel(x: nat, low: nat, rest: nat, base: nat)
    requires low < base && x == low + base * rest
    ensures x % base == low && x / base == rest
  {
    assert base * rest == rest * base;
    QuotientAndRemainder(x, base, rest, low);
  }

  lemma HighHalfFields(w: nat, h: nat, imm8: nat, rd: nat, imm3: nat, top: nat)
    requires imm8 < 256 && rd < 16 && imm3 < 8 && top < 2
    requires w / 0x1_0000 == h && h == imm8 + 0x100 * rd + 0x1000 * imm3 + 0x8000 * top
    ensures w / 0x1_0000 % 256 == imm8
    ensures w / 0x100_0000 % 16 == rd
    ensures w / 0x1000_0000 % 8 == imm3
    ensures w / 0x8000_0000 % 2 == top
  {
    Peel(h, imm8, rd + 0x10 * (imm3 + 8 * top), 0x100);
    Peel(h / 0x100, rd, imm3 + 8 * top, 0x10);
    Peel(h / 0x1000, imm3, top, 8);
    assert h / 0x100 / 0x10 == h / 0x1000;
    assert h / 0x1000 / 8 == h / 0x8000;
    assert w / 0x100_0000 == h / 0x100;
    assert w / 0x1000_0000 == h / 0x1000;
    assert w / 0x8000_0000 == h / 0x8000;
  }

  lemma FieldsOfWord(f: Fields)
    requires f.Valid()
    ensures f.Word() < U32
    ensures FieldsOf(f.Word()) == f
  {
    var h := f.imm8 + 0x100 * f.rd + 0x1000 * f.imm3 + 0x8000 * f.top;
    LowHalfFields(f.Word(), h, f.imm4, f.op6, f.i, f.op5);
    HighHalfFields(f.Word(), h, f.imm8, f.rd, f.imm3, f.top);
  }

  lemma LowHalfRebuild(l: nat) returns (imm4: nat, op6: nat, i: nat, op5: nat)
    requires l < 0x1_0000
    ensures imm4 < 16 && op6 < 64 && i < 2 && op5 < 32
    ensures l == imm4 + 0x10 * op6 + 0x400 * i + 0x800 * op5
  {
    imm4 := l % 16;
    var l1 := l / 16;
    op6 := l1 % 64;
    var l2 := l1 / 64;
    i, op5 := l2 % 2, l2 / 2;
  }

  lemma HighHalfRebuild(h: nat) returns (imm8: nat, rd: nat, imm3: nat, top: nat)
    requires h < 0x1_0000
    ensures imm8 < 256 && rd < 16 && imm3 < 8 && top < 2
    ensures h == imm8 + 0x100 * rd + 0x1000 * imm3 + 0x8000 * top
  {
    imm8 := h % 256;
    var h1 := h / 256;
    rd := h1 % 16;
    var h2 := h1 / 16;
    imm3, top := h2 % 8, h2 / 8;
  }

  lemma WordOfFields(w: u32)
    ensures FieldsOf(w).Valid()
    ensures FieldsOf(w).Word() == w
  {
    var imm4, op6, i, op5 := LowHalfRebuild(w % 0x1_0000);
    var imm8, rd, imm3, top := HighHalfRebuild(w / 0x1_0000);
    FieldsOfWord(Fields(imm4, op6, i, op5, imm8, rd, imm3, top));
  }

  /** The loader's decoding expression reads exactly imm4, i, imm3 and imm8. */
  lemma ImmediateIsFields(w: u32)
    ensures Immediate(w) == 0x1000 * FieldsOf(w).imm4 + 0x800 * FieldsOf(w).i + 0x100 * FieldsOf(w).imm3
            + FieldsOf(w).imm8
  {
    Pow2Values();
    MaskedField(ShiftLeft32(w, 1), 0x0800, 11, 1);
    MaskedField(ShiftLeft32(w, 12), 0xf000, 12, 4);
    MaskedField(Shr(w, 20), 0x0700, 8, 3);
    AndLowMask(Shr(w, 16), 8);
    ShlIsProduct(w, 1);
    ShlIsProduct(w, 12);
    Pow2Add(16, 4);
    ShrLowAreDivMod(w, 20);
    ShrLowAreDivMod(w, 16);
    ShiftedOut(w);
  }

  lemma ShiftedOut(w: nat)
    ensures w * 2 % U32 / 0x800 % 2 == w / 0x400 % 2
    ensures w * 0x1000 % U32 / 0x1000 % 16 == w % 16
    ensures w / 0x10_0000 / 0x100 % 8 == w / 0x1000_0000 % 8
  {
    FieldUnderMod(w * 2, 0x800, 2, 0x10_0000);
    FieldUnderMod(w * 0x1000, 0x1000, 16, 0x1_0000);
    assert w * 2 / 0x800 == w / 0x400;
    assert w / 0x10_0000 / 0x100 == w / 0x1000_0000;
  }

  /** What the loader keeps of an instruction: everything but the immediate. */
  lemma KeptBits(w: u32)
    ensures var f := FieldsOf(w);
            && And(w, OPCODE_BITS) == 0x10 * f.op6 + 0x800 * f.op5 + 0x8000_0000 * f.top
            && And(w, OPCODE_AND_RD_BITS) == And(w, OPCODE_BITS) + 0x100_0000 * f.rd
  {
    Pow2Values();
    MaskedField(w, 0x3f0, 4, 6);
    AndMoreField(w, 0x3f0, 0xf800, 11, 5);
    AndMoreField(w, 0xfbf0, 0x8000_0000, 31, 1);
    AndMoreField(w, 0x8000_fbf0, 0xf00_0000, 24, 4);
  }

  /** The instructions by their opcode fields: 11110 and 100100, or 101100, with the top bit of the second
      halfword clear. */
  lemma OpcodesExactly(w: u32)
    ensures var f := FieldsOf(w);
            && (IsMovw(w) <==> f.op5 == 0x1e && f.op6 == 0x24 && f.top == 0)
            && (IsMovt(w) <==> f.op5 == 0x1e && f.op6 == 0x2c && f.top == 0)
  {
    hide And;
    KeptBits(w);
  }

  /** The encoding expression replaces exactly the four immediate fields. */
  lemma PatchedIsFields(w: u32, imm: nat)
    ensures var f := FieldsOf(w);
            WithImmediate(w, imm)
            == f.(imm4 := imm / 0x1000 % 16, i := imm / 0x800 % 2, imm3 := imm / 0x100 % 8, imm8 := imm % 0x100).Word()
  {
    Pow2Values();
    KeptBits(w);
    MaskedField(Shr(imm, 1), 0x0400, 10, 1);
    AndLowMask(Shr(imm, 12), 4);
    MaskedField(ShiftLeft32(imm, 20), 0x7000_0000, 28, 3);
    MaskedField(ShiftLeft32(imm, 16), 0xff_0000, 16, 8);
    Pow2Add(16, 4);
    ShlIsProduct(imm, 20);
    ShlIsProduct(imm, 16);
    ShrLowAreDivMod(imm, 1);
    ShrLowAreDivMod(imm, 12);
    ShiftedIn(imm);
  }

  lemma ShiftedIn(imm: nat)
    ensures imm / 2 / 0x400 % 2 == imm / 0x800 % 2
    ensures imm * 0x10_0000 % U32 / 0x1000_0000 % 8 == imm / 0x100 % 8
    ensures imm * 0x1_0000 % U32 / 0x1_0000 % 0x100 == imm % 0x100
  {
    FieldUnderMod(imm * 0x10_0000, 0x1000_0000, 8, 2);
    FieldUnderMod(imm * 0x1_0000, 0x1_0000, 0x100, 0x100);
    assert imm / 2 / 0x400 == imm / 0x800;
    assert imm * 0x10_0000 / 0x1000_0000 == imm / 0x100;
  }

  lemma HalfwordRebuild(imm: nat)
    ensures imm % 0x1_0000 == 0x1000 * (imm / 0x1000 % 16) + 0x800 * (imm / 0x800 % 2) + 0x100 * (imm / 0x100 % 8)
            + imm % 0x100
  {
    var a, b := imm % 0x100, imm / 0x100;
    var c, d := b % 8, b / 8;
    var e, f := d % 2, d / 2;
    var g, h := f % 16, f / 16;
    assert imm == a + 0x100 * c + 0x800 * e + 0x1000 * g + 0x1_0000 * h;
    assert imm / 0x800 == d && imm / 0x1000 == f;
  }

  /** Decoding after encoding gives the low half; opcode and register survive. */
  lemma ImmediateCodec(w: u32, imm: nat)
    ensures WithImmediate(w, imm) < U32
    ensures Immediate(WithImmediate(w, imm)) == imm % 0x1_0000
    ensures And(WithImmediate(w, imm), OPCODE_AND_RD_BITS) == And(w, OPCODE_AND_RD_BITS)
    ensures And(WithImmediate(w, imm), OPCODE_BITS) == And(w, OPCODE_BITS)
  {
    WordOfFields(w);
    PatchedIsFields(w, imm);
    var f := FieldsOf(w);
    var g := f.(imm4 := imm / 0x1000 % 16, i := imm / 0x800 % 2, imm3 := imm / 0x100 % 8, imm8 := imm % 0x100);
    FieldsOfWord(g);
    ImmediateIsFields(g.Word());
    HalfwordRebuild(imm);
    KeptBits(w);
    KeptBits(g.Word());
  }

  /** Re-encoding an instruction's own immediate changes nothing. */
  lemma OwnImmediate(w: u32)
    ensures WithImmediate(w, Immediate(w)) == w
    ensures Immediate(w) < 0x1_0000
  {
    WordOfFields(w);
    var f := FieldsOf(w);
    ImmediateIsFields(w);
    PatchedIsFields(w, Immediate(w));
    OwnFields(f.imm4, f.i, f.imm3, f.imm8, Immediate(w));
  }

  lemma OwnFields(imm4: nat, i: nat, imm3: nat, imm8: nat, imm: nat)
    requires imm4 < 16 && i < 2 && imm3 < 8 && imm8 < 256
    requires imm == 0x1000 * imm4 + 0x800 * i + 0x100 * imm3 + imm8
    ensures imm < 0x1_0000
    ensures imm / 0x1000 % 16 == imm4 && imm / 0x800 % 2 == i && imm / 0x100 % 8 == imm3 && imm % 0x100 == imm8
  {
    assert imm / 0x100 == imm3 + 8 * (i + 2 * imm4);
    assert imm / 0x800 == i + 2 * imm4;
    assert imm / 0x1000 == imm4;
  }

  function LowSum(low: nat, delta: u32): nat {
    low + And(delta, 0xffff)
  }

  /** What the high half grows by: its share of `delta` plus the carry out of the low half. */
  function HighDelta(low: nat, delta: u32): nat {
    Shr(And(delta, 0xffff0000), 16) + Shr(And(LowSum(low, delta), 0xffff0000), 16)
  }

  /** Whether the word behind a MOVW takes part in the patch at all. */
  predicate NeedsMovt(movw: u32, delta: u32) {
    IsMovw(movw) && HighDelta(Immediate(movw), delta) != 0
  }

  /** The THUMB_MOV32 case. The MOVT word is neither read nor checked when its half need not change. */
  function FixPair(movw: u32, movt: u32, delta: u32): Outcome {
    if !IsMovw(movw) then Error(movw, movt, WrongMovw(movw))
    else
      var low := Immediate(movw);
      ImmediateCodec(movw, LowSum(low, delta));
      var movw' := WithImmediate(movw, LowSum(low, delta));
      var hiDelta := HighDelta(low, delta);
      if hiDelta == 0 then Ok(movw', movt)
      else if !IsMovt(movt) then Error(movw', movt, WrongMovt(movt))
      else
        var high := Immediate(movt) + hiDelta;
        if high > 0xffff then Error(movw', movt, WontFit(high))
        else
          ImmediateCodec(movt, high);
          Ok(movw', WithImmediate(movt, high))
  }

  /** The 32-bit constant the pair loads into Rd. */
  function Loaded(movw: u32, movt: u32): nat {
    Immediate(movt) * 0x1_0000 + Immediate(movw)
  }

  /** Adding `delta` half by half, with the carry, is adding it to the whole constant. */
  lemma HalvesCarry(low: nat, high: nat, delta: u32)
    requires low < 0x1_0000 && high < 0x1_0000
    ensures (high + HighDelta(low, delta)) * 0x1_0000 + LowSum(low, delta) % 0x1_0000 == high * 0x1_0000 + low + delta
    ensures LowSum(low, delta) < 0x2_0000
  {
    Pow2Values();
    AndLowMask(delta, 16);
    HighHalf(delta);
    HighHalf(LowSum(low, delta));
  }

  lemma HighHalf(x: u32)
    ensures Shr(And(x, 0xffff0000), 16) == x / 0x1_0000
  {
    Pow2Values();
    AndHighMask(x, 16, 32);
    ShrLowAreDivMod(x - x % 0x1_0000, 16);
  }

  /** The second word takes part iff delta reaches above 16 bits or the low halves carry. */
  lemma NeedsMovtExactly(movw: u32, delta: u32)
    ensures NeedsMovt(movw, delta) <==>
            IsMovw(movw) && (delta / 65536 > 0 || Immediate(movw) + delta % 65536 >= 65536)
  {
    hide And, Immediate, IsMovw;
    OwnImmediate(movw);
    Pow2Values();
    AndLowMask(delta, 16);
    HighHalf(delta);
    HighHalf(LowSum(Immediate(movw), delta));
  }

  lemma PairFits(movw: u32, movt: u32, delta: u32)
    requires IsMovw(movw) && IsMovt(movt)
    ensures FixPair(movw, movt, delta).Ok? <==> Loaded(movw, movt) + delta < U32
    ensures FixPair(movw, movt, delta).Error?
            ==> FixPair(movw, movt, delta).failure.WontFit? && FixPair(movw, movt, delta).movt == movt
  {
    OwnImmediate(movw);
    OwnImmediate(movt);
    HalvesCarry(Immediate(movw), Immediate(movt), delta);
    assert FixPair(movw, movt, delta).Ok? <==> Immediate(movt) + HighDelta(Immediate(movw), delta) <= 0xffff;
  }

  /** The words of a successful patch. */
  lemma PatchedWords(movw: u32, movt: u32, delta: u32)
    requires IsMovw(movw) && IsMovt(movt) && FixPair(movw, movt, delta).Ok?
    ensures var out, grown := FixPair(movw, movt, delta), HighDelta(Immediate(movw), delta);
            && out.movw == WithImmediate(movw, LowSum(Immediate(movw), delta))
            && (if grown == 0 then out.movt == movt
                else Immediate(movt) + grown <= 0xffff && out.movt == WithImmediate(movt, Immediate(movt) + grown))
  {
    hide And, Immediate, LowSum, HighDelta, WithImmediate, IsMovw, IsMovt;
  }

  lemma MovwPatched(movw: u32, movt: u32, delta: u32)
    requires IsMovw(movw) && IsMovt(movt)
    requires FixPair(movw, movt, delta).Ok?
    ensures var out := FixPair(movw, movt, delta);
            && Immediate(out.movw) == LowSum(Immediate(movw), delta) % 0x1_0000
            && And(out.movw, OPCODE_AND_RD_BITS) == And(movw, OPCODE_AND_RD_BITS)
            && IsMovw(out.movw)
  {
    hide And, Immediate, LowSum, HighDelta, WithImmediate, FixPair;
    PatchedWords(movw, movt, delta);
    ImmediateCodec(movw, LowSum(Immediate(movw), delta));
  }

  lemma MovtPatched(movw: u32, movt: u32, delta: u32)
    requires IsMovw(movw) && IsMovt(movt)
    requires FixPair(movw, movt, delta).Ok?
    ensures var out := FixPair(movw, movt, delta);
            && Immediate(out.movt) == Immediate(movt) + HighDelta(Immediate(movw), delta)
            && And(out.movt, OPCODE_AND_RD_BITS) == And(movt, OPCODE_AND_RD_BITS)
            && IsMovt(out.movt)
            && (out.movt == movt <==> Immediate(out.movt) == Immediate(movt))
  {
    hide And, Immediate, LowSum, HighDelta, WithImmediate, FixPair;
    PatchedWords(movw, movt, delta);
    ImmediateCodec(movt, Immediate(movt) + HighDelta(Immediate(movw), delta));
  }

  /** Patching is exact: a valid pair is patched iff the shifted constant still fits in 32 bits; it
      then loads exactly that constant, opcode and register bits are untouched, and MOVT is left
      alone precisely when its half stays the same. */
  lemma PairExact(movw: u32, movt: u32, delta: u32)
    requires IsMovw(movw) && IsMovt(movt)
    ensures var out := FixPair(movw, movt, delta);
            && (out.Ok? <==> Loaded(movw, movt) + delta < U32)
            && (out.Error? ==> out.failure.WontFit? && out.movt == movt)
            && (out.Ok? ==>
                  && Loaded(out.movw, out.movt) == Loaded(movw, movt) + delta
                  && And(out.movw, OPCODE_AND_RD_BITS) == And(movw, OPCODE_AND_RD_BITS)
                  && And(out.movt, OPCODE_AND_RD_BITS) == And(movt, OPCODE_AND_RD_BITS)
                  && IsMovw(out.movw) && IsMovt(out.movt)
                  && (out.movt == movt <==> Immediate(out.movt) == Immediate(movt)))
  {
    PairFits(movw, movt, delta);
    if FixPair(movw, movt, delta).Ok? {
      MovwPatched(movw, movt, delta);
      MovtPatched(movw, movt, delta);
      OwnImmediate(movw);
      OwnImmediate(movt);
      HalvesCarry(Immediate(movw), Immediate(movt), delta);
    }
  }

  /** In front of anything but a MOVT, a MOVW is patched iff its own half stays below 64 Ki; the other word
      is then left alone. */
  lemma LoneMovwExact(movw: u32, movt: u32, delta: u32)
    requires IsMovw(movw) && !IsMovt(movt)
    ensures var out := FixPair(movw, movt, delta);
            && (out.Ok? <==> Immediate(movw) + delta < 0x1_0000)
            && (out.Ok? ==>
                  && out.movt == movt
                  && Immediate(out.movw) == Immediate(movw) + delta
                  && And(out.movw, OPCODE_AND_RD_BITS) == And(movw, OPCODE_AND_RD_BITS)
                  && IsMovw(out.movw))
  {
    hide And, Immediate, LowSum, HighDelta, WithImmediate;
    OwnImmediate(movw);
    HalvesCarry(Immediate(movw), 0, delta);
    ImmediateCodec(movw, LowSum(Immediate(movw), delta));
  }

  lemma ZeroIsNoMovt()
    ensures !IsMovt(0)
  {
  }

  lemma WrongMovwFails(movw: u32, movt: u32, delta: u32)
    ensures FixPair(movw, movt, delta).Ok? ==> IsMovw(movw)
  {
    hide And, Immediate, LowSum, HighDelta, WithImmediate;
  }

  /** If the word behind does not take part, any word may stand there. */
  lemma OnlyMovw(movw: u32, movt: u32, other: u32, delta: u32)
    requires !NeedsMovt(movw, delta)
    ensures var a, b := FixPair(movw, movt, delta), FixPair(movw, other, delta);
            && a.movt == movt && a.movw == b.movw && (a.Ok? <==> b.Ok?)
            && (a.Error? ==> a.failure == b.failure)
  {
    hide And, Immediate, LowSum, HighDelta, WithImmediate;
  }

  /** The loader passes a move down by k as delta = 2^32 - k. The result that the image then needs is
      Loaded - k, yet a pair is patched iff that result would be negative: every pair that points at
      or above k is refused as "won't fit". */
  lemma DownwardMoveExact(movw: u32, movt: u32, k: nat)
    requires IsMovw(movw) && IsMovt(movt) && 0 < k < U32
    ensures FixPair(movw, movt, U32 - k).Ok? <==> Loaded(movw, movt) < k
  {
    PairFits(movw, movt, U32 - k);
  }

  /** A concrete refusal: MOVW r0, #0x1000 with MOVT r0, #0x1001 loads 0x10011000; an image moved
      down by 0x10000 needs 0x10001000, which is representable, but the loader gives up. */
  lemma DownwardMoveRefused(movw: u32, movt: u32)
    requires movw == 0x0000f241 && movt == 0x0001f2c1
    ensures IsMovw(movw) && IsMovt(movt) && Loaded(movw, movt) == 0x1001_1000
    ensures FixPair(movw, movt, U32 - 0x1_0000).Error?
  {
    InstructionOf(movw, Fields(1, 0x24, 0, 0x1e, 0, 0, 0, 0));
    InstructionOf(movt, Fields(1, 0x2c, 0, 0x1e, 1, 0, 0, 0));
    DownwardMoveExact(movw, movt, 0x1_0000);
  }

  lemma InstructionOf(w: u32, f: Fields)
    requires f.Valid() && w == f.Word()
    ensures And(w, OPCODE_BITS) == 0x10 * f.op6 + 0x800 * f.op5 + 0x8000_0000 * f.top
    ensures Immediate(w) == 0x1000 * f.imm4 + 0x800 * f.i + 0x100 * f.imm3 + f.imm8
  {
    FieldsOfWord(f);
    KeptBits(w);
    ImmediateIsFields(w);
  }
}
