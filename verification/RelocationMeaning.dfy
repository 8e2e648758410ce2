/** What a relocation pass means for the image: every patched field moves with the image base, every
    other byte stays, and a pass by the opposite delta undoes it exactly when it should. */
module RelocationMeaning {
  import opened Bits
  import opened Words
  import opened Relocation
  import Thumb

  ghost predicate PairwiseApart(xs: seq<Fixup>) {
    forall i, j :: 0 <= i < j < |xs| && Width(xs[j].kind) > 0 ==>
      Apart(xs[i], xs[j].site, xs[j].site + Width(xs[j].kind))
  }

  function FieldOf(m: Bytes, x: Fixup): (f: Bytes)
    requires InBounds(x, |m|)
    ensures |f| == Width(x.kind)
  {
    m[x.site..x.site + Width(x.kind)]
  }

  lemma OneFrame(m: Bytes, x: Fixup, delta: u64, o: nat, n: nat)
    requires InBounds(x, |m|) && o + n <= |m| && Apart(x, o, o + n)
    ensures ApplyOne(m, x, delta).image[o..o + n] == m[o..o + n]
  {
    hide FixField;
    OnePatch(m, x, delta);
    var p := FixField(x.kind, delta, m[x.site..x.site + Width(x.kind)]);
    if Width(x.kind) > 0 {
      FieldAfterSplice(m, x.site, p.bytes, o, n);
    } else {
      assert Splice(m, x.site, p.bytes) == m;
    }
  }

  /** Whether or not the pass succeeds, a range no patch overlaps keeps its bytes. */
  lemma {:induction false} OtherBytesUnchanged(m: Bytes, xs: seq<Fixup>, delta: u64, o: nat, n: nat)
    requires AllInBounds(xs, |m|) && o + n <= |m|
    requires forall x :: x in xs ==> Apart(x, o, o + n)
    ensures ApplyAll(m, xs, delta).image[o..o + n] == m[o..o + n]
    decreases |xs|
  {
    hide FixField, ApplyOne;
    if xs != [] {
      assert xs[0] in xs && forall y :: y in xs[1..] ==> y in xs;
      OneFrame(m, xs[0], delta, o, n);
      OtherBytesUnchanged(ApplyOne(m, xs[0], delta).image, xs[1..], delta, o, n);
    }
  }

  /** After a successful pass over disjoint sites every field is its own old contents, patched once. */
  lemma {:induction false} EachFieldPatched(m: Bytes, xs: seq<Fixup>, delta: u64, i: nat)
    requires AllInBounds(xs, |m|) && PairwiseApart(xs) && i < |xs|
    requires ApplyAll(m, xs, delta).status.Done?
    ensures InBounds(xs[i], |m|)
    ensures FixField(xs[i].kind, delta, FieldOf(m, xs[i])).status.Done?
    ensures FieldOf(ApplyAll(m, xs, delta).image, xs[i]) == FixField(xs[i].kind, delta, FieldOf(m, xs[i])).bytes
    decreases |xs|
  {
    hide FixField, ApplyOne, PairwiseApart, Apart;
    var x := xs[0];
    assert x in xs && xs[i] in xs && forall y :: y in xs[1..] ==> y in xs;
    OnePatch(m, x, delta);
    RestApart(xs, i);
    var one := ApplyOne(m, x, delta);
    if i == 0 {
      if Width(x.kind) > 0 {
        ApartFromFirst(xs);
        OtherBytesUnchanged(one.image, xs[1..], delta, x.site, Width(x.kind));
      }
    } else {
      var y := xs[i];
      assert xs[1..][i - 1] == y;
      EachFieldPatched(one.image, xs[1..], delta, i - 1);
      if Width(y.kind) > 0 {
        OneFrame(m, x, delta, y.site, Width(y.kind));
      }
    }
  }

  lemma RestApart(xs: seq<Fixup>, i: nat)
    requires PairwiseApart(xs) && i < |xs|
    ensures PairwiseApart(xs[1..])
    ensures i > 0 && Width(xs[i].kind) > 0 ==> Apart(xs[0], xs[i].site, xs[i].site + Width(xs[i].kind))
  {
    hide Apart;
    var rest := xs[1..];
    forall j, k | 0 <= j < k < |rest| && Width(rest[k].kind) > 0
      ensures Apart(rest[j], rest[k].site, rest[k].site + Width(rest[k].kind))
    {
      assert rest[j] == xs[j + 1] && rest[k] == xs[k + 1];
    }
  }

  lemma ApartFromFirst(xs: seq<Fixup>)
    requires PairwiseApart(xs) && |xs| > 0 && Width(xs[0].kind) > 0
    ensures forall y :: y in xs[1..] ==> Apart(y, xs[0].site, xs[0].site + Width(xs[0].kind))
  {
    forall y | y in xs[1..]
      ensures Apart(y, xs[0].site, xs[0].site + Width(xs[0].kind))
    {
      var j :| 1 <= j < |xs| && xs[j] == y;
      assert Width(xs[j].kind) > 0 ==> Apart(xs[0], xs[j].site, xs[j].site + Width(xs[j].kind));
    }
  }

  // ---------------------------------------------------------------- the whole table

  /** Where there is room for the second word, leaving it out makes no difference. */
  lemma ResolvedPatchIsSame(m: Bytes, x: Fixup, delta: u64)
    requires InBounds(x, |m|)
    ensures InBounds(Resolve(m, x, delta), |m|)
    ensures ApplyOne(m, Resolve(m, x, delta), delta) == ApplyOne(m, x, delta)
  {
    hide Thumb.FixPair, Thumb.NeedsMovt, Decode, Encode;
    if Resolve(m, x, delta) != x {
      Spans();
      var f := m[x.site..x.site + 8];
      assert f[..4] == m[x.site..x.site + 4];
      Thumb.OnlyMovw(Decode(f[..4]), Decode(f[4..]), 0, delta % U32);
      EncodeOfDecode(f[4..]);
      var w := Encode(Thumb.FixPair(Decode(f[..4]), 0, delta % U32).movw, 4);
      assert Splice(m, x.site, w + f[4..]) == Splice(m, x.site, w);
    }
  }

  /** What each entry touches in the image before the pass. */
  function ResolveAll(m: Bytes, xs: seq<Fixup>, delta: u64): (ys: seq<Fixup>)
    ensures |ys| == |xs|
  {
    seq(|xs|, i requires 0 <= i < |xs| => Resolve(m, xs[i], delta))
  }

  ghost predicate AllApart(xs: seq<Fixup>, lo: nat, hi: nat) {
    forall x :: x in xs ==> Apart(x, lo, hi)
  }

  /** The entries of the table in the image, as they are before the pass, are in the image, outside the
      table, and do not overlap each other. */
  ghost predicate TableReady(m: Bytes, at: nat, delta: u64) {
    && ParseTable(m, at).Table?
    && var t := ParseTable(m, at);
       var ys := ResolveAll(m, t.fixups, delta);
       AllInBounds(ys, |m|) && AllApart(ys, at, t.end) && PairwiseApart(ys)
  }

  /** A patch elsewhere does not change what an entry touches. */
  lemma StaysResolved(m: Bytes, y: Fixup, x: Fixup, delta: u64)
    requires InBounds(y, |m|) && InBounds(Resolve(m, x, delta), |m|)
    requires var r := Resolve(m, x, delta); Width(r.kind) > 0 ==> Apart(y, r.site, r.site + Width(r.kind))
    ensures Resolve(ApplyOne(m, y, delta).image, x, delta) == Resolve(m, x, delta)
  {
    hide FixField, ApplyOne, Thumb.NeedsMovt, Decode;
    if x.kind == REL_THUMB_MOV32 {
      OneFrame(m, y, delta, x.site, 4);
    }
  }

  lemma RestStaysResolved(m: Bytes, xs: seq<Fixup>, delta: u64)
    requires xs != [] && AllInBounds(ResolveAll(m, xs, delta), |m|) && PairwiseApart(ResolveAll(m, xs, delta))
    ensures InBounds(Resolve(m, xs[0], delta), |m|)
    ensures ResolveAll(ApplyOne(m, Resolve(m, xs[0], delta), delta).image, xs[1..], delta)
            == ResolveAll(m, xs, delta)[1..]
  {
    hide Resolve, ApplyOne, Apart;
    var ys := ResolveAll(m, xs, delta);
    assert ys[0] in ys;
    var after := ApplyOne(m, ys[0], delta).image;
    forall i | 0 <= i < |xs| - 1
      ensures Resolve(after, xs[1..][i], delta) == ys[1..][i]
    {
      assert ys[i + 1] in ys;
      StaysResolved(m, ys[0], xs[i + 1], delta);
    }
    assert ResolveAll(after, xs[1..], delta) == ys[1..];
  }

  /** Resolving every entry before the pass or each just before its patch makes no difference. */
  lemma {:induction false} PatchAllIsApplyAll(m: Bytes, xs: seq<Fixup>, delta: u64, lo: nat, hi: nat)
    requires var ys := ResolveAll(m, xs, delta); AllInBounds(ys, |m|) && AllApart(ys, lo, hi) && PairwiseApart(ys)
    ensures Harmless(m, xs, delta, lo, hi)
    ensures PatchAll(m, xs, delta, lo, hi) == ApplyAll(m, ResolveAll(m, xs, delta), delta)
    decreases |xs|
  {
    hide Resolve, ApplyOne, Apart, PairwiseApart;
    if xs != [] {
      var ys := ResolveAll(m, xs, delta);
      assert ys[0] in ys && forall y :: y in ys[1..] ==> y in ys;
      RestStaysResolved(m, xs, delta);
      RestApart(ys, 0);
      PatchAllIsApplyAll(ApplyOne(m, ys[0], delta).image, xs[1..], delta, lo, hi);
    }
  }

  /** With a table that is ready, the pass applies its entries as they are before the pass. */
  lemma TableApplies(m: Bytes, at: nat, delta: u64)
    requires TableReady(m, at, delta)
    ensures WellFormed(m, at, delta)
    ensures AllInBounds(ResolveAll(m, ParseTable(m, at).fixups, delta), |m|)
    ensures PatchTable(m, at, delta) == ApplyAll(m, ResolveAll(m, ParseTable(m, at).fixups, delta), delta)
  {
    hide ParseTable, ResolveAll, ApplyAll, PatchAll, Harmless, PairwiseApart;
    PatchAllIsApplyAll(m, ParseTable(m, at).fixups, delta, at, ParseTable(m, at).end);
  }

  // ---------------------------------------------------------------- what a moved image means

  lemma AdditivePatch(kind: nat, delta: u64, field: Bytes)
    requires Additive(kind) && |field| == Width(kind)
    ensures FixField(kind, delta, field).status.Done?
    ensures Decode(FixField(kind, delta, field).bytes) == (Decode(field) + Increment(kind, delta)) % Span(Width(kind))
  {
    hide Thumb.FixPair, Decode, Encode, Span;
    DecodeOfEncode(Decode(field) + Increment(kind, delta), Width(kind));
  }

  lemma SameOffset(v: nat, v': nat, delta: nat, oldBase: nat, newBase: nat, modulus: nat)
    requires modulus > 0
    requires v' == (v + delta) % modulus
    requires (oldBase + delta) % modulus == newBase % modulus
    ensures (v' - newBase) % modulus == (v - oldBase) % modulus
  {
    var q, a, b := (v + delta) / modulus, (oldBase + delta) / modulus, newBase / modulus;
    DivModOf(v + delta, modulus);
    DivModOf(oldBase + delta, modulus);
    DivModOf(newBase, modulus);
    Collect(v, v', delta, oldBase, newBase, q, a, b, modulus);
    ModShift(v - oldBase, a - b - q, modulus);
  }

  lemma DivModOf(x: nat, m: nat)
    requires m > 0
    ensures x == (x / m) * m + x % m
  {
  }

  lemma Collect(v: int, v': int, delta: int, oldBase: int, newBase: int, q: int, a: int, b: int, m: int)
    requires v + delta == q * m + v'
    requires oldBase + delta - a * m == newBase - b * m
    ensures v' - newBase == (v - oldBase) + (a - b - q) * m
  {
    assert (a - b - q) * m == a * m - b * m - q * m;
  }

  lemma ModShift(x: int, k: int, m: nat)
    requires m > 0
    ensures (x + k * m) % m == x % m
  {
    var q, r := DivMod(x, m);
    assert x + k * m == (q + k) * m + r;
    QuotientAndRemainder(x + k * m, m, q + k, r);
  }

  /** The distance the image moved, as the loader computes it. */
  function Delta(oldBase: u64, newBase: u64): u64 {
    (newBase + U64 - oldBase) % U64
  }

  /** Kinds whose field is an address (or its low part) relative to nothing but the image base. */
  predicate HoldsAddress(kind: nat) {
    kind == REL_LOW || kind == REL_HIGHLOW || kind == REL_DIR64
  }

  lemma AddressIncrement(kind: nat, delta: u64) returns (k: nat)
    requires HoldsAddress(kind)
    ensures Increment(kind, delta) == delta % Span(Width(kind))
    ensures k * Span(Width(kind)) == U64
  {
    Spans();
    k := if kind == REL_DIR64 then 1 else if kind == REL_HIGHLOW then U32 else 0x1_0000_0000_0000;
  }

  /** The field of a patched entry, before and after, seen from the two image bases: an address keeps
      its offset modulo the width of the field; a HIGH field grows by the high half of the distance,
      without a carry. */
  predicate Follows(kind: nat, v: nat, v': nat, oldBase: u64, newBase: u64) {
    && (HoldsAddress(kind) ==> (v' - newBase) % Span(Width(kind)) == (v - oldBase) % Span(Width(kind)))
    && (kind == REL_HIGH ==> v' == (v + Delta(oldBase, newBase) % U32 / 0x1_0000) % Span(Width(kind)))
  }

  /** After a successful pass over disjoint sites every address in the image still points at the same
      offset from the image base. */
  lemma AddressesFollowTheBase(m: Bytes, xs: seq<Fixup>, oldBase: u64, newBase: u64, i: nat)
    requires AllInBounds(xs, |m|) && PairwiseApart(xs) && i < |xs| && Additive(xs[i].kind)
    requires ApplyAll(m, xs, Delta(oldBase, newBase)).status.Done?
    ensures InBounds(xs[i], |m|)
    ensures var moved := ApplyAll(m, xs, Delta(oldBase, newBase)).image;
            Follows(xs[i].kind, Decode(FieldOf(m, xs[i])), Decode(FieldOf(moved, xs[i])), oldBase, newBase)
  {
    hide FixField, FieldOf, Decode, ApplyAll, Delta, Span, Increment, PairwiseApart, Follows;
    var delta, x := Delta(oldBase, newBase), xs[i];
    EachFieldPatched(m, xs, delta, i);
    AdditivePatch(x.kind, delta, FieldOf(m, x));
    AddressFollows(x.kind, Decode(FieldOf(m, x)), oldBase, newBase);
  }

  lemma AddressFollows(kind: nat, v: nat, oldBase: u64, newBase: u64)
    requires Additive(kind)
    ensures Follows(kind, v, (v + Increment(kind, Delta(oldBase, newBase))) % Span(Width(kind)), oldBase, newBase)
  {
    hide Delta, Span;
    if HoldsAddress(kind) {
      var width, inc := Span(Width(kind)), Increment(kind, Delta(oldBase, newBase));
      var k := AddressIncrement(kind, Delta(oldBase, newBase));
      MovedModulo(oldBase, newBase, width, k);
      SameOffset(v, (v + inc) % width, inc, oldBase, newBase, width);
    }
  }

  lemma MovedModulo(oldBase: u64, newBase: u64, m: nat, k: nat)
    requires m > 0 && k * m == U64
    ensures (oldBase + Delta(oldBase, newBase) % m) % m == newBase % m
  {
    var d := Delta(oldBase, newBase);
    DivModOf(d, m);
    assert oldBase + d == newBase || oldBase + d == newBase + U64;
    assert oldBase + d % m == oldBase + d + -(d / m) * m;
    ModShift(oldBase + d, -(d / m), m);
    ModShift(newBase, k, m);
  }

  /** The k-th of the two instruction words of a Thumb field. */
  function ThumbWord(f: Bytes, k: nat): u32
    requires |f| == 8 && k < 2
  {
    Spans();
    Decode(f[4 * k..4 * k + 4])
  }

  lemma ThumbFieldWords(f: Bytes, delta: u64)
    requires |f| == 8
    ensures var out := Thumb.FixPair(ThumbWord(f, 0), ThumbWord(f, 1), delta % U32);
            var p := FixField(REL_THUMB_MOV32, delta, f);
            && (p.status.Done? <==> out.Ok?)
            && ThumbWord(p.bytes, 0) == out.movw && ThumbWord(p.bytes, 1) == out.movt
  {
    hide Thumb.FixPair, Decode, Encode;
    var out, p := Thumb.FixPair(ThumbWord(f, 0), ThumbWord(f, 1), delta % U32), FixField(REL_THUMB_MOV32, delta, f);
    assert f[4..8] == f[4..];
    assert p.bytes[0..4] == Encode(out.movw, 4) && p.bytes[4..8] == Encode(out.movt, 4);
    DecodeOfEncode(out.movw, 4);
    DecodeOfEncode(out.movt, 4);
    Spans();
  }

  /** The two words before and after: the same instructions with the same register, moved by the distance. */
  ghost predicate ThumbMoved(w0: u32, w1: u32, w0': u32, w1': u32, distance: u32) {
    && Thumb.IsMovw(w0) && Thumb.IsMovw(w0')
    && And(w0', Thumb.OPCODE_AND_RD_BITS) == And(w0, Thumb.OPCODE_AND_RD_BITS)
    && if Thumb.IsMovt(w1) then
         && Thumb.IsMovt(w1')
         && And(w1', Thumb.OPCODE_AND_RD_BITS) == And(w1, Thumb.OPCODE_AND_RD_BITS)
         && Thumb.Loaded(w0', w1') == Thumb.Loaded(w0, w1) + distance
       else
         w1' == w1 && Thumb.Immediate(w0') == Thumb.Immediate(w0) + distance
  }

  lemma ThumbWordsMoved(w0: u32, w1: u32, distance: u32)
    requires Thumb.FixPair(w0, w1, distance).Ok?
    ensures var out := Thumb.FixPair(w0, w1, distance); ThumbMoved(w0, w1, out.movw, out.movt, distance)
  {
    hide Thumb.Loaded, Thumb.IsMovt, Thumb.IsMovw, Thumb.Immediate, And, Thumb.HighDelta, Thumb.LowSum,
         Thumb.WithImmediate;
    if Thumb.IsMovt(w1) {
      Thumb.PairExact(w0, w1, distance);
    } else {
      Thumb.LoneMovwExact(w0, w1, distance);
    }
  }

  /** A Thumb pair ends up loading its old constant plus the distance moved, into the same register. */
  lemma ThumbPairsFollowTheBase(m: Bytes, xs: seq<Fixup>, delta: u64, i: nat)
    requires AllInBounds(xs, |m|) && PairwiseApart(xs) && i < |xs| && xs[i].kind == REL_THUMB_MOV32
    requires ApplyAll(m, xs, delta).status.Done?
    ensures InBounds(xs[i], |m|)
    ensures var f, f' := FieldOf(m, xs[i]), FieldOf(ApplyAll(m, xs, delta).image, xs[i]);
            ThumbMoved(ThumbWord(f, 0), ThumbWord(f, 1), ThumbWord(f', 0), ThumbWord(f', 1), delta % U32)
  {
    hide ThumbMoved, FixField, ThumbWord, ApplyAll, Thumb.FixPair;
    EachFieldPatched(m, xs, delta, i);
    var f := FieldOf(m, xs[i]);
    ThumbFieldWords(f, delta);
    ThumbWordsMoved(ThumbWord(f, 0), ThumbWord(f, 1), delta % U32);
  }

  function MovwWord(f: Bytes): u32
    requires |f| == 4
  {
    Spans();
    Decode(f)
  }

  /** A MOVW that does not carry grows alone, and with an unchanged MOVT behind it the pair follows. */
  ghost predicate MovwMoved(w: u32, w': u32, distance: u32) {
    && Thumb.IsMovw(w) && Thumb.IsMovw(w')
    && And(w', Thumb.OPCODE_AND_RD_BITS) == And(w, Thumb.OPCODE_AND_RD_BITS)
    && Thumb.Immediate(w') == Thumb.Immediate(w) + distance
    && forall movt: u32 :: Thumb.Loaded(w', movt) == Thumb.Loaded(w, movt) + distance
  }

  lemma MovwFollowsTheBase(m: Bytes, xs: seq<Fixup>, delta: u64, i: nat)
    requires AllInBounds(xs, |m|) && PairwiseApart(xs) && i < |xs| && xs[i].kind == MOVW_ONLY
    requires ApplyAll(m, xs, delta).status.Done?
    ensures InBounds(xs[i], |m|)
    ensures var f, f' := FieldOf(m, xs[i]), FieldOf(ApplyAll(m, xs, delta).image, xs[i]);
            MovwMoved(MovwWord(f), MovwWord(f'), delta % U32)
  {
    hide FixField, ApplyAll, FieldOf, MovwWord, PairwiseApart, MovwMoved;
    EachFieldPatched(m, xs, delta, i);
    MovwField(FieldOf(m, xs[i]), delta);
  }

  lemma MovwField(f: Bytes, delta: u64)
    requires |f| == 4 && FixField(MOVW_ONLY, delta, f).status.Done?
    ensures MovwMoved(MovwWord(f), MovwWord(FixField(MOVW_ONLY, delta, f).bytes), delta % U32)
  {
    hide Thumb.FixPair, Decode, Encode, Thumb.Immediate, Thumb.IsMovw, Thumb.IsMovt, And;
    Spans();
    var out := Thumb.FixPair(Decode(f), 0, delta % U32);
    DecodeOfEncode(out.movw, 4);
    Thumb.ZeroIsNoMovt();
    Thumb.WrongMovwFails(Decode(f), 0, delta % U32);
    Thumb.LoneMovwExact(Decode(f), 0, delta % U32);
  }

  // ---------------------------------------------------------------- undoing a move

  function Opposite(delta: u64): u64 {
    (U64 - delta) % U64
  }

  predicate Plain(xs: seq<Fixup>) {
    forall x :: x in xs ==> x.kind == REL_ABSOLUTE || Additive(x.kind)
  }

  lemma ThereAndBack(v: nat, a: nat, b: nat, modulus: nat)
    requires v < modulus
    ensures ((v + a) % modulus + b) % modulus == v <==> (a + b) % modulus == 0
  {
    var q, k := (v + a) / modulus, (a + b) / modulus;
    DivModOf(v + a, modulus);
    DivModOf(a + b, modulus);
    var there, rest := (v + a) % modulus, (a + b) % modulus;
    assert there + b == v + rest + (k - q) * modulus by {
      assert (k - q) * modulus == k * modulus - q * modulus;
    }
    ModShift(v + rest, k - q, modulus);
    SmallSum(v, rest, modulus);
  }

  lemma SmallSum(v: nat, r: nat, m: nat)
    requires v < m && r < m
    ensures (v + r) % m == v <==> r == 0
  {
    if v + r < m {
      QuotientAndRemainder(v + r, m, 0, v + r);
    } else {
      QuotientAndRemainder(v + r, m, 1, v + r - m);
    }
  }

  /** Only the HIGH kind adds a truncated share of the delta; its two shares cancel iff the delta is a
      multiple of 64 KiB. */
  lemma IncrementsCancel(kind: nat, delta: u64)
    requires Additive(kind)
    ensures Span(Width(kind)) > 0
    ensures (Increment(kind, delta) + Increment(kind, Opposite(delta))) % Span(Width(kind)) == 0
       <==> (kind == REL_HIGH ==> delta % 0x1_0000 == 0)
  {
    Spans();
    if kind == REL_DIR64 {
      assert delta + Opposite(delta) == 0 || delta + Opposite(delta) == U64;
    } else if kind == REL_HIGH {
      CancelHigh(delta);
    } else {
      CancelLow(delta);
    }
  }

  lemma CancelLow(delta: u64)
    ensures (delta % 0x1_0000 + Opposite(delta) % 0x1_0000) % 0x1_0000 == 0
    ensures (delta % U32 + Opposite(delta) % U32) % U32 == 0
  {
    OppositeRemainder(delta, 0x1_0000, 0x1_0000_0000_0000);
    OppositeRemainder(delta, U32, U32);
  }

  lemma CancelHigh(delta: u64)
    ensures (delta % U32 / 0x1_0000 + Opposite(delta) % U32 / 0x1_0000) % 0x1_0000 == 0 <==> delta % 0x1_0000 == 0
  {
    OppositeRemainder(delta, U32, U32);
    HighShares(delta % U32, Opposite(delta) % U32);
    ModOfMod(delta, 0x1_0000, 0x1_0000);
  }

  lemma HighShares(d: u32, e: u32)
    requires d + e == 0 || d + e == U32
    ensures (d / 0x1_0000 + e / 0x1_0000) % 0x1_0000 == 0 <==> d % 0x1_0000 == 0
  {
    var dh, dl, eh, el := d / 0x1_0000, d % 0x1_0000, e / 0x1_0000, e % 0x1_0000;
    assert dl + el == 0 || dl + el == 0x1_0000;
  }

  lemma OppositeRemainder(delta: u64, m: nat, k: nat)
    requires m > 0 && k * m == U64
    ensures delta % m + Opposite(delta) % m == if delta % m == 0 then 0 else m
  {
    var q, r := DivMod(delta, m);
    OppositeParts(delta, m, k, q, r);
    if delta == 0 {
      QuotientAndRemainder(0, m, 0, 0);
    } else if r == 0 {
      QuotientAndRemainder(U64 - delta, m, k - q, 0);
    } else {
      QuotientAndRemainder(U64 - delta, m, k - q - 1, m - r);
    }
  }

  lemma OppositeParts(delta: int, m: int, k: int, q: int, r: int)
    requires k * m == U64 && delta == q * m + r
    ensures U64 - delta == (k - q) * m - r == (k - q - 1) * m + (m - r)
  {
    assert (k - q) * m == k * m - q * m;
    assert (k - q - 1) * m == (k - q) * m - m;
  }

  lemma FieldRoundTrip(kind: nat, delta: u64, f: Bytes)
    requires |f| == Width(kind) && (kind == REL_ABSOLUTE || Additive(kind))
    ensures FixField(kind, delta, f).status.Done?
    ensures var f2 := FixField(kind, Opposite(delta), FixField(kind, delta, f).bytes);
            f2.status.Done? && (f2.bytes == f <==> (kind == REL_HIGH ==> delta % 0x1_0000 == 0))
  {
    if Additive(kind) {
      var f1 := FixField(kind, delta, f).bytes;
      var f2 := FixField(kind, Opposite(delta), f1).bytes;
      AdditivePatch(kind, delta, f);
      AdditivePatch(kind, Opposite(delta), f1);
      IncrementsCancel(kind, delta);
      var v, a, b, n := Decode(f), Increment(kind, delta), Increment(kind, Opposite(delta)), Span(Width(kind));
      ThereAndBack(v, a, b, n);
      EncodeOfDecode(f);
      EncodeOfDecode(f2);
    }
  }

  /** A pass over additive kinds cannot fail. */
  lemma {:induction false} PlainSucceeds(m: Bytes, xs: seq<Fixup>, delta: u64)
    requires AllInBounds(xs, |m|) && Plain(xs)
    ensures ApplyAll(m, xs, delta).status.Done?
    decreases |xs|
  {
    hide FixField, ApplyOne;
    if xs != [] {
      var x := xs[0];
      assert x in xs && forall y :: y in xs[1..] ==> y in xs;
      OnePatch(m, x, delta);
      FieldRoundTrip(x.kind, delta, FieldOf(m, x));
      PlainSucceeds(ApplyOne(m, x, delta).image, xs[1..], delta);
    }
  }

  /** No entry whose share of the delta is truncated. */
  predicate Reversible(xs: seq<Fixup>, delta: u64) {
    forall x :: x in xs && x.kind == REL_HIGH ==> delta % 0x1_0000 == 0
  }

  lemma FieldComesBack(m: Bytes, xs: seq<Fixup>, delta: u64, i: nat)
    requires AllInBounds(xs, |m|) && PairwiseApart(xs) && Plain(xs) && i < |xs|
    ensures InBounds(xs[i], |m|)
    ensures var back := ApplyAll(ApplyAll(m, xs, delta).image, xs, Opposite(delta)).image;
            FieldOf(back, xs[i]) == FieldOf(m, xs[i]) <==> (xs[i].kind == REL_HIGH ==> delta % 0x1_0000 == 0)
  {
    hide FixField, ApplyAll, Opposite;
    var moved := ApplyAll(m, xs, delta).image;
    assert xs[i] in xs;
    PlainSucceeds(m, xs, delta);
    PlainSucceeds(moved, xs, Opposite(delta));
    EachFieldPatched(m, xs, delta, i);
    EachFieldPatched(moved, xs, Opposite(delta), i);
    FieldRoundTrip(xs[i].kind, delta, FieldOf(m, xs[i]));
  }

  lemma HighOnlyAligned(xs: seq<Fixup>, delta: u64)
    requires Reversible(xs, delta)
    ensures forall x :: x in xs && x.kind == REL_HIGH ==> delta % 0x1_0000 == 0
  {
  }

  lemma ByteOfField(m: Bytes, m': Bytes, x: Fixup, k: nat)
    requires |m| == |m'| && InBounds(x, |m|) && FieldOf(m, x) == FieldOf(m', x) && !Apart(x, k, k + 1)
    ensures k < |m| && m[k] == m'[k]
  {
    assert FieldOf(m, x)[k - x.site] == m[k];
    assert FieldOf(m', x)[k - x.site] == m'[k];
  }

  lemma ByteOfRange(m: Bytes, m': Bytes, k: nat)
    requires k < |m| == |m'| && m[k..k + 1] == m'[k..k + 1]
    ensures m[k] == m'[k]
  {
    assert m[k..k + 1][0] == m[k] && m'[k..k + 1][0] == m'[k];
  }

  lemma ByteComesBack(m: Bytes, xs: seq<Fixup>, delta: u64, k: nat)
    requires AllInBounds(xs, |m|) && PairwiseApart(xs) && Plain(xs) && Reversible(xs, delta) && k < |m|
    ensures ApplyAll(ApplyAll(m, xs, delta).image, xs, Opposite(delta)).image[k] == m[k]
  {
    hide FixField, ApplyAll, Opposite, FieldOf, PairwiseApart, Plain, Reversible;
    var moved := ApplyAll(m, xs, delta).image;
    var back := ApplyAll(moved, xs, Opposite(delta)).image;
    assert forall x :: x in xs && x.kind == REL_HIGH ==> delta % 0x1_0000 == 0 by {
      HighOnlyAligned(xs, delta);
    }
    if i :| 0 <= i < |xs| && !Apart(xs[i], k, k + 1) {
      FieldComesBack(m, xs, delta, i);
      assert xs[i] in xs;
      ByteOfField(m, back, xs[i], k);
    } else {
      OtherBytesUnchanged(m, xs, delta, k, 1);
      OtherBytesUnchanged(moved, xs, Opposite(delta), k, 1);
      ByteOfRange(m, back, k);
    }
  }

  /** Moving by delta and then by -delta restores the image byte for byte iff no HIGH entry meets a
      delta that is not a multiple of 64 KiB. */
  lemma RoundTripExact(m: Bytes, xs: seq<Fixup>, delta: u64)
    requires AllInBounds(xs, |m|) && PairwiseApart(xs) && Plain(xs)
    ensures ApplyAll(m, xs, delta).status.Done?
    ensures var back := ApplyAll(ApplyAll(m, xs, delta).image, xs, Opposite(delta));
            back.status.Done? && (back.image == m <==> Reversible(xs, delta))
  {
    hide FixField, ApplyAll, Opposite;
    var moved := ApplyAll(m, xs, delta).image;
    var back := ApplyAll(moved, xs, Opposite(delta)).image;
    PlainSucceeds(m, xs, delta);
    PlainSucceeds(moved, xs, Opposite(delta));
    if Reversible(xs, delta) {
      forall k | 0 <= k < |m|
        ensures back[k] == m[k]
      {
        ByteComesBack(m, xs, delta, k);
      }
      assert back == m;
    } else {
      var x :| x in xs && x.kind == REL_HIGH && delta % 0x1_0000 != 0;
      var i :| 0 <= i < |xs| && xs[i] == x;
      FieldComesBack(m, xs, delta, i);
    }
  }

  /** An image that does not come back: one HIGH entry over two zero bytes, moved by one. */
  lemma HighDoesNotComeBack() returns (m: Bytes, xs: seq<Fixup>)
    ensures AllInBounds(xs, |m|) && PairwiseApart(xs) && Plain(xs)
    ensures ApplyAll(ApplyAll(m, xs, 1).image, xs, Opposite(1)).image != m
  {
    hide ApplyAll;
    m, xs := [0, 0], [Fixup(REL_HIGH, 0)];
    assert xs[0] in xs;
    RoundTripExact(m, xs, 1);
  }

  /** The same for whole images: the second pass parses the relocated image, finds the same table, and
      undoes the first. */
  lemma RelocateThereAndBack(m: Bytes, at: nat, delta: u64)
    requires TableReady(m, at, delta) && Plain(ParseTable(m, at).fixups)
    ensures WellFormed(m, at, delta)
    ensures var moved := PatchTable(m, at, delta);
            && moved.status.Done?
            && WellFormed(moved.image, at, Opposite(delta))
            && ParseTable(moved.image, at) == ParseTable(m, at)
            && var back := PatchTable(moved.image, at, Opposite(delta));
               back.status.Done? && (back.image == m <==> Reversible(ParseTable(m, at).fixups, delta))
  {
    hide FixField, ApplyAll, Opposite, ParseTable, PatchTable, WellFormed, Resolve;
    var t := ParseTable(m, at);
    PlainIsResolved(m, t.fixups, delta);
    TableApplies(m, at, delta);
    var moved := ApplyAll(m, t.fixups, delta).image;
    RoundTripExact(m, t.fixups, delta);
    forall k | at <= k < t.end
      ensures moved[k] == m[k]
    {
      OtherBytesUnchanged(m, t.fixups, delta, k, 1);
      ByteOfRange(m, moved, k);
    }
    SameTable(m, moved, at, at);
    PlainIsResolved(moved, t.fixups, Opposite(delta));
    TableApplies(moved, at, Opposite(delta));
  }

  lemma PlainIsResolved(m: Bytes, xs: seq<Fixup>, delta: u64)
    requires Plain(xs)
    ensures ResolveAll(m, xs, delta) == xs
  {
    forall i | 0 <= i < |xs|
      ensures Resolve(m, xs[i], delta) == xs[i]
    {
      assert xs[i] in xs;
    }
  }

  /** A Thumb pair can only be moved once in a round trip: after a successful move by a delta that is
      not a multiple of 2^32, the opposite move is always refused. */
  lemma ThumbNeverComesBack(movw: u32, movt: u32, delta: u64)
    requires Thumb.IsMovw(movw) && Thumb.IsMovt(movt) && delta % U32 != 0
    requires Thumb.FixPair(movw, movt, delta % U32).Ok?
    ensures var out := Thumb.FixPair(movw, movt, delta % U32);
            Thumb.FixPair(out.movw, out.movt, Opposite(delta) % U32).Error?
  {
    hide Thumb.FixPair, Thumb.IsMovw, Thumb.IsMovt, Thumb.Loaded;
    var out := Thumb.FixPair(movw, movt, delta % U32);
    OppositeRemainder(delta, U32, U32);
    Thumb.PairExact(movw, movt, delta % U32);
    Thumb.PairExact(out.movw, out.movt, Opposite(delta) % U32);
  }
}
