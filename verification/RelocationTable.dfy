/** The relocation table as a linker writes it (Microsoft PE Format, "The .reloc Section (Image Only)"), and
    that the loader reads from it what was written. */
module RelocationTable {
  import opened Bits
  import opened Words
  import opened Relocation
  import opened RelocationMeaning
  import Thumb

  /** An entry holds its kind in 4 bits and an offset in 12. */
  datatype Entry = Entry(kind: nat, offset: nat)

  /** The entries for one page; `pad` is an odd byte that the size of the block may count at its end. */
  datatype Block = Block(page: nat, entries: seq<Entry>, pad: Bytes)

  predicate IsBlock(b: Block) {
    && 0 < b.page < U32 && |b.pad| < 2 && 8 + 2 * |b.entries| + |b.pad| < U32
    && forall e :: e in b.entries ==> e.kind < 16 && e.offset < 4096
  }

  function EntryBytes(es: seq<Entry>): (b: Bytes)
    ensures |b| == 2 * |es|
  {
    if es == [] then [] else Encode(4096 * es[0].kind + es[0].offset, 2) + EntryBytes(es[1..])
  }

  function BlockBytes(b: Block): (bytes: Bytes)
    ensures |bytes| == 8 + 2 * |b.entries| + |b.pad|
  {
    Encode(b.page, 4) + Encode(8 + 2 * |b.entries| + |b.pad|, 4) + EntryBytes(b.entries) + b.pad
  }

  /** All blocks, and a zero word behind them. */
  function TableBytes(bs: seq<Block>): (bytes: Bytes)
    ensures |bytes| >= 4
  {
    if bs == [] then Zeros(4) else BlockBytes(bs[0]) + TableBytes(bs[1..])
  }

  function BlockFixups(es: seq<Entry>, page: nat): (xs: seq<Fixup>)
    ensures |xs| == |es|
  {
    seq(|es|, i requires 0 <= i < |es| => Fixup(es[i].kind, page + es[i].offset))
  }

  /** The places that are to be patched, in order. */
  function TableFixups(bs: seq<Block>): seq<Fixup> {
    if bs == [] then [] else BlockFixups(bs[0].entries, bs[0].page) + TableFixups(bs[1..])
  }

  ghost predicate LiesAt(m: Bytes, at: nat, b: Bytes) {
    at + |b| <= |m| && m[at..at + |b|] == b
  }

  lemma LieInTurn(m: Bytes, at: nat, a: Bytes, b: Bytes)
    requires LiesAt(m, at, a + b)
    ensures LiesAt(m, at, a) && LiesAt(m, at + |a|, b)
  {
    var c := a + b;
    assert m[at..at + |a|] == m[at..at + |c|][..|a|] == c[..|a|] == a;
    assert m[at + |a|..at + |a| + |b|] == m[at..at + |c|][|a|..] == c[|a|..] == b;
  }

  lemma ReadsBack16(m: Bytes, at: nat, v: nat)
    requires LiesAt(m, at, Encode(v, 2)) && v < 65536
    ensures at + 2 <= |m| && Read16(m, at) == v
  {
    hide Encode, Decode;
    DecodeOfEncode(v, 2);
    Spans();
  }

  lemma ReadsBack32(m: Bytes, at: nat, v: nat)
    requires LiesAt(m, at, Encode(v, 4)) && v < U32
    ensures at + 4 <= |m| && Read32(m, at) == v
  {
    hide Encode, Decode;
    DecodeOfEncode(v, 4);
    Spans();
  }

  lemma {:induction false} EntriesRead(m: Bytes, at: nat, es: seq<Entry>, page: nat)
    requires LiesAt(m, at, EntryBytes(es)) && forall e :: e in es ==> e.kind < 16 && e.offset < 4096
    ensures Entries(m, at, |es|, page) == BlockFixups(es, page)
    decreases |es|
  {
    hide Encode, Read16, LiesAt;
    if es != [] {
      assert es[0] in es;
      var v := 4096 * es[0].kind + es[0].offset;
      LieInTurn(m, at, Encode(v, 2), EntryBytes(es[1..]));
      ReadsBack16(m, at, v);
      QuotientAndRemainder(v, 4096, es[0].kind, es[0].offset);
      EntriesRead(m, at + 2, es[1..], page);
    } else {
      assert BlockFixups(es, page) == [];
    }
  }

  /** Every table that can be written is read as it was meant: each entry patches its offset in the page of
      its block, in order, and the table ends behind the zero word. */
  lemma {:induction false} TableReadsBack(m: Bytes, at: nat, bs: seq<Block>)
    requires LiesAt(m, at, TableBytes(bs)) && forall b :: b in bs ==> IsBlock(b)
    ensures ParseTable(m, at) == Table(TableFixups(bs), at + |TableBytes(bs)|)
    decreases |bs|
  {
    hide Encode, Read32, Entries, EntryBytes, LiesAt, BlockFixups;
    if bs == [] {
      ZerosEncode(4);
      ReadsBack32(m, at, 0);
    } else {
      assert bs[0] in bs;
      BlockReads(m, at, bs[0], TableBytes(bs[1..]));
      TableReadsBack(m, at + 8 + 2 * |bs[0].entries| + |bs[0].pad|, bs[1..]);
    }
  }

  lemma BlockReads(m: Bytes, at: nat, b: Block, rest: Bytes)
    requires LiesAt(m, at, BlockBytes(b) + rest) && IsBlock(b)
    ensures at + 8 <= |m| && Read32(m, at) == b.page && Read32(m, at + 4) == 8 + 2 * |b.entries| + |b.pad|
    ensures at + Read32(m, at + 4) <= |m| && (Read32(m, at + 4) - 8) / 2 == |b.entries|
    ensures Entries(m, at + 8, |b.entries|, b.page) == BlockFixups(b.entries, b.page)
    ensures LiesAt(m, at + 8 + 2 * |b.entries| + |b.pad|, rest)
  {
    hide Encode, Read32, Entries, EntryBytes, LiesAt, BlockFixups;
    var size := 8 + 2 * |b.entries| + |b.pad|;
    var p, q, e := Encode(b.page, 4), Encode(size, 4), EntryBytes(b.entries);
    LieInTurn(m, at, p + q + e + b.pad, rest);
    LieInTurn(m, at, p + q + e, b.pad);
    LieInTurn(m, at, p + q, e);
    LieInTurn(m, at, p, q);
    ReadsBack32(m, at, b.page);
    ReadsBack32(m, at + 4, size);
    EntriesRead(m, at + 8, b.entries, b.page);
    Inside(m, at, p + q + e + b.pad);
  }

  lemma Inside(m: Bytes, at: nat, b: Bytes)
    requires LiesAt(m, at, b)
    ensures at + |b| <= |m|
  {
  }

  lemma {:induction false} ZerosEncode(n: nat)
    ensures Zeros(n) == Encode(0, n)
  {
    if n > 0 {
      ZerosEncode(n - 1);
      assert Zeros(n) == [0] + Zeros(n - 1);
    }
  }

  // ---------------------------------------------------------------- from the written table to the image

  /** The number of an entry among all entries. */
  function NumberOf(bs: seq<Block>, b: nat, e: nat): (i: nat)
    requires b < |bs| && e < |bs[b].entries|
    ensures i < |TableFixups(bs)|
    ensures TableFixups(bs)[i] == Fixup(bs[b].entries[e].kind, bs[b].page + bs[b].entries[e].offset)
  {
    if b == 0 then e else |bs[0].entries| + NumberOf(bs[1..], b - 1, e)
  }

  /** n bytes, as one little-endian number, before and after. */
  ghost predicate Grown(m: Bytes, m': Bytes, o: nat, n: nat, amount: nat, modulus: nat)
    requires modulus > 0
  {
    o + n <= |m| == |m'| && Decode(m'[o..o + n]) == (Decode(m[o..o + n]) + amount) % modulus
  }

  /** What a successful pass makes of the place an entry was written for. */
  lemma EntryApplied(m: Bytes, at: nat, bs: seq<Block>, delta: u64, b: nat, e: nat)
    requires LiesAt(m, at, TableBytes(bs)) && (forall x :: x in bs ==> IsBlock(x))
    requires TableReady(m, at, delta) && WellFormed(m, at, delta) && PatchTable(m, at, delta).status.Done?
    requires b < |bs| && e < |bs[b].entries|
    ensures var kind, o := bs[b].entries[e].kind, bs[b].page + bs[b].entries[e].offset;
            var m' := PatchTable(m, at, delta).image;
            && (kind == 0 || kind == 1 || kind == 2 || kind == 3 || kind == 7 || kind == 10)
            && (kind == 1 ==> Grown(m, m', o, 2, delta / 65536 % 65536, 65536))
            && (kind == 2 ==> Grown(m, m', o, 2, delta, 65536))
            && (kind == 3 ==> Grown(m, m', o, 4, delta, 0x1_0000_0000))
            && (kind == 10 ==> Grown(m, m', o, 8, delta, 0x1_0000_0000_0000_0000))
            && (kind == 7 ==> o + 4 <= |m| && Thumb.IsMovw(WordAt(m, o)) && Thumb.IsMovw(WordAt(m', o)))
  {
    hide ParseTable, PatchTable, ApplyAll, FixField, Decode, TableBytes, PairwiseApart, Resolve, WellFormed, LiesAt;
    TableReadsBack(m, at, bs);
    TableApplies(m, at, delta);
    var xs := TableFixups(bs);
    var i := NumberOf(bs, b, e);
    var ys := ResolveAll(m, xs, delta);
    assert ys[i] == Resolve(m, xs[i], delta);
    EachFieldPatched(m, ys, delta, i);
    assert bs[b] in bs && bs[b].entries[e] in bs[b].entries;
    PatchedField(m, ApplyAll(m, ys, delta).image, xs[i], delta);
  }

  /** Padding, and entries of kinds the loader does not know, touch no byte, wherever they point to; padding
      succeeds and the others do not. */
  lemma NothingTouched(m: Bytes, kind: nat, site: nat, delta: u64)
    requires kind < 16 && kind != 1 && kind != 2 && kind != 3 && kind != 7 && kind != 10 && site <= |m|
    ensures InBounds(Resolve(m, Fixup(kind, site), delta), |m|)
    ensures var r := ApplyOne(m, Resolve(m, Fixup(kind, site), delta), delta);
            r.image == m && (r.status.Done? <==> kind == 0)
  {
    assert Splice(m, site, []) == m;
  }

  /** A Thumb entry touches eight bytes if something is added to its second word, and four otherwise. */
  lemma ThumbTouches(m: Bytes, site: nat, delta: u64)
    requires site + 4 <= |m|
    ensures var w, d := WordAt(m, site), delta % 0x1_0000_0000;
            Width(Resolve(m, Fixup(7, site), delta).kind) ==
            if Thumb.IsMovw(w) && (d / 65536 > 0 || Thumb.Immediate(w) + d % 65536 >= 65536) then 8 else 4
  {
    hide Decode, Thumb.IsMovw, Thumb.Immediate, Thumb.NeedsMovt;
    Thumb.NeedsMovtExactly(WordAt(m, site), delta % U32);
  }

  function WordAt(m: Bytes, o: nat): u32
    requires o + 4 <= |m|
  {
    Spans();
    Decode(m[o..o + 4])
  }

  lemma PatchedField(m: Bytes, m': Bytes, x: Fixup, delta: u64)
    requires var y := Resolve(m, x, delta);
             && InBounds(y, |m|) && |m'| == |m|
             && FixField(y.kind, delta, FieldOf(m, y)).status.Done?
             && FieldOf(m', y) == FixField(y.kind, delta, FieldOf(m, y)).bytes
    requires x.kind < 16
    ensures var kind, o := x.kind, x.site;
            && (kind == 0 || kind == 1 || kind == 2 || kind == 3 || kind == 7 || kind == 10)
            && (kind == 1 ==> Grown(m, m', o, 2, delta / 65536 % 65536, 65536))
            && (kind == 2 ==> Grown(m, m', o, 2, delta, 65536))
            && (kind == 3 ==> Grown(m, m', o, 4, delta, 0x1_0000_0000))
            && (kind == 10 ==> Grown(m, m', o, 8, delta, 0x1_0000_0000_0000_0000))
            && (kind == 7 ==> o + 4 <= |m| && Thumb.IsMovw(WordAt(m, o)) && Thumb.IsMovw(WordAt(m', o)))
  {
    hide Decode, Encode, Thumb.FixPair, Thumb.IsMovw, Thumb.NeedsMovt, Span, Grown;
    var y := Resolve(m, x, delta);
    Spans();
    if x.kind == 7 {
      ThumbPatched(m, m', x, delta);
    } else if Additive(x.kind) {
      AdditiveGrown(m, m', x, delta);
    }
  }

  lemma AdditiveGrown(m: Bytes, m': Bytes, x: Fixup, delta: u64)
    requires InBounds(x, |m|) && |m'| == |m| && Additive(x.kind)
    requires FieldOf(m', x) == FixField(x.kind, delta, FieldOf(m, x)).bytes
    ensures x.kind == 1 ==> Grown(m, m', x.site, 2, delta / 65536 % 65536, 65536)
    ensures x.kind == 2 ==> Grown(m, m', x.site, 2, delta, 65536)
    ensures x.kind == 3 ==> Grown(m, m', x.site, 4, delta, 0x1_0000_0000)
    ensures x.kind == 10 ==> Grown(m, m', x.site, 8, delta, 0x1_0000_0000_0000_0000)
  {
    hide Decode, Encode, FixField, Span;
    Spans();
    AdditivePatch(x.kind, delta, FieldOf(m, x));
    var v := Decode(FieldOf(m, x));
    ReducedSum(v, delta, 65536);
    ReducedSum(v, delta, U32);
    HighHalfOf(delta);
  }

  lemma HighHalfOf(delta: u64)
    ensures delta % 0x1_0000_0000 / 65536 == delta / 65536 % 65536
  {
    DivideUnderMod(delta, 65536, 65536);
  }

  lemma ReducedSum(v: nat, d: nat, n: nat)
    requires n > 0
    ensures (v + d % n) % n == (v + d) % n
  {
    var q, r := DivMod(d, n);
    QuotientAndRemainder(d, n, q, r);
    ModShift(v + r, q, n);
  }

  lemma ThumbPatched(m: Bytes, m': Bytes, x: Fixup, delta: u64)
    requires var y := Resolve(m, x, delta);
             && InBounds(y, |m|) && |m'| == |m|
             && FixField(y.kind, delta, FieldOf(m, y)).status.Done?
             && FieldOf(m', y) == FixField(y.kind, delta, FieldOf(m, y)).bytes
    requires x.kind == REL_THUMB_MOV32
    ensures x.site + 4 <= |m| && Thumb.IsMovw(WordAt(m, x.site)) && Thumb.IsMovw(WordAt(m', x.site))
  {
    hide Decode, Encode, Thumb.FixPair, Thumb.IsMovw, Thumb.NeedsMovt, And, Thumb.Loaded, Thumb.Immediate, Thumb.IsMovt,
         FixField;
    var y := Resolve(m, x, delta);
    var f, f' := FieldOf(m, y), FieldOf(m', y);
    if y.kind == MOVW_ONLY {
      MovwField(f, delta);
    } else {
      ThumbFieldWords(f, delta);
      ThumbWordsMoved(ThumbWord(f, 0), ThumbWord(f, 1), delta % U32);
      assert f[0..4] == m[x.site..x.site + 4] && f'[0..4] == m'[x.site..x.site + 4];
    }
  }
}
