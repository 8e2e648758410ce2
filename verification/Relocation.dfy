/** Base relocation (Microsoft PE Format, "The .reloc Section (Image Only)"): patching an image that was
    linked for one base address so that it works at another. */
module Relocation {
  import opened Bits
  import opened Words
  import Thumb

  const REL_ABSOLUTE: nat := 0
  const REL_HIGH: nat := 1
  const REL_LOW: nat := 2
  const REL_HIGHLOW: nat := 3
  const REL_THUMB_MOV32: nat := 7
  const REL_DIR64: nat := 10

  /** Not a kind of the table: a THUMB_MOV32 entry whose patch stays within its first word. */
  const MOVW_ONLY: nat := 16

  datatype Error = BadThumb(failure: Thumb.Failure) | Unsupported(kind: nat)
  datatype Status = Done | Failed(error: Error)

  /** One entry of a relocation block: what to patch, and at which offset from the image base. */
  datatype Fixup = Fixup(kind: nat, site: nat)

  /** Bytes a patch may touch. */
  function Width(kind: nat): nat {
    if kind == REL_LOW || kind == REL_HIGH then 2
    else if kind == REL_HIGHLOW || kind == MOVW_ONLY then 4
    else if kind == REL_DIR64 || kind == REL_THUMB_MOV32 then 8
    else 0
  }

  /** Kinds that add a number to a little-endian word. */
  predicate Additive(kind: nat) {
    kind == REL_LOW || kind == REL_HIGH || kind == REL_HIGHLOW || kind == REL_DIR64
  }

  function Increment(kind: nat, delta: u64): nat
    requires Additive(kind)
  {
    if kind == REL_LOW then delta % 0x1_0000
    else if kind == REL_HIGH then delta % U32 / 0x1_0000
    else if kind == REL_HIGHLOW then delta % U32
    else delta
  }

  datatype Patch = Patch(bytes: Bytes, status: Status)

  /** The new contents of a patched field. A Thumb pair that fails half-way keeps its new MOVW. */
  function FixField(kind: nat, delta: u64, field: Bytes): (p: Patch)
    requires |field| == Width(kind)
    ensures |p.bytes| == |field|
  {
    if kind == REL_ABSOLUTE then Patch(field, Done)
    else if Additive(kind) then Patch(Encode(Decode(field) + Increment(kind, delta), Width(kind)), Done)
    else if kind == REL_THUMB_MOV32 then
      Spans();
      var out := Thumb.FixPair(Decode(field[..4]), Decode(field[4..]), delta % U32);
      Patch(Encode(out.movw, 4) + Encode(out.movt, 4), if out.Ok? then Done else Failed(BadThumb(out.failure)))
    else if kind == MOVW_ONLY then
      Spans();
      var out := Thumb.FixPair(Decode(field), 0, delta % U32);
      Patch(Encode(out.movw, 4), if out.Ok? then Done else Failed(BadThumb(out.failure)))
    else Patch(field, Failed(Unsupported(kind)))
  }

  predicate InBounds(x: Fixup, size: nat) {
    x.site + Width(x.kind) <= size
  }

  datatype Relocated = Relocated(image: Bytes, status: Status)

  function ApplyOne(m: Bytes, x: Fixup, delta: u64): (r: Relocated)
    requires InBounds(x, |m|)
    ensures |r.image| == |m|
  {
    var p := FixField(x.kind, delta, m[x.site..x.site + Width(x.kind)]);
    Relocated(Splice(m, x.site, p.bytes), p.status)
  }

  /** What an entry touches in this image: the second word of a Thumb pair is left out unless something is
      to be added to it. */
  function Resolve(m: Bytes, x: Fixup, delta: u64): Fixup {
    Spans();
    if x.kind == REL_THUMB_MOV32 && x.site + 4 <= |m|
       && !Thumb.NeedsMovt(Decode(m[x.site..x.site + 4]), delta % U32) then Fixup(MOVW_ONLY, x.site)
    else x
  }

  ghost predicate AllInBounds(xs: seq<Fixup>, size: nat) {
    forall x :: x in xs ==> InBounds(x, size)
  }

  /** Patches one after the other, up to and including the first that fails. */
  ghost function ApplyAll(m: Bytes, xs: seq<Fixup>, delta: u64): (r: Relocated)
    requires AllInBounds(xs, |m|)
    ensures |r.image| == |m|
    decreases |xs|
  {
    if xs == [] then Relocated(m, Done)
    else
      var one := ApplyOne(m, xs[0], delta);
      if one.status.Failed? then one else ApplyAll(one.image, xs[1..], delta)
  }

  // ---------------------------------------------------------------- entries one after the other

  /** The patch and the range do not overlap. Padding entries have no width and touch nothing. */
  predicate Apart(x: Fixup, lo: nat, hi: nat) {
    Width(x.kind) == 0 || x.site + Width(x.kind) <= lo || hi <= x.site
  }

  /** No patch that is made leaves the image or touches the bytes from lo to hi. */
  ghost predicate Harmless(m: Bytes, xs: seq<Fixup>, delta: u64, lo: nat, hi: nat)
    decreases |xs|
  {
    xs == []
    || var x := Resolve(m, xs[0], delta);
       && InBounds(x, |m|) && Apart(x, lo, hi)
       && var one := ApplyOne(m, x, delta);
          one.status.Done? ==> Harmless(one.image, xs[1..], delta, lo, hi)
  }

  /** Resolves and patches one entry after the other, up to and including the first that fails. */
  ghost function PatchAll(m: Bytes, xs: seq<Fixup>, delta: u64, lo: nat, hi: nat): (r: Relocated)
    requires Harmless(m, xs, delta, lo, hi)
    ensures |r.image| == |m|
    decreases |xs|
  {
    if xs == [] then Relocated(m, Done)
    else
      var one := ApplyOne(m, Resolve(m, xs[0], delta), delta);
      if one.status.Failed? then one else PatchAll(one.image, xs[1..], delta, lo, hi)
  }

  // ---------------------------------------------------------------- the table

  function Read16(m: Bytes, at: nat): nat
    requires at + 2 <= |m|
  {
    Decode(m[at..at + 2])
  }

  function Read32(m: Bytes, at: nat): nat
    requires at + 4 <= |m|
  {
    Decode(m[at..at + 4])
  }

  /** The upper 4 bits of an entry are its kind, the lower 12 the offset in the block's page. */
  function EntryAt(m: Bytes, at: nat, page: nat): Fixup
    requires at + 2 <= |m|
  {
    Fixup(Read16(m, at) / 0x1000, page + Read16(m, at) % 0x1000)
  }

  ghost function Entries(m: Bytes, at: nat, count: nat, page: nat): seq<Fixup>
    requires at + 2 * count <= |m|
    decreases count
  {
    if count == 0 then [] else [EntryAt(m, at, page)] + Entries(m, at + 2, count - 1, page)
  }

  /** The entries of all blocks in order, and the offset just past the terminating header word. */
  datatype Table = NoTable | Table(fixups: seq<Fixup>, end: nat)

  /** A block is a page address, its own size (header included) and 16-bit entries; a zero page address
      ends the table. Blocks smaller than their header or running out of the image are no table. */
  ghost function ParseTable(m: Bytes, at: nat): (t: Table)
    ensures t.Table? ==> at + 4 <= t.end <= |m|
    decreases |m| - at
  {
    if at + 4 > |m| then NoTable
    else if Read32(m, at) == 0 then Table([], at + 4)
    else if at + 8 > |m| then NoTable
    else
      var size := Read32(m, at + 4);
      if size < 8 || at + size > |m| then NoTable
      else
        match ParseTable(m, at + size)
        case NoTable => NoTable
        case Table(rest, end) => Table(Entries(m, at + 8, (size - 8) / 2, Read32(m, at)) + rest, end)
  }

  /** What the loader relies on: the table is there, and no patch touches it or leaves the image. */
  ghost predicate WellFormed(m: Bytes, at: nat, delta: u64) {
    var t := ParseTable(m, at);
    t.Table? && Harmless(m, t.fixups, delta, at, t.end)
  }

  /** The image after the whole table has been applied. */
  ghost function PatchTable(m: Bytes, at: nat, delta: u64): (r: Relocated)
    requires WellFormed(m, at, delta)
    ensures |r.image| == |m|
  {
    PatchAll(m, ParseTable(m, at).fixups, delta, at, ParseTable(m, at).end)
  }

  ghost predicate SameRange(m: Bytes, m': Bytes, lo: nat, hi: nat) {
    |m| == |m'| && forall k :: lo <= k < hi && k < |m| ==> m[k] == m'[k]
  }

  lemma SameFields(m: Bytes, m': Bytes, lo: nat, hi: nat, at: nat, n: nat)
    requires SameRange(m, m', lo, hi) && lo <= at && at + n <= hi <= |m|
    ensures m[at..at + n] == m'[at..at + n]
  {
  }

  lemma {:induction false} SameEntries(m: Bytes, m': Bytes, lo: nat, hi: nat, at: nat, count: nat, page: nat)
    requires SameRange(m, m', lo, hi) && lo <= at && at + 2 * count <= hi <= |m|
    ensures Entries(m, at, count, page) == Entries(m', at, count, page)
    decreases count
  {
    if count > 0 {
      SameFields(m, m', lo, hi, at, 2);
      SameEntries(m, m', lo, hi, at + 2, count - 1, page);
    }
  }

  lemma SameRead32(m: Bytes, m': Bytes, lo: nat, hi: nat, at: nat)
    requires SameRange(m, m', lo, hi) && lo <= at && at + 4 <= hi <= |m|
    ensures Read32(m, at) == Read32(m', at)
  {
    SameFields(m, m', lo, hi, at, 4);
  }

  /** Parsing reads nothing outside the table. */
  lemma {:induction false} SameTable(m: Bytes, m': Bytes, at: nat, lo: nat)
    requires lo <= at && ParseTable(m, at).Table?
    requires SameRange(m, m', lo, ParseTable(m, at).end)
    ensures ParseTable(m', at) == ParseTable(m, at)
    decreases |m| - at
  {
    hide Read32, Entries;
    var end := ParseTable(m, at).end;
    SameRead32(m, m', lo, end, at);
    if Read32(m, at) != 0 {
      var size := Read32(m, at + 4);
      assert ParseTable(m, at + size).Table? && ParseTable(m, at + size).end == end;
      SameRead32(m, m', lo, end, at + 4);
      SameEntries(m, m', lo, end, at + 8, (size - 8) / 2, Read32(m, at));
      SameTable(m, m', at + size, lo);
    }
  }

  // ---------------------------------------------------------------- the loader's walk

  lemma StepKeepsTable(m0: Bytes, m: Bytes, x: Fixup, delta: u64, lo: nat, hi: nat)
    requires SameRange(m0, m, lo, hi) && InBounds(x, |m|) && Apart(x, lo, hi)
    ensures SameRange(m0, ApplyOne(m, x, delta).image, lo, hi)
  {
    hide FixField;
  }

  lemma {:induction false} PatchAllConcat(m: Bytes, xs: seq<Fixup>, ys: seq<Fixup>, delta: u64, lo: nat, hi: nat)
    requires Harmless(m, xs + ys, delta, lo, hi)
    ensures Harmless(m, xs, delta, lo, hi)
    ensures var r := PatchAll(m, xs, delta, lo, hi);
            && (r.status.Done? ==> Harmless(r.image, ys, delta, lo, hi))
            && PatchAll(m, xs + ys, delta, lo, hi) ==
               if r.status.Failed? then r else PatchAll(r.image, ys, delta, lo, hi)
    decreases |xs|
  {
    hide ApplyOne, Resolve, Apart;
    if xs == [] {
      assert xs + ys == ys;
    } else {
      assert (xs + ys)[1..] == xs[1..] + ys && (xs + ys)[0] == xs[0];
      var one := ApplyOne(m, Resolve(m, xs[0], delta), delta);
      if one.status.Done? {
        PatchAllConcat(one.image, xs[1..], ys, delta, lo, hi);
      }
    }
  }

  lemma BlockStep(m: Bytes, table: Bytes, at: nat, count: nat, page: nat, delta: u64, lo: nat, hi: nat)
    requires SameRange(table, m, lo, hi) && lo <= at && at + 2 * count <= hi <= |table| && count > 0
    requires Harmless(m, Entries(table, at, count, page), delta, lo, hi)
    ensures var x, later := Resolve(m, EntryAt(m, at, page), delta), Entries(table, at + 2, count - 1, page);
            && InBounds(x, |m|)
            && var one := ApplyOne(m, x, delta);
               && SameRange(table, one.image, lo, hi)
               && (one.status.Done? ==> Harmless(one.image, later, delta, lo, hi))
               && PatchAll(m, Entries(table, at, count, page), delta, lo, hi) ==
                  if one.status.Failed? then one else PatchAll(one.image, later, delta, lo, hi)
  {
    hide ApplyOne, Resolve, Apart, EntryAt;
    SameEntry(table, m, lo, hi, at, page);
    var x, later := EntryAt(m, at, page), Entries(table, at + 2, count - 1, page);
    var todo := Entries(table, at, count, page);
    assert todo == [x] + later && todo[1..] == later;
    StepKeepsTable(table, m, Resolve(m, x, delta), delta, lo, hi);
  }

  lemma SameEntry(table: Bytes, m: Bytes, lo: nat, hi: nat, at: nat, page: nat)
    requires SameRange(table, m, lo, hi) && lo <= at && at + 2 <= hi <= |table|
    ensures EntryAt(table, at, page) == EntryAt(m, at, page)
  {
    SameFields(table, m, lo, hi, at, 2);
  }

  /** Patches the entries of one block, reading each from the image being patched; `table` is the
      image before the walk, whose bytes from lo to hi the patches leave alone. */
  method RelocateBlock(image: array<byte>, at: nat, count: nat, page: nat, delta: u64,
                       ghost table: Bytes, ghost lo: nat, ghost hi: nat) returns (status: Status)
    requires SameRange(table, image[..], lo, hi) && lo <= at && at + 2 * count <= hi <= |table|
    requires Harmless(image[..], Entries(table, at, count, page), delta, lo, hi)
    modifies image
    ensures var r := PatchAll(old(image[..]), Entries(table, at, count, page), delta, lo, hi);
            image[..] == r.image && status == r.status
    ensures SameRange(table, image[..], lo, hi)
  {
    hide FixField, ApplyOne, EntryAt, Read16, Resolve;
    ghost var goal := PatchAll(image[..], Entries(table, at, count, page), delta, lo, hi);
    var i := 0;
    while i < count
      invariant 0 <= i <= count
      invariant SameRange(table, image[..], lo, hi)
      invariant var todo := Entries(table, at + 2 * i, count - i, page);
                Harmless(image[..], todo, delta, lo, hi) && goal == PatchAll(image[..], todo, delta, lo, hi)
    {
      BlockStep(image[..], table, at + 2 * i, count - i, page, delta, lo, hi);
      var x := Resolve(image[..], EntryAt(image[..], at + 2 * i, page), delta);
      OnePatch(image[..], x, delta);
      var p := FixField(x.kind, delta, image[..][x.site..x.site + Width(x.kind)]);
      Poke(image, x.site, p.bytes);
      if p.status.Failed? {
        return p.status;
      }
      i := i + 1;
    }
    return Done;
  }

  lemma OnePatch(m: Bytes, x: Fixup, delta: u64)
    requires InBounds(x, |m|)
    ensures var p := FixField(x.kind, delta, m[x.site..x.site + Width(x.kind)]);
            ApplyOne(m, x, delta) == Relocated(Splice(m, x.site, p.bytes), p.status)
  {
  }

  /** What is left of the table from a block on; `table` is the image before the walk. */
  ghost predicate TableFrom(table: Bytes, m: Bytes, hdr: nat, delta: u64, lo: nat, hi: nat)
    ensures TableFrom(table, m, hdr, delta, lo, hi) ==>
              var t := ParseTable(table, hdr);
              t.Table? && t.end == hi && Harmless(m, t.fixups, delta, lo, hi)
  {
    var t := ParseTable(table, hdr);
    t.Table? && t.end == hi && Harmless(m, t.fixups, delta, lo, hi)
  }

  method RelocateBlocks(image: array<byte>, directory: nat, delta: u64, ghost end: nat) returns (status: Status)
    requires TableFrom(image[..], image[..], directory, delta, directory, end)
    modifies image
    ensures var r := PatchAll(old(image[..]), ParseTable(old(image[..]), directory).fixups, delta, directory, end);
            image[..] == r.image && status == r.status
  {
    hide FixField, ApplyOne, Read32, Entries, ParseTable, TableFrom, Harmless;
    ghost var m0 := image[..];
    ghost var goal := PatchAll(m0, ParseTable(m0, directory).fixups, delta, directory, end);
    var hdr := directory;
    while Read32(image[..], hdr) > 0
      invariant SameRange(m0, image[..], directory, end)
      invariant directory <= hdr <= end - 4
      invariant TableFrom(m0, image[..], hdr, delta, directory, end)
      invariant goal == PatchAll(image[..], ParseTable(m0, hdr).fixups, delta, directory, end)
      decreases end - hdr
    {
      SameRead32(m0, image[..], directory, end, hdr);
      BlockAt(m0, image[..], hdr, delta, directory, end);
      SameRead32(m0, image[..], directory, end, hdr + 4);
      var page, size := Read32(image[..], hdr), Read32(image[..], hdr + 4);
      ghost var block := Entries(m0, hdr + 8, (size - 8) / 2, page);
      PatchAllConcat(image[..], block, ParseTable(m0, hdr + size).fixups, delta, directory, end);
      status := RelocateBlock(image, hdr + 8, (size - 8) / 2, page, delta, m0, directory, end);
      if status.Failed? {
        return;
      }
      StillFrom(m0, image[..], hdr + size, delta, directory, end);
      hdr := hdr + size;
    }
    SameRead32(m0, image[..], directory, end, hdr);
    NoMoreBlocks(m0, image[..], hdr, delta, directory, end);
    return Done;
  }

  /** Walks the blocks and patches in place; the result is that of applying the table as it was
      parsed from the untouched image. A missing directory counts as relocated only if nothing moved. */
  method PerformBaseRelocation(image: array<byte>, directory: nat, directorySize: nat, delta: u64)
    returns (relocated: bool, status: Status)
    requires directorySize != 0 ==> WellFormed(image[..], directory, delta)
    modifies image
    ensures directorySize == 0 ==> image[..] == old(image[..]) && relocated == (delta == 0) && status == Done
    ensures directorySize != 0 ==>
              var r := PatchTable(old(image[..]), directory, delta);
              image[..] == r.image && status == r.status && relocated == r.status.Done?
  {
    hide FixField, ApplyOne, Read32, Entries, Harmless, PatchAll;
    if directorySize == 0 {
      return delta == 0, Done;
    }
    status := RelocateBlocks(image, directory, delta, ParseTable(image[..], directory).end);
    relocated := status.Done?;
  }

  lemma StillFrom(table: Bytes, m: Bytes, hdr: nat, delta: u64, lo: nat, hi: nat)
    requires ParseTable(table, hdr).Table? && ParseTable(table, hdr).end == hi
    requires Harmless(m, ParseTable(table, hdr).fixups, delta, lo, hi)
    ensures TableFrom(table, m, hdr, delta, lo, hi)
  {
  }

  lemma NoMoreBlocks(table: Bytes, m: Bytes, hdr: nat, delta: u64, lo: nat, hi: nat)
    requires TableFrom(table, m, hdr, delta, lo, hi) && Read32(table, hdr) == 0
    ensures ParseTable(table, hdr).fixups == [] && PatchAll(m, [], delta, lo, hi) == Relocated(m, Done)
  {
  }

  lemma BlockAt(table: Bytes, m: Bytes, hdr: nat, delta: u64, lo: nat, hi: nat)
    requires TableFrom(table, m, hdr, delta, lo, hi) && Read32(table, hdr) > 0
    ensures hdr + 8 <= hi
    ensures var size := Read32(table, hdr + 4);
            && size >= 8 && hdr + size <= hi - 4
            && ParseTable(table, hdr + size).Table? && ParseTable(table, hdr + size).end == hi
            && var block, rest := Entries(table, hdr + 8, (size - 8) / 2, Read32(table, hdr)),
                                  ParseTable(table, hdr + size).fixups;
               ParseTable(table, hdr).fixups == block + rest && Harmless(m, block + rest, delta, lo, hi)
  {
  }
}
