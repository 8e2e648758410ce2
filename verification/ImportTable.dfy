/** The import tables as a linker writes them (Microsoft PE Format, "The .idata Section"), and that the
    loader asks for what was written. */
module ImportTable {
  import opened Bits
  import opened Words
  import opened Relocation
  import opened RelocationTable
  import opened Imports
  import opened ImportsMeaning

  /** A function by number, of which 16 bits count, or by name, behind a two-byte hint. */
  datatype Function = Number(number: nat) | Named(hint: nat, name: Bytes)

  /** One library: where its name, its slots and its hint table (zero for none) lie. */
  datatype Descriptor = Descriptor(nameAt: nat, name: Bytes, hints: nat, slots: nat, functions: seq<Function>,
                                   stamp: nat, chain: nat)

  // ---------------------------------------------------------------- as it is written

  ghost predicate NameLies(m: Bytes, at: nat, name: Bytes) {
    LiesAt(m, at, name + [0]) && forall k :: 0 <= k < |name| ==> name[k] != 0
  }

  ghost predicate FunctionLies(m: Bytes, f: Function) {
    match f
    case Number(number) => number < 0x8000_0000_0000_0000
    case Named(hint, name) => 0 < hint < 0x8000_0000_0000_0000 && NameLies(m, hint + 2, name)
  }

  function ThunkOf(f: Function): nat {
    match f
    case Number(number) => 0x8000_0000_0000_0000 + number
    case Named(hint, _) => hint
  }

  function ThunkBytes(fs: seq<Function>): (b: Bytes)
    ensures |b| == 8 * |fs| + 8
  {
    if fs == [] then Zeros(8) else Encode(ThunkOf(fs[0]), 8) + ThunkBytes(fs[1..])
  }

  function DescriptorBytes(d: Descriptor): (b: Bytes)
    ensures |b| == 20
  {
    Encode(d.hints, 4) + Encode(d.stamp, 4) + Encode(d.chain, 4) + Encode(d.nameAt, 4) + Encode(d.slots, 4)
  }

  ghost predicate LibraryLies(m: Bytes, d: Descriptor) {
    && 0 < d.nameAt < U32 && d.hints < U32 && d.slots < U32
    && NameLies(m, d.nameAt, d.name)
    && (forall f :: f in d.functions ==> FunctionLies(m, f))
    && LiesAt(m, if d.hints == 0 then d.slots else d.hints, ThunkBytes(d.functions))
    && d.slots + 8 * |d.functions| <= |m|
  }

  /** Descriptors one behind the other, and one without a name. */
  ghost predicate TableLies(m: Bytes, at: nat, ds: seq<Descriptor>)
    decreases |ds|
  {
    if ds == [] then at + 20 <= |m| && LiesAt(m, at + 12, Zeros(4))
    else LiesAt(m, at, DescriptorBytes(ds[0])) && LibraryLies(m, ds[0]) && TableLies(m, at + 20, ds[1..])
  }

  // ---------------------------------------------------------------- as it is meant

  function Meant(f: Function): Wanted {
    match f
    case Number(number) => ByOrdinal(number % 65536)
    case Named(_, name) => ByName(name)
  }

  function AllMeant(fs: seq<Function>): (ws: seq<Wanted>)
    ensures |ws| == |fs|
  {
    seq(|fs|, i requires 0 <= i < |fs| => Meant(fs[i]))
  }

  function LibrariesMeant(ds: seq<Descriptor>): (libs: seq<Library>)
    ensures |libs| == |ds|
  {
    seq(|ds|, i requires 0 <= i < |ds| => Library(ds[i].name, ds[i].slots, AllMeant(ds[i].functions)))
  }

  // ---------------------------------------------------------------- as it is read

  /** A name is what lies in the image up to the first zero byte. */
  lemma {:induction false} NameIsWhatLies(m: Bytes, at: nat)
    requires NameEnds(m, at)
    ensures NameLies(m, at, NameAt(m, at))
    decreases |m| - at
  {
    var name := NameAt(m, at);
    if m[at] == 0 {
      assert m[at..at + 1] == [0] == name + [0];
    } else {
      NameIsWhatLies(m, at + 1);
      var rest := NameAt(m, at + 1);
      assert m[at..at + |name| + 1] == [m[at]] + m[at + 1..at + 1 + |rest| + 1];
      assert name + [0] == [m[at]] + (rest + [0]);
    }
  }

  lemma {:induction false} NameReadsBack(m: Bytes, at: nat, name: Bytes)
    requires NameLies(m, at, name)
    ensures NameEnds(m, at) && NameAt(m, at) == name
    decreases |name|
  {
    LieInTurn(m, at, name, [0]);
    assert m[at + |name|] == m[at + |name|..at + |name| + 1][0] == 0;
    if name != [] {
      assert m[at] == m[at..at + |name|][0] == name[0];
      assert name + [0] == [name[0]] + (name[1..] + [0]);
      LieInTurn(m, at, [name[0]], name[1..] + [0]);
      NameReadsBack(m, at + 1, name[1..]);
    }
  }

  lemma ReadsBack64(m: Bytes, at: nat, v: nat)
    requires LiesAt(m, at, Encode(v, 8)) && v < U64
    ensures at + 8 <= |m| && Read64(m, at) == v
  {
    hide Encode, Decode;
    DecodeOfEncode(v, 8);
    Spans();
  }

  lemma ThunkReadsBack(m: Bytes, f: Function)
    requires FunctionLies(m, f)
    ensures 0 < ThunkOf(f) < U64 && ThunkReadable(m, ThunkOf(f)) && WantedOf(m, ThunkOf(f)) == Meant(f)
  {
    hide NameEnds, NameAt, NameLies;
    if f.Named? {
      NameReadsBack(m, f.hint + 2, f.name);
    }
  }

  lemma {:induction false} ThunksReadBack(m: Bytes, ref: nat, slot: nat, fs: seq<Function>)
    requires LiesAt(m, ref, ThunkBytes(fs)) && (forall f :: f in fs ==> FunctionLies(m, f))
    requires slot + 8 * |fs| <= |m|
    ensures ThunksReadable(m, ref, slot) && ThunksAt(m, ref, slot) == AllMeant(fs)
    decreases |fs|
  {
    hide Encode, Read64, LiesAt, FunctionLies, ThunkOf, ThunkReadable, WantedOf, Meant;
    if fs == [] {
      ZerosEncode(8);
      ReadsBack64(m, ref, 0);
    } else {
      assert fs[0] in fs;
      LieInTurn(m, ref, Encode(ThunkOf(fs[0]), 8), ThunkBytes(fs[1..]));
      ThunkReadsBack(m, fs[0]);
      ReadsBack64(m, ref, ThunkOf(fs[0]));
      ThunksReadBack(m, ref + 8, slot + 8, fs[1..]);
      assert AllMeant(fs) == [Meant(fs[0])] + AllMeant(fs[1..]);
    }
  }

  lemma DescriptorReadsBack(m: Bytes, at: nat, d: Descriptor)
    requires LiesAt(m, at, DescriptorBytes(d)) && d.hints < U32 && d.nameAt < U32 && d.slots < U32
    ensures at + 20 <= |m|
    ensures Read32(m, at + 12) == d.nameAt && Read32(m, at + 16) == d.slots
    ensures FirstThunk(m, at) == if d.hints == 0 then d.slots else d.hints
  {
    hide Encode, Read32, LiesAt;
    var h, s, c, n, t := Encode(d.hints, 4), Encode(d.stamp, 4), Encode(d.chain, 4), Encode(d.nameAt, 4),
                         Encode(d.slots, 4);
    LieInTurn(m, at, h + s + c + n, t);
    LieInTurn(m, at, h + s + c, n);
    LieInTurn(m, at, h + s, c);
    LieInTurn(m, at, h, s);
    ReadsBack32(m, at, d.hints);
    ReadsBack32(m, at + 12, d.nameAt);
    ReadsBack32(m, at + 16, d.slots);
  }

  /** Whatever tables are written, with hint tables or without, the loader reads the libraries and functions
      that were meant, in order. */
  lemma {:induction false} ImportsReadBack(m: Bytes, at: nat, ds: seq<Descriptor>)
    requires TableLies(m, at, ds)
    ensures ImportsReadable(m, at) && ImportsAt(m, at) == LibrariesMeant(ds)
    decreases |ds|
  {
    hide Read32, LiesAt, NameLies, NameEnds, NameAt, ThunksReadable, ThunksAt, ThunkBytes, DescriptorBytes, AllMeant,
         FirstThunk, FunctionLies;
    if ds == [] {
      ZerosEncode(4);
      ReadsBack32(m, at + 12, 0);
    } else {
      var d := ds[0];
      DescriptorReadsBack(m, at, d);
      NameReadsBack(m, d.nameAt, d.name);
      ThunksReadBack(m, FirstThunk(m, at), d.slots, d.functions);
      ImportsReadBack(m, at + 20, ds[1..]);
      assert LibrariesMeant(ds) == [Library(d.name, d.slots, AllMeant(d.functions))] + LibrariesMeant(ds[1..]);
    }
  }

  /** After the imports have been bound, the slot for every function that was written holds, little-endian,
      the address that the system gives for it in the library that was written. */
  lemma SlotsAsWritten(m: Bytes, at: nat, ds: seq<Descriptor>, n: nat, system: System, i: nat, j: nat)
    requires TableLies(m, at, ds) && i < |ds| && j < |ds[i].functions|
    requires ImportsReadable(m, at) && SlotsApart(ImportsAt(m, at)) && BindAll(m, ImportsAt(m, at), n, system).ok
    ensures var o, m' := ds[i].slots + 8 * j, BindAll(m, ImportsAt(m, at), n, system).image;
            var handle := system.open(n + i, ds[i].name);
            var address := system.find(handle, Meant(ds[i].functions[j]));
            && handle != 0 && address != 0 && o + 8 <= |m'| == |m|
            && m'[o..o + 8] == Encode(address, 8)
  {
    hide TableLies, ImportsReadable, SlotsApart, BindAll, Encode, SlotsFit;
    ImportsReadBack(m, at, ds);
    var libs := LibrariesMeant(ds);
    EverySlotBound(m, libs, n, system, i, j);
    BindsExactly(m, libs, n, system);
    assert Complete(libs, n, system, i);
    SlotBytesAre(BindAll(m, libs, n, system).image, SlotOf(libs, i, j));
  }

  lemma SlotBytesAre(m: Bytes, at: nat)
    requires at + 8 <= |m|
    ensures m[at..at + 8] == Encode(Read64(m, at), 8)
  {
    EncodeOfDecode(m[at..at + 8]);
  }
}
