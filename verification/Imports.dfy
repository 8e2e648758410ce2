/** Binding the imports (Microsoft PE Format, "The .idata Section"): the addresses of the functions that an
    image asks for are written over its import address tables, while the tables are still being read. */
module Imports {
  import opened Bits
  import opened Words
  import opened Relocation
  import Loader

  /** A function of a library, by number or by name. */
  datatype Wanted = ByOrdinal(number: nat) | ByName(name: Bytes)

  /** One import descriptor: the library, where the addresses go, and the functions in order. */
  datatype Library = Library(name: Bytes, slots: nat, wanted: seq<Wanted>)

  /** What the system will answer: the handle for the n-th library that is asked for, and the address of a
      function of a library; zero if there is none. */
  datatype System = System(open: (nat, Bytes) -> nat, find: (nat, Wanted) -> u64)

  const ORDINAL_FLAG: nat := 0x8000_0000_0000_0000

  // ---------------------------------------------------------------- the tables

  function Read64(m: Bytes, at: nat): nat
    requires at + 8 <= |m|
  {
    Decode(m[at..at + 8])
  }

  /** A name ends with a zero byte. */
  predicate NameEnds(m: Bytes, at: nat)
    decreases |m| - at
  {
    at < |m| && (m[at] == 0 || NameEnds(m, at + 1))
  }

  function NameAt(m: Bytes, at: nat): (name: Bytes)
    requires NameEnds(m, at)
    ensures at + |name| < |m|
    decreases |m| - at
  {
    if m[at] == 0 then [] else [m[at]] + NameAt(m, at + 1)
  }

  /** A thunk is a number under the topmost bit, or leads to a two-byte hint with the name behind it. */
  predicate ThunkReadable(m: Bytes, thunk: nat) {
    thunk >= ORDINAL_FLAG || NameEnds(m, thunk + 2)
  }

  function WantedOf(m: Bytes, thunk: nat): Wanted
    requires ThunkReadable(m, thunk)
  {
    if thunk >= ORDINAL_FLAG then ByOrdinal(thunk % 0x1_0000) else ByName(NameAt(m, thunk + 2))
  }

  /** The thunks from `ref` on, up to a zero, can be read, and as many slots lie in the image. */
  predicate ThunksReadable(m: Bytes, ref: nat, slot: nat)
    decreases |m| - ref
  {
    && ref + 8 <= |m|
    && (Read64(m, ref) != 0 ==>
          slot + 8 <= |m| && ThunkReadable(m, Read64(m, ref)) && ThunksReadable(m, ref + 8, slot + 8))
  }

  function ThunksAt(m: Bytes, ref: nat, slot: nat): (ws: seq<Wanted>)
    requires ThunksReadable(m, ref, slot)
    ensures ws != [] ==> slot + 8 * |ws| <= |m|
    decreases |m| - ref
  {
    if Read64(m, ref) == 0 then [] else [WantedOf(m, Read64(m, ref))] + ThunksAt(m, ref + 8, slot + 8)
  }

  /** Without a hint table the thunks are read from the slots themselves. */
  function FirstThunk(m: Bytes, desc: nat): nat
    requires desc + 20 <= |m|
  {
    if Read32(m, desc) != 0 then Read32(m, desc) else Read32(m, desc + 16)
  }

  /** The descriptors from `desc` on, up to one without a name, and what they lead to, can be read. */
  predicate ImportsReadable(m: Bytes, desc: nat)
    decreases |m| - desc
  {
    && desc + 20 <= |m|
    && (Read32(m, desc + 12) != 0 ==>
          && NameEnds(m, Read32(m, desc + 12))
          && ThunksReadable(m, FirstThunk(m, desc), Read32(m, desc + 16))
          && ImportsReadable(m, desc + 20))
  }

  function LibraryAt(m: Bytes, desc: nat): (lib: Library)
    requires ImportsReadable(m, desc) && Read32(m, desc + 12) != 0
    ensures SlotsFit(lib, |m|)
  {
    var slots := Read32(m, desc + 16);
    Library(NameAt(m, Read32(m, desc + 12)), slots, ThunksAt(m, FirstThunk(m, desc), slots))
  }

  function ImportsAt(m: Bytes, desc: nat): (libs: seq<Library>)
    requires ImportsReadable(m, desc)
    ensures forall lib :: lib in libs ==> SlotsFit(lib, |m|)
    decreases |m| - desc
  {
    if Read32(m, desc + 12) == 0 then [] else [LibraryAt(m, desc)] + ImportsAt(m, desc + 20)
  }

  function SlotsEnd(lib: Library): nat {
    lib.slots + 8 * |lib.wanted|
  }

  predicate SlotsFit(lib: Library, size: nat) {
    lib.wanted != [] ==> SlotsEnd(lib) <= size
  }

  // ---------------------------------------------------------------- what is read

  predicate Clear(at: nat, n: nat, lo: nat, hi: nat) {
    at + n <= lo || hi <= at
  }

  predicate NameClear(m: Bytes, at: nat, lo: nat, hi: nat)
    requires NameEnds(m, at)
  {
    Clear(at, |NameAt(m, at)| + 1, lo, hi)
  }

  predicate ThunkClear(m: Bytes, thunk: nat, lo: nat, hi: nat)
    requires ThunkReadable(m, thunk)
  {
    thunk >= ORDINAL_FLAG || NameClear(m, thunk + 2, lo, hi)
  }

  /** Reading the thunks reads nothing from lo to hi. */
  predicate ThunksClear(m: Bytes, ref: nat, slot: nat, lo: nat, hi: nat)
    requires ThunksReadable(m, ref, slot)
    decreases |m| - ref
  {
    && Clear(ref, 8, lo, hi)
    && (Read64(m, ref) != 0 ==>
          ThunkClear(m, Read64(m, ref), lo, hi) && ThunksClear(m, ref + 8, slot + 8, lo, hi))
  }

  /** No slot is written before the last thing in it has been read. */
  predicate ThunksTidy(m: Bytes, ref: nat, slot: nat)
    requires ThunksReadable(m, ref, slot)
    decreases |m| - ref
  {
    Read64(m, ref) != 0 ==>
      ThunksClear(m, ref + 8, slot + 8, slot, slot + 8) && ThunksTidy(m, ref + 8, slot + 8)
  }

  /** Reading the descriptors, and what they lead to, reads nothing from lo to hi. */
  predicate ImportsClear(m: Bytes, desc: nat, lo: nat, hi: nat)
    requires ImportsReadable(m, desc)
    decreases |m| - desc
  {
    && Clear(desc, 20, lo, hi)
    && (Read32(m, desc + 12) != 0 ==>
          && NameClear(m, Read32(m, desc + 12), lo, hi)
          && ThunksClear(m, FirstThunk(m, desc), Read32(m, desc + 16), lo, hi)
          && ImportsClear(m, desc + 20, lo, hi))
  }

  predicate ImportsTidy(m: Bytes, desc: nat)
    requires ImportsReadable(m, desc)
    decreases |m| - desc
  {
    Read32(m, desc + 12) != 0 ==>
      && ThunksTidy(m, FirstThunk(m, desc), Read32(m, desc + 16))
      && ImportsClear(m, desc + 20, LibraryAt(m, desc).slots, SlotsEnd(LibraryAt(m, desc)))
      && ImportsTidy(m, desc + 20)
  }

  ghost predicate SameOutside(m: Bytes, m': Bytes, lo: nat, hi: nat) {
    |m| == |m'| && forall k :: 0 <= k < |m| && !(lo <= k < hi) ==> m[k] == m'[k]
  }

  lemma SameField(m: Bytes, m': Bytes, lo: nat, hi: nat, at: nat, n: nat)
    requires SameOutside(m, m', lo, hi) && Clear(at, n, lo, hi) && at + n <= |m|
    ensures m[at..at + n] == m'[at..at + n]
  {
  }

  lemma {:induction false} SameName(m: Bytes, m': Bytes, lo: nat, hi: nat, at: nat)
    requires SameOutside(m, m', lo, hi) && NameEnds(m, at) && NameClear(m, at, lo, hi)
    ensures NameEnds(m', at) && NameAt(m', at) == NameAt(m, at)
    decreases |m| - at
  {
    if m[at] != 0 {
      SameName(m, m', lo, hi, at + 1);
    }
  }

  lemma SameThunk(m: Bytes, m': Bytes, lo: nat, hi: nat, thunk: nat)
    requires SameOutside(m, m', lo, hi) && ThunkReadable(m, thunk) && ThunkClear(m, thunk, lo, hi)
    ensures ThunkReadable(m', thunk) && WantedOf(m', thunk) == WantedOf(m, thunk)
    ensures forall lo', hi' :: ThunkClear(m', thunk, lo', hi') <==> ThunkClear(m, thunk, lo', hi')
  {
    hide NameAt, NameEnds;
    if thunk < ORDINAL_FLAG {
      SameName(m, m', lo, hi, thunk + 2);
    }
  }

  /** Thunks that a change leaves alone read the same, and so does everything said of them. */
  lemma {:induction false} SameThunks(m: Bytes, m': Bytes, lo: nat, hi: nat, ref: nat, slot: nat)
    requires SameOutside(m, m', lo, hi) && ThunksReadable(m, ref, slot) && ThunksClear(m, ref, slot, lo, hi)
    ensures ThunksReadable(m', ref, slot) && ThunksAt(m', ref, slot) == ThunksAt(m, ref, slot)
    ensures forall lo', hi' :: ThunksClear(m', ref, slot, lo', hi') <==> ThunksClear(m, ref, slot, lo', hi')
    ensures ThunksTidy(m', ref, slot) <==> ThunksTidy(m, ref, slot)
    decreases |m| - ref
  {
    hide NameAt, NameEnds, ThunkClear, ThunkReadable, WantedOf, Clear;
    SameCell(m, m', lo, hi, ref);
    var thunk := Read64(m, ref);
    if thunk != 0 {
      SameThunk(m, m', lo, hi, thunk);
      SameThunks(m, m', lo, hi, ref + 8, slot + 8);
    }
  }

  lemma SameCell(m: Bytes, m': Bytes, lo: nat, hi: nat, ref: nat)
    requires SameOutside(m, m', lo, hi) && Clear(ref, 8, lo, hi) && ref + 8 <= |m|
    ensures Read64(m', ref) == Read64(m, ref)
  {
    SameField(m, m', lo, hi, ref, 8);
  }

  lemma SameDescriptor(m: Bytes, m': Bytes, lo: nat, hi: nat, desc: nat)
    requires SameOutside(m, m', lo, hi) && Clear(desc, 20, lo, hi) && desc + 20 <= |m|
    ensures FirstThunk(m', desc) == FirstThunk(m, desc)
    ensures Read32(m', desc + 12) == Read32(m, desc + 12) && Read32(m', desc + 16) == Read32(m, desc + 16)
  {
    SameField(m, m', lo, hi, desc, 4);
    SameField(m, m', lo, hi, desc + 12, 4);
    SameField(m, m', lo, hi, desc + 16, 4);
  }

  lemma {:induction false} SameImports(m: Bytes, m': Bytes, lo: nat, hi: nat, desc: nat)
    requires SameOutside(m, m', lo, hi) && ImportsReadable(m, desc) && ImportsClear(m, desc, lo, hi)
    ensures ImportsReadable(m', desc) && ImportsAt(m', desc) == ImportsAt(m, desc)
    ensures forall lo', hi' :: ImportsClear(m', desc, lo', hi') <==> ImportsClear(m, desc, lo', hi')
    ensures ImportsTidy(m', desc) <==> ImportsTidy(m, desc)
    decreases |m| - desc
  {
    hide NameAt, NameEnds, ThunksClear, ThunksReadable, ThunksAt, ThunksTidy, Clear, Read32, FirstThunk;
    SameDescriptor(m, m', lo, hi, desc);
    if Read32(m, desc + 12) != 0 {
      SameName(m, m', lo, hi, Read32(m, desc + 12));
      SameThunks(m, m', lo, hi, FirstThunk(m, desc), Read32(m, desc + 16));
      SameImports(m, m', lo, hi, desc + 20);
    }
  }

  // ---------------------------------------------------------------- what is written

  /** The bytes for the slots of one library; the first function that is missing leaves a zero and ends it. */
  datatype Slots = Slots(bytes: Bytes, ok: bool)

  function SlotBytes(ws: seq<Wanted>, handle: nat, find: (nat, Wanted) -> u64): (s: Slots)
    ensures |s.bytes| <= 8 * |ws| && (s.ok ==> |s.bytes| == 8 * |ws|)
    decreases |ws|
  {
    if ws == [] then Slots([], true)
    else
      var address := find(handle, ws[0]);
      if address == 0 then Slots(Encode(0, 8), false)
      else
        var rest := SlotBytes(ws[1..], handle, find);
        Slots(Encode(address, 8) + rest.bytes, rest.ok)
  }

  /** The image with bytes written, if there are any. */
  function Written(m: Bytes, at: nat, bytes: Bytes): (r: Bytes)
    requires bytes != [] ==> at + |bytes| <= |m|
    ensures |r| == |m|
  {
    if bytes == [] then m else Splice(m, at, bytes)
  }

  /** The image afterwards, the libraries that stay referenced, and whether all went well. */
  datatype Bound = Bound(image: Bytes, handles: seq<nat>, ok: bool)

  function BindAll(m: Bytes, libs: seq<Library>, n: nat, system: System): (r: Bound)
    requires forall lib :: lib in libs ==> SlotsFit(lib, |m|)
    ensures |r.image| == |m|
    decreases |libs|
  {
    if libs == [] then Bound(m, [], true)
    else
      assert libs[0] in libs;
      var handle := system.open(n, libs[0].name);
      if handle == 0 then Bound(m, [], false)
      else
        var s := SlotBytes(libs[0].wanted, handle, system.find);
        assert SlotsFit(libs[0], |m|) && (s.bytes != [] ==> libs[0].wanted != []);
        var m' := Written(m, libs[0].slots, s.bytes);
        if !s.ok then Bound(m', [], false)
        else
          var rest := BindAll(m', libs[1..], n + 1, system);
          Bound(rest.image, [handle] + rest.handles, rest.ok)
  }

  // ---------------------------------------------------------------- the loader's loops

  function BytesBefore(done: Bytes, s: Slots): Slots {
    s.(bytes := done + s.bytes)
  }

  lemma BytesJoin(a: Bytes, b: Bytes, s: Slots)
    ensures BytesBefore(a, BytesBefore(b, s)) == BytesBefore(a + b, s)
    ensures BytesBefore([], s) == s
    ensures BytesBefore(a, Slots(b, false)) == Slots(a + b, false)
    ensures BytesBefore(a, Slots([], true)) == Slots(a, true)
  {
    assert a + (b + s.bytes) == (a + b) + s.bytes;
    assert [] + s.bytes == s.bytes && a + [] == a;
  }

  lemma WrittenMore(m: Bytes, at: nat, a: Bytes, b: Bytes)
    requires b != [] && at + |a| + |b| <= |m|
    ensures Splice(Written(m, at, a), at + |a|, b) == Written(m, at, a + b)
  {
    SpliceMore(m, at, a, b);
    SpliceNothing(m, at);
  }

  /** One turn of the loop over the thunks of a library: the slot is written, and the rest reads as before. */
  lemma ThunkStep(m: Bytes, ref: nat, slot: nat, handle: nat, find: (nat, Wanted) -> u64)
    requires ThunksReadable(m, ref, slot) && ThunksTidy(m, ref, slot) && Read64(m, ref) != 0
    ensures slot + 8 <= |m| && ref + 16 <= |m| && ThunkReadable(m, Read64(m, ref))
    ensures var address := find(handle, WantedOf(m, Read64(m, ref)));
            var m' := Splice(m, slot, Encode(address, 8));
            && ThunksReadable(m', ref + 8, slot + 8) && ThunksTidy(m', ref + 8, slot + 8)
            && SlotBytes(ThunksAt(m, ref, slot), handle, find) ==
               if address == 0 then Slots(Encode(0, 8), false)
               else BytesBefore(Encode(address, 8), SlotBytes(ThunksAt(m', ref + 8, slot + 8), handle, find))
  {
    hide Encode, WantedOf, ThunkReadable, Splice, Read64;
    var address := find(handle, WantedOf(m, Read64(m, ref)));
    var m' := Splice(m, slot, Encode(address, 8));
    SameThunks(m, m', slot, slot + 8, ref + 8, slot + 8);
    CellBehind(m, ref + 8, slot + 8);
    assert ThunksAt(m, ref, slot)[1..] == ThunksAt(m, ref + 8, slot + 8);
  }

  lemma CellBehind(m: Bytes, ref: nat, slot: nat)
    requires ThunksReadable(m, ref, slot)
    ensures ref + 8 <= |m|
  {
  }

  lemma NoThunk(m: Bytes, ref: nat, slot: nat, handle: nat, find: (nat, Wanted) -> u64)
    requires ThunksReadable(m, ref, slot) && Read64(m, ref) == 0
    ensures SlotBytes(ThunksAt(m, ref, slot), handle, find) == Slots([], true)
  {
  }

  /** Looks up one function and writes its address, or a zero. */
  method BindThunk(image: array<byte>, ref: nat, slot: nat, handle: nat, find: (nat, Wanted) -> u64)
    returns (address: u64)
    requires ThunksReadable(image[..], ref, slot) && ThunksTidy(image[..], ref, slot)
    requires ref + 8 <= image.Length && Read64(image[..], ref) != 0
    modifies image
    ensures slot + 8 <= image.Length && ref + 16 <= image.Length
    ensures image[..] == Splice(old(image[..]), slot, Encode(address, 8))
    ensures ThunksReadable(image[..], ref + 8, slot + 8) && ThunksTidy(image[..], ref + 8, slot + 8)
    ensures SlotBytes(ThunksAt(old(image[..]), ref, slot), handle, find) ==
            if address == 0 then Slots(Encode(0, 8), false)
            else BytesBefore(Encode(address, 8), SlotBytes(ThunksAt(image[..], ref + 8, slot + 8), handle, find))
  {
    hide *;
    ThunkStep(image[..], ref, slot, handle, find);
    address := find(handle, WantedOf(image[..], Read64(image[..], ref)));
    Poke(image, slot, Encode(address, 8));
  }

  /** Looks up the functions of one library and writes their addresses, in place. */
  method BindLibrary(image: array<byte>, first: nat, slots: nat, handle: nat, find: (nat, Wanted) -> u64)
    returns (ok: bool)
    requires ThunksReadable(image[..], first, slots) && ThunksTidy(image[..], first, slots)
    modifies image
    ensures var s := SlotBytes(ThunksAt(old(image[..]), first, slots), handle, find);
            ok == s.ok && image[..] == Written(old(image[..]), slots, s.bytes)
  {
    hide ThunksReadable, ThunksTidy, ThunksAt, SlotBytes, WantedOf, ThunkReadable, Encode, Splice, Written, Read64,
         BytesBefore;
    ghost var m := image[..];
    ghost var goal, done := SlotBytes(ThunksAt(m, first, slots), handle, find), [];
    var ref, slot := first, slots;
    BytesJoin([], [], goal);
    WrittenNothing(m, slots);
    CellBehind(m, first, slots);
    while Read64(image[..], ref) != 0
      invariant slot == slots + |done| && (done != [] ==> slot <= |m|) && ref + 8 <= |m|
      invariant image[..] == Written(m, slots, done)
      invariant ThunksReadable(image[..], ref, slot) && ThunksTidy(image[..], ref, slot)
      invariant goal == BytesBefore(done, SlotBytes(ThunksAt(image[..], ref, slot), handle, find))
      decreases image.Length - ref
    {
      var address := BindThunk(image, ref, slot, handle, find);
      WrittenMore(m, slots, done, Encode(address, 8));
      BytesJoin(done, Encode(address, 8), SlotBytes(ThunksAt(image[..], ref + 8, slot + 8), handle, find));
      done := done + Encode(address, 8);
      if address == 0 {
        return false;
      }
      ref, slot := ref + 8, slot + 8;
    }
    NoThunk(image[..], ref, slot, handle, find);
    BytesJoin(done, [], Slots([], true));
    return true;
  }

  lemma WrittenNothing(m: Bytes, at: nat)
    ensures Written(m, at, []) == m
  {
  }

  function HandlesBefore(handles: seq<nat>, r: Bound): Bound {
    r.(handles := handles + r.handles)
  }

  /** One turn of the loop over the descriptors. */
  lemma ImportStep(m: Bytes, desc: nat, n: nat, system: System)
    requires ImportsReadable(m, desc) && ImportsTidy(m, desc) && Read32(m, desc + 12) != 0
    ensures desc + 40 <= |m| && NameEnds(m, Read32(m, desc + 12))
    ensures ThunksReadable(m, FirstThunk(m, desc), Read32(m, desc + 16))
            && ThunksTidy(m, FirstThunk(m, desc), Read32(m, desc + 16))
    ensures var handle := system.open(n, NameAt(m, Read32(m, desc + 12)));
            var slots := Read32(m, desc + 16);
            var s := SlotBytes(ThunksAt(m, FirstThunk(m, desc), slots), handle, system.find);
            var m', now := Written(m, slots, s.bytes), BindAll(m, ImportsAt(m, desc), n, system);
            if handle == 0 then now == Bound(m, [], false)
            else if !s.ok then now == Bound(m', [], false)
            else
              && ImportsReadable(m', desc + 20) && ImportsTidy(m', desc + 20)
              && now == HandlesBefore([handle], BindAll(m', ImportsAt(m', desc + 20), n + 1, system))
  {
    hide NameAt, NameEnds, ThunksReadable, ThunksAt, ThunksTidy, Read32, FirstThunk, SlotBytes, Splice;
    var lib := LibraryAt(m, desc);
    var handle := system.open(n, lib.name);
    var s := SlotBytes(lib.wanted, handle, system.find);
    var m' := Written(m, lib.slots, s.bytes);
    DescriptorBehind(m, desc + 20);
    WrittenInside(m, lib, s.bytes);
    SameImports(m, m', lib.slots, SlotsEnd(lib), desc + 20);
    assert ImportsAt(m, desc)[1..] == ImportsAt(m, desc + 20);
  }

  lemma DescriptorBehind(m: Bytes, desc: nat)
    requires ImportsReadable(m, desc)
    ensures desc + 20 <= |m|
  {
  }

  lemma WrittenInside(m: Bytes, lib: Library, bytes: Bytes)
    requires SlotsFit(lib, |m|) && |bytes| <= 8 * |lib.wanted|
    ensures SameOutside(m, Written(m, lib.slots, bytes), lib.slots, SlotsEnd(lib))
  {
  }

  lemma NoImport(m: Bytes, desc: nat, n: nat, system: System)
    requires ImportsReadable(m, desc) && Read32(m, desc + 12) == 0
    ensures BindAll(m, ImportsAt(m, desc), n, system) == Bound(m, [], true)
  {
  }

  /** Binds all imports, in place: the result is that of the tables as they were before. A library whose
      functions cannot all be found is given back at once, and the ones before it stay. */
  method BindImports(image: array<byte>, directory: nat, directorySize: nat, system: System, n: nat)
    returns (handles: seq<nat>, ok: bool)
    requires directorySize != 0 ==> ImportsReadable(image[..], directory) && ImportsTidy(image[..], directory)
    modifies image
    ensures directorySize == 0 ==> image[..] == old(image[..]) && handles == [] && ok
    ensures directorySize != 0 ==>
              Bound(image[..], handles, ok) == BindAll(old(image[..]), ImportsAt(old(image[..]), directory), n, system)
  {
    hide ImportsReadable, ImportsTidy, ImportsAt, BindAll, SlotBytes, NameAt, NameEnds, ThunksReadable, ThunksTidy,
         ThunksAt, FirstThunk, Read32, Written;
    handles := [];
    if directorySize == 0 {
      return handles, true;
    }
    ghost var goal := BindAll(image[..], ImportsAt(image[..], directory), n, system);
    var desc := directory;
    DescriptorBehind(image[..], desc);
    while Read32(image[..], desc + 12) != 0
      invariant desc + 20 <= image.Length
      invariant ImportsReadable(image[..], desc) && ImportsTidy(image[..], desc)
      invariant goal == HandlesBefore(handles, BindAll(image[..], ImportsAt(image[..], desc), n + |handles|, system))
      decreases image.Length - desc
    {
      ImportStep(image[..], desc, n + |handles|, system);
      var handle := system.open(n + |handles|, NameAt(image[..], Read32(image[..], desc + 12)));
      if handle == 0 {
        return handles, false;
      }
      ok := BindLibrary(image, FirstThunk(image[..], desc), Read32(image[..], desc + 16), handle, system.find);
      if !ok {
        return handles, false;
      }
      handles := handles + [handle];
      desc := desc + 20;
    }
    NoImport(image[..], desc, n + |handles|, system);
    return handles, true;
  }
}
