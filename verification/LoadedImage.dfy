/** From the copied sections to the final protections: the union field of a section header carries the
    low half of an address from one to the other, and is overwritten with a size on the way. */
module LoadedImage {
  import opened Bits
  import opened Words
  import opened Layout
  import opened PageGroups
  import opened Relocation
  import opened RelocationMeaning
  import opened Imports
  import opened ImportsMeaning
  import Loader

  /** The sections as they lie in memory, with their full addresses. */
  function TrueView(s: SectionHeader, codeBase: u64, optional: OptionalHeader): View
    requires codeBase + s.virtualAddress < U64
  {
    View(codeBase + s.virtualAddress, RealSectionSize(s, optional), s.characteristics)
  }

  ghost function TrueViews(ss: seq<SectionHeader>, size: nat, codeBase: u64, optional: OptionalHeader): (vs: seq<View>)
    requires AllPlaced(ss, size, optional.sectionAlignment) && codeBase + size < U64
    ensures |vs| == |ss|
  {
    seq(|ss|, i requires 0 <= i < |ss| =>
          AddressFits(ss, size, codeBase, optional, i); TrueView(ss[i], codeBase, optional))
  }

  lemma AddressFits(ss: seq<SectionHeader>, size: nat, codeBase: u64, optional: OptionalHeader, i: nat)
    requires AllPlaced(ss, size, optional.sectionAlignment) && codeBase + size < U64 && i < |ss|
    ensures codeBase + ss[i].virtualAddress < U64 && ss[i].virtualAddress <= size
  {
    assert ss[i] in ss;
  }

  predicate PageAlignedIfFilled(s: SectionHeader) {
    s.sizeOfRawData == 0 || s.virtualAddress % PAGE_SIZE == 0
  }

  lemma ViewAfterCopy(s: SectionHeader, h: SectionHeader, size: nat, codeBase: u64, optional: OptionalHeader)
    requires optional.imageBase == codeBase && codeBase % PAGE_SIZE == 0
    requires codeBase + size < U64 && codeBase / U32 == (codeBase + size) / U32 && s.virtualAddress <= size
    requires h == s.(misc := StoredAddress(s, codeBase))
    ensures ViewOf(h, optional) == TrueView(s, codeBase, optional) <==> PageAlignedIfFilled(s)
  {
    hide Rebuilt, StoredAddress, RealSectionSize;
    SectionAddressRebuilt(s, codeBase, size);
    assert RealSectionSize(h, optional) == RealSectionSize(s, optional) by {
      SizeIgnoresMisc(s, h.misc, optional);
    }
  }

  lemma SizeIgnoresMisc(s: SectionHeader, misc: u32, optional: OptionalHeader)
    ensures RealSectionSize(s.(misc := misc), optional) == RealSectionSize(s, optional)
  {
  }

  /** For the base of a load that has succeeded, every address inside the image is rebuilt from its lower
      32 bits. */
  lemma AddressRebuilt(codeBase: u64, size: u64, offset: nat)
    requires Loader.InOneBlock(codeBase, size) && codeBase + size < U64 && offset <= size
    ensures Rebuilt((codeBase + offset) % U32, codeBase) == codeBase + offset
  {
    hide Rebuilt;
    RebuiltExactly(codeBase + offset, codeBase);
  }

  /** Finalisation works from true addresses: for a base that does not straddle a 4 GiB boundary, the
      addresses it rebuilds from the copied headers are the places of the sections, iff each section
      that has data starts on a page. */
  lemma FinalisedFromTrueAddresses(image: Bytes, ss: seq<SectionHeader>, data: Bytes, codeBase: u64,
                                   optional: OptionalHeader, commits: nat -> bool)
    requires optional.imageBase == codeBase && codeBase % PAGE_SIZE == 0 && optional.sectionAlignment > 0
    requires codeBase + |image| < U64 && codeBase / U32 == (codeBase + |image|) / U32
    requires AllPlaced(ss, |image|, optional.sectionAlignment) && DisjointTargets(ss, optional.sectionAlignment)
    requires CopyFrom(image, ss, 0, data, codeBase, optional.sectionAlignment, commits).status == Copied
    ensures var r := CopyFrom(image, ss, 0, data, codeBase, optional.sectionAlignment, commits);
            Views(r.headers, optional) == TrueViews(ss, |image|, codeBase, optional)
            <==> forall s :: s in ss ==> PageAlignedIfFilled(s)
  {
    hide CopyFrom, StoredAddress, RealSectionSize, Rebuilt, SectionBytes, DisjointTargets, PageAlignedIfFilled, ViewOf,
         AllPlaced, TrueView, Placed;
    var r := CopyFrom(image, ss, 0, data, codeBase, optional.sectionAlignment, commits);
    var vs, ts := Views(r.headers, optional), TrueViews(ss, |image|, codeBase, optional);
    forall i | 0 <= i < |ss|
      ensures vs[i] == ts[i] <==> PageAlignedIfFilled(ss[i])
    {
      SectionsInPlace(image, ss, 0, data, codeBase, optional.sectionAlignment, commits, i);
      AddressFits(ss, |image|, codeBase, optional, i);
      ViewAfterCopy(ss[i], r.headers[i], |image|, codeBase, optional);
    }
    if forall s :: s in ss ==> PageAlignedIfFilled(s) {
      forall i | 0 <= i < |ss|
        ensures vs[i] == ts[i]
      {
        assert ss[i] in ss;
      }
      assert vs == ts;
    }
    if vs == ts {
      forall s | s in ss
        ensures PageAlignedIfFilled(s)
      {
        var i :| 0 <= i < |ss| && ss[i] == s;
        assert vs[i] == ts[i];
      }
    }
  }

  // ---------------------------------------------------------------- the whole image

  /** Where the tables for the relocation and for the imports lie. */
  datatype Directories = Directories(relocation: nat, relocationSize: nat, imports: nat, importsSize: nat)

  /** The fixups that are applied: none if the image has not moved or has no table. */
  ghost function FixupsOf(m: Bytes, directory: nat, directorySize: nat, delta: u64): seq<Fixup> {
    if delta == 0 || directorySize == 0 || ParseTable(m, directory).NoTable? then []
    else ResolveAll(m, ParseTable(m, directory).fixups, delta)
  }

  /** What the relocation relies on: a table whose sites are inside the image, outside the table, and apart. */
  ghost predicate TableUsable(m: Bytes, directory: nat, directorySize: nat, delta: u64) {
    delta != 0 && directorySize != 0 ==> TableReady(m, directory, delta)
  }

  ghost predicate DataInside(ss: seq<SectionHeader>, data: Bytes) {
    forall i :: 0 <= i < |ss| && ss[i].sizeOfRawData > 0 ==> ss[i].pointerToRawData + ss[i].sizeOfRawData <= |data|
  }

  ghost predicate NothingCovers(xs: seq<Fixup>, libs: seq<Library>, o: nat) {
    && (forall x :: x in xs ==> Apart(x, o, o + 1))
    && (forall lib :: lib in libs ==> SlotsClear(lib, o, o + 1))
  }

  /** Byte k of the section is the file's, or zero, unless a fixup or a slot covers it. */
  ghost predicate ByteIntact(s: SectionHeader, k: nat, data: Bytes, sectionAlignment: u32, xs: seq<Fixup>,
                             libs: seq<Library>, final: Bytes)
    requires s.sizeOfRawData > 0 ==> s.pointerToRawData + s.sizeOfRawData <= |data|
    requires k < CopyLength(s, sectionAlignment) && EndOfSection(s, sectionAlignment) <= |final|
  {
    NothingCovers(xs, libs, s.virtualAddress + k) ==>
      final[s.virtualAddress + k] == if s.sizeOfRawData > 0 then data[s.pointerToRawData + k] else 0
  }

  ghost predicate SectionsIntact(ss: seq<SectionHeader>, data: Bytes, sectionAlignment: u32, xs: seq<Fixup>,
                                 libs: seq<Library>, final: Bytes)
    requires DataInside(ss, data) && AllPlaced(ss, |final|, sectionAlignment)
  {
    forall i, k :: 0 <= i < |ss| && 0 <= k < CopyLength(ss[i], sectionAlignment) ==>
      assert ss[i] in ss; ByteIntact(ss[i], k, data, sectionAlignment, xs, libs, final)
  }

  /** A patched field that is no slot keeps its offset from the image base, or loads the address that does. */
  ghost predicate FieldFollows(copied: Bytes, x: Fixup, libs: seq<Library>, oldBase: u64, newBase: u64, final: Bytes)
    requires InBounds(x, |copied|) && |final| == |copied|
  {
    (forall lib :: lib in libs ==> SlotsClear(lib, x.site, x.site + Width(x.kind))) ==>
      HasMoved(x.kind, FieldOf(copied, x), FieldOf(final, x), oldBase, newBase)
  }

  ghost predicate HasMoved(kind: nat, f: Bytes, f': Bytes, oldBase: u64, newBase: u64)
    requires |f| == |f'| == Width(kind)
  {
    && (Additive(kind) ==> Follows(kind, Decode(f), Decode(f'), oldBase, newBase))
    && (kind == REL_THUMB_MOV32 ==>
          ThumbMoved(ThumbWord(f, 0), ThumbWord(f, 1), ThumbWord(f', 0), ThumbWord(f', 1),
                     Delta(oldBase, newBase) % U32))
    && (kind == MOVW_ONLY ==> MovwMoved(MovwWord(f), MovwWord(f'), Delta(oldBase, newBase) % U32))
  }

  ghost predicate FieldsFollow(copied: Bytes, xs: seq<Fixup>, libs: seq<Library>, oldBase: u64, newBase: u64,
                               final: Bytes)
    requires AllInBounds(xs, |copied|) && |final| == |copied|
  {
    forall i :: 0 <= i < |xs| ==> assert xs[i] in xs; FieldFollows(copied, xs[i], libs, oldBase, newBase, final)
  }

  lemma FieldsFollowTheBase(copied: Bytes, xs: seq<Fixup>, oldBase: u64, newBase: u64)
    requires AllInBounds(xs, |copied|) && PairwiseApart(xs)
    requires ApplyAll(copied, xs, Delta(oldBase, newBase)).status.Done?
    ensures FieldsFollow(copied, xs, [], oldBase, newBase, ApplyAll(copied, xs, Delta(oldBase, newBase)).image)
  {
    hide ApplyAll, Follows, ThumbMoved, MovwMoved, MovwWord, Decode, ThumbWord, Delta, FieldOf, PairwiseApart;
    forall i | 0 <= i < |xs|
      ensures InBounds(xs[i], |copied|)
      ensures FieldFollows(copied, xs[i], [], oldBase, newBase, ApplyAll(copied, xs, Delta(oldBase, newBase)).image)
    {
      assert xs[i] in xs;
      if Additive(xs[i].kind) {
        AddressesFollowTheBase(copied, xs, oldBase, newBase, i);
      } else if xs[i].kind == REL_THUMB_MOV32 {
        ThumbPairsFollowTheBase(copied, xs, Delta(oldBase, newBase), i);
      } else if xs[i].kind == MOVW_ONLY {
        MovwFollowsTheBase(copied, xs, Delta(oldBase, newBase), i);
      }
    }
  }

  /** One byte through the copy and the relocation. */
  lemma ByteThroughStages(image: Bytes, ss: seq<SectionHeader>, data: Bytes, codeBase: u64, sectionAlignment: u32,
                          commits: nat -> bool, xs: seq<Fixup>, delta: u64, i: nat, k: nat)
    requires i < |ss| && AllPlaced(ss, |image|, sectionAlignment) && codeBase + |image| < U64
             && DisjointTargets(ss, sectionAlignment)
    requires CopyFrom(image, ss, 0, data, codeBase, sectionAlignment, commits).status == Copied
    requires AllInBounds(xs, |image|) && k < CopyLength(ss[i], sectionAlignment)
    ensures EndOfSection(ss[i], sectionAlignment) <= |image|
    ensures ss[i].sizeOfRawData > 0 ==> ss[i].pointerToRawData + ss[i].sizeOfRawData <= |data|
    ensures var copied := CopyFrom(image, ss, 0, data, codeBase, sectionAlignment, commits).image;
            ByteIntact(ss[i], k, data, sectionAlignment, xs, [], ApplyAll(copied, xs, delta).image)
  {
    hide CopyFrom, ApplyAll, SectionBytes, StoredAddress, DisjointTargets, AllPlaced, Apart;
    SectionsInPlace(image, ss, 0, data, codeBase, sectionAlignment, commits, i);
    var copied := CopyFrom(image, ss, 0, data, codeBase, sectionAlignment, commits).image;
    var final, s := ApplyAll(copied, xs, delta).image, ss[i];
    var o := s.virtualAddress + k;
    if NothingCovers(xs, [], o) {
      OtherBytesUnchanged(copied, xs, delta, o, 1);
      ByteOfRange(final, copied, o);
      assert copied[s.virtualAddress..EndOfSection(s, sectionAlignment)][k] == copied[o];
      SectionByte(s, data, sectionAlignment, k);
    }
  }

  lemma SectionsThroughStages(image: Bytes, ss: seq<SectionHeader>, data: Bytes, codeBase: u64, sectionAlignment: u32,
                              commits: nat -> bool, xs: seq<Fixup>, delta: u64)
    requires AllPlaced(ss, |image|, sectionAlignment) && codeBase + |image| < U64
             && DisjointTargets(ss, sectionAlignment)
    requires CopyFrom(image, ss, 0, data, codeBase, sectionAlignment, commits).status == Copied
    requires AllInBounds(xs, |image|)
    ensures DataInside(ss, data)
    ensures var copied := CopyFrom(image, ss, 0, data, codeBase, sectionAlignment, commits).image;
            SectionsIntact(ss, data, sectionAlignment, xs, [], ApplyAll(copied, xs, delta).image)
  {
    hide CopyFrom, ApplyAll, StoredAddress, DisjointTargets, AllPlaced, ByteIntact, SectionBytes;
    forall i | 0 <= i < |ss| && ss[i].sizeOfRawData > 0
      ensures ss[i].pointerToRawData + ss[i].sizeOfRawData <= |data|
    {
      SectionsInPlace(image, ss, 0, data, codeBase, sectionAlignment, commits, i);
    }
    forall i, k | 0 <= i < |ss| && 0 <= k < CopyLength(ss[i], sectionAlignment)
      ensures EndOfSection(ss[i], sectionAlignment) <= |image|
      ensures ByteIntact(ss[i], k, data, sectionAlignment, xs, [],
                         ApplyAll(CopyFrom(image, ss, 0, data, codeBase, sectionAlignment, commits).image, xs,
                                  delta).image)
    {
      ByteThroughStages(image, ss, data, codeBase, sectionAlignment, commits, xs, delta, i, k);
    }
  }

  datatype ImageStage = LayoutRefused | CopyFailed | RelocationFailed | ImportsFailed | ProtectionFailed | InPlace

  ghost function CopyOf(image: Bytes, ss: seq<SectionHeader>, data: Bytes, optional: OptionalHeader,
                        commits: nat -> bool): CopyResult
    requires AllPlaced(ss, |image|, optional.sectionAlignment) && optional.imageBase + |image| < U64
  {
    CopyFrom(image, ss, 0, data, optional.imageBase, optional.sectionAlignment, commits)
  }

  /** The fixups of the copied image, and the image after they have been applied. */
  ghost function FixupsIn(copied: Bytes, optional: OptionalHeader, oldBase: u64, dirs: Directories): seq<Fixup> {
    FixupsOf(copied, dirs.relocation, dirs.relocationSize, Delta(oldBase, optional.imageBase))
  }

  ghost function MovedOf(copied: Bytes, optional: OptionalHeader, oldBase: u64, dirs: Directories): (r: Relocated)
    requires AllInBounds(FixupsIn(copied, optional, oldBase, dirs), |copied|)
    ensures |r.image| == |copied|
  {
    ApplyAll(copied, FixupsIn(copied, optional, oldBase, dirs), Delta(oldBase, optional.imageBase))
  }

  /** The libraries that the relocated image asks for. */
  ghost function LibrariesOf(moved: Bytes, dirs: Directories): (libs: seq<Library>)
    ensures forall lib :: lib in libs ==> SlotsFit(lib, |moved|)
  {
    if dirs.importsSize == 0 || !ImportsReadable(moved, dirs.imports) then [] else ImportsAt(moved, dirs.imports)
  }

  /** What the binding of the imports relies on. */
  ghost predicate ImportsUsable(moved: Bytes, dirs: Directories) {
    dirs.importsSize != 0 ==>
      && ImportsReadable(moved, dirs.imports) && ImportsTidy(moved, dirs.imports)
      && SlotsApart(ImportsAt(moved, dirs.imports))
  }

  /** What the address space and the file give: the reservation has the size the check has found, lies in
      one 4 GiB block on a page, targets do not overlap, and the tables that are needed are usable. */
  ghost predicate Prepared(image: Bytes, ss: seq<SectionHeader>, data: Bytes, optional: OptionalHeader, oldBase: u64,
                           dirs: Directories, commits: nat -> bool) {
    && |image| == AlignUp(optional.sizeOfImage, optional.sectionAlignment) && optional.sectionAlignment > 0 && |ss| > 0
    && optional.imageBase + |image| < U64 && optional.imageBase % PAGE_SIZE == 0
    && Loader.InOneBlock(optional.imageBase, |image|)
    && DisjointTargets(ss, optional.sectionAlignment)
    && (AllPlaced(ss, |image|, optional.sectionAlignment) ==>
          var copied := CopyOf(image, ss, data, optional, commits).image;
          && TableUsable(copied, dirs.relocation, dirs.relocationSize, Delta(oldBase, optional.imageBase))
          && (AllInBounds(FixupsIn(copied, optional, oldBase, dirs), |copied|) ==>
                ImportsUsable(MovedOf(copied, optional, oldBase, dirs).image, dirs)))
  }

  /** Every slot holds the address of the function that its thunk names. */
  ghost predicate SlotsBound(libs: seq<Library>, system: System, final: Bytes) {
    forall i, j :: 0 <= i < |libs| && 0 <= j < |libs[i].wanted| ==>
      && SlotOf(libs, i, j) + 8 <= |final|
      && Read64(final, SlotOf(libs, i, j)) == system.find(HandleOf(libs, 0, system, i), libs[i].wanted[j]) != 0
  }

  /** The loaded image: bytes of the file outside the patched fields and the slots, fields that follow the
      base, and slots with the addresses asked for. */
  ghost predicate IsLoaded(copied: Bytes, ss: seq<SectionHeader>, data: Bytes, optional: OptionalHeader, oldBase: u64,
                           dirs: Directories, system: System, final: Bytes)
    requires AllPlaced(ss, |final|, optional.sectionAlignment) && |final| == |copied|
  {
    var xs := FixupsIn(copied, optional, oldBase, dirs);
    && DataInside(ss, data)
    && AllInBounds(xs, |copied|)
    && var libs := LibrariesOf(MovedOf(copied, optional, oldBase, dirs).image, dirs);
       && SectionsIntact(ss, data, optional.sectionAlignment, xs, libs, final)
       && FieldsFollow(copied, xs, libs, oldBase, optional.imageBase, final)
       && SlotsBound(libs, system, final)
  }

  predicate LayoutAccepted(ss: seq<SectionHeader>, optional: OptionalHeader) {
    && optional.sectionAlignment % 2 == 0
    && AlignUp(optional.sizeOfImage, optional.sectionAlignment)
      == AlignUp(LastEnd(ss, optional.sectionAlignment), optional.sectionAlignment)
  }

  ghost predicate RelocationFails(copied: Bytes, optional: OptionalHeader, oldBase: u64, dirs: Directories) {
    && AllInBounds(FixupsIn(copied, optional, oldBase, dirs), |copied|)
    && MovedOf(copied, optional, oldBase, dirs).status.Failed?
  }

  /** A library is missing, or one of its functions. */
  ghost predicate ImportsFail(copied: Bytes, optional: OptionalHeader, oldBase: u64, dirs: Directories,
                              system: System) {
    && AllInBounds(FixupsIn(copied, optional, oldBase, dirs), |copied|)
    && var libs := LibrariesOf(MovedOf(copied, optional, oldBase, dirs).image, dirs);
       !AllComplete(libs, 0, system, |libs|)
  }

  /** The references that are open: those to the libraries before the first that is not complete. */
  ghost predicate Referenced(copied: Bytes, optional: OptionalHeader, oldBase: u64, dirs: Directories,
                             system: System, handles: seq<nat>) {
    && AllInBounds(FixupsIn(copied, optional, oldBase, dirs), |copied|)
    && FirstHandles(LibrariesOf(MovedOf(copied, optional, oldBase, dirs).image, dirs), 0, system, handles)
  }

  /** The layout check, the copy, the relocation, the imports and the protections, one after the other on one
      image. If all of them succeed, every section byte outside the patched fields and the slots is the
      file's, every patched field follows the base, every slot has its address, and the calls made are those
      for the true addresses of the sections. */
  method LoadImage(image: array<byte>, sections: array<SectionHeader>, data: Bytes, optional: OptionalHeader,
                   oldBase: u64, dirs: Directories, system: System, commits: nat -> bool, protects: nat -> bool)
    returns (stage: ImageStage, handles: seq<nat>, ops: seq<PageOp>)
    requires Prepared(image[..], sections[..], data, optional, oldBase, dirs, commits)
    modifies image, sections
    ensures stage == LayoutRefused <==> !LayoutAccepted(old(sections[..]), optional)
    ensures stage != LayoutRefused ==>
              && AllPlaced(old(sections[..]), image.Length, optional.sectionAlignment)
              && var copy := CopyOf(old(image[..]), old(sections[..]), data, optional, commits);
                 && (stage == CopyFailed <==> copy.status != Copied)
                 && (stage == RelocationFailed ==> RelocationFails(copy.image, optional, oldBase, dirs))
                 && (stage == ImportsFailed ==>
                       && !RelocationFails(copy.image, optional, oldBase, dirs)
                       && ImportsFail(copy.image, optional, oldBase, dirs, system))
                 && (stage in {ImportsFailed, ProtectionFailed, InPlace} ==>
                       Referenced(copy.image, optional, oldBase, dirs, system, handles))
    ensures stage in {ProtectionFailed, InPlace} ==>
              var copied := CopyOf(old(image[..]), old(sections[..]), data, optional, commits).image;
              && !RelocationFails(copied, optional, oldBase, dirs)
              && !ImportsFail(copied, optional, oldBase, dirs, system)
              && IsLoaded(copied, old(sections[..]), data, optional, oldBase, dirs, system, image[..])
    ensures stage in {ProtectionFailed, InPlace} ==>
              ((forall s :: s in old(sections[..]) ==> PageAlignedIfFilled(s)) ==>
                    Finalized(ops, stage == InPlace) ==
                    FinalizeGroups(Groups(TrueViews(old(sections[..]), image.Length, optional.imageBase, optional),
                                          optional.sectionAlignment), optional.sectionAlignment, protects, 0))
  {
    hide CopyFrom, AlignUp, ApplyAll, ParseTable, IsLoaded, TrueViews, FinalizeGroups, Groups, Views, DisjointTargets,
         RelocationFails, ImportsFail, ImportsUsable, TableUsable, FixupsIn, MovedOf, LibrariesOf, AllComplete,
         FirstHandles;
    ghost var m, ss := image[..], sections[..];
    var layout := CheckLayout(sections[..], optional);
    if !layout.Fits? {
      return LayoutRefused, [], [];
    }
    InsideIsPlaced(ss, image.Length, optional.sectionAlignment);
    var status := CopySections(image, sections, data, optional.imageBase, optional.sectionAlignment, commits);
    if status != Copied {
      return CopyFailed, [], [];
    }
    ghost var copied := image[..];
    var ok := Relocate(image, optional, oldBase, dirs);
    FailsIs(copied, optional, oldBase, dirs, system);
    if !ok {
      return RelocationFailed, [], [];
    }
    ghost var moved := image[..];
    handles, ok := Bind(image, dirs, system);
    if !ok {
      return ImportsFailed, handles, [];
    }
    Assembled(m, ss, data, optional, oldBase, dirs, commits, system, image[..]);
    FinalisedFromTrueAddresses(m, ss, data, optional.imageBase, optional, commits);
    ghost var written;
    ops, ok, written := FinalizeSections(sections, optional, protects);
    if !ok {
      return ProtectionFailed, handles, ops;
    }
    return InPlace, handles, ops;
  }

  lemma FailsIs(copied: Bytes, optional: OptionalHeader, oldBase: u64, dirs: Directories, system: System)
    requires AllInBounds(FixupsIn(copied, optional, oldBase, dirs), |copied|)
    ensures RelocationFails(copied, optional, oldBase, dirs)
            <==> MovedOf(copied, optional, oldBase, dirs).status.Failed?
    ensures var libs := LibrariesOf(MovedOf(copied, optional, oldBase, dirs).image, dirs);
            ImportsFail(copied, optional, oldBase, dirs, system) <==> !AllComplete(libs, 0, system, |libs|)
  {
    hide MovedOf, FixupsIn, LibrariesOf, AllComplete;
  }

  lemma InsideIsPlaced(ss: seq<SectionHeader>, size: nat, sectionAlignment: u32)
    requires AllInside(ss, size, sectionAlignment)
    ensures AllPlaced(ss, size, sectionAlignment)
  {
  }

  /** The relocation, left out for an image that has not moved. */
  method Relocate(image: array<byte>, optional: OptionalHeader, oldBase: u64, dirs: Directories) returns (ok: bool)
    requires TableUsable(image[..], dirs.relocation, dirs.relocationSize, Delta(oldBase, optional.imageBase))
    modifies image
    ensures AllInBounds(FixupsIn(old(image[..]), optional, oldBase, dirs), image.Length)
    ensures var r := MovedOf(old(image[..]), optional, oldBase, dirs);
            image[..] == r.image && ok == r.status.Done?
  {
    hide ParseTable, ResolveAll, PairwiseApart;
    var delta := Delta(oldBase, optional.imageBase);
    if delta == 0 {
      return true;
    }
    if dirs.relocationSize != 0 {
      TableApplies(image[..], dirs.relocation, delta);
    }
    var _, status := PerformBaseRelocation(image, dirs.relocation, dirs.relocationSize, delta);
    return status.Done?;
  }

  /** The imports of the relocated image. */
  method Bind(image: array<byte>, dirs: Directories, system: System) returns (handles: seq<nat>, ok: bool)
    requires ImportsUsable(image[..], dirs)
    modifies image
    ensures var libs := LibrariesOf(old(image[..]), dirs);
            && Bound(image[..], handles, ok) == BindAll(old(image[..]), libs, 0, system)
            && (ok <==> AllComplete(libs, 0, system, |libs|)) && FirstHandles(libs, 0, system, handles)
  {
    hide ImportsReadable, ImportsTidy, ImportsAt, SlotsApart, Complete;
    BindsExactly(image[..], LibrariesOf(image[..], dirs), 0, system);
    handles, ok := BindImports(image, dirs.imports, dirs.importsSize, system, 0);
  }

  /** One byte, and one field, through the binding of the imports. */
  lemma ByteThroughBinding(moved: Bytes, libs: seq<Library>, system: System, s: SectionHeader, k: nat, data: Bytes,
                           sectionAlignment: u32, xs: seq<Fixup>)
    requires forall lib :: lib in libs ==> SlotsFit(lib, |moved|)
    requires s.sizeOfRawData > 0 ==> s.pointerToRawData + s.sizeOfRawData <= |data|
    requires k < CopyLength(s, sectionAlignment) && EndOfSection(s, sectionAlignment) <= |moved|
    requires ByteIntact(s, k, data, sectionAlignment, xs, [], moved)
    ensures ByteIntact(s, k, data, sectionAlignment, xs, libs, BindAll(moved, libs, 0, system).image)
  {
    hide BindAll, SectionBytes, SlotsClear, Apart, SlotsFit;
    var o := s.virtualAddress + k;
    if NothingCovers(xs, libs, o) {
      OutsideSlotsKept(moved, libs, 0, system, o, 1);
      ByteOfRange(BindAll(moved, libs, 0, system).image, moved, o);
    }
  }

  lemma FieldThroughBinding(copied: Bytes, moved: Bytes, libs: seq<Library>, system: System, x: Fixup, oldBase: u64,
                            newBase: u64)
    requires (forall lib :: lib in libs ==> SlotsFit(lib, |moved|)) && |copied| == |moved| && InBounds(x, |moved|)
    requires FieldFollows(copied, x, [], oldBase, newBase, moved)
    ensures FieldFollows(copied, x, libs, oldBase, newBase, BindAll(moved, libs, 0, system).image)
  {
    hide BindAll, HasMoved, SlotsClear, SlotsFit;
    if forall lib :: lib in libs ==> SlotsClear(lib, x.site, x.site + Width(x.kind)) {
      OutsideSlotsKept(moved, libs, 0, system, x.site, Width(x.kind));
    }
  }

  lemma AllThroughBinding(copied: Bytes, moved: Bytes, libs: seq<Library>, system: System, ss: seq<SectionHeader>,
                          data: Bytes, sectionAlignment: u32, xs: seq<Fixup>, oldBase: u64, newBase: u64)
    requires (forall lib :: lib in libs ==> SlotsFit(lib, |moved|)) && |copied| == |moved| && AllInBounds(xs, |moved|)
    requires DataInside(ss, data) && AllPlaced(ss, |moved|, sectionAlignment)
    requires SectionsIntact(ss, data, sectionAlignment, xs, [], moved)
    requires FieldsFollow(copied, xs, [], oldBase, newBase, moved)
    ensures var final := BindAll(moved, libs, 0, system).image;
            && SectionsIntact(ss, data, sectionAlignment, xs, libs, final)
            && FieldsFollow(copied, xs, libs, oldBase, newBase, final)
  {
    hide BindAll, ByteIntact, FieldFollows, SlotsFit, SectionBytes;
    var final := BindAll(moved, libs, 0, system).image;
    forall i, k | 0 <= i < |ss| && 0 <= k < CopyLength(ss[i], sectionAlignment)
      ensures EndOfSection(ss[i], sectionAlignment) <= |final|
      ensures ByteIntact(ss[i], k, data, sectionAlignment, xs, libs, final)
    {
      assert ss[i] in ss;
      ByteThroughBinding(moved, libs, system, ss[i], k, data, sectionAlignment, xs);
    }
    forall i | 0 <= i < |xs|
      ensures InBounds(xs[i], |copied|) && FieldFollows(copied, xs[i], libs, oldBase, newBase, final)
    {
      assert xs[i] in xs;
      FieldThroughBinding(copied, moved, libs, system, xs[i], oldBase, newBase);
    }
  }

  lemma AllSlotsBound(moved: Bytes, libs: seq<Library>, system: System)
    requires (forall lib :: lib in libs ==> SlotsFit(lib, |moved|)) && SlotsApart(libs)
    requires BindAll(moved, libs, 0, system).ok
    ensures SlotsBound(libs, system, BindAll(moved, libs, 0, system).image)
  {
    hide BindAll, SlotsApart, SlotsFit, Read64;
    forall i, j | 0 <= i < |libs| && 0 <= j < |libs[i].wanted|
      ensures SlotOf(libs, i, j) + 8 <= |moved|
      ensures Read64(BindAll(moved, libs, 0, system).image, SlotOf(libs, i, j))
              == system.find(HandleOf(libs, 0, system, i), libs[i].wanted[j]) != 0
    {
      EverySlotBound(moved, libs, 0, system, i, j);
    }
  }

  lemma Assembled(image: Bytes, ss: seq<SectionHeader>, data: Bytes, optional: OptionalHeader, oldBase: u64,
                  dirs: Directories, commits: nat -> bool, system: System, final: Bytes)
    requires Prepared(image, ss, data, optional, oldBase, dirs, commits)
    requires AllPlaced(ss, |image|, optional.sectionAlignment)
             && CopyOf(image, ss, data, optional, commits).status == Copied
    requires var copied := CopyOf(image, ss, data, optional, commits).image;
             && AllInBounds(FixupsIn(copied, optional, oldBase, dirs), |copied|)
             && var moved := MovedOf(copied, optional, oldBase, dirs);
                var bound := BindAll(moved.image, LibrariesOf(moved.image, dirs), 0, system);
                moved.status.Done? && bound.ok && bound.image == final
    ensures IsLoaded(CopyOf(image, ss, data, optional, commits).image, ss, data, optional, oldBase, dirs, system, final)
  {
    hide CopyFrom, ApplyAll, ParseTable, AlignUp, DisjointTargets, AllPlaced, SectionsIntact, FieldsFollow, Delta,
         WellFormed, BindAll, SlotsApart, SlotsBound, ImportsReadable, ImportsTidy, ImportsAt, ResolveAll, SlotsFit;
    var copied := CopyOf(image, ss, data, optional, commits).image;
    var xs, moved := FixupsIn(copied, optional, oldBase, dirs), MovedOf(copied, optional, oldBase, dirs).image;
    var libs := LibrariesOf(moved, dirs);
    SectionsThroughStages(image, ss, data, optional.imageBase, optional.sectionAlignment, commits, xs,
                          Delta(oldBase, optional.imageBase));
    FieldsFollowTheBase(copied, xs, oldBase, optional.imageBase);
    AllThroughBinding(copied, moved, libs, system, ss, data, optional.sectionAlignment, xs, oldBase,
                      optional.imageBase);
    LibrariesApart(moved, dirs);
    AllSlotsBound(moved, libs, system);
  }

  lemma LibrariesApart(moved: Bytes, dirs: Directories)
    requires ImportsUsable(moved, dirs)
    ensures SlotsApart(LibrariesOf(moved, dirs))
  {
    hide ImportsReadable, ImportsTidy, ImportsAt, SlotsClear;
  }
}
