/** The in-memory image: the layout check that sizes it, the copy of the sections into it, and the
    section addresses that are kept truncated to 32 bits and rebuilt later
    (Microsoft PE Format, "Section Table (Section Headers)"). */
module Layout {
  import opened Bits
  import opened Words

  const PAGE_SIZE: nat := 0x1000

  /** `misc` is a union: the section's physical address first, its virtual size at the end. */
  datatype SectionHeader = SectionHeader(misc: u32, virtualAddress: u32, sizeOfRawData: u32,
                                         pointerToRawData: u32, characteristics: u32)

  datatype OptionalHeader = OptionalHeader(imageBase: u64, sectionAlignment: u32, sizeOfImage: u32,
                                           sizeOfInitializedData: u32, sizeOfUninitializedData: u32)

  // ---------------------------------------------------------------- alignment

  /** ^(alignment - 1) in 64 bits. */
  function AlignMask(alignment: u64): u64 {
    U64 - 1 - (alignment - 1) % U64
  }

  function AlignDown(value: u64, alignment: u64): nat {
    And(value, AlignMask(alignment))
  }

  function AlignUp(value: u64, alignment: u64): nat {
    And((value + alignment - 1) % U64, AlignMask(alignment))
  }

  lemma {:induction false} ComplementDisjoint(m: nat, n: nat)
    requires m < Pow2(n)
    ensures And(m, Pow2(n) - 1 - m) == 0
  {
    if n > 0 {
      ComplementDisjoint(m / 2, n - 1);
      AndStep(m, Pow2(n) - 1 - m);
      assert (Pow2(n) - 1 - m) / 2 == Pow2(n - 1) - 1 - m / 2;
    }
  }

  /** Masking with a complement takes away what the mask itself selects. */
  lemma AndComplement(x: u64, m: u64)
    ensures And(x, U64 - 1 - m) == x - And(x, m)
  {
    hide And;
    Pow2Values();
    ComplementDisjoint(m, 64);
    AndDisjoint(x, m, U64 - 1 - m);
    AndLowMask(x, 64);
  }

  lemma AlignUpBounds(value: u64, alignment: u64)
    requires alignment > 0 && value + alignment - 1 < U64
    ensures value <= AlignUp(value, alignment) < value + alignment
  {
    hide And;
    AndComplement(value + alignment - 1, alignment - 1);
    AndBelow(value + alignment - 1, alignment - 1);
  }

  /** Rounding up loses no byte exactly when the alignment is not zero and the sum does not wrap (or there
      is nothing to lose); the alignment need not be a power of two. */
  lemma AlignUpExact(value: u64, alignment: u64)
    ensures AlignUp(value, alignment) >= value <==> value == 0 || (alignment > 0 && value + alignment - 1 < U64)
    ensures alignment == 0 ==> AlignUp(value, alignment) == 0
  {
    hide And;
    if alignment == 0 {
      AndBelow((value + alignment - 1) % U64, 0);
      AndZero((value + alignment - 1) % U64);
    } else if value + alignment - 1 < U64 {
      AlignUpBounds(value, alignment);
    } else {
      AndBelow(value + alignment - 1 - U64, AlignMask(alignment));
    }
  }

  /** Whole alignment units that hold so many bytes. */
  function Units(size: nat, alignment: nat): nat
    requires alignment > 0
  {
    (size + alignment - 1) / alignment
  }

  /** For a power of two, rounding up is to the multiple at or above; what would lie behind the end of the
      address space becomes zero. */
  lemma AlignUpIs(value: u64, n: nat)
    requires n < 64
    ensures Pow2(n) < U64
    ensures value + Pow2(n) - 1 < U64 ==>
              && AlignUp(value, Pow2(n)) == Pow2(n) * Units(value, Pow2(n))
              && AlignUp(value, Pow2(n)) % Pow2(n) == 0
              && value <= AlignUp(value, Pow2(n)) < value + Pow2(n)
    ensures value + Pow2(n) - 1 >= U64 ==> AlignUp(value, Pow2(n)) == 0
  {
    hide AlignUp, AlignDown, Pow2, Units;
    Pow2Values();
    Pow2Grows(n, 64);
    if value + Pow2(n) - 1 < U64 {
      UpWithRoom(value, n, Pow2(n));
    } else {
      UpWithoutRoom(value, n, Pow2(n));
    }
  }

  lemma UpWithRoom(value: u64, n: nat, p: u64)
    requires n < 64 && p == Pow2(n) && value + p - 1 < U64
    ensures AlignUp(value, p) == p * Units(value, p)
    ensures AlignUp(value, p) % p == 0 && value <= AlignUp(value, p) < value + p
  {
    hide AlignUp, AlignDown, Pow2, Units;
    UpThroughDown(value, p);
    AlignDownIs(value + p - 1, n);
    RoundedUp(value, p);
  }

  lemma UpWithoutRoom(value: u64, n: nat, p: u64)
    requires n < 64 && p == Pow2(n) && value + p - 1 >= U64
    ensures AlignUp(value, p) == 0
  {
    hide AlignUp, AlignDown, Pow2;
    UpThroughDown(value, p);
    var sum := value + p - 1 - U64;
    AlignDownIs(sum, n);
    QuotientAndRemainder(sum, p, 0, sum);
  }

  lemma UpThroughDown(value: u64, p: u64)
    requires p > 0
    ensures AlignUp(value, p) == AlignDown((value + p - 1) % U64, p)
  {
    hide And;
  }

  lemma RoundedUp(value: nat, p: nat)
    requires p > 0
    ensures var sum := value + p - 1;
            && sum - sum % p == p * Units(value, p)
            && (sum - sum % p) % p == 0
            && value <= sum - sum % p < value + p
  {
    var q, r := DivMod(value + p - 1, p);
    QuotientAndRemainder(value + p - 1, p, q, r);
    QuotientAndRemainder(value + p - 1 - r, p, q, 0);
  }

  /** For a power of two, rounding down is to the multiple at or below. */
  lemma AlignDownIs(value: u64, n: nat)
    requires n < 64
    ensures Pow2(n) < U64
    ensures AlignDown(value, Pow2(n)) == value - value % Pow2(n)
    ensures AlignDown(value, Pow2(n)) % Pow2(n) == 0
    ensures AlignDown(value, Pow2(n)) <= value < AlignDown(value, Pow2(n)) + Pow2(n)
  {
    Pow2Values();
    Pow2Grows(n, 64);
    AlignDownMask(value, n, Pow2(n));
    RoundedDown(value, Pow2(n));
  }

  lemma AlignDownMask(value: u64, n: nat, p: nat)
    requires p == Pow2(n) < U64
    ensures AlignDown(value, p) == value - value % p
  {
    hide And, Pow2;
    AndComplement(value, p - 1);
    AndLowMask(value, n);
  }

  lemma RoundedDown(x: nat, p: nat)
    requires p > 0
    ensures (x - x % p) % p == 0
    ensures x - x % p <= x < x - x % p + p
  {
    QuotientAndRemainder(x - x % p, p, x / p, 0);
  }

  lemma {:induction false} Pow2Grows(m: nat, n: nat)
    requires m < n
    ensures 2 * Pow2(m) <= Pow2(n)
    decreases n
  {
    if m < n - 1 {
      Pow2Grows(m, n - 1);
    }
  }

  // ---------------------------------------------------------------- the layout check

  /** Bytes the copy will write for a section: a section without data gets one alignment unit of zeros. */
  function CopyLength(s: SectionHeader, sectionAlignment: u32): u32 {
    if s.sizeOfRawData == 0 then sectionAlignment else s.sizeOfRawData
  }

  function EndOfSection(s: SectionHeader, sectionAlignment: u32): nat {
    s.virtualAddress + CopyLength(s, sectionAlignment)
  }

  /** Where the last of the sections ends. */
  function LastEnd(sections: seq<SectionHeader>, sectionAlignment: u32): (last: u64)
    ensures last < 2 * U32
    ensures forall s :: s in sections ==> EndOfSection(s, sectionAlignment) <= last
    ensures last == 0 || exists s :: s in sections && EndOfSection(s, sectionAlignment) == last
  {
    if sections == [] then 0
    else
      var n := |sections| - 1;
      var before, here := LastEnd(sections[..n], sectionAlignment), EndOfSection(sections[n], sectionAlignment);
      assert sections == sections[..n] + [sections[n]];
      assert sections[n] in sections;
      if here > before then here else before
  }

  /** The largest end of a section: of its data, or of one alignment unit if it has none. */
  ghost predicate IsLastEnd(last: nat, sections: seq<SectionHeader>, alignment: u32) {
    && (forall s :: s in sections && s.sizeOfRawData > 0 ==> s.virtualAddress + s.sizeOfRawData <= last)
    && (forall s :: s in sections && s.sizeOfRawData == 0 ==> s.virtualAddress + alignment <= last)
    && (last > 0 ==>
          exists s :: s in sections &&
                      last == s.virtualAddress + if s.sizeOfRawData == 0 then alignment else s.sizeOfRawData)
  }

  lemma LastEndIs(sections: seq<SectionHeader>, alignment: u32)
    ensures IsLastEnd(LastEnd(sections, alignment), sections, alignment)
  {
    var last := LastEnd(sections, alignment);
    forall s | s in sections
      ensures s.virtualAddress + (if s.sizeOfRawData == 0 then alignment else s.sizeOfRawData) <= last
    {
      assert EndOfSection(s, alignment) <= last;
    }
  }

  datatype LayoutStatus = Fits(alignedImageSize: nat) | UnalignedSection | NotPageAligned

  ghost predicate AllInside(sections: seq<SectionHeader>, size: nat, sectionAlignment: u32) {
    forall s :: s in sections ==> EndOfSection(s, sectionAlignment) <= size
  }

  /** Two sizes round up to the same number exactly if they take the same number of alignment units. */
  lemma UnitsAgree(a: u64, b: u64, alignment: u32)
    requires a < 2 * U32 && b < 2 * U32
    ensures forall n :: 0 < n < 32 && alignment == Pow2(n) ==>
              && alignment % 2 == 0
              && AlignUp(a, alignment) == Pow2(n) * Units(a, Pow2(n))
              && (AlignUp(a, alignment) == AlignUp(b, alignment) <==> Units(a, Pow2(n)) == Units(b, Pow2(n)))
  {
    hide AlignUp, Pow2, Units;
    forall n | 0 < n < 32 && alignment == Pow2(n)
      ensures alignment % 2 == 0 && AlignUp(a, alignment) == Pow2(n) * Units(a, Pow2(n))
      ensures AlignUp(a, alignment) == AlignUp(b, alignment) <==> Units(a, Pow2(n)) == Units(b, Pow2(n))
    {
      AlignUpIs(a, n);
      AlignUpIs(b, n);
      Doubled(n);
      SameMultiple(Pow2(n), Units(a, Pow2(n)), Units(b, Pow2(n)));
    }
  }

  lemma Doubled(n: nat)
    requires n > 0
    ensures Pow2(n) % 2 == 0
  {
  }

  lemma SameMultiple(p: nat, x: nat, y: nat)
    requires p > 0
    ensures p * x == p * y <==> x == y
  {
    QuotientAndRemainder(p * x, p, x, 0);
    QuotientAndRemainder(p * y, p, y, 0);
  }

  /** The check before any memory is reserved. An image that passes holds every byte the copy writes,
      unless its alignment is zero: then every image passes, with no room at all. */
  method CheckLayout(sections: seq<SectionHeader>, optional: OptionalHeader) returns (r: LayoutStatus)
    ensures var alignment := optional.sectionAlignment;
            && (r.UnalignedSection? <==> alignment % 2 == 1)
            && (r.Fits? <==>
                  && alignment % 2 == 0
                  && AlignUp(optional.sizeOfImage, alignment) == AlignUp(LastEnd(sections, alignment), alignment))
            && (r.Fits? ==> r.alignedImageSize == AlignUp(optional.sizeOfImage, alignment))
            && (r.Fits? ==> (AllInside(sections, r.alignedImageSize, alignment)
                             <==> alignment > 0 || LastEnd(sections, alignment) == 0))
            && (alignment == 0 ==> r == Fits(0))
    ensures forall n :: 0 < n < 32 && optional.sectionAlignment == Pow2(n) ==>
              var p, last := Pow2(n), LastEnd(sections, optional.sectionAlignment);
              && (r.Fits? <==> Units(optional.sizeOfImage, p) == Units(last, p))
              && (r.Fits? ==> r.alignedImageSize == p * Units(optional.sizeOfImage, p))
  {
    hide AlignUp, Pow2, Units;
    UnitsAgree(optional.sizeOfImage, LastEnd(sections, optional.sectionAlignment), optional.sectionAlignment);
    if optional.sectionAlignment % 2 == 1 {
      return UnalignedSection;
    }
    var lastSectionEnd := 0;
    for i := 0 to |sections|
      invariant lastSectionEnd == LastEnd(sections[..i], optional.sectionAlignment)
    {
      var endOfSection := EndOfSection(sections[i], optional.sectionAlignment);
      assert sections[..i + 1][..i] == sections[..i];
      if endOfSection > lastSectionEnd {
        lastSectionEnd := endOfSection;
      }
    }
    assert sections[..|sections|] == sections;
    var alignedImageSize := AlignUp(optional.sizeOfImage, optional.sectionAlignment);
    AlignUpExact(lastSectionEnd, optional.sectionAlignment);
    AlignUpExact(optional.sizeOfImage, optional.sectionAlignment);
    if alignedImageSize != AlignUp(lastSectionEnd, optional.sectionAlignment) {
      return NotPageAligned;
    }
    return Fits(alignedImageSize);
  }

  // ---------------------------------------------------------------- copying the sections

  /** LeavesFile stands for a copy that reads behind the end of the file. */
  datatype CopyStatus = Copied | AllocatingSection | IncompleteSection | AllocatingBlock | LeavesFile

  datatype CopyResult = CopyResult(image: Bytes, headers: seq<SectionHeader>, status: CopyStatus)

  /** What the section has to contain once it is loaded. */
  function SectionBytes(s: SectionHeader, data: Bytes, sectionAlignment: u32): (b: Bytes)
    requires s.sizeOfRawData > 0 ==> s.pointerToRawData + s.sizeOfRawData <= |data|
    ensures |b| == CopyLength(s, sectionAlignment)
  {
    if s.sizeOfRawData == 0 then Zeros(sectionAlignment)
    else data[s.pointerToRawData..s.pointerToRawData + s.sizeOfRawData]
  }

  /** The check against the file size adds two 32-bit numbers in 32 bits. */
  predicate RawDataAccepted(s: SectionHeader, size: nat) {
    (s.pointerToRawData + s.sizeOfRawData) % U32 <= size
  }

  /** For a file below 4 GiB the check lets through only ranges inside the file, iff that sum does not wrap. */
  lemma RawDataCheckExact(s: SectionHeader, size: u32)
    ensures RawDataAccepted(s, size) ==>
              (s.pointerToRawData + s.sizeOfRawData <= size <==> s.pointerToRawData + s.sizeOfRawData < 0x1_0000_0000)
    ensures s.pointerToRawData + s.sizeOfRawData <= size ==> RawDataAccepted(s, size)
    ensures !RawDataAccepted(s, size) ==>
              size < s.pointerToRawData + s.sizeOfRawData < 0x1_0000_0000
              || s.pointerToRawData + s.sizeOfRawData >= 0x1_0000_0000 + size + 1
  {
  }

  /** A range that wraps passes the check although it lies far outside the file. */
  lemma WrappedRangeAccepted() returns (s: SectionHeader, size: u32)
    ensures RawDataAccepted(s, size) && s.sizeOfRawData > 0 && s.pointerToRawData >= size
  {
    s, size := SectionHeader(0, 0x1000, 0x2000, 0xffff_f000, 0), 0x1000;
  }

  ghost predicate Placed(s: SectionHeader, size: nat, sectionAlignment: u32) {
    EndOfSection(s, sectionAlignment) <= size
  }

  /** The address that is stored in the header: exact for a section without data; for a section with
      data what the commit call answers, which is rounded down to a page. Only 32 bits are kept. */
  function StoredAddress(s: SectionHeader, codeBase: u64): u32
    requires codeBase + s.virtualAddress < U64
  {
    (if s.sizeOfRawData == 0 then codeBase + s.virtualAddress
     else AlignDown(codeBase + s.virtualAddress, PAGE_SIZE)) % U32
  }

  /** The effect of copying one section, given whether the commit call for it succeeds. */
  function CopyOne(image: Bytes, s: SectionHeader, data: Bytes, codeBase: u64, sectionAlignment: u32, committed: bool)
    : (r: (Bytes, SectionHeader, CopyStatus))
    requires Placed(s, |image|, sectionAlignment) && codeBase + |image| < U64
    ensures |r.0| == |image|
  {
    if s.sizeOfRawData == 0 then
      if sectionAlignment == 0 then (image, s, Copied)
      else if !committed then (image, s, AllocatingSection)
      else (Splice(image, s.virtualAddress, Zeros(sectionAlignment)), s.(misc := StoredAddress(s, codeBase)), Copied)
    else if !RawDataAccepted(s, |data|) then (image, s, IncompleteSection)
    else if !committed then (image, s, AllocatingBlock)
    else if s.pointerToRawData + s.sizeOfRawData > |data| then (image, s, LeavesFile)
    else
      (Splice(image, s.virtualAddress, SectionBytes(s, data, sectionAlignment)), s.(misc := StoredAddress(s, codeBase)),
       Copied)
  }

  ghost predicate AllPlaced(ss: seq<SectionHeader>, size: nat, sectionAlignment: u32) {
    forall s :: s in ss ==> Placed(s, size, sectionAlignment)
  }

  /** Sections from the k-th on, in order, up to the first failure. */
  ghost function CopyFrom(image: Bytes, ss: seq<SectionHeader>, k: nat, data: Bytes, codeBase: u64,
                          sectionAlignment: u32, commits: nat -> bool): (r: CopyResult)
    requires k <= |ss| && AllPlaced(ss, |image|, sectionAlignment) && codeBase + |image| < U64
    ensures |r.image| == |image| && |r.headers| == |ss|
    decreases |ss| - k
  {
    if k == |ss| then CopyResult(image, ss, Copied)
    else
      assert ss[k] in ss;
      var (image', s', status) := CopyOne(image, ss[k], data, codeBase, sectionAlignment, commits(k));
      if status != Copied then CopyResult(image', ss[k := s'], status)
      else
        StillPlaced(ss, k, s', |image|, sectionAlignment);
        CopyFrom(image', ss[k := s'], k + 1, data, codeBase, sectionAlignment, commits)
  }

  lemma StillPlaced(ss: seq<SectionHeader>, k: nat, s': SectionHeader, size: nat, sectionAlignment: u32)
    requires k < |ss| && AllPlaced(ss, size, sectionAlignment) && s' == ss[k].(misc := s'.misc)
    ensures AllPlaced(ss[k := s'], size, sectionAlignment)
  {
    forall s | s in ss[k := s']
      ensures Placed(s, size, sectionAlignment)
    {
      if s !in ss {
        assert s == s' && ss[k] in ss && Placed(ss[k], size, sectionAlignment);
      }
    }
  }

  /** Copies in place, one section per turn. */
  method CopySections(image: array<byte>, sections: array<SectionHeader>, data: Bytes, codeBase: u64,
                      sectionAlignment: u32, commits: nat -> bool) returns (status: CopyStatus)
    requires AllPlaced(sections[..], image.Length, sectionAlignment) && codeBase + image.Length < U64
    modifies image, sections
    ensures var r := CopyFrom(old(image[..]), old(sections[..]), 0, data, codeBase, sectionAlignment, commits);
            image[..] == r.image && sections[..] == r.headers && status == r.status
  {
    hide CopyOne, StoredAddress, AlignDown, Splice, Placed;
    ghost var goal := CopyFrom(image[..], sections[..], 0, data, codeBase, sectionAlignment, commits);
    var i := 0;
    while i < sections.Length
      invariant 0 <= i <= sections.Length
      invariant AllPlaced(sections[..], image.Length, sectionAlignment)
      invariant goal == CopyFrom(image[..], sections[..], i, data, codeBase, sectionAlignment, commits)
    {
      var s := sections[i];
      assert s in sections[..];
      ghost var m, ss := image[..], sections[..];
      ghost var one := CopyOne(m, s, data, codeBase, sectionAlignment, commits(i));
      var s';
      s', status := CopySection(image, s, data, codeBase, sectionAlignment, commits(i));
      StillPlaced(ss, i, s', image.Length, sectionAlignment);
      sections[i] := s';
      assert sections[..] == ss[i := s'];
      if status != Copied {
        return;
      }
      i := i + 1;
    }
    return Copied;
  }

  method CopySection(image: array<byte>, s: SectionHeader, data: Bytes, codeBase: u64, sectionAlignment: u32,
                     committed: bool)
    returns (s': SectionHeader, status: CopyStatus)
    requires Placed(s, image.Length, sectionAlignment) && codeBase + image.Length < U64
    modifies image
    ensures (image[..], s', status) == CopyOne(old(image[..]), s, data, codeBase, sectionAlignment, committed)
    ensures s' == s.(misc := s'.misc)
  {
    if s.sizeOfRawData == 0 {
      if sectionAlignment == 0 {
        return s, Copied;
      }
      if !committed {
        return s, AllocatingSection;
      }
      Poke(image, s.virtualAddress, Zeros(sectionAlignment));
      return s.(misc := StoredAddress(s, codeBase)), Copied;
    }
    if !RawDataAccepted(s, |data|) {
      return s, IncompleteSection;
    }
    if !committed {
      return s, AllocatingBlock;
    }
    if s.pointerToRawData + s.sizeOfRawData > |data| {
      return s, LeavesFile;
    }
    Poke(image, s.virtualAddress, SectionBytes(s, data, sectionAlignment));
    return s.(misc := StoredAddress(s, codeBase)), Copied;
  }

  // ---------------------------------------------------------------- what the copy achieves

  predicate ApartTargets(s: SectionHeader, lo: nat, hi: nat, sectionAlignment: u32) {
    CopyLength(s, sectionAlignment) == 0 || EndOfSection(s, sectionAlignment) <= lo || hi <= s.virtualAddress
  }

  ghost predicate DisjointTargets(ss: seq<SectionHeader>, sectionAlignment: u32) {
    forall i, j :: 0 <= i < j < |ss| ==>
      CopyLength(ss[j], sectionAlignment) == 0
      || ApartTargets(ss[i], ss[j].virtualAddress, EndOfSection(ss[j], sectionAlignment), sectionAlignment)
  }

  /** How the copy of one section ends. */
  function StatusOf(s: SectionHeader, size: nat, sectionAlignment: u32, committed: bool): CopyStatus {
    if s.sizeOfRawData == 0 then
      if sectionAlignment == 0 || committed then Copied else AllocatingSection
    else if !RawDataAccepted(s, size) then IncompleteSection
    else if !committed then AllocatingBlock
    else if s.pointerToRawData + s.sizeOfRawData > size then LeavesFile
    else Copied
  }

  /** Section j is the first that is not copied, and ends like this. */
  ghost predicate FirstFailure(ss: seq<SectionHeader>, k: nat, j: nat, size: nat, sectionAlignment: u32,
                               commits: nat -> bool, status: CopyStatus) {
    && k <= j < |ss|
    && (forall i :: k <= i < j ==> StatusOf(ss[i], size, sectionAlignment, commits(i)) == Copied)
    && StatusOf(ss[j], size, sectionAlignment, commits(j)) == status
  }

  /** The copy ends the way its first failing section does. */
  lemma {:induction false} StatusIsFirstFailure(image: Bytes, ss: seq<SectionHeader>, k: nat, data: Bytes,
                                                codeBase: u64,
                                                sectionAlignment: u32, commits: nat -> bool, status: CopyStatus)
    requires k <= |ss| && AllPlaced(ss, |image|, sectionAlignment) && codeBase + |image| < U64 && status != Copied
    ensures CopyFrom(image, ss, k, data, codeBase, sectionAlignment, commits).status == status
            <==> exists j: nat :: FirstFailure(ss, k, j, |data|, sectionAlignment, commits, status)
    decreases |ss| - k
  {
    hide CopyOne, StatusOf;
    if k < |ss| {
      assert ss[k] in ss;
      var (image', s', here) := CopyOne(image, ss[k], data, codeBase, sectionAlignment, commits(k));
      CopyOneHeader(image, ss[k], data, codeBase, sectionAlignment, commits(k));
      CopyOneStatus(image, ss[k], data, codeBase, sectionAlignment, commits(k));
      if here == Copied {
        var ss' := ss[k := s'];
        StillPlaced(ss, k, s', |image|, sectionAlignment);
        StatusIsFirstFailure(image', ss', k + 1, data, codeBase, sectionAlignment, commits, status);
        FailureBehind(ss, k, k + 1, ss', |data|, sectionAlignment, commits, status);
      } else if here == status {
        assert FirstFailure(ss, k, k, |data|, sectionAlignment, commits, status);
      } else {
        assert forall j: nat :: FirstFailure(ss, k, j, |data|, sectionAlignment, commits, status) ==> j == k;
      }
    }
  }

  lemma CopyOneStatus(image: Bytes, s: SectionHeader, data: Bytes, codeBase: u64, sectionAlignment: u32,
                      committed: bool)
    requires Placed(s, |image|, sectionAlignment) && codeBase + |image| < U64
    ensures CopyOne(image, s, data, codeBase, sectionAlignment, committed).2
            == StatusOf(s, |data|, sectionAlignment, committed)
  {
    hide StoredAddress;
  }

  lemma FailureBehind(ss: seq<SectionHeader>, k: nat, next: nat, ss': seq<SectionHeader>, size: nat,
                      sectionAlignment: u32, commits: nat -> bool, status: CopyStatus)
    requires k < |ss| == |ss'| && next == k + 1 && status != Copied
             && StatusOf(ss[k], size, sectionAlignment, commits(k)) == Copied
    requires forall i :: k < i < |ss| ==> ss'[i] == ss[i]
    ensures (exists j: nat :: FirstFailure(ss', next, j, size, sectionAlignment, commits, status))
            <==> exists j: nat :: FirstFailure(ss, k, j, size, sectionAlignment, commits, status)
  {
    hide StatusOf;
    if j: nat :| FirstFailure(ss', next, j, size, sectionAlignment, commits, status) {
      assert FirstFailure(ss, k, j, size, sectionAlignment, commits, status);
    }
    if j: nat :| FirstFailure(ss, k, j, size, sectionAlignment, commits, status) {
      assert FirstFailure(ss', next, j, size, sectionAlignment, commits, status);
    }
  }

  /** In particular the copy reads outside the file exactly if it gets to a committed section whose range is
      accepted and leaves the file; below 4 GiB that takes a sum that has wrapped. */
  lemma LeavesFileExactly(image: Bytes, ss: seq<SectionHeader>, data: Bytes, codeBase: u64, sectionAlignment: u32,
                          commits: nat -> bool)
    requires AllPlaced(ss, |image|, sectionAlignment) && codeBase + |image| < U64
    ensures CopyFrom(image, ss, 0, data, codeBase, sectionAlignment, commits).status == LeavesFile
            <==> exists j: nat :: FirstFailure(ss, 0, j, |data|, sectionAlignment, commits, LeavesFile)
    ensures forall j: nat :: FirstFailure(ss, 0, j, |data|, sectionAlignment, commits, LeavesFile) ==>
                          commits(j) && (|data| < U32 ==> ss[j].pointerToRawData + ss[j].sizeOfRawData >= U32)
  {
    StatusIsFirstFailure(image, ss, 0, data, codeBase, sectionAlignment, commits, LeavesFile);
  }

  lemma CopyOneFrame(image: Bytes, s: SectionHeader, data: Bytes, codeBase: u64, sectionAlignment: u32, committed: bool,
                     o: nat, n: nat)
    requires Placed(s, |image|, sectionAlignment) && codeBase + |image| < U64
    requires o + n <= |image| && ApartTargets(s, o, o + n, sectionAlignment)
    ensures CopyOne(image, s, data, codeBase, sectionAlignment, committed).0[o..o + n] == image[o..o + n]
  {
    hide StoredAddress;
    var (image', s', status) := CopyOne(image, s, data, codeBase, sectionAlignment, committed);
    if image' != image {
      var b := if s.sizeOfRawData == 0 then Zeros(sectionAlignment) else SectionBytes(s, data, sectionAlignment);
      FieldAfterSplice(image, s.virtualAddress, b, o, n);
    }
  }

  /** Bytes outside every remaining target range keep their value, whether or not the copy succeeds. */
  lemma {:induction false} OtherBytesKept(image: Bytes, ss: seq<SectionHeader>, k: nat, data: Bytes, codeBase: u64,
                                          sectionAlignment: u32, commits: nat -> bool, o: nat, n: nat)
    requires k <= |ss| && AllPlaced(ss, |image|, sectionAlignment) && codeBase + |image| < U64
    requires o + n <= |image| && forall i :: k <= i < |ss| ==> ApartTargets(ss[i], o, o + n, sectionAlignment)
    ensures CopyFrom(image, ss, k, data, codeBase, sectionAlignment, commits).image[o..o + n] == image[o..o + n]
    decreases |ss| - k
  {
    hide CopyOne, ApartTargets, Placed;
    if k < |ss| {
      assert ss[k] in ss;
      var (image', s', status) := CopyOne(image, ss[k], data, codeBase, sectionAlignment, commits(k));
      CopyOneFrame(image, ss[k], data, codeBase, sectionAlignment, commits(k), o, n);
      CopyOneHeader(image, ss[k], data, codeBase, sectionAlignment, commits(k));
      if status == Copied {
        StillPlaced(ss, k, s', |image|, sectionAlignment);
        OtherBytesKept(image', ss[k := s'], k + 1, data, codeBase, sectionAlignment, commits, o, n);
      }
    }
  }

  /** What one successful copy leaves behind. */
  lemma CopyOneHeader(image: Bytes, s: SectionHeader, data: Bytes, codeBase: u64, sectionAlignment: u32,
                      committed: bool)
    requires Placed(s, |image|, sectionAlignment) && codeBase + |image| < U64
    ensures var (image', s', status) := CopyOne(image, s, data, codeBase, sectionAlignment, committed);
            && s' == s.(misc := s'.misc)
            && (status == Copied ==>
                  && (s.sizeOfRawData > 0 ==> s.pointerToRawData + s.sizeOfRawData <= |data|)
                  && image'[s.virtualAddress..EndOfSection(s, sectionAlignment)]
                    == SectionBytes(s, data, sectionAlignment)
                  && (CopyLength(s, sectionAlignment) > 0 ==> s'.misc == StoredAddress(s, codeBase)))
  {
    hide StoredAddress;
  }

  /** Byte k of a section is byte k of its stretch of the file; a section without data is zero for one
      alignment unit. */
  lemma SectionByte(s: SectionHeader, data: Bytes, sectionAlignment: u32, k: nat)
    requires s.sizeOfRawData > 0 ==> s.pointerToRawData + s.sizeOfRawData <= |data|
    ensures k < |SectionBytes(s, data, sectionAlignment)| <==>
            k < if s.sizeOfRawData > 0 then s.sizeOfRawData else sectionAlignment
    ensures k < |SectionBytes(s, data, sectionAlignment)| ==>
              SectionBytes(s, data, sectionAlignment)[k] ==
              if s.sizeOfRawData > 0 then data[s.pointerToRawData + k] else 0
  {
  }

  /** After a successful copy into disjoint targets every section's bytes are in place, and its header
      holds the truncated address of that place. */
  lemma {:induction false} SectionsInPlace(image: Bytes, ss: seq<SectionHeader>, k: nat, data: Bytes, codeBase: u64,
                                           sectionAlignment: u32, commits: nat -> bool, i: nat)
    requires k <= i < |ss| && AllPlaced(ss, |image|, sectionAlignment) && codeBase + |image| < U64
    requires DisjointTargets(ss, sectionAlignment)
    requires CopyFrom(image, ss, k, data, codeBase, sectionAlignment, commits).status == Copied
    ensures Placed(ss[i], |image|, sectionAlignment)
    ensures ss[i].sizeOfRawData > 0 ==> ss[i].pointerToRawData + ss[i].sizeOfRawData <= |data|
    ensures var r := CopyFrom(image, ss, k, data, codeBase, sectionAlignment, commits);
            && r.image[ss[i].virtualAddress..EndOfSection(ss[i], sectionAlignment)]
              == SectionBytes(ss[i], data, sectionAlignment)
            && (CopyLength(ss[i], sectionAlignment) > 0
                ==> r.headers[i] == ss[i].(misc := StoredAddress(ss[i], codeBase)))
    decreases |ss| - k
  {
    hide CopyOne, StoredAddress, SectionBytes, ApartTargets, DisjointTargets;
    assert ss[k] in ss && ss[i] in ss;
    var (image', s', status) := CopyOne(image, ss[k], data, codeBase, sectionAlignment, commits(k));
    var ss' := ss[k := s'];
    CopyOneHeader(image, ss[k], data, codeBase, sectionAlignment, commits(k));
    StillPlaced(ss, k, s', |image|, sectionAlignment);
    StillDisjoint(ss, k, s', sectionAlignment);
    if k < i {
      SectionsInPlace(image', ss', k + 1, data, codeBase, sectionAlignment, commits, i);
    } else {
      HeadersBefore(image', ss', k + 1, data, codeBase, sectionAlignment, commits, k);
      if CopyLength(ss[k], sectionAlignment) > 0 {
        LaterTargetsApart(ss, k, ss', sectionAlignment);
        OtherBytesKept(image', ss', k + 1, data, codeBase, sectionAlignment, commits,
                       ss[k].virtualAddress, CopyLength(ss[k], sectionAlignment));
      }
    }
  }

  lemma StillDisjoint(ss: seq<SectionHeader>, k: nat, s': SectionHeader, sectionAlignment: u32)
    requires k < |ss| && DisjointTargets(ss, sectionAlignment) && s' == ss[k].(misc := s'.misc)
    ensures DisjointTargets(ss[k := s'], sectionAlignment)
  {
    var ss' := ss[k := s'];
    forall i, j | 0 <= i < j < |ss'| && CopyLength(ss'[j], sectionAlignment) > 0
      ensures ApartTargets(ss'[i], ss'[j].virtualAddress, EndOfSection(ss'[j], sectionAlignment), sectionAlignment)
    {
      assert ApartTargets(ss[i], ss[j].virtualAddress, EndOfSection(ss[j], sectionAlignment), sectionAlignment);
    }
  }

  lemma LaterTargetsApart(ss: seq<SectionHeader>, k: nat, ss': seq<SectionHeader>, sectionAlignment: u32)
    requires k < |ss| && DisjointTargets(ss, sectionAlignment) && CopyLength(ss[k], sectionAlignment) > 0
    requires |ss'| == |ss| && forall j :: k < j < |ss| ==> ss'[j] == ss[j]
    ensures forall j :: k + 1 <= j < |ss'| ==>
              ApartTargets(ss'[j], ss[k].virtualAddress, EndOfSection(ss[k], sectionAlignment), sectionAlignment)
  {
    forall j | k + 1 <= j < |ss'|
      ensures ApartTargets(ss'[j], ss[k].virtualAddress, EndOfSection(ss[k], sectionAlignment), sectionAlignment)
    {
      assert CopyLength(ss[j], sectionAlignment) == 0
          || ApartTargets(ss[k], ss[j].virtualAddress, EndOfSection(ss[j], sectionAlignment), sectionAlignment);
    }
  }

  /** Headers already dealt with are not touched again. */
  lemma {:induction false} HeadersBefore(image: Bytes, ss: seq<SectionHeader>, k: nat, data: Bytes, codeBase: u64,
                                         sectionAlignment: u32, commits: nat -> bool, i: nat)
    requires i < k <= |ss| && AllPlaced(ss, |image|, sectionAlignment) && codeBase + |image| < U64
    ensures CopyFrom(image, ss, k, data, codeBase, sectionAlignment, commits).headers[i] == ss[i]
    decreases |ss| - k
  {
    hide CopyOne;
    if k < |ss| {
      assert ss[k] in ss;
      var (image', s', status) := CopyOne(image, ss[k], data, codeBase, sectionAlignment, commits(k));
      CopyOneHeader(image, ss[k], data, codeBase, sectionAlignment, commits(k));
      if status == Copied {
        StillPlaced(ss, k, s', |image|, sectionAlignment);
        HeadersBefore(image', ss[k := s'], k + 1, data, codeBase, sectionAlignment, commits, i);
      }
    }
  }

  // ---------------------------------------------------------------- truncated addresses

  /** imageOffset: the high half of the image base. */
  function ImageOffset(imageBase: u64): nat {
    And(imageBase, 0xffff_ffff_0000_0000)
  }

  /** How finalizeSections expands a stored address again. */
  function Rebuilt(misc: u32, imageBase: u64): nat {
    Or(misc, ImageOffset(imageBase))
  }

  lemma RebuiltIs(misc: u32, imageBase: u64)
    ensures Rebuilt(misc, imageBase) == misc + (imageBase - imageBase % U32)
  {
    hide And, Or;
    Pow2Values();
    AndHighMask(imageBase, 32, 64);
    var hi := imageBase / U32;
    assert imageBase - imageBase % U32 == hi * U32;
    OrDisjoint(misc, hi, 32);
  }

  /** A truncated address is rebuilt exactly iff it lies in the same 4 GiB block as the image base. */
  lemma RebuiltExactly(address: u64, imageBase: u64)
    ensures Rebuilt(address % U32, imageBase) == address <==> address / U32 == imageBase / U32
  {
    RebuiltIs(address % U32, imageBase);
  }

  lemma PageBelow(base: nat, address: nat)
    requires base <= address && base % PAGE_SIZE == 0
    ensures base <= address - address % PAGE_SIZE
  {
  }

  lemma PageAlignedSum(base: nat, offset: nat)
    requires base % PAGE_SIZE == 0
    ensures (base + offset) % PAGE_SIZE == offset % PAGE_SIZE
  {
  }

  lemma SameBlock(lo: nat, hi: nat, x: nat)
    requires lo <= x <= hi && lo / U32 == hi / U32
    ensures x / U32 == lo / U32
  {
  }

  /** Once the base no longer straddles a 4 GiB boundary, every section the copy has placed gets back its
      own address, provided it is page aligned or has no data; otherwise it gets the page below. */
  lemma SectionAddressRebuilt(s: SectionHeader, codeBase: u64, size: nat)
    requires codeBase + size < U64 && codeBase / U32 == (codeBase + size) / U32
    requires s.virtualAddress <= size && codeBase % PAGE_SIZE == 0
    ensures var address := codeBase + s.virtualAddress;
            && Rebuilt(StoredAddress(s, codeBase), codeBase)
              == (if s.sizeOfRawData == 0 then address else address - address % PAGE_SIZE)
            && (Rebuilt(StoredAddress(s, codeBase), codeBase) == address
                <==> s.sizeOfRawData == 0 || s.virtualAddress % PAGE_SIZE == 0)
  {
    hide Rebuilt, AlignDown, Pow2;
    var address := codeBase + s.virtualAddress;
    Pow2Values();
    AlignDownIs(address, 12);
    var stored := if s.sizeOfRawData == 0 then address else address - address % PAGE_SIZE;
    PageBelow(codeBase, address);
    SameBlock(codeBase, codeBase + size, stored);
    PageAlignedSum(codeBase, s.virtualAddress);
    RebuiltExactly(stored, codeBase);
  }
}
