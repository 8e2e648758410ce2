/** From the section headers to the calls of the finalisation: which bytes of the address space are
    protected, and how, said in terms of the header fields alone. */
module SectionRights {
  import opened Bits
  import opened Layout
  import opened PageGroups
  import opened PageGroupsMeaning
  import opened PageSafety
  import opened LoadedImage

  /** Whether the flags have the one with this value, a power of two. */
  predicate FlagSet(flags: u32, value: nat)
    requires value > 0
  {
    flags / value % 2 == 1
  }

  lemma FlagSetIs(flags: u32, bit: nat)
    requires bit < 32
    ensures FlagSet(flags, Pow2(bit)) <==> HasBit(flags, bit)
    ensures FlagSet(flags, Pow2(bit)) <==> Has(flags, bit)
  {
    hide And, Shr, Pow2;
    ShrLowAreDivMod(flags, bit);
    AndSingleBit(flags, bit);
  }

  lemma FlagValues()
    ensures Pow2(CNT_INITIALIZED_DATA) == 0x40 && Pow2(CNT_UNINITIALIZED_DATA) == 0x80
    ensures Pow2(MEM_DISCARDABLE) == 0x0200_0000 && Pow2(MEM_NOT_CACHED) == 0x0400_0000
    ensures Pow2(MEM_EXECUTE) == 0x2000_0000 && Pow2(MEM_READ) == 0x4000_0000 && Pow2(MEM_WRITE) == 0x8000_0000
  {
    hide Pow2;
    Pow2Values();
    Pow2Add(6, 1);
    Pow2Add(24, 1);
    Pow2Add(24, 2);
    Pow2Add(28, 1);
    Pow2Add(28, 2);
  }

  /** The bytes a section takes in memory. */
  function MemorySize(s: SectionHeader, optional: OptionalHeader): nat {
    if s.sizeOfRawData > 0 then s.sizeOfRawData
    else if FlagSet(s.characteristics, 0x40) then optional.sizeOfInitializedData
    else if FlagSet(s.characteristics, 0x80) then optional.sizeOfUninitializedData
    else 0
  }

  lemma SizeIsMemorySize(s: SectionHeader, optional: OptionalHeader)
    ensures RealSectionSize(s, optional) == MemorySize(s, optional)
  {
    hide Has, FlagSet;
    FlagValues();
    FlagSetIs(s.characteristics, 6);
    FlagSetIs(s.characteristics, 7);
  }

  /** The value that the system is given for a protection (memory protection constants of Windows). */
  function ProtectionValue(write: bool, read: bool, execute: bool, uncached: bool): nat {
    (if write then (if read then (if execute then 0x40 else 0x04) else (if execute then 0x80 else 0x08))
     else if read then (if execute then 0x20 else 0x02)
     else if execute then 0x10
     else 0x01)
    + if uncached then 0x200 else 0
  }

  lemma ProtectionIs(flags: u32)
    ensures Protection(flags) == ProtectionValue(FlagSet(flags, 0x8000_0000), FlagSet(flags, 0x4000_0000),
                                                 FlagSet(flags, 0x2000_0000), FlagSet(flags, 0x0400_0000))
  {
    hide Shr, HasBit, Pow2, Or, Has, FlagSet;
    FlagValues();
    FlagSetIs(flags, 31);
    FlagSetIs(flags, 30);
    FlagSetIs(flags, 29);
    FlagSetIs(flags, 26);
    TopBits(flags);
    Pow2Values();
    Pow2Add(8, 1);
    OrDisjoint(ProtectionOf(Shr(flags, 29)), 1, 9);
  }

  /** The sections lie one behind the other in memory, inside the address space. */
  ghost predicate AscendingInMemory(ss: seq<SectionHeader>, optional: OptionalHeader) {
    && (forall i :: 0 <= i < |ss| ==> optional.imageBase + ss[i].virtualAddress + MemorySize(ss[i], optional) < U64)
    && (forall i, j :: 0 <= i < j < |ss| ==>
          ss[i].virtualAddress + MemorySize(ss[i], optional) <= ss[j].virtualAddress)
  }

  lemma TrueViewsAscend(ss: seq<SectionHeader>, size: nat, optional: OptionalHeader)
    requires AllPlaced(ss, size, optional.sectionAlignment) && optional.imageBase + size < U64
    requires AscendingInMemory(ss, optional)
    ensures var vs := TrueViews(ss, size, optional.imageBase, optional);
            && Ascending(vs)
            && forall i :: 0 <= i < |ss| ==>
                 && vs[i].address == optional.imageBase + ss[i].virtualAddress
                 && vs[i].size == MemorySize(ss[i], optional)
                 && vs[i].flags == ss[i].characteristics
  {
    hide RealSectionSize, MemorySize, AllPlaced;
    var vs := TrueViews(ss, size, optional.imageBase, optional);
    forall i | 0 <= i < |ss|
      ensures vs[i].address == optional.imageBase + ss[i].virtualAddress
      ensures vs[i].size == MemorySize(ss[i], optional) && vs[i].flags == ss[i].characteristics
    {
      AddressFits(ss, size, optional.imageBase, optional, i);
      SizeIsMemorySize(ss[i], optional);
    }
  }

  ghost predicate AnyHas(ms: seq<View>, value: nat)
    requires value > 0
  {
    exists m :: m in ms && FlagSet(m.flags, value)
  }

  /** The protection that the flags of a group's members ask for together. */
  ghost function RightsOfAll(ms: seq<View>): nat {
    ProtectionValue(AnyHas(ms, 0x8000_0000), AnyHas(ms, 0x4000_0000), AnyHas(ms, 0x2000_0000), AnyHas(ms, 0x0400_0000))
  }

  lemma GroupFlag(g: Group, alignment: u64, bit: nat)
    requires Summarises(g, alignment) && bit < 32 && bit != MEM_DISCARDABLE
    ensures FlagSet(g.data.flags, Pow2(bit)) <==> AnyHas(g.members, Pow2(bit))
  {
    hide Pow2, HasBit, FlagSet, Ascending, AlignDown;
    FlagSetIs(g.data.flags, bit);
    forall m | m in g.members
      ensures FlagSet(m.flags, Pow2(bit)) <==> HasBit(m.flags, bit)
    {
      FlagSetIs(m.flags, bit);
    }
    assert HasBit(g.data.flags, bit) <==> GroupHas(g.members, bit);
  }

  lemma GroupRights(g: Group, alignment: u64)
    requires Summarises(g, alignment)
    ensures Protection(g.data.flags) == RightsOfAll(g.members)
  {
    hide Summarises, Pow2, FlagSet, Protection, AnyHas;
    FlagValues();
    GroupFlag(g, alignment, 31);
    GroupFlag(g, alignment, 30);
    GroupFlag(g, alignment, 29);
    GroupFlag(g, alignment, 26);
    ProtectionIs(g.data.flags);
  }

  /** After a successful finalisation one call covers all bytes of a section that is not discardable, and
      gives them what its group asks for: the group has the section, and only sections of the image. */
  lemma SectionProtected(ss: seq<SectionHeader>, size: nat, optional: OptionalHeader, n: nat, protects: nat -> bool,
                         i: nat) returns (ms: seq<View>, op: PageOp)
    requires n < 64 && AllPlaced(ss, size, optional.sectionAlignment) && optional.imageBase + size < U64
    requires AscendingInMemory(ss, optional) && i < |ss|
    requires !FlagSet(ss[i].characteristics, 0x0200_0000) && MemorySize(ss[i], optional) > 0
    requires Pow2(n) < U64
             && FinalizeGroups(Groups(TrueViews(ss, size, optional.imageBase, optional), Pow2(n)), Pow2(n),
                               protects, 0).ok
    ensures var vs := TrueViews(ss, size, optional.imageBase, optional);
            && vs[i] in ms && (forall m :: m in ms ==> m in vs)
            && op in FinalizeGroups(Groups(vs, Pow2(n)), Pow2(n), protects, 0).ops
            && op.Protect? && op.protection == RightsOfAll(ms)
            && op.address <= optional.imageBase + ss[i].virtualAddress
            && optional.imageBase + ss[i].virtualAddress + MemorySize(ss[i], optional) <= op.address + op.size
  {
    hide TrueViews, Ascending, FinalizeGroups, Groups, Summarises, Pow2, MemorySize, FlagSet, HasBit, ActionFor,
         AllPlaced, RightsOfAll, Protection, AscendingInMemory;
    var vs, a := TrueViews(ss, size, optional.imageBase, optional), Pow2(n);
    TrueViewsAscend(ss, size, optional);
    FlagValues();
    FlagSetIs(ss[i].characteristics, 25);
    var gs := Groups(vs, a);
    GroupsCorrect(vs, n);
    var k := GroupOf(gs, vs[i]);
    MembersAreViews(gs, k);
    EveryGroupIsDealtWith(gs, a, protects, 0, k);
    ms := gs[k].members;
    op := ProtectGroup(gs[k], k == |gs| - 1, n, vs[i]);
    MemberInside(gs[k], a, vs[i]);
    GroupRights(gs[k], a);
  }

  lemma ProtectGroup(g: Group, last: bool, n: nat, v: View) returns (op: PageOp)
    requires n < 64 && Pow2(n) < U64 && Summarises(g, Pow2(n)) && v in g.members && Needed(v) && v.size > 0
    ensures ActionFor(g.data, last, Pow2(n)) == Do(op)
    ensures op == Protect(g.data.address, g.data.size, Protection(g.data.flags))
  {
    hide AlignDown, Pow2, HasBit, And, Protection;
    MemberInside(g, Pow2(n), v);
    AndSingleBit(g.data.flags, MEM_DISCARDABLE);
    assert HasBit(g.data.flags, MEM_DISCARDABLE) <==> GroupHas(g.members, MEM_DISCARDABLE);
    op := Protect(g.data.address, g.data.size, Protection(g.data.flags));
  }

  lemma {:induction false} MembersAreViews(gs: seq<Group>, k: nat)
    requires k < |gs|
    ensures forall m :: m in gs[k].members ==> m in Flatten(gs)
    decreases |gs|
  {
    if k > 0 {
      MembersAreViews(gs[1..], k - 1);
    }
  }

  // ---------------------------------------------------------------- what is given back

  /** A group of discardable sections only, with whole alignment units (the last group may end in one). */
  ghost predicate Returnable(gs: seq<Group>, k: nat, alignment: u64)
    requires k < |gs| && alignment > 0
  {
    && gs[k].data.size > 0
    && (forall m :: m in gs[k].members ==> FlagSet(m.flags, 0x0200_0000))
    && gs[k].data.address % alignment == 0
    && (k == |gs| - 1 || gs[k].data.size % alignment == 0)
  }

  lemma GroupDiscardable(g: Group, alignment: u64)
    requires Summarises(g, alignment)
    ensures Has(g.data.flags, MEM_DISCARDABLE) <==> forall m :: m in g.members ==> FlagSet(m.flags, 0x0200_0000)
  {
    hide Pow2, HasBit, Has, FlagSet, Ascending, AlignDown;
    FlagValues();
    FlagSetIs(g.data.flags, 25);
    forall m | m in g.members
      ensures FlagSet(m.flags, 0x0200_0000) <==> HasBit(m.flags, 25)
    {
      FlagSetIs(m.flags, 25);
    }
    assert HasBit(g.data.flags, 25) <==> GroupHas(g.members, 25);
  }

  lemma ReturnedGroup(gs: seq<Group>, n: nat, k: nat)
    requires n < 64 && Pow2(n) < U64 && k < |gs| && Summarises(gs[k], Pow2(n))
    ensures ActionFor(gs[k].data, k == |gs| - 1, Pow2(n)) == Do(Decommit(gs[k].data.address, gs[k].data.size))
            <==> Returnable(gs, k, Pow2(n))
  {
    hide Pow2, Has, FlagSet, AlignDown, Protection, FlagsAgree, Ascending;
    GroupDiscardable(gs[k], Pow2(n));
    AlignDownIs(gs[k].data.address, n);
    OwnMultiple(gs[k].data.address, Pow2(n));
  }

  lemma OwnMultiple(x: nat, p: nat)
    requires p > 0
    ensures x - x % p == x <==> x % p == 0
  {
  }

  /** After a successful finalisation exactly the returnable groups have been given back, each as a whole. */
  lemma GivenBackExactly(vs: seq<View>, n: nat, protects: nat -> bool, k: nat)
    requires n < 64 && vs != [] && Ascending(vs)
    requires Pow2(n) < U64 && FinalizeGroups(Groups(vs, Pow2(n)), Pow2(n), protects, 0).ok
    requires k < |Groups(vs, Pow2(n))|
    ensures var gs := Groups(vs, Pow2(n));
            Decommit(gs[k].data.address, gs[k].data.size) in FinalizeGroups(gs, Pow2(n), protects, 0).ops
            <==> Returnable(gs, k, Pow2(n))
  {
    hide Ascending, FinalizeGroups, Groups, Summarises, Pow2, FlagSet, ActionFor, Returnable;
    var a, gs := Pow2(n), Groups(vs, Pow2(n));
    GroupsCorrect(vs, n);
    var op := Decommit(gs[k].data.address, gs[k].data.size);
    ReturnedGroup(gs, n, k);
    EveryGroupIsDealtWith(gs, a, protects, 0, k);
    if op in FinalizeGroups(gs, a, protects, 0).ops {
      var j := OpsComeFromGroups(gs, a, protects, 0, op);
      DecommitIsWholeGroup(gs[j], j == |gs| - 1, n, op);
      DecommitHasBytes(gs[j].data, j == |gs| - 1, a, op);
      GroupStart(gs[k], n);
      GroupStart(gs[j], n);
      assert j == k;
    }
  }

  lemma DecommitHasBytes(d: SectionData, last: bool, alignment: u64, op: PageOp)
    requires alignment > 0 && ActionFor(d, last, alignment) == Do(op)
    ensures d.size > 0
  {
  }
}
