/** Final page protections: sections that share a page are merged into one group, every group gets one
    protection, and groups made of discardable sections only are given back. */
module PageGroups {
  import opened Bits
  import opened Layout

  // bit positions of the section flags
  const CNT_INITIALIZED_DATA: nat := 6
  const CNT_UNINITIALIZED_DATA: nat := 7
  const MEM_DISCARDABLE: nat := 25
  const MEM_NOT_CACHED: nat := 26
  const MEM_EXECUTE: nat := 29
  const MEM_READ: nat := 30
  const MEM_WRITE: nat := 31

  /** flags & (1 << bit) != 0 */
  predicate Has(flags: u32, bit: nat) {
    And(flags, Pow2(bit)) != 0
  }

  /** What finalisation reads of a section before it overwrites the union field. */
  datatype View = View(address: u64, size: u32, flags: u32)

  function RealSectionSize(s: SectionHeader, optional: OptionalHeader): u32 {
    if s.sizeOfRawData != 0 then s.sizeOfRawData
    else if Has(s.characteristics, CNT_INITIALIZED_DATA) then optional.sizeOfInitializedData
    else if Has(s.characteristics, CNT_UNINITIALIZED_DATA) then optional.sizeOfUninitializedData
    else 0
  }

  function ViewOf(s: SectionHeader, optional: OptionalHeader): View {
    RebuiltIs(s.misc, optional.imageBase);
    View(Rebuilt(s.misc, optional.imageBase), RealSectionSize(s, optional), s.characteristics)
  }

  function Views(ss: seq<SectionHeader>, optional: OptionalHeader): (vs: seq<View>)
    ensures |vs| == |ss|
  {
    seq(|ss|, i requires 0 <= i < |ss| => ViewOf(ss[i], optional))
  }

  /** The running record of the loop. */
  datatype SectionData = SectionData(address: u64, aligned: nat, size: u64, flags: u32)

  function Start(v: View, alignment: u64): SectionData {
    SectionData(v.address, AlignDown(v.address, alignment), v.size, v.flags)
  }

  predicate SharesPage(d: SectionData, v: View, alignment: u64) {
    d.aligned == AlignDown(v.address, alignment) || (d.address + d.size) % U64 > AlignDown(v.address, alignment)
  }

  /** A group with any section that is needed later is needed later itself. */
  function CombineFlags(group: u32, section: u32): u32 {
    Pow2Values();
    OrBelow(group, section, 32);
    AndBelow(Or(group, section), U32 - 1 - 0x0200_0000);
    if !Has(section, MEM_DISCARDABLE) || !Has(group, MEM_DISCARDABLE) then
      And(Or(group, section), U32 - 1 - 0x0200_0000)
    else Or(group, section)
  }

  function Merge(d: SectionData, v: View): SectionData {
    d.(flags := CombineFlags(d.flags, v.flags), size := (v.address + v.size - d.address) % U64)
  }

  datatype Group = Group(data: SectionData, members: seq<View>)

  /** The grouping: `g` is open and `rest` is still to come. */
  function GroupsFrom(g: Group, rest: seq<View>, alignment: u64): (gs: seq<Group>)
    ensures |gs| >= 1
    decreases |rest|
  {
    if rest == [] then [g]
    else if SharesPage(g.data, rest[0], alignment) then
      GroupsFrom(Group(Merge(g.data, rest[0]), g.members + [rest[0]]), rest[1..], alignment)
    else
      [g] + GroupsFrom(Group(Start(rest[0], alignment), [rest[0]]), rest[1..], alignment)
  }

  function Groups(vs: seq<View>, alignment: u64): seq<Group>
    requires vs != []
  {
    GroupsFrom(Group(Start(vs[0], alignment), [vs[0]]), vs[1..], alignment)
  }

  // ---------------------------------------------------------------- what is done with a group

  const PAGE_NOACCESS: nat := 0x01
  const PAGE_READONLY: nat := 0x02
  const PAGE_READWRITE: nat := 0x04
  const PAGE_WRITECOPY: nat := 0x08
  const PAGE_EXECUTE: nat := 0x10
  const PAGE_EXECUTE_READ: nat := 0x20
  const PAGE_EXECUTE_READWRITE: nat := 0x40
  const PAGE_EXECUTE_WRITECOPY: nat := 0x80
  const PAGE_NOCACHE: nat := 0x200

  /** The table is indexed by the three topmost flag bits: write, read, execute. */
  function ProtectionOf(top: nat): nat {
    if top == 0 then PAGE_NOACCESS
    else if top == 1 then PAGE_EXECUTE
    else if top == 2 then PAGE_READONLY
    else if top == 3 then PAGE_EXECUTE_READ
    else if top == 4 then PAGE_WRITECOPY
    else if top == 5 then PAGE_EXECUTE_WRITECOPY
    else if top == 6 then PAGE_READWRITE
    else PAGE_EXECUTE_READWRITE
  }

  function Protection(flags: u32): nat {
    if Has(flags, MEM_NOT_CACHED) then Or(ProtectionOf(Shr(flags, 29)), PAGE_NOCACHE) else ProtectionOf(Shr(flags, 29))
  }

  datatype PageOp = Decommit(address: u64, size: u64) | Protect(address: u64, size: u64, protection: nat)

  datatype Action = Nothing | Do(op: PageOp)

  function ActionFor(d: SectionData, last: bool, alignment: u64): Action
    requires alignment > 0
  {
    if d.size == 0 then Nothing
    else if Has(d.flags, MEM_DISCARDABLE) then
      if d.address == d.aligned && (last || d.size % alignment == 0) then Do(Decommit(d.address, d.size)) else Nothing
    else Do(Protect(d.address, d.size, Protection(d.flags)))
  }

  /** All calls that are made, in order; protects(n) says whether the n-th of them may succeed. Only a
      failing protection stops the loop. */
  datatype Finalized = Finalized(ops: seq<PageOp>, ok: bool)

  function FinalizeGroups(gs: seq<Group>, alignment: u64, protects: nat -> bool, n: nat): Finalized
    requires alignment > 0
    decreases |gs|
  {
    if gs == [] then Finalized([], true)
    else
      match ActionFor(gs[0].data, |gs| == 1, alignment)
      case Nothing => FinalizeGroups(gs[1..], alignment, protects, n)
      case Do(op) =>
        if op.Protect? && !protects(n) then Finalized([op], false)
        else
          var r := FinalizeGroups(gs[1..], alignment, protects, n + 1);
          Finalized([op] + r.ops, r.ok)
  }

  /** One group; the list of calls made so far grows by at most one. */
  method FinalizeSection(d: SectionData, last: bool, alignment: u64, protects: nat -> bool, ops: seq<PageOp>)
    returns (ops': seq<PageOp>, ok: bool)
    requires alignment > 0
    ensures match ActionFor(d, last, alignment)
            case Nothing => ops' == ops && ok
            case Do(op) => ops' == ops + [op] && ok == (op.Decommit? || protects(|ops|))
  {
    if d.size == 0 {
      return ops, true;
    }
    if Has(d.flags, MEM_DISCARDABLE) {
      if d.address == d.aligned && (last || d.size % alignment == 0) {
        return ops + [Decommit(d.address, d.size)], true;
      }
      return ops, true;
    }
    return ops + [Protect(d.address, d.size, Protection(d.flags))], protects(|ops|);
  }

  /** Whether the first k union fields have become virtual sizes and the others are as before. */
  ghost predicate SizesWritten(before: seq<SectionHeader>, now: seq<SectionHeader>, k: nat, optional: OptionalHeader) {
    && |before| == |now|
    && (forall i :: 0 <= i < |now| && i < k ==> now[i] == before[i].(misc := RealSectionSize(before[i], optional)))
    && (forall i :: k <= i < |now| ==> now[i] == before[i])
  }

  /** Reads each union field as an address before it writes the size over it; the calls made are those
      for the groups of the addresses that were there at the start. */
  method FinalizeSections(sections: array<SectionHeader>, optional: OptionalHeader, protects: nat -> bool)
    returns (ops: seq<PageOp>, ok: bool, ghost written: nat)
    requires sections.Length > 0 && optional.sectionAlignment > 0
    modifies sections
    ensures Finalized(ops, ok) ==
            FinalizeGroups(Groups(Views(old(sections[..]), optional), optional.sectionAlignment),
                           optional.sectionAlignment, protects, 0)
    ensures SizesWritten(old(sections[..]), sections[..], written, optional)
    ensures ok ==> written == sections.Length
  {
    hide AlignDown, RealSectionSize, ActionFor, SharesPage, Merge, Rebuilt, Has;
    ghost var before := sections[..];
    ghost var vs := Views(before, optional);
    var alignment := optional.sectionAlignment;
    ghost var goal := FinalizeGroups(Groups(vs, alignment), alignment, protects, 0);
    var v := ViewOf(sections[0], optional);
    sections[0] := sections[0].(misc := v.size);
    var d := Start(v, alignment);
    ghost var members := [v];
    ops := [];
    var i := 1;
    assert vs[1..] == vs[i..];
    while i < sections.Length
      invariant 1 <= i <= sections.Length
      invariant SizesWritten(before, sections[..], i, optional)
      invariant goal ==
                Prefixed(ops, FinalizeGroups(GroupsFrom(Group(d, members), vs[i..], alignment), alignment, protects,
                                             |ops|))
    {
      v := ViewOf(sections[i], optional);
      assert v == vs[i] && vs[i..][0] == v && vs[i..][1..] == vs[i + 1..];
      sections[i] := sections[i].(misc := v.size);
      if SharesPage(d, v, alignment) {
        d := Merge(d, v);
        members := members + [v];
      } else {
        ghost var rest := GroupsFrom(Group(Start(v, alignment), [v]), vs[i + 1..], alignment);
        FinalizeStep(Group(d, members), rest, alignment, protects, ops);
        ops, ok := FinalizeSection(d, false, alignment, protects, ops);
        if !ok {
          return ops, false, i + 1;
        }
        d := Start(v, alignment);
        members := [v];
      }
      i := i + 1;
    }
    assert vs[i..] == [];
    FinalizeStep(Group(d, members), [], alignment, protects, ops);
    ops, ok := FinalizeSection(d, true, alignment, protects, ops);
    written := i;
  }

  function Prefixed(ops: seq<PageOp>, r: Finalized): Finalized {
    Finalized(ops + r.ops, r.ok)
  }

  lemma FinalizeStep(g: Group, rest: seq<Group>, alignment: u64, protects: nat -> bool, ops: seq<PageOp>)
    requires alignment > 0
    ensures var todo := Prefixed(ops, FinalizeGroups([g] + rest, alignment, protects, |ops|));
            match ActionFor(g.data, rest == [], alignment)
            case Nothing => todo == Prefixed(ops, FinalizeGroups(rest, alignment, protects, |ops|))
            case Do(op) =>
              if op.Protect? && !protects(|ops|) then todo == Finalized(ops + [op], false)
              else todo == Prefixed(ops + [op], FinalizeGroups(rest, alignment, protects, |ops| + 1))
  {
    hide ActionFor;
    assert ([g] + rest)[1..] == rest;
    if ActionFor(g.data, rest == [], alignment).Do? {
      var op := ActionFor(g.data, rest == [], alignment).op;
      var r := FinalizeGroups(rest, alignment, protects, |ops| + 1);
      assert ops + ([op] + r.ops) == (ops + [op]) + r.ops;
    }
  }
}
