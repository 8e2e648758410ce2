/** What each page of the system is left with once all calls have been made: the last call that touches a
    page decides its protection. */
module PageRights {
  import opened Bits
  import opened Layout
  import opened PageGroups
  import opened PageGroupsMeaning
  import opened PageSafety

  /** Whether page q holds a byte of the range. */
  predicate OnPage(address: nat, size: nat, q: nat, page: nat)
    requires page > 0
  {
    size > 0 && address / page <= q <= (address + size - 1) / page
  }

  /** The last call that touches the page, if there is one: protecting and giving back take whole pages. */
  function LastCall(ops: seq<PageOp>, q: nat, page: nat): Action
    requires page > 0
    decreases |ops|
  {
    if ops == [] then Nothing
    else
      var later := LastCall(ops[1..], q, page);
      if later.Do? then later
      else if OnPage(ops[0].address, ops[0].size, q, page) then Do(ops[0])
      else Nothing
  }

  /** Every page of every section that is needed is left with the rights of its group, no more and no less,
      whichever call has set them. */
  ghost predicate RightsLast(vs: seq<View>, alignment: u64, page: nat, protects: nat -> bool)
    requires vs != [] && alignment > 0 && page > 0
  {
    forall v, q: nat :: v in vs && Needed(v) && OnPage(v.address, v.size, q, page) ==>
      RightsOf(v, Groups(vs, alignment),
               LastCall(FinalizeGroups(Groups(vs, alignment), alignment, protects, 0).ops, q, page))
  }

  ghost predicate RightsOf(v: View, gs: seq<Group>, last: Action) {
    exists g :: g in gs && v in g.members && last.Do? && Grants(g, last.op)
  }

  /** The calls for these groups leave the page alone. */
  ghost predicate NoneTouches(gs: seq<Group>, alignment: u64, q: nat, page: nat)
    requires alignment > 0 && page > 0
  {
    forall j :: 0 <= j < |gs| ==> LeavesAlone(ActionFor(gs[j].data, j == |gs| - 1, alignment), q, page)
  }

  predicate LeavesAlone(action: Action, q: nat, page: nat)
    requires page > 0
  {
    action.Do? ==> !OnPage(action.op.address, action.op.size, q, page)
  }

  lemma NoneInTail(gs: seq<Group>, alignment: u64, q: nat, page: nat)
    requires alignment > 0 && page > 0 && gs != [] && NoneTouches(gs, alignment, q, page)
    ensures NoneTouches(gs[1..], alignment, q, page)
  {
    hide ActionFor, LeavesAlone;
    var rest := gs[1..];
    forall j | 0 <= j < |rest|
      ensures LeavesAlone(ActionFor(rest[j].data, j == |rest| - 1, alignment), q, page)
    {
      assert rest[j] == gs[j + 1];
    }
  }

  lemma {:induction false} NoLastCall(gs: seq<Group>, alignment: u64, protects: nat -> bool, n: nat, q: nat, page: nat)
    requires alignment > 0 && page > 0 && NoneTouches(gs, alignment, q, page)
    ensures LastCall(FinalizeGroups(gs, alignment, protects, n).ops, q, page) == Nothing
    decreases |gs|
  {
    hide ActionFor, OnPage;
    if gs != [] {
      NoneInTail(gs, alignment, q, page);
      assert LeavesAlone(ActionFor(gs[0].data, |gs| == 1, alignment), q, page);
      match ActionFor(gs[0].data, |gs| == 1, alignment)
      case Nothing => NoLastCall(gs[1..], alignment, protects, n, q, page);
      case Do(op) =>
        NoLastCall(gs[1..], alignment, protects, n + 1, q, page);
        LastCallCons(op, FinalizeGroups(gs[1..], alignment, protects, n + 1).ops, q, page);
        LastCallCons(op, [], q, page);
    }
  }

  lemma LastCallCons(op: PageOp, ops: seq<PageOp>, q: nat, page: nat)
    requires page > 0
    ensures LastCall([op] + ops, q, page) ==
            if LastCall(ops, q, page).Do? then LastCall(ops, q, page)
            else if OnPage(op.address, op.size, q, page) then Do(op) else Nothing
  {
    hide OnPage;
    assert ([op] + ops)[1..] == ops;
  }

  /** The call for group k has the last word on a page that the later groups leave alone. */
  lemma {:induction false} LastWord(gs: seq<Group>, alignment: u64, protects: nat -> bool, n: nat, k: nat, q: nat,
                                    page: nat, op: PageOp)
    requires alignment > 0 && page > 0 && k < |gs| && FinalizeGroups(gs, alignment, protects, n).ok
    requires ActionFor(gs[k].data, k == |gs| - 1, alignment) == Do(op) && OnPage(op.address, op.size, q, page)
    requires NoneTouches(gs[k + 1..], alignment, q, page)
    ensures LastCall(FinalizeGroups(gs, alignment, protects, n).ops, q, page) == Do(op)
    decreases |gs|
  {
    hide ActionFor, OnPage, NoneTouches;
    if k == 0 {
      NoLastCall(gs[1..], alignment, protects, n + 1, q, page);
      LastCallCons(op, FinalizeGroups(gs[1..], alignment, protects, n + 1).ops, q, page);
    } else {
      assert gs[1..][k - 1] == gs[k] && gs[1..][k..] == gs[k + 1..];
      match ActionFor(gs[0].data, |gs| == 1, alignment)
      case Nothing => LastWord(gs[1..], alignment, protects, n, k - 1, q, page, op);
      case Do(first) =>
        LastWord(gs[1..], alignment, protects, n + 1, k - 1, q, page, op);
        LastCallCons(first, FinalizeGroups(gs[1..], alignment, protects, n + 1).ops, q, page);
    }
  }

  /** A page of something below a page boundary is touched by nothing that starts at or above it. */
  lemma PageBelowBoundary(lo: nat, size: nat, boundary: nat, address: nat, length: nat, q: nat, page: nat)
    requires page > 0 && boundary % page == 0 && lo + size <= boundary <= address && OnPage(lo, size, q, page)
    ensures !OnPage(address, length, q, page)
  {
    var b := boundary / page;
    assert boundary == page * b;
    QuotientBelow(lo + size - 1, page, b);
    QuotientAtLeast(address, page, b);
  }

  lemma ActionRange(d: SectionData, last: bool, alignment: u64)
    requires alignment > 0
    ensures var action := ActionFor(d, last, alignment);
            action.Do? ==> action.op.address == d.address && action.op.size == d.size
  {
    hide AlignDown, And, Pow2, Protection;
  }

  lemma LaterGroupsApart(gs: seq<Group>, n: nat, k: nat, m: nat, v: View, q: nat)
    requires n < 64 && Pow2(n) < U64 && m <= n && k < |gs| && v in gs[k].members
    requires Separated(gs) && forall j :: 0 <= j < |gs| ==> Summarises(gs[j], Pow2(n))
    requires OnPage(v.address, v.size, q, Pow2(m))
    ensures NoneTouches(gs[k + 1..], Pow2(n), q, Pow2(m))
  {
    hide ActionFor, OnPage, Summarises, Pow2;
    var rest := gs[k + 1..];
    MemberInside(gs[k], Pow2(n), v);
    forall j | 0 <= j < |rest|
      ensures LeavesAlone(ActionFor(rest[j].data, j == |rest| - 1, Pow2(n)), q, Pow2(m))
    {
      assert rest[j] == gs[k + 1 + j];
      GroupStart(rest[j], n);
      AlignedToSmaller(rest[j].data.aligned, n, m);
      ActionRange(rest[j].data, j == |rest| - 1, Pow2(n));
      PageBelowBoundary(v.address, v.size, rest[j].data.aligned, rest[j].data.address, rest[j].data.size, q, Pow2(m));
    }
  }

  /** A wider range touches the pages of a narrower one. */
  lemma WiderOnPage(a: nat, s: nat, b: nat, t: nat, q: nat, page: nat)
    requires page > 0 && b <= a && a + s <= b + t && OnPage(a, s, q, page)
    ensures OnPage(b, t, q, page)
  {
    Monotone(b, a, page);
    Monotone(a + s - 1, b + t - 1, page);
  }

  lemma Monotone(x: nat, y: nat, page: nat)
    requires page > 0 && x <= y
    ensures x / page <= y / page
  {
    var d := x / page;
    assert d * page <= x;
    QuotientAtLeast(y, page, d);
  }

  /** With system pages no larger than the section alignment, every needed section keeps its group's rights. */
  lemma RightsLastWhenFine(vs: seq<View>, n: nat, m: nat, protects: nat -> bool)
    requires n < 64 && m <= n && vs != [] && Ascending(vs)
    requires Pow2(n) < U64 && FinalizeGroups(Groups(vs, Pow2(n)), Pow2(n), protects, 0).ok
    ensures RightsLast(vs, Pow2(n), Pow2(m), protects)
  {
    hide ActionFor, Summarises, Pow2, FinalizeGroups, Groups, Ascending, ProtectedAs, Grants, OnPage, Separated,
         NoneTouches, LastCall, HasBit;
    var a, gs := Pow2(n), Groups(vs, Pow2(n));
    GroupsCorrect(vs, n);
    forall v, q: nat | v in vs && Needed(v) && OnPage(v.address, v.size, q, Pow2(m))
      ensures RightsOf(v, gs, LastCall(FinalizeGroups(gs, a, protects, 0).ops, q, Pow2(m)))
    {
      HasBytes(v, q, Pow2(m));
      var k := GroupOf(gs, v);
      var op := NeededGroupAction(gs[k], k == |gs| - 1, n, v);
      Covers(v, gs[k], op);
      WiderOnPage(v.address, v.size, op.address, op.size, q, Pow2(m));
      LaterGroupsApart(gs, n, k, m, v, q);
      LastWord(gs, a, protects, 0, k, q, Pow2(m), op);
    }
  }

  lemma HasBytes(v: View, q: nat, page: nat)
    requires page > 0 && OnPage(v.address, v.size, q, page)
    ensures v.size > 0
  {
  }

  lemma Covers(v: View, g: Group, op: PageOp)
    requires ProtectedAs(v, g, op)
    ensures op.address <= v.address && v.address + v.size <= op.address + op.size && Grants(g, op)
  {
    hide Grants;
  }

  // ---------------------------------------------------------------- larger system pages

  /** A readable section, and behind it on the same system page one without any rights. */
  function ClashingPair(alignment: u64, page: u64): (vs: seq<View>)
    requires page + alignment < U64 && alignment < U32
    ensures |vs| == 2
  {
    [View(page, alignment, 0x4000_0000), View(page + alignment, 1, 0)]
  }

  lemma ReadFlag()
    ensures HasBit(0x4000_0000, MEM_READ) && !HasBit(0x4000_0000, MEM_DISCARDABLE) && !HasBit(0, MEM_DISCARDABLE)
    ensures !Has(0x4000_0000, MEM_DISCARDABLE) && !Has(0, MEM_DISCARDABLE)
    ensures !HasBit(0, MEM_READ) && !HasBit(0, MEM_WRITE)
  {
    hide Shr, Pow2, And;
    FlagBits();
    Bit30();
    Bit25();
    HasBitPow2(30, 30);
    HasBitPow2(30, 25);
    AndSingleBit(0x4000_0000, 25);
    NoHighBit(0, 30);
    NoHighBit(0, 31);
  }

  lemma Bit30()
    ensures Pow2(30) == 0x4000_0000
  {
    hide Pow2;
    Pow2Values();
    Pow2Add(24, 6);
  }

  lemma Bit25()
    ensures Pow2(25) == 0x0200_0000
  {
    hide Pow2;
    Pow2Values();
    Pow2Add(24, 1);
  }

  /** The groups of the pair, and the calls that are made for them. */
  lemma PairCalls(alignment: u64, page: u64, protects: nat -> bool)
    requires 0 < alignment < U32 && page + alignment < U64 && protects(0) && protects(1)
    requires AlignDown(page, alignment) == page && AlignDown(page + alignment, alignment) == page + alignment
    ensures var vs := ClashingPair(alignment, page);
            && Groups(vs, alignment) ==
               [Group(Start(vs[0], alignment), [vs[0]]), Group(Start(vs[1], alignment), [vs[1]])]
            && FinalizeGroups(Groups(vs, alignment), alignment, protects, 0) ==
               Finalized([Protect(page, alignment, Protection(0x4000_0000)),
                          Protect(page + alignment, 1, Protection(0))], true)
  {
    hide AlignDown, Pow2, And, HasBit, Protection;
    var vs := ClashingPair(alignment, page);
    ReadFlag();
    var first := Group(Start(vs[0], alignment), [vs[0]]);
    var second := Group(Start(vs[1], alignment), [vs[1]]);
    assert vs[1..] == [vs[1]] && vs[1..][1..] == [];
    assert GroupsFrom(second, [], alignment) == [second];
    assert Groups(vs, alignment) == [first] + GroupsFrom(second, [], alignment);
    FinalizeStep(first, [second], alignment, protects, []);
    FinalizeStep(second, [], alignment, protects, [Protect(page, alignment, Protection(0x4000_0000))]);
    assert [second] + [] == [second];
  }

  /** The call for the second section of the pair takes away the right to read the first. */
  lemma PairClashes(n: nat, k: nat, protects: nat -> bool)
    requires n < k < 63 && n < 32 && protects(0) && protects(1)
    ensures Pow2(n) < U32 && Pow2(k) + Pow2(n) + 1 < U64
    ensures var vs := ClashingPair(Pow2(n), Pow2(k));
            var calls := FinalizeGroups(Groups(vs, Pow2(n)), Pow2(n), protects, 0);
            && Ascending(vs) && calls.ok && Needed(vs[0]) && HasBit(vs[0].flags, MEM_READ)
            && OnPage(vs[0].address, vs[0].size, 1, Pow2(k))
            && LastCall(calls.ops, 1, Pow2(k)).Do?
            && LastCall(calls.ops, 1, Pow2(k)).op.Protect?
            && !Readable(LastCall(calls.ops, 1, Pow2(k)).op.protection)
            && !RightsLast(vs, Pow2(n), Pow2(k), protects)
  {
    hide And, HasBit, Pow2, AlignDown, FinalizeGroups, Groups, Protection, RightsLast, Ascending, OnPage, LastCall,
         Readable;
    PairSizes(n, k);
    var a, p := Pow2(n), Pow2(k);
    ReadFlag();
    PairCalls(a, p, protects);
    SecondCallLast(a, p);
    PairAscends(a, p);
    NothingGranted();
    NotItsRights(a, p, protects);
  }

  lemma PairAscends(alignment: u64, page: u64)
    requires 0 < alignment < U32 && page + alignment + 1 < U64
    ensures Ascending(ClashingPair(alignment, page))
  {
    hide HasBit, Pow2;
  }

  /** Both sections have bytes on the system page, so the second call is the last to touch it. */
  lemma SecondCallLast(alignment: u64, page: u64)
    requires 0 < alignment < page && page + alignment + 1 < U64
    ensures OnPage(page, alignment, 1, page)
    ensures var one, two := Protect(page, alignment, Protection(0x4000_0000)),
                            Protect(page + alignment, 1, Protection(0));
            LastCall([one, two], 1, page) == Do(two)
  {
    hide Protection;
    var one, two := Protect(page, alignment, Protection(0x4000_0000)), Protect(page + alignment, 1, Protection(0));
    QuotientAndRemainder(page, page, 1, 0);
    QuotientAndRemainder(page + alignment - 1, page, 1, alignment - 1);
    QuotientAndRemainder(page + alignment, page, 1, alignment);
    LastCallCons(two, [], 1, page);
    LastCallCons(one, [two], 1, page);
    assert [two] + [] == [two] && [one] + [two] == [one, two];
  }

  lemma NothingGranted()
    ensures !Readable(Protection(0))
  {
    hide HasBit, Protection, Readable;
    ReadFlag();
    ProtectionGrants(0);
  }

  /** The first section belongs to a group of its own, which asks for the right to read. */
  lemma NotItsRights(alignment: u64, page: u64, protects: nat -> bool)
    requires 0 < alignment < page && page + alignment + 1 < U64 && alignment < U32
    requires var vs := ClashingPair(alignment, page);
             && Groups(vs, alignment) ==
                [Group(Start(vs[0], alignment), [vs[0]]), Group(Start(vs[1], alignment), [vs[1]])]
             && LastCall(FinalizeGroups(Groups(vs, alignment), alignment, protects, 0).ops, 1, page)
                == Do(Protect(page + alignment, 1, Protection(0)))
    ensures !RightsLast(ClashingPair(alignment, page), alignment, page, protects)
  {
    hide HasBit, Pow2, FinalizeGroups, Groups, Protection, Executable, Writable, Readable, And, LastCall, OnPage;
    ReadFlag();
    NothingGranted();
    SecondCallLast(alignment, page);
    var vs := ClashingPair(alignment, page);
    assert vs[0] in vs && Needed(vs[0]) && OnPage(vs[0].address, vs[0].size, 1, page);
    forall g | g in Groups(vs, alignment) && vs[0] in g.members
      ensures !Grants(g, Protect(page + alignment, 1, Protection(0)))
    {
      assert SomeMember(g, MEM_READ);
    }
  }

  /** For all lists of sections, whatever their rights, and all successful passes. */
  ghost predicate AllRightsLast(alignment: u64, page: nat)
    requires alignment > 0 && page > 0
  {
    forall vs, protects | vs != [] && Ascending(vs)
                            && FinalizeGroups(Groups(vs, alignment), alignment, protects, 0).ok ::
      RightsLast(vs, alignment, page, protects)
  }

  /** Every needed section ends with exactly its group's rights, for all section lists, iff the system page
      is no larger than the section alignment. */
  lemma FinalRightsExact(n: nat, k: nat)
    requires n < 32 && k < 63
    ensures Pow2(n) < U64
    ensures k <= n <==> AllRightsLast(Pow2(n), Pow2(k))
  {
    hide RightsLast, Pow2, Ascending, ClashingPair, AlignDown, FinalizeGroups, Groups;
    AlignDownIs(0, n);
    if k <= n {
      forall vs, protects | vs != [] && Ascending(vs) && FinalizeGroups(Groups(vs, Pow2(n)), Pow2(n), protects, 0).ok
        ensures RightsLast(vs, Pow2(n), Pow2(k), protects)
      {
        RightsLastWhenFine(vs, n, k, protects);
      }
    } else {
      PairClashes(n, k, _ => true);
    }
  }
}
