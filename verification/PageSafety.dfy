/** What finalisation may and may not do to live memory: nothing that is still needed is given back, and
    every section that stays gets exactly the rights of the sections it shares pages with. */
module PageSafety {
  import opened Bits
  import opened Layout
  import opened PageGroups
  import opened PageGroupsMeaning

  ghost predicate NoCommonPage(lo1: nat, hi1: nat, lo2: nat, hi2: nat, page: nat)
    requires page > 0
  {
    forall x, y :: lo1 <= x < hi1 && lo2 <= y < hi2 ==> x / page != y / page
  }

  predicate Needed(v: View) {
    !HasBit(v.flags, MEM_DISCARDABLE)
  }

  /** Giving memory back takes whole operating-system pages; none of them may hold a byte still needed. */
  ghost predicate LosesNothing(op: PageOp, vs: seq<View>, page: nat)
    requires page > 0
  {
    op.Decommit? ==>
      forall v :: v in vs && Needed(v) ==> NoCommonPage(op.address, op.address + op.size, v.address, End(v), page)
  }

  ghost predicate AllSafe(vs: seq<View>, alignment: u64, page: nat, protects: nat -> bool)
    requires vs != [] && alignment > 0 && page > 0
  {
    forall op :: op in FinalizeGroups(Groups(vs, alignment), alignment, protects, 0).ops ==> LosesNothing(op, vs, page)
  }

  lemma {:induction false} OpsComeFromGroups(gs: seq<Group>, alignment: u64, protects: nat -> bool, n: nat, op: PageOp)
    returns (k: nat)
    requires alignment > 0 && op in FinalizeGroups(gs, alignment, protects, n).ops
    ensures k < |gs| && ActionFor(gs[k].data, k == |gs| - 1, alignment) == Do(op)
    decreases |gs|
  {
    hide ActionFor;
    match ActionFor(gs[0].data, |gs| == 1, alignment)
    case Nothing =>
      k := OpsComeFromGroups(gs[1..], alignment, protects, n, op);
      k := k + 1;
    case Do(first) =>
      if op == first {
        k := 0;
      } else {
        k := OpsComeFromGroups(gs[1..], alignment, protects, n + 1, op);
        k := k + 1;
      }
  }

  lemma {:induction false} EveryGroupIsDealtWith(gs: seq<Group>, alignment: u64, protects: nat -> bool, n: nat, k: nat)
    requires alignment > 0 && k < |gs| && FinalizeGroups(gs, alignment, protects, n).ok
    ensures var action := ActionFor(gs[k].data, k == |gs| - 1, alignment);
            action.Do? ==> action.op in FinalizeGroups(gs, alignment, protects, n).ops
    decreases |gs|
  {
    hide ActionFor;
    if k > 0 {
      match ActionFor(gs[0].data, |gs| == 1, alignment)
      case Nothing => EveryGroupIsDealtWith(gs[1..], alignment, protects, n, k - 1);
      case Do(_) => EveryGroupIsDealtWith(gs[1..], alignment, protects, n + 1, k - 1);
    }
  }

  lemma {:induction false} GroupOf(gs: seq<Group>, v: View) returns (k: nat)
    requires v in Flatten(gs)
    ensures k < |gs| && v in gs[k].members
    decreases |gs|
  {
    if v in gs[0].members {
      k := 0;
    } else {
      k := GroupOf(gs[1..], v);
      k := k + 1;
    }
  }

  /** A member lies inside the range of its group. */
  lemma MemberInside(g: Group, alignment: u64, v: View)
    requires Summarises(g, alignment) && v in g.members
    ensures g.data.address <= v.address && End(v) <= g.data.address + g.data.size
  {
    var ms := g.members;
    var i :| 0 <= i < |ms| && ms[i] == v;
    if i > 0 {
      assert End(ms[0]) <= ms[i].address;
    }
    if i < |ms| - 1 {
      assert End(ms[i]) <= ms[|ms| - 1].address;
    }
  }

  lemma ApartByBoundary(lo1: nat, hi1: nat, boundary: nat, lo2: nat, hi2: nat, page: nat)
    requires page > 0 && boundary % page == 0 && hi1 <= boundary <= lo2
    ensures NoCommonPage(lo1, hi1, lo2, hi2, page)
    ensures NoCommonPage(lo2, hi2, lo1, hi1, page)
  {
    var b := boundary / page;
    forall x, y | lo1 <= x < hi1 && lo2 <= y < hi2
      ensures x / page < y / page
    {
      QuotientBelow(x, page, b);
      QuotientAtLeast(y, page, b);
    }
  }

  lemma QuotientAtLeast(y: nat, page: nat, b: nat)
    requires page > 0 && b * page <= y
    ensures b <= y / page
  {
    var c := y / page + 1;
    assert y < c * page;
    assert c <= b ==> c * page <= b * page;
  }

  lemma AlignedToSmaller(x: nat, n: nat, k: nat)
    requires k <= n && x % Pow2(n) == 0
    ensures x % Pow2(k) == 0
  {
    Pow2Add(k, n - k);
    RemainderOfFactor(x, Pow2(k), Pow2(n - k), Pow2(n));
  }

  lemma RemainderOfFactor(x: nat, p: nat, q: nat, m: nat)
    requires p > 0 && q > 0 && m == p * q && x % m == 0
    ensures x % p == 0
  {
    ModOfMod(x, p, q);
  }

  /** With operating-system pages no larger than the section alignment, nothing needed is ever lost. */
  lemma DecommitsSafe(vs: seq<View>, n: nat, k: nat, protects: nat -> bool)
    requires n < 64 && k <= n && vs != [] && Ascending(vs)
    ensures Pow2(n) < U64
    ensures AllSafe(vs, Pow2(n), Pow2(k), protects)
  {
    hide ActionFor, Summarises, AlignDown, HasBit, Pow2, FinalizeGroups, Groups, Ascending;
    AlignDownIs(0, n);
    var a, gs := Pow2(n), Groups(vs, Pow2(n));
    GroupsCorrect(vs, n);
    forall op | op in FinalizeGroups(gs, a, protects, 0).ops
      ensures LosesNothing(op, vs, Pow2(k))
    {
      var i := OpsComeFromGroups(gs, a, protects, 0, op);
      forall v | op.Decommit? && v in vs && Needed(v)
        ensures NoCommonPage(op.address, op.address + op.size, v.address, End(v), Pow2(k))
      {
        var j := GroupOf(gs, v);
        MemberInside(gs[j], a, v);
        DecommitIsWholeGroup(gs[i], i == |gs| - 1, n, op);
        MembersNeeded(gs[i], n, op, i == |gs| - 1);
        GroupStart(gs[i], n);
        GroupStart(gs[j], n);
        AlignedToSmaller(gs[i].data.aligned, n, k);
        AlignedToSmaller(gs[j].data.aligned, n, k);
        if j < i {
          ApartByBoundary(v.address, End(v), gs[i].data.aligned, op.address, op.address + op.size, Pow2(k));
        } else {
          assert i < j;
          ApartByBoundary(op.address, op.address + op.size, gs[j].data.aligned, v.address, End(v), Pow2(k));
        }
      }
    }
  }

  lemma DecommitIsWholeGroup(g: Group, last: bool, n: nat, op: PageOp)
    requires n < 64 && Pow2(n) < U64 && ActionFor(g.data, last, Pow2(n)) == Do(op) && op.Decommit?
    ensures op.address == g.data.address == g.data.aligned && op.size == g.data.size
  {
    hide AlignDown, Pow2, HasBit;
  }

  lemma MembersNeeded(g: Group, n: nat, op: PageOp, last: bool)
    requires n < 64 && Pow2(n) < U64 && Summarises(g, Pow2(n)) && ActionFor(g.data, last, Pow2(n)) == Do(op)
             && op.Decommit?
    ensures forall m :: m in g.members ==> !Needed(m)
  {
    hide AlignDown, Pow2, HasBit, And;
    AndSingleBit(g.data.flags, MEM_DISCARDABLE);
    assert GroupHas(g.members, MEM_DISCARDABLE);
  }

  lemma GroupStart(g: Group, n: nat)
    requires n < 64 && Pow2(n) < U64 && Summarises(g, Pow2(n))
    ensures g.data.aligned % Pow2(n) == 0 && g.data.aligned <= g.data.address
  {
    AlignDownIs(g.data.address, n);
  }

  /** Two sections that show the loss: a discardable one of one alignment unit at the start of a page,
      and a live byte right behind it, on the same page. */
  function LossyPair(alignment: u64, page: u64): (vs: seq<View>)
    requires page + alignment < U64 && alignment < U32
    ensures |vs| == 2
  {
    Pow2Values();
    [View(page, alignment, 0x0200_0000), View(page + alignment, 1, 0)]
  }

  /** The loader gives the first section of the pair back and keeps the second. */
  lemma PairGroups(alignment: u64, page: u64, protects: nat -> bool)
    requires 0 < alignment < U32 && page + alignment < U64
    requires AlignDown(page, alignment) == page && AlignDown(page + alignment, alignment) == page + alignment
    requires alignment % alignment == 0
    ensures Decommit(page, alignment) in FinalizeGroups(Groups(LossyPair(alignment, page), alignment), alignment,
                                                        protects, 0).ops
  {
    hide AlignDown, Pow2, And;
    var vs := LossyPair(alignment, page);
    FlagBits();
    var first := Group(Start(vs[0], alignment), [vs[0]]);
    var second := Group(Start(vs[1], alignment), [vs[1]]);
    assert vs[1..] == [vs[1]] && vs[1..][1..] == [];
    assert Groups(vs, alignment) == [first] + GroupsFrom(second, [], alignment);
    FinalizeStep(first, [second], alignment, protects, []);
  }

  lemma PairSizes(n: nat, k: nat)
    requires n < k < 63 && n < 32
    ensures var a, p := Pow2(n), Pow2(k);
            && 0 < a < U32 && a < p && p + a + 1 < U64
            && AlignDown(p, a) == p && AlignDown(p + a, a) == p + a
  {
    hide Pow2, AlignDown;
    Pow2Values();
    Pow2Grows(n, 32);
    Pow2Grows(k, 64);
    Pow2Grows(n, k);
    PageMultiples(n, k);
    AlignDownIs(Pow2(k), n);
    AlignDownIs(Pow2(k) + Pow2(n), n);
  }

  lemma PairIsLost(n: nat, k: nat, protects: nat -> bool)
    requires n < k < 63 && n < 32
    ensures Pow2(n) < U32 && Pow2(k) + Pow2(n) + 1 < U64
    ensures Ascending(LossyPair(Pow2(n), Pow2(k)))
    ensures !AllSafe(LossyPair(Pow2(n), Pow2(k)), Pow2(n), Pow2(k), protects)
  {
    hide And, HasBit, Pow2, AlignDown, FinalizeGroups, Groups, LossyPair, LosesNothing, Ascending;
    var a, p := Pow2(n), Pow2(k);
    PairSizes(n, k);
    PageMultiples(n, k);
    PairGroups(a, p, protects);
    PairLoss(a, p);
  }

  lemma PairLoss(alignment: u64, page: u64)
    requires 0 < alignment < page && page + alignment + 1 < U64 && alignment < U32
    ensures Ascending(LossyPair(alignment, page))
    ensures !LosesNothing(Decommit(page, alignment), LossyPair(alignment, page), page)
  {
    hide HasBit, Pow2;
    FlagBits();
    SameQuotient(page, alignment);
    var vs := LossyPair(alignment, page);
    assert vs[1] in vs && Needed(vs[1]);
    assert !NoCommonPage(page, page + alignment, page + alignment, End(vs[1]), page);
  }

  lemma SameQuotient(p: nat, a: nat)
    requires 0 < a < p
    ensures p / p == (p + a) / p
  {
    QuotientAndRemainder(p, p, 1, 0);
    QuotientAndRemainder(p + a, p, 1, a);
  }

  lemma PageMultiples(n: nat, k: nat)
    requires n < k
    ensures Pow2(k) % Pow2(n) == 0 && (Pow2(k) + Pow2(n)) % Pow2(n) == 0 && Pow2(n) % Pow2(n) == 0
  {
    Pow2Add(n, k - n);
    Multiples(Pow2(k), Pow2(n), Pow2(k - n));
  }

  lemma Multiples(p: nat, a: nat, q: nat)
    requires a > 0 && p == a * q
    ensures p % a == 0 && (p + a) % a == 0 && a % a == 0
  {
    QuotientAndRemainder(p, a, q, 0);
    QuotientAndRemainder(p + a, a, q + 1, 0);
    QuotientAndRemainder(a, a, 1, 0);
  }

  lemma FlagBits()
    ensures HasBit(0x0200_0000, MEM_DISCARDABLE) && !HasBit(0, MEM_DISCARDABLE)
    ensures Has(0x0200_0000, MEM_DISCARDABLE) && !Has(0, MEM_DISCARDABLE)
  {
    Pow2Values();
    Pow2Add(24, 1);
    var d := Pow2(25);
    HasBitPow2(25, 25);
    AndSingleBit(d, 25);
    NoHighBit(0, 25);
    AndSingleBit(0, 25);
  }

  /** Finalisation never loses a needed byte, for any sections, exactly when an operating-system page is
      no larger than the section alignment. */
  lemma DecommitSafetyExact(n: nat, k: nat)
    requires n < 32 && k < 63
    ensures Pow2(n) < U64
    ensures k <= n <==>
            forall vs, protects | vs != [] && Ascending(vs) :: AllSafe(vs, Pow2(n), Pow2(k), protects)
  {
    hide AllSafe, Pow2, Ascending, LossyPair, AlignDown;
    AlignDownIs(0, n);
    if k <= n {
      forall vs, protects | vs != [] && Ascending(vs)
        ensures AllSafe(vs, Pow2(n), Pow2(k), protects)
      {
        DecommitsSafe(vs, n, k, protects);
      }
    } else {
      PairIsLost(n, k, _ => true);
    }
  }

  // ---------------------------------------------------------------- rights

  function WithoutCacheFlag(protection: nat): nat {
    if protection >= PAGE_NOCACHE then protection - PAGE_NOCACHE else protection
  }

  predicate Executable(protection: nat) {
    WithoutCacheFlag(protection) in {PAGE_EXECUTE, PAGE_EXECUTE_READ, PAGE_EXECUTE_READWRITE, PAGE_EXECUTE_WRITECOPY}
  }

  predicate Writable(protection: nat) {
    WithoutCacheFlag(protection) in {PAGE_READWRITE, PAGE_WRITECOPY, PAGE_EXECUTE_READWRITE, PAGE_EXECUTE_WRITECOPY}
  }

  predicate Readable(protection: nat) {
    Writable(protection) || WithoutCacheFlag(protection) in {PAGE_READONLY, PAGE_EXECUTE_READ}
  }

  /** The protection table grants what the three flag bits ask for; a page can be written only if it can
      be read as well. */
  lemma ProtectionGrants(flags: u32)
    ensures Executable(Protection(flags)) <==> HasBit(flags, MEM_EXECUTE)
    ensures Writable(Protection(flags)) <==> HasBit(flags, MEM_WRITE)
    ensures Readable(Protection(flags)) <==> HasBit(flags, MEM_READ) || HasBit(flags, MEM_WRITE)
  {
    hide HasBit, Shr, Protection, WithoutCacheFlag;
    TopBits(flags);
    CacheFlagApart(flags);
  }

  lemma CacheFlagApart(flags: u32)
    ensures Shr(flags, 29) < 8 && WithoutCacheFlag(Protection(flags)) == ProtectionOf(Shr(flags, 29))
  {
    hide Or, HasBit, Shr, And, Pow2;
    TopBits(flags);
    Pow2Values();
    assert Pow2(9) == 0x200 by {
      Pow2Add(8, 1);
    }
    OrDisjoint(ProtectionOf(Shr(flags, 29)), 1, 9);
  }

  /** The three bits from n on, and what is left when the ones below are gone. */
  lemma ThreeBits(x: nat, n: nat)
    requires x < Pow2(n + 3)
    ensures var top := Shr(x, n);
            && top < 8
            && (HasBit(x, n) <==> top % 2 == 1)
            && (HasBit(x, n + 1) <==> top / 2 % 2 == 1)
            && (HasBit(x, n + 2) <==> top / 4 == 1)
  {
    hide Pow2;
    ShrAdd(x, n, 1);
    ShrAdd(x, n, 2);
    var top := Shr(x, n);
    assert Shr(top, 1) == Shr(top / 2, 0) && Shr(top, 2) == Shr(top / 2, 1) == Shr(top / 2 / 2, 0);
    ShrLowAreDivMod(x, n);
    Pow2Add(n, 3);
    Pow2Values();
    QuotientBelow(x, Pow2(n), 8);
  }

  lemma TopBits(flags: u32)
    ensures var top := Shr(flags, 29);
            && top < 8
            && (HasBit(flags, MEM_EXECUTE) <==> top % 2 == 1)
            && (HasBit(flags, MEM_READ) <==> top / 2 % 2 == 1)
            && (HasBit(flags, MEM_WRITE) <==> top / 4 == 1)
  {
    hide Shr, HasBit, Pow2;
    Pow2Values();
    ThreeBits(flags, 29);
  }

  ghost predicate SomeMember(g: Group, bit: nat) {
    exists m :: m in g.members && HasBit(m.flags, bit)
  }

  /** A protection call that grants exactly the union of the rights of a group's members. */
  ghost predicate Grants(g: Group, op: PageOp) {
    && op.Protect?
    && (Executable(op.protection) <==> SomeMember(g, MEM_EXECUTE))
    && (Writable(op.protection) <==> SomeMember(g, MEM_WRITE))
    && (Readable(op.protection) <==> SomeMember(g, MEM_READ) || SomeMember(g, MEM_WRITE))
  }

  /** A protection call that covers the section and grants exactly the rights of its group. */
  ghost predicate ProtectedAs(v: View, g: Group, op: PageOp) {
    op.address <= v.address && End(v) <= op.address + op.size && Grants(g, op)
  }

  /** After a successful finalisation every needed section with any bytes lies in the range of one
      protection call, made for the group it belongs to. */
  lemma NeededSectionsProtected(vs: seq<View>, n: nat, protects: nat -> bool, v: View) returns (g: Group, op: PageOp)
    requires n < 64 && vs != [] && Ascending(vs) && v in vs && Needed(v) && v.size > 0
    requires Pow2(n) < U64 && FinalizeGroups(Groups(vs, Pow2(n)), Pow2(n), protects, 0).ok
    ensures g in Groups(vs, Pow2(n)) && v in g.members
    ensures op in FinalizeGroups(Groups(vs, Pow2(n)), Pow2(n), protects, 0).ops
    ensures ProtectedAs(v, g, op)
  {
    hide ActionFor, Summarises, AlignDown, HasBit, Pow2, FinalizeGroups, Groups, Ascending, ProtectedAs;
    var a, gs := Pow2(n), Groups(vs, Pow2(n));
    GroupsCorrect(vs, n);
    var k := GroupOf(gs, v);
    g := gs[k];
    EveryGroupIsDealtWith(gs, a, protects, 0, k);
    op := NeededGroupAction(g, k == |gs| - 1, n, v);
  }

  lemma NeededGroupAction(g: Group, last: bool, n: nat, v: View) returns (op: PageOp)
    requires n < 64 && Pow2(n) < U64 && Summarises(g, Pow2(n)) && v in g.members && Needed(v) && v.size > 0
    ensures ActionFor(g.data, last, Pow2(n)) == Do(op)
    ensures ProtectedAs(v, g, op)
  {
    hide AlignDown, Pow2, HasBit, And, Protection, Executable, Writable, Readable;
    MemberInside(g, Pow2(n), v);
    AndSingleBit(g.data.flags, MEM_DISCARDABLE);
    assert HasBit(g.data.flags, MEM_DISCARDABLE) <==> GroupHas(g.members, MEM_DISCARDABLE);
    assert HasBit(g.data.flags, MEM_EXECUTE) <==> GroupHas(g.members, MEM_EXECUTE);
    assert HasBit(g.data.flags, MEM_READ) <==> GroupHas(g.members, MEM_READ);
    assert HasBit(g.data.flags, MEM_WRITE) <==> GroupHas(g.members, MEM_WRITE);
    ProtectionGrants(g.data.flags);
    op := Protect(g.data.address, g.data.size, Protection(g.data.flags));
  }
}
