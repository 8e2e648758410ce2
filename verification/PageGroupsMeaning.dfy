/** Why the page groups are right: they cut the sections where two neighbours share no page, they carry
    exactly the rights of their members, and giving a group back loses no live byte. */
module PageGroupsMeaning {
  import opened Bits
  import opened Layout
  import opened PageGroups

  function End(v: View): nat {
    v.address + v.size
  }

  /** The sections as a linker lays them out. */
  ghost predicate Ascending(vs: seq<View>) {
    && (forall i :: 0 <= i < |vs| ==> End(vs[i]) < U64)
    && (forall i, j :: 0 <= i < j < |vs| ==> End(vs[i]) <= vs[j].address)
  }

  /** The record of a group says what its members say together. */
  ghost predicate Summarises(g: Group, alignment: u64) {
    && g.members != []
    && Ascending(g.members)
    && g.data.address == g.members[0].address
    && g.data.aligned == AlignDown(g.data.address, alignment)
    && g.data.address + g.data.size == End(g.members[|g.members| - 1])
    && FlagsAgree(g.data.flags, g.members)
  }

  /** Every flag but DISCARDABLE is set iff some member has it; DISCARDABLE needs all of them. */
  ghost predicate FlagsAgree(flags: u32, ms: seq<View>) {
    forall bit :: 0 <= bit < 32 ==> (HasBit(flags, bit) <==> GroupHas(ms, bit))
  }

  ghost predicate GroupHas(ms: seq<View>, bit: nat) {
    if bit == MEM_DISCARDABLE then forall m :: m in ms ==> HasBit(m.flags, bit)
    else exists m :: m in ms && HasBit(m.flags, bit)
  }

  lemma CombineBit(g: u32, s: u32, bit: nat)
    requires bit < 32
    ensures HasBit(CombineFlags(g, s), bit) <==>
            if bit == MEM_DISCARDABLE then HasBit(g, bit) && HasBit(s, bit) else HasBit(g, bit) || HasBit(s, bit)
  {
    hide And, Or, HasBit, Pow2;
    Pow2Values();
    assert Pow2(25) == 0x0200_0000 by {
      Pow2Add(24, 1);
    }
    AndSingleBit(g, 25);
    AndSingleBit(s, 25);
    HasBitOr(g, s, bit);
    HasBitAnd(Or(g, s), U32 - 1 - 0x0200_0000, bit);
    HasBitComplement(0x0200_0000, 32, bit);
    HasBitPow2(25, bit);
  }

  lemma StartSummarises(v: View, alignment: u64)
    requires End(v) < U64
    ensures Summarises(Group(Start(v, alignment), [v]), alignment)
  {
    hide AlignDown, HasBit;
    forall bit | 0 <= bit < 32
      ensures HasBit(v.flags, bit) <==> GroupHas([v], bit)
    {
      assert v in [v];
    }
  }

  lemma MergeFlags(flags: u32, ms: seq<View>, v: View)
    requires FlagsAgree(flags, ms)
    ensures FlagsAgree(CombineFlags(flags, v.flags), ms + [v])
  {
    hide CombineFlags, HasBit;
    assert forall m :: m in ms + [v] <==> m in ms || m == v;
    forall bit | 0 <= bit < 32
      ensures HasBit(CombineFlags(flags, v.flags), bit) <==> GroupHas(ms + [v], bit)
    {
      CombineBit(flags, v.flags, bit);
      assert HasBit(flags, bit) <==> GroupHas(ms, bit);
    }
  }

  lemma MergeSummarises(g: Group, v: View, alignment: u64)
    requires Summarises(g, alignment) && Ascending(g.members + [v])
    ensures Summarises(Group(Merge(g.data, v), g.members + [v]), alignment)
  {
    hide AlignDown, CombineFlags, FlagsAgree, Ascending, Merge;
    FirstBelowNext(g.members, v);
    MergeFlags(g.data.flags, g.members, v);
    MergeSize(g.data, v);
  }

  lemma MergeSize(d: SectionData, v: View)
    requires d.address <= End(v) < U64
    ensures Merge(d, v) == d.(flags := CombineFlags(d.flags, v.flags), size := End(v) - d.address)
  {
    hide CombineFlags;
    assert (v.address + v.size - d.address) % U64 == End(v) - d.address;
  }

  lemma FirstBelowNext(ms: seq<View>, v: View)
    requires ms != [] && Ascending(ms + [v])
    ensures ms[0].address <= End(v) < U64
  {
    var all, n := ms + [v], |ms|;
    assert all[0] == ms[0] && all[n] == v;
    assert End(all[0]) <= all[n].address;
  }

  function Flatten(gs: seq<Group>): seq<View> {
    if gs == [] then [] else gs[0].members + Flatten(gs[1..])
  }

  /** No page of an earlier group is a page of a later one. */
  ghost predicate Separated(gs: seq<Group>) {
    forall k, l :: 0 <= k < l < |gs| ==> gs[k].data.address + gs[k].data.size <= gs[l].data.aligned
  }

  lemma {:induction false} GroupsFromCorrect(g: Group, rest: seq<View>, n: nat)
    requires n < 64 && Pow2(n) < U64
    requires Summarises(g, Pow2(n)) && Ascending(g.members + rest)
    ensures var gs := GroupsFrom(g, rest, Pow2(n));
            && (forall k :: 0 <= k < |gs| ==> Summarises(gs[k], Pow2(n)))
            && Flatten(gs) == g.members + rest
            && Separated(gs)
            && gs[0].data.aligned == g.data.aligned
    decreases |rest|
  {
    hide AlignDown, Merge, Summarises, Pow2;
    var a := Pow2(n);
    if rest == [] {
      assert g.members + rest == g.members;
      assert Flatten([g]) == g.members + Flatten([]);
    } else {
      var v := rest[0];
      assert (g.members + [v]) + rest[1..] == g.members + rest;
      PrefixAscending(g.members + [v], rest[1..]);
      if SharesPage(g.data, v, a) {
        MergeSummarises(g, v, a);
        MergeKeepsStart(g.data, v);
        GroupsFromCorrect(Group(Merge(g.data, v), g.members + [v]), rest[1..], n);
      } else {
        SuffixAscending(g.members, rest);
        var start := Group(Start(v, a), [v]);
        assert [v] + rest[1..] == rest;
        assert End(v) < U64 by {
          assert rest[0] == v;
        }
        StartSummarises(v, a);
        GroupsFromCorrect(start, rest[1..], n);
        var gs := GroupsFrom(start, rest[1..], a);
        GroupEndsBefore(g, v, n);
        AllLaterBeyond(gs, n);
        assert ([g] + gs)[1..] == gs;
      }
    }
  }

  lemma MergeKeepsStart(d: SectionData, v: View)
    ensures Merge(d, v).aligned == d.aligned && Merge(d, v).address == d.address
  {
  }

  lemma PrefixAscending(xs: seq<View>, ys: seq<View>)
    requires Ascending(xs + ys)
    ensures Ascending(xs)
  {
    forall i, j | 0 <= i < j < |xs|
      ensures End(xs[i]) <= xs[j].address
    {
      assert (xs + ys)[i] == xs[i] && (xs + ys)[j] == xs[j];
    }
    forall i | 0 <= i < |xs|
      ensures End(xs[i]) < U64
    {
      assert (xs + ys)[i] == xs[i];
    }
  }

  lemma SuffixAscending(xs: seq<View>, ys: seq<View>)
    requires Ascending(xs + ys)
    ensures Ascending(ys)
  {
    forall i, j | 0 <= i < j < |ys|
      ensures End(ys[i]) <= ys[j].address
    {
      assert (xs + ys)[|xs| + i] == ys[i] && (xs + ys)[|xs| + j] == ys[j];
    }
    forall i | 0 <= i < |ys|
      ensures End(ys[i]) < U64
    {
      assert (xs + ys)[|xs| + i] == ys[i];
    }
  }

  /** A section that does not share a page starts a page at or after the end of the group. */
  lemma GroupEndsBefore(g: Group, v: View, n: nat)
    requires n < 64 && Pow2(n) < U64 && Summarises(g, Pow2(n)) && !SharesPage(g.data, v, Pow2(n))
    ensures g.data.address + g.data.size <= Start(v, Pow2(n)).aligned
  {
    hide AlignDown, Pow2;
    assert End(g.members[|g.members| - 1]) < U64;
  }

  lemma AllLaterBeyond(gs: seq<Group>, n: nat)
    requires n < 64 && Pow2(n) < U64 && gs != [] && Separated(gs) && Summarises(gs[0], Pow2(n))
    ensures forall l :: 0 <= l < |gs| ==> gs[0].data.aligned <= gs[l].data.aligned
  {
    AlignDownIs(gs[0].data.address, n);
  }

  /** The grouping as a whole: it partitions the sections in order, each record summarises its members,
      and the groups share no page. */
  lemma GroupsCorrect(vs: seq<View>, n: nat)
    requires n < 64 && vs != [] && Ascending(vs)
    ensures Pow2(n) < U64
    ensures var gs := Groups(vs, Pow2(n));
            && Flatten(gs) == vs
            && (forall k :: 0 <= k < |gs| ==> Summarises(gs[k], Pow2(n)))
            && Separated(gs)
  {
    AlignDownIs(0, n);
    assert vs == [vs[0]] + vs[1..];
    StartSummarises(vs[0], Pow2(n));
    GroupsFromCorrect(Group(Start(vs[0], Pow2(n)), [vs[0]]), vs[1..], n);
  }

  // ---------------------------------------------------------------- the cuts are exactly between pages

  function LastPage(v: View, alignment: u64): nat
    requires v.size > 0 && End(v) <= U64
  {
    AlignDown(End(v) - 1, alignment)
  }

  /** Neighbours inside a group share a page. */
  ghost predicate Chained(ms: seq<View>, alignment: u64) {
    forall i :: 0 < i < |ms| && ms[i - 1].size > 0 && End(ms[i - 1]) <= U64 ==>
      LastPage(ms[i - 1], alignment) == AlignDown(ms[i].address, alignment)
  }

  /** The last address of a group that has bytes, else where it starts. */
  function LastAddress(d: SectionData): nat {
    if d.size > 0 then d.address + d.size - 1 else d.address
  }

  /** The next section joins a group exactly when it starts on the page of the group's last address. */
  lemma SharingIsByPage(g: Group, v: View, n: nat)
    requires n < 64 && Pow2(n) < U64
    requires Summarises(g, Pow2(n)) && Ascending(g.members + [v])
    ensures LastAddress(g.data) < U64
    ensures SharesPage(g.data, v, Pow2(n)) <==> AlignDown(LastAddress(g.data), Pow2(n)) == AlignDown(v.address, Pow2(n))
  {
    hide AlignDown, Pow2, FlagsAgree, SharesPage;
    var u, all := g.members[|g.members| - 1], g.members + [v];
    assert all[|g.members| - 1] == u && all[|g.members|] == v;
    SharesByAddress(g.data, v, n);
  }

  lemma SharesByAddress(d: SectionData, v: View, n: nat)
    requires n < 64 && Pow2(n) < U64
    requires d.aligned == AlignDown(d.address, Pow2(n)) && d.address + d.size <= v.address
    ensures LastAddress(d) < U64
    ensures SharesPage(d, v, Pow2(n)) <==> AlignDown(LastAddress(d), Pow2(n)) == AlignDown(v.address, Pow2(n))
  {
    hide AlignDown, Pow2, StartsPageOf;
    var last := LastAddress(d);
    AlignedAt(d.address, n);
    AlignedAt(last, n);
    AlignedAt(v.address, n);
    SharesByNumbers(d.address, d.size, v.address, d.aligned, AlignDown(last, Pow2(n)), AlignDown(v.address, Pow2(n)),
                    Pow2(n));
    assert (d.address + d.size) % U64 == d.address + d.size;
  }

  /** `a` is the start of the page of x. */
  predicate StartsPageOf(a: nat, x: nat, p: nat) {
    p > 0 && a % p == 0 && a <= x < a + p
  }

  lemma AlignedAt(x: u64, n: nat)
    requires n < 64 && Pow2(n) < U64
    ensures StartsPageOf(AlignDown(x, Pow2(n)), x, Pow2(n))
  {
    hide Pow2, AlignDown;
    AlignDownIs(x, n);
  }

  lemma SharesByNumbers(address: nat, size: nat, next: nat, px: nat, pl: nat, pz: nat, p: nat)
    requires address + size <= next
    requires StartsPageOf(px, address, p) && StartsPageOf(pz, next, p)
    requires StartsPageOf(pl, if size > 0 then address + size - 1 else address, p)
    ensures px == pz || address + size > pz <==> pl == pz
  {
    if size > 0 {
      NeighbourPages(address, address + size - 1, next, px, pl, pz, p);
    } else {
      SamePage(address, next, px, pz, p);
      SamePage(address, address, px, pl, p);
    }
  }

  lemma SharingNeighbours(g: Group, v: View, n: nat)
    requires n < 64 && Pow2(n) < U64
    requires Summarises(g, Pow2(n)) && Ascending(g.members + [v]) && g.members[|g.members| - 1].size > 0
    ensures SharesPage(g.data, v, Pow2(n))
            <==> LastPage(g.members[|g.members| - 1], Pow2(n)) == AlignDown(v.address, Pow2(n))
  {
    hide AlignDown, Pow2, FlagsAgree, SharesPage;
    LastAboveFirst(g.members);
    SharingIsByPage(g, v, n);
  }

  lemma NeighbourPages(x: nat, y: nat, z: nat, px: nat, py: nat, pz: nat, p: nat)
    requires p > 0 && px % p == 0 && py % p == 0 && pz % p == 0
    requires px <= x < px + p && py <= y < py + p && pz <= z < pz + p && x <= y < z
    ensures px == pz || y + 1 > pz <==> py == pz
  {
    SamePage(y, z, py, pz, p);
    SamePage(x, y, px, py, p);
  }

  /** Two aligned starts of the pages of x <= y: y's page starts after x unless it is x's. */
  lemma SamePage(x: nat, y: nat, px: nat, py: nat, p: nat)
    requires p > 0 && px % p == 0 && py % p == 0 && px <= x < px + p && py <= y < py + p && x <= y
    ensures px <= py
    ensures px == py <==> py <= x
  {
    MultiplesApart(px, py, p);
    MultiplesApart(py, px, p);
  }

  lemma MultiplesApart(a: nat, b: nat, p: nat)
    requires p > 0 && a % p == 0 && b % p == 0
    ensures a < b ==> a + p <= b
  {
    var i, j := a / p, b / p;
    assert a == i * p && b == j * p;
    assert (j - i) * p == b - a;
    assert j - i >= 1 ==> (j - i) * p >= p;
    assert j - i <= 0 ==> (j - i) * p <= 0;
  }

  lemma LastAboveFirst(ms: seq<View>)
    requires ms != [] && Ascending(ms) && ms[|ms| - 1].size > 0
    ensures ms[0].address <= End(ms[|ms| - 1]) - 1
  {
    if |ms| > 1 {
      assert End(ms[0]) <= ms[|ms| - 1].address;
    }
  }

  ghost predicate AllChained(gs: seq<Group>, alignment: u64) {
    forall k :: 0 <= k < |gs| ==> Chained(gs[k].members, alignment)
  }

  /** The last member of each group with any bytes and the first of the next one share no page. */
  ghost predicate CutsBetweenPages(gs: seq<Group>, alignment: u64) {
    forall k :: 0 <= k && k + 1 < |gs| ==> CutBetween(gs[k], gs[k + 1], alignment)
  }

  ghost predicate CutBetween(g: Group, h: Group, alignment: u64) {
    && g.members != [] && h.members != []
    && var u := g.members[|g.members| - 1];
       u.size > 0 && End(u) <= U64 ==> LastPage(u, alignment) != AlignDown(h.members[0].address, alignment)
  }

  lemma {:induction false} GroupsFromCuts(g: Group, rest: seq<View>, n: nat)
    requires n < 64 && Pow2(n) < U64
    requires Summarises(g, Pow2(n)) && Chained(g.members, Pow2(n)) && Ascending(g.members + rest)
    ensures var gs := GroupsFrom(g, rest, Pow2(n));
            && AllChained(gs, Pow2(n)) && CutsBetweenPages(gs, Pow2(n))
            && gs[0].members != [] && gs[0].members[0] == g.members[0]
            && (rest != [] && !SharesPage(g.data, rest[0], Pow2(n)) ==> gs[0] == g)
    decreases |rest|
  {
    hide AlignDown, Merge, SharesPage, LastPage, Pow2, FlagsAgree, Chained, CutBetween;
    var a := Pow2(n);
    if rest != [] {
      var v := rest[0];
      assert (g.members + [v]) + rest[1..] == g.members + rest;
      PrefixAscending(g.members + [v], rest[1..]);
      if SharesPage(g.data, v, a) {
        MergeSummarises(g, v, a);
        ChainGrows(g, v, n);
        GroupsFromCuts(Group(Merge(g.data, v), g.members + [v]), rest[1..], n);
      } else {
        SuffixAscending(g.members, rest);
        assert [v] + rest[1..] == rest && End(rest[0]) < U64;
        StartSummarises(v, a);
        ChainStarts(v, a);
        var start := Group(Start(v, a), [v]);
        GroupsFromCuts(start, rest[1..], n);
        var gs := GroupsFrom(start, rest[1..], a);
        FirstCut(g, gs[0], v, n);
        forall k | 0 <= k && k + 1 < |[g] + gs|
          ensures CutBetween(([g] + gs)[k], ([g] + gs)[k + 1], a)
        {
          if k > 0 {
            assert CutBetween(gs[k - 1], gs[k], a);
          }
        }
      }
    }
  }

  lemma ChainStarts(v: View, alignment: u64)
    ensures Chained([v], alignment)
  {
  }

  lemma ChainGrows(g: Group, v: View, n: nat)
    requires n < 64 && Pow2(n) < U64 && SharesPage(g.data, v, Pow2(n))
    requires Summarises(g, Pow2(n)) && Chained(g.members, Pow2(n)) && Ascending(g.members + [v])
    ensures Chained(g.members + [v], Pow2(n))
  {
    hide AlignDown, SharesPage, LastPage, Pow2;
    var ms, all := g.members, g.members + [v];
    if ms[|ms| - 1].size > 0 {
      SharingNeighbours(g, v, n);
    }
    forall i | 0 < i < |all| && all[i - 1].size > 0 && End(all[i - 1]) <= U64
      ensures LastPage(all[i - 1], Pow2(n)) == AlignDown(all[i].address, Pow2(n))
    {
      if i < |ms| {
        assert all[i - 1] == ms[i - 1] && all[i] == ms[i];
      }
    }
  }

  lemma FirstCut(g: Group, h: Group, v: View, n: nat)
    requires n < 64 && Pow2(n) < U64 && Summarises(g, Pow2(n)) && Ascending(g.members + [v])
    requires !SharesPage(g.data, v, Pow2(n)) && h.members != [] && h.members[0] == v
    ensures CutBetween(g, h, Pow2(n))
  {
    hide AlignDown, SharesPage, LastPage, Pow2;
    if g.members[|g.members| - 1].size > 0 {
      SharingNeighbours(g, v, n);
    }
  }

  /** Sections are merged exactly when they share a page: neighbours in one group do, and across a cut
      they do not (sections of size zero touch no page). */
  lemma GroupsCutBetweenPages(vs: seq<View>, n: nat)
    requires n < 64 && vs != [] && Ascending(vs)
    ensures Pow2(n) < U64
    ensures AllChained(Groups(vs, Pow2(n)), Pow2(n)) && CutsBetweenPages(Groups(vs, Pow2(n)), Pow2(n))
  {
    AlignDownIs(0, n);
    assert vs == [vs[0]] + vs[1..];
    StartSummarises(vs[0], Pow2(n));
    ChainStarts(vs[0], Pow2(n));
    GroupsFromCuts(Group(Start(vs[0], Pow2(n)), [vs[0]]), vs[1..], n);
  }
}
