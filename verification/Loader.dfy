/** Resources of a load: address reservations and imported libraries. Whatever the operating system
    answers and wherever the load fails, everything acquired is released exactly once. */
module Loader {
  import opened Bits

  /** A reservation starts above zero, ends inside the address space and overlaps no live one. */
  predicate FitsIn(base: u64, size: u64, live: map<u64, u64>) {
    base > 0 && base !in live && size > 0 && base + size < U64
    && forall b :: b in live ==> base + size <= b || b + live[b] <= base
  }

  /** The part of the operating system the loader acquires things from. What it will answer is fixed by
      two arbitrary functions of the call number, so every behaviour is covered. */
  class OS {
    const offers: nat -> u64
    const libraries: nat -> nat
    var calls: nat
    var live: map<u64, u64>
    var handles: multiset<nat>
    var ranges: seq<(u64, u64)>

    method VirtualAlloc(size: u64) returns (base: u64, ok: bool)
      modifies this`calls, this`live
      ensures calls == old(calls) + 1
      ensures ok <==> old(FitsIn(offers(calls), size, live))
      ensures !ok ==> base == 0 && live == old(live)
      ensures ok ==> base == offers(old(calls)) && live == old(live)[base := size]
    {
      base := offers(calls);
      calls := calls + 1;
      ok := FitsIn(base, size, live);
      if ok {
        live := live[base := size];
      } else {
        base := 0;
      }
    }

    /** Releasing something that is not reserved would be an error; no caller may do it. */
    method VirtualFree(base: u64)
      requires base in live
      modifies this`live
      ensures live == old(live) - {base}
    {
      live := live - {base};
    }

    method LoadLibraryEx() returns (handle: nat, ok: bool)
      modifies this`calls, this`handles
      ensures calls == old(calls) + 1 && (ok <==> libraries(old(calls)) != 0)
      ensures ok ==> handles == old(handles) + multiset{handle}
      ensures !ok ==> handles == old(handles)
    {
      handle := libraries(calls);
      calls := calls + 1;
      ok := handle != 0;
      if ok {
        handles := handles + multiset{handle};
      }
    }

    /** Each reference to a library may be given back once. */
    method FreeLibrary(handle: nat)
      requires handle in handles
      modifies this`handles
      ensures handles == old(handles) - multiset{handle}
    {
      handles := handles - multiset{handle};
    }
  }

  datatype AddressList = Nil | Node(address: u64, next: AddressList) {
    function Addresses(): seq<u64> {
      match this
      case Nil => []
      case Node(a, next) => [a] + next.Addresses()
    }
  }

  predicate Distinct(xs: seq<u64>) {
    forall i, j :: 0 <= i < j < |xs| ==> xs[i] != xs[j]
  }

  function ToSet(xs: seq<u64>): set<u64> {
    set x | x in xs
  }

  /** `live` is `before` plus exactly the reservations `owned`, each once. */
  ghost predicate Owned(live: map<u64, u64>, before: map<u64, u64>, owned: seq<u64>) {
    && Distinct(owned)
    && (forall x :: x in owned ==> x in live && x !in before && x != 0)
    && live - ToSet(owned) == before
  }

  lemma OwnOneMore(live: map<u64, u64>, before: map<u64, u64>, owned: seq<u64>, base: u64, size: u64)
    requires Owned(live, before, owned) && base !in live && base != 0
    ensures Owned(live[base := size], before, [base] + owned)
  {
    var live' := live[base := size];
    assert base !in before by {
      assert forall b :: b in before ==> b in live - ToSet(owned);
    }
    assert ToSet([base] + owned) == {base} + ToSet(owned);
    assert live' - ({base} + ToSet(owned)) == live - ToSet(owned);
  }

  lemma OwnOneLess(live: map<u64, u64>, before: map<u64, u64>, owned: seq<u64>)
    requires owned != [] && Owned(live, before, owned)
    ensures Owned(live - {owned[0]}, before, owned[1..])
  {
    assert forall x :: x in owned[1..] ==> x in owned && x != owned[0];
    assert ToSet(owned) == {owned[0]} + ToSet(owned[1..]);
    assert (live - {owned[0]}) - ToSet(owned[1..]) == live - ToSet(owned);
  }

  // ---------------------------------------------------------------- 4 GiB boundaries

  /** The image would not lie within one 4 GiB block. */
  predicate Straddles(base: u64, size: u64) {
    base / U32 < (base + size) / U32
  }

  /** From the base to the end all addresses have the same upper 32 bits. */
  predicate InOneBlock(base: u64, size: u64) {
    base / 0x1_0000_0000 == (base + size) / 0x1_0000_0000
  }

  /** The k-th multiple of 2^32 lies behind the base and not behind the end. */
  predicate Crosses(base: u64, size: u64, k: nat) {
    base < k * 0x1_0000_0000 <= base + size
  }

  lemma StraddlesExactly(base: u64, size: u64)
    ensures Straddles(base, size) <==> !InOneBlock(base, size)
    ensures Straddles(base, size) <==> exists k :: Crosses(base, size, k)
  {
    if Straddles(base, size) {
      assert Crosses(base, size, base / U32 + 1);
    }
  }

  /** Every base that is kept as rejected has a multiple of 2^32 inside its reservation. */
  ghost predicate AllCross(rejected: seq<u64>, size: u64) {
    forall b :: b in rejected ==> exists k :: Crosses(b, size, k)
  }

  lemma OneMoreCrosses(base: u64, size: u64, rejected: seq<u64>)
    requires AllCross(rejected, size) && exists k :: Crosses(base, size, k)
    ensures AllCross([base] + rejected, size)
  {
    hide Crosses;
  }

  lemma RejectedCross(rejected: seq<u64>, live: map<u64, u64>, size: u64)
    requires AllRejected(rejected, live, size)
    ensures AllCross(rejected, size)
  {
    hide Straddles, Crosses;
    forall b | b in rejected
      ensures exists k :: Crosses(b, size, k)
    {
      StraddlesExactly(b, size);
    }
  }

  /** The number of the first 4 GiB boundary above the base. */
  function Boundary(base: u64): nat {
    base / U32 + 1
  }

  lemma StraddlerHoldsBoundary(base: u64, size: u64)
    requires Straddles(base, size) && base + size < U64
    ensures base < Boundary(base) * U32 <= base + size
    ensures 0 < Boundary(base) < U32
  {
  }

  /** Reservations that do not overlap hold different boundaries. */
  lemma DifferentBoundaries(b1: u64, s1: u64, b2: u64, s2: u64)
    requires Straddles(b1, s1) && Straddles(b2, s2) && b1 + s1 < U64 && b2 + s2 < U64
    requires b1 + s1 <= b2 || b2 + s2 <= b1
    ensures Boundary(b1) != Boundary(b2)
  {
    StraddlerHoldsBoundary(b1, s1);
    StraddlerHoldsBoundary(b2, s2);
  }

  predicate IsBoundary(k: nat) {
    0 < k < U32
  }

  /** Boundaries that no rejected reservation holds yet. */
  ghost function Unblocked(rejected: seq<u64>): set<nat> {
    (set k: nat | 0 < k < U32 && IsBoundary(k)) - (set b | b in rejected :: Boundary(b))
  }

  /** Every rejected reservation is kept, has the size of the image and straddles. */
  ghost predicate AllRejected(rejected: seq<u64>, live: map<u64, u64>, size: u64) {
    forall b :: b in rejected ==> b in live && live[b] == size && b + size < U64 && Straddles(b, size)
  }

  lemma OneBoundaryLess(rejected: seq<u64>, live: map<u64, u64>, base: u64, size: u64)
    requires AllRejected(rejected, live, size) && Straddles(base, size) && base + size < U64
    requires forall b :: b in rejected ==> base + size <= b || b + size <= base
    ensures Unblocked([base] + rejected) < Unblocked(rejected)
  {
    StraddlerHoldsBoundary(base, size);
    forall b | b in rejected
      ensures Boundary(b) != Boundary(base)
    {
      assert b in rejected;
      DifferentBoundaries(b, size, base, size);
    }
    assert Boundary(base) in Unblocked(rejected);
    assert base in [base] + rejected;
    assert Boundary(base) !in Unblocked([base] + rejected);
    assert forall b :: b in rejected ==> b in [base] + rejected;
    assert Unblocked([base] + rejected) <= Unblocked(rejected);
  }

  // ---------------------------------------------------------------- where a load ends

  /** A base, zero for none, and the number of the next call. */
  datatype Placed = Placed(base: u64, calls: nat)

  /** The first of two offers that fits. */
  function FirstBase(offers: nat -> u64, n: nat, live: map<u64, u64>, size: u64): Placed {
    if FitsIn(offers(n), size, live) then Placed(offers(n), n + 1)
    else if FitsIn(offers(n + 1), size, live) then Placed(offers(n + 1), n + 2)
    else Placed(0, n + 2)
  }

  /** The reservation in hand, and the rejected ones. */
  ghost predicate InHand(live: map<u64, u64>, base: u64, size: u64, rejected: seq<u64>) {
    && base != 0 && base in live && live[base] == size && base + size < U64
    && AllRejected(rejected, live, size)
    && forall b :: b in rejected ==> base + size <= b || b + size <= base
  }

  lemma NextInHand(live: map<u64, u64>, base: u64, size: u64, rejected: seq<u64>, next: u64)
    requires InHand(live, base, size, rejected) && Straddles(base, size) && FitsIn(next, size, live)
    ensures InHand(live[next := size], next, size, [base] + rejected)
    ensures Unblocked([base] + rejected) < Unblocked(rejected)
  {
    OneBoundaryLess(rejected, live, base, size);
  }

  /** The first offer that does not straddle, if every one before it fits beside the rejected ones. */
  ghost function Settle(offers: nat -> u64, n: nat, live: map<u64, u64>, base: u64, size: u64,
                        rejected: seq<u64>): (p: Placed)
    requires InHand(live, base, size, rejected)
    ensures p.base != 0 ==> !Straddles(p.base, size)
    decreases Unblocked(rejected)
  {
    if !Straddles(base, size) then Placed(base, n)
    else if !FitsIn(offers(n), size, live) then Placed(0, n + 1)
    else
      NextInHand(live, base, size, rejected, offers(n));
      Settle(offers, n + 1, live[offers(n) := size], offers(n), size, [base] + rejected)
  }

  /** The library of every import is found, with all its functions. */
  predicate Importable(libraries: nat -> nat, n: nat, imports: seq<Import>)
    decreases |imports|
  {
    imports == [] || (libraries(n) != 0 && AllFound(imports[0]) && Importable(libraries, n + 1, imports[1..]))
  }

  predicate AllFound(imported: Import) {
    forall j :: 0 <= j < |imported.found| ==> imported.found[j]
  }

  datatype Stop = BadFile | NoReservation | NoRetry | BadHeaders | NotCommitted | NotCopied | NotRelocated
                | NotImported | NotFinalized | NotHooked | NotAttached | Nowhere

  /** Where the load reserves its image in the end. */
  ghost function FinalBase(offers: nat -> u64, n: nat, live: map<u64, u64>, size: u64): Placed {
    var first := FirstBase(offers, n, live, size);
    if first.base == 0 then first
    else Settle(offers, first.calls, live[first.base := size], first.base, size, [])
  }

  /** The stage at which the load stops, given everything the operating system will answer. */
  ghost function StopOf(plan: Plan, offers: nat -> u64, libraries: nat -> nat, n: nat, live: map<u64, u64>): Stop {
    if !plan.valid then BadFile
    else if FirstBase(offers, n, live, plan.imageSize).base == 0 then NoReservation
    else
      var final := FinalBase(offers, n, live, plan.imageSize);
      if final.base == 0 then NoRetry else LaterStop(plan, libraries, final.calls)
  }

  /** The same from the point where the image has its place. */
  function LaterStop(plan: Plan, libraries: nat -> nat, n: nat): Stop {
    if !plan.headersFit then BadHeaders
    else if !plan.headersCommitted then NotCommitted
    else if !plan.copied then NotCopied
    else if !plan.relocated then NotRelocated
    else if !Importable(libraries, n, plan.imports) then NotImported
    else if !plan.finalized then NotFinalized
    else if !plan.hooked then NotHooked
    else if plan.hasEntry && plan.isDLL && !plan.attached then NotAttached
    else Nowhere
  }

  /** The call answers with a library, and all its functions are found. */
  predicate Imported(libraries: nat -> nat, call: nat, imported: Import) {
    libraries(call) != 0 && forall f :: f in imported.found ==> f
  }

  predicate AllImported(libraries: nat -> nat, n: nat, imports: seq<Import>) {
    forall i :: 0 <= i < |imports| ==> Imported(libraries, n + i, imports[i])
  }

  lemma ImportedCons(libraries: nat -> nat, n: nat, next: nat, first: Import, rest: seq<Import>)
    requires next == n + 1
    ensures AllImported(libraries, n, [first] + rest) <==>
            Imported(libraries, n, first) && AllImported(libraries, next, rest)
  {
    hide Imported;
    var all := [first] + rest;
    if AllImported(libraries, n, all) {
      assert Imported(libraries, n + 0, all[0]);
      forall i | 0 <= i < |rest|
        ensures Imported(libraries, next + i, rest[i])
      {
        assert Imported(libraries, n + (i + 1), all[i + 1]);
        assert n + (i + 1) == next + i;
      }
    }
    if Imported(libraries, n, first) && AllImported(libraries, next, rest) {
      forall i | 0 <= i < |all|
        ensures Imported(libraries, n + i, all[i])
      {
        if i > 0 {
          assert Imported(libraries, next + (i - 1), rest[i - 1]);
          assert next + (i - 1) == n + i;
        }
      }
    }
  }

  lemma {:induction false} ImportableIs(libraries: nat -> nat, n: nat, imports: seq<Import>)
    ensures Importable(libraries, n, imports) <==> AllImported(libraries, n, imports)
    decreases |imports|
  {
    hide AllImported;
    if imports == [] {
      NothingImported(libraries, n);
    } else {
      assert imports == [imports[0]] + imports[1..];
      EachFound(imports[0]);
      ImportedCons(libraries, n, n + 1, imports[0], imports[1..]);
      ImportableIs(libraries, n + 1, imports[1..]);
    }
  }

  lemma EachFound(imported: Import)
    ensures AllFound(imported) <==> forall f :: f in imported.found ==> f
  {
    assert forall j :: 0 <= j < |imported.found| ==> imported.found[j] in imported.found;
  }

  lemma NothingImported(libraries: nat -> nat, n: nat)
    ensures AllImported(libraries, n, [])
  {
  }

  /** Every stage of the load that can fail does not. */
  predicate AllStagesSucceed(plan: Plan, libraries: nat -> nat, n: nat) {
    && plan.valid && plan.headersFit && plan.headersCommitted && plan.copied && plan.relocated
    && AllImported(libraries, n, plan.imports)
    && plan.finalized && plan.hooked
    && (plan.attached || !plan.hasEntry || !plan.isDLL)
  }

  /** A load succeeds iff it finds its place and every stage succeeds. */
  lemma SucceedsExactly(plan: Plan, offers: nat -> u64, libraries: nat -> nat, n: nat, live: map<u64, u64>)
    ensures var place := FinalBase(offers, n, live, plan.imageSize);
            StopOf(plan, offers, libraries, n, live) == Nowhere
            <==> place.base != 0 && AllStagesSucceed(plan, libraries, place.calls)
  {
    hide FirstBase, Settle, Importable, AllImported;
    ImportableIs(libraries, FinalBase(offers, n, live, plan.imageSize).calls, plan.imports);
  }

  /** A load that fails in the entry of the library, with everything before it in order: it leaves an entry
      behind. */
  lemma EntryLeftBehind() returns (plan: Plan, offers: nat -> u64, libraries: nat -> nat)
    ensures StopOf(plan, offers, libraries, 0, map[]) == NotAttached && EntryAdded(NotAttached)
  {
    plan := Plan(true, 0x1000, true, true, true, true, [], true, true, true, true, false);
    offers, libraries := _ => 0x1000, _ => 0;
    assert FirstBase(offers, 0, map[], 0x1000) == Placed(0x1000, 1);
    assert !Straddles(0x1000, 0x1000);
  }

  // ---------------------------------------------------------------- the module

  /** One imported library: whether each of its functions is found. */
  datatype Import = Import(found: seq<bool>)

  /** How the stages of one load turn out that acquire nothing themselves. */
  datatype Plan = Plan(valid: bool, imageSize: u64, headersFit: bool, headersCommitted: bool, copied: bool,
                       relocated: bool, imports: seq<Import>, finalized: bool, hooked: bool,
                       hasEntry: bool, isDLL: bool, attached: bool)

  class Module {
    var codeBase: u64
    var modules: seq<nat>
    var initialized: bool
    var blockedMemory: AddressList

    constructor ()
      ensures codeBase == 0 && modules == [] && !initialized && blockedMemory == Nil
    {
      codeBase, modules, initialized, blockedMemory := 0, [], false, Nil;
    }

    /** The reservations the module has to release, each once. */
    function Bases(): seq<u64>
      reads this
    {
      (if codeBase != 0 then [codeBase] else []) + blockedMemory.Addresses()
    }

    /** Compared with an earlier state of the operating system, exactly this module's resources are new. */
    ghost predicate Owns(os: OS, live: map<u64, u64>, handles: multiset<nat>)
      reads this, os
    {
      Owned(os.live, live, Bases()) && os.handles == handles + multiset(modules)
    }

    predicate Empty()
      reads this
    {
      codeBase == 0 && modules == [] && blockedMemory == Nil
    }

    lemma EmptyOwnsNothing(os: OS)
      requires Empty()
      ensures Owns(os, os.live, os.handles)
    {
      assert Bases() == [];
      assert os.live - ToSet([]) == os.live;
    }

    /** Releases what the module owns. A second call finds nothing left to release. */
    method Free(os: OS, ghost live: map<u64, u64>, ghost handles: multiset<nat>)
      requires Owns(os, live, handles)
      modifies this, os`live, os`handles
      ensures Owns(os, live, handles) && Empty() && !initialized
      ensures os.live == live && os.handles == handles
    {
      initialized := false;
      FreeModules(os, handles);
      FreeMemory(os, live);
      assert Bases() == [];
    }

    method FreeMemory(os: OS, ghost live: map<u64, u64>)
      requires Owned(os.live, live, Bases())
      modifies this`codeBase, this`blockedMemory, os`live
      ensures codeBase == 0 && blockedMemory == Nil && os.live == live
    {
      if codeBase != 0 {
        OwnOneLess(os.live, live, Bases());
        assert Bases()[1..] == blockedMemory.Addresses();
        os.VirtualFree(codeBase);
        codeBase := 0;
      } else {
        assert Bases() == blockedMemory.Addresses();
      }
      FreeBlocked(os, blockedMemory, live);
      blockedMemory := Nil;
    }

    method FreeModules(os: OS, ghost handles: multiset<nat>)
      requires os.handles == handles + multiset(modules)
      modifies this`modules, os`handles
      ensures modules == [] && os.handles == handles
    {
      var i := 0;
      while i < |modules|
        invariant 0 <= i <= |modules|
        invariant os.handles == handles + multiset(modules[i..])
      {
        assert modules[i..] == [modules[i]] + modules[i + 1..];
        os.FreeLibrary(modules[i]);
        i := i + 1;
      }
      modules := [];
    }

    /** Follows the list of rejected reservations. */
    static method FreeBlocked(os: OS, head: AddressList, ghost live: map<u64, u64>)
      requires Owned(os.live, live, head.Addresses())
      modifies os`live
      ensures os.live == live
    {
      var node := head;
      while node.Node?
        invariant Owned(os.live, live, node.Addresses())
        decreases node
      {
        OwnOneLess(os.live, live, node.Addresses());
        assert node.Addresses()[1..] == node.next.Addresses();
        os.VirtualFree(node.address);
        node := node.next;
      }
      assert ToSet([]) == {};
      assert os.live - {} == os.live;
    }

    ghost predicate Reserved(os: OS, size: u64)
      reads this, os
    {
      codeBase in os.live && os.live[codeBase] == size && codeBase + size < U64
    }

    /** First try at the preferred base, then anywhere. */
    method Reserve(os: OS, size: u64, ghost live: map<u64, u64>, ghost handles: multiset<nat>) returns (ok: bool)
      requires Owns(os, live, handles) && codeBase == 0 && blockedMemory == Nil
      modifies this`codeBase, os`calls, os`live
      ensures Owns(os, live, handles)
      ensures ok <==> codeBase != 0
      ensures Placed(codeBase, os.calls) == FirstBase(os.offers, old(os.calls), old(os.live), size)
      ensures os.live == if ok then old(os.live)[codeBase := size] else old(os.live)
      ensures ok ==> Reserved(os, size)
    {
      ghost var start := os.live;
      codeBase, ok := os.VirtualAlloc(size);
      if !ok {
        codeBase, ok := os.VirtualAlloc(size);
      }
      if ok {
        OwnOneMore(start, live, [], codeBase, size);
        assert [codeBase] + [] == Bases();
      } else {
        assert Bases() == [];
      }
    }

    /** Keeps every reservation that straddles a 4 GiB boundary, so that the next one must be elsewhere,
        until one does not straddle. Whatever is offered, each turn uses up a boundary for good. */
    method Check4GBBoundaries(os: OS, size: u64, ghost live: map<u64, u64>, ghost handles: multiset<nat>)
      returns (ok: bool)
      requires Owns(os, live, handles) && Reserved(os, size) && codeBase != 0 && blockedMemory == Nil
      modifies this`codeBase, this`blockedMemory, os`calls, os`live
      ensures Owns(os, live, handles)
      ensures InHand(old(os.live), old(codeBase), size, [])
      ensures Placed(codeBase, os.calls) == Settle(os.offers, old(os.calls), old(os.live), old(codeBase), size, [])
      ensures ok <==> codeBase != 0
      ensures ok ==> Reserved(os, size) && InOneBlock(codeBase, size)
      ensures InOneBlock(old(codeBase), size) ==> ok && codeBase == old(codeBase) && blockedMemory == Nil
      ensures AllCross(blockedMemory.Addresses(), size)
    {
      hide Settle, Straddles, Unblocked, AllRejected, FitsIn, Owned, InOneBlock, AllCross, Crosses;
      NoneRejected(os.live, size);
      StraddlesExactly(codeBase, size);
      RejectedCross([], os.live, size);
      ghost var goal := Settle(os.offers, os.calls, os.live, codeBase, size, []);
      while Straddles(codeBase, size)
        invariant Owns(os, live, handles) && codeBase != 0
        invariant InHand(os.live, codeBase, size, blockedMemory.Addresses())
        invariant goal == Settle(os.offers, os.calls, os.live, codeBase, size, blockedMemory.Addresses())
        invariant AllCross(blockedMemory.Addresses(), size)
        invariant InOneBlock(old(codeBase), size) ==> codeBase == old(codeBase) && blockedMemory == Nil
        decreases Unblocked(blockedMemory.Addresses())
      {
        SettleStep(os.offers, os.calls, os.live, codeBase, size, blockedMemory.Addresses());
        StraddlesExactly(codeBase, size);
        OneMoreCrosses(codeBase, size, blockedMemory.Addresses());
        ok := RejectAndRetry(os, size, live, handles);
        if !ok {
          return;
        }
      }
      StraddlesExactly(codeBase, size);
      SettleStep(os.offers, os.calls, os.live, codeBase, size, blockedMemory.Addresses());
      return true;
    }

    /** One turn: the base in hand goes to the front of the list, and another is asked for. */
    method RejectAndRetry(os: OS, size: u64, ghost live: map<u64, u64>, ghost handles: multiset<nat>) returns (ok: bool)
      requires Owns(os, live, handles) && codeBase != 0
      modifies this`codeBase, this`blockedMemory, os`calls, os`live
      ensures Owns(os, live, handles)
      ensures blockedMemory.Addresses() == [old(codeBase)] + old(blockedMemory.Addresses())
      ensures os.calls == old(os.calls) + 1
      ensures ok <==> FitsIn(os.offers(old(os.calls)), size, old(os.live))
      ensures ok ==> codeBase == os.offers(old(os.calls)) != 0 && os.live == old(os.live)[codeBase := size]
      ensures !ok ==> codeBase == 0 && os.live == old(os.live)
    {
      ghost var start, rejected := os.live, blockedMemory.Addresses();
      assert Bases() == [codeBase] + rejected;
      blockedMemory := Node(codeBase, blockedMemory);
      assert blockedMemory.Addresses() == [blockedMemory.address] + rejected;
      codeBase, ok := os.VirtualAlloc(size);
      if ok {
        OwnOneMore(start, live, blockedMemory.Addresses(), codeBase, size);
        assert Bases() == [codeBase] + blockedMemory.Addresses();
      } else {
        assert Bases() == blockedMemory.Addresses();
      }
    }

    /** Loads the imported libraries one by one; the one whose functions cannot all be found is given
        back at once, the ones before it stay with the module. */
    method BuildImportTable(os: OS, imports: seq<Import>, ghost handles: multiset<nat>) returns (ok: bool)
      requires os.handles == handles && modules == []
      modifies this`modules, os`calls, os`handles
      ensures os.handles == handles + multiset(modules)
      ensures ok ==> |modules| == |imports|
      ensures ok <==> Importable(os.libraries, old(os.calls), imports)
    {
      hide AllFound, Importable;
      ghost var all := Importable(os.libraries, os.calls, imports);
      var i := 0;
      assert imports[0..] == imports;
      while i < |imports|
        invariant 0 <= i <= |imports| && |modules| == i
        invariant os.handles == handles + multiset(modules)
        invariant all == Importable(os.libraries, os.calls, imports[i..])
      {
        ImportableStep(os.libraries, os.calls, imports, i);
        var handle;
        handle, ok := BindImport(os, imports[i]);
        if !ok {
          return;
        }
        assert multiset(modules + [handle]) == multiset(modules) + multiset{handle};
        modules := modules + [handle];
        i := i + 1;
      }
      ImportableStep(os.libraries, os.calls, imports, i);
      return true;
    }
  }

  /** One library, with all its functions; if one of them is missing the library is given back at once. */
  method BindImport(os: OS, imported: Import) returns (handle: nat, ok: bool)
    modifies os`calls, os`handles
    ensures os.calls == old(os.calls) + 1
    ensures ok <==> os.libraries(old(os.calls)) != 0 && AllFound(imported)
    ensures os.handles == if ok then old(os.handles) + multiset{handle} else old(os.handles)
  {
    hide AllFound;
    handle, ok := os.LoadLibraryEx();
    if ok {
      ok := FindAll(imported);
      if !ok {
        os.FreeLibrary(handle);
      }
    }
  }

  /** Looks up the functions of one library, up to the first that is missing. */
  method FindAll(imported: Import) returns (ok: bool)
    ensures ok <==> AllFound(imported)
  {
    var j := 0;
    while j < |imported.found|
      invariant 0 <= j <= |imported.found|
      invariant forall k :: 0 <= k < j ==> imported.found[k]
    {
      if !imported.found[j] {
        return false;
      }
      j := j + 1;
    }
    return true;
  }

  lemma ImportableStep(libraries: nat -> nat, n: nat, imports: seq<Import>, i: nat)
    requires i <= |imports|
    ensures Importable(libraries, n, imports[i..]) <==>
            i == |imports| || (libraries(n) != 0 && AllFound(imports[i])
                               && Importable(libraries, n + 1, imports[i + 1..]))
  {
    assert i < |imports| ==> imports[i..][1..] == imports[i + 1..];
  }

  lemma InvalidStops(plan: Plan, offers: nat -> u64, libraries: nat -> nat, n: nat, live: map<u64, u64>)
    ensures StopOf(plan, offers, libraries, n, live) == BadFile <==> !plan.valid
  {
  }

  lemma NoneRejected(live: map<u64, u64>, size: u64)
    ensures AllRejected([], live, size)
  {
  }

  lemma SettleStep(offers: nat -> u64, n: nat, live: map<u64, u64>, base: u64, size: u64, rejected: seq<u64>)
    requires InHand(live, base, size, rejected)
    ensures !Straddles(base, size) ==> Settle(offers, n, live, base, size, rejected) == Placed(base, n)
    ensures Straddles(base, size) && !FitsIn(offers(n), size, live)
            ==> Settle(offers, n, live, base, size, rejected) == Placed(0, n + 1)
    ensures Straddles(base, size) && FitsIn(offers(n), size, live) ==>
              && offers(n) != 0 && offers(n) !in live && offers(n) + size < U64
              && InHand(live[offers(n) := size], offers(n), size, [base] + rejected)
              && Unblocked([base] + rejected) < Unblocked(rejected)
              && Settle(offers, n, live, base, size, rejected)
                 == Settle(offers, n + 1, live[offers(n) := size], offers(n), size, [base] + rejected)
  {
    hide AllRejected, Unblocked, Straddles, InHand;
    if Straddles(base, size) && FitsIn(offers(n), size, live) {
      NextInHand(live, base, size, rejected, offers(n));
    }
  }

  /** The list of loaded ranges has one entry more iff the load got as far as the hook. */
  predicate EntryAdded(stop: Stop) {
    stop in {NotHooked, NotAttached, Nowhere}
  }

  /** The whole load. A failed one leaves no reservation and no library reference behind. It leaves an entry
      in the list of loaded ranges exactly if it stops at the hook or in the entry of the library, and
      nothing ever removes that entry. */
  method LoadLibrary(os: OS, plan: Plan) returns (loaded: Module?, ghost stop: Stop)
    modifies os`calls, os`live, os`handles, os`ranges
    ensures stop == StopOf(plan, os.offers, os.libraries, old(os.calls), old(os.live))
    ensures loaded != null <==> stop == Nowhere
    ensures loaded == null ==> os.live == old(os.live) && os.handles == old(os.handles)
    ensures loaded != null ==>
              && fresh(loaded) && loaded.Owns(os, old(os.live), old(os.handles))
              && |loaded.modules| == |plan.imports|
    ensures var base := FinalBase(os.offers, old(os.calls), old(os.live), plan.imageSize).base;
            && (loaded != null ==> loaded.codeBase == base != 0 && InOneBlock(base, plan.imageSize))
            && os.ranges == (if EntryAdded(stop) then old(os.ranges) + [(base, base + plan.imageSize)]
                             else old(os.ranges))
  {
    hide StopOf, FinalBase, Owned, InOneBlock;
    InvalidStops(plan, os.offers, os.libraries, os.calls, os.live);
    if !plan.valid {
      return null, BadFile;
    }
    ghost var live, handles := os.live, os.handles;
    var m := new Module();
    var ok;
    ok, stop := LoadStages(m, os, plan, live, handles);
    if !ok {
      m.Free(os, live, handles);
      return null, stop;
    }
    return m, stop;
  }

  /** Everything between the creation of the module and its return, with every failure exit. */
  method LoadStages(m: Module, os: OS, plan: Plan, ghost live: map<u64, u64>, ghost handles: multiset<nat>)
    returns (ok: bool, ghost stop: Stop)
    requires m.Empty() && !m.initialized && os.live == live && os.handles == handles && plan.valid
    modifies m, os`calls, os`live, os`handles, os`ranges
    ensures stop == StopOf(plan, os.offers, os.libraries, old(os.calls), live)
    ensures ok <==> stop == Nowhere
    ensures m.Owns(os, live, handles)
    ensures ok ==> |m.modules| == |plan.imports|
    ensures var base := FinalBase(os.offers, old(os.calls), live, plan.imageSize).base;
            && (ok ==> m.codeBase == base != 0 && InOneBlock(base, plan.imageSize))
            && os.ranges == (if EntryAdded(stop) then old(os.ranges) + [(base, base + plan.imageSize)]
                             else old(os.ranges))
  {
    hide Owned, InOneBlock, AllRejected, FirstBase, Settle, LaterStop, InHand, AllCross;
    stop := StopOf(plan, os.offers, os.libraries, os.calls, live);
    m.EmptyOwnsNothing(os);
    ok := m.Reserve(os, plan.imageSize, live, handles);
    if !ok {
      return;
    }
    ok := m.Check4GBBoundaries(os, plan.imageSize, live, handles);
    if !ok {
      return;
    }
    ok := FinishLoad(m, os, plan, live, handles);
  }

  /** The stages of an image that has its place. */
  method FinishLoad(m: Module, os: OS, plan: Plan, ghost live: map<u64, u64>, ghost handles: multiset<nat>)
    returns (ok: bool)
    requires m.Owns(os, live, handles) && m.modules == [] && os.handles == handles && m.codeBase + plan.imageSize < U64
    modifies m`modules, m`initialized, os`calls, os`handles, os`ranges
    ensures m.Owns(os, live, handles)
    ensures ok <==> LaterStop(plan, os.libraries, old(os.calls)) == Nowhere
    ensures ok ==> |m.modules| == |plan.imports|
    ensures os.ranges ==
            if EntryAdded(LaterStop(plan, os.libraries, old(os.calls)))
            then old(os.ranges) + [(m.codeBase, m.codeBase + plan.imageSize)] else old(os.ranges)
  {
    hide Owned, Importable;
    if !plan.headersFit || !plan.headersCommitted || !plan.copied || !plan.relocated {
      return false;
    }
    ok := m.BuildImportTable(os, plan.imports, handles);
    if !ok || !plan.finalized {
      return false;
    }
    os.ranges := os.ranges + [(m.codeBase, m.codeBase + plan.imageSize)];
    if !plan.hooked {
      return false;
    }
    if plan.hasEntry && plan.isDLL {
      if !plan.attached {
        return false;
      }
      m.initialized := true;
    }
    return true;
  }
}
