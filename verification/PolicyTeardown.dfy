/** Taking the rules down again. A deletion names a family and a priority, and removes the first rule
    that has both. */
module PolicyTeardown {
  import opened PolicyRules
  import opened PolicyMeaning
  import opened PolicyTable

  /** A priority below zero is not passed on to the kernel, which then takes any. */
  datatype Wanted = Any | Exactly(priority: int)

  function Request(priority: int): Wanted {
    if priority < 0 then Any else Exactly(priority)
  }

  predicate Fits(r: Rule, family: Family, wanted: Wanted) {
    r.family == family && (wanted.Exactly? ==> r.priority == wanted.priority)
  }

  predicate Has(t: seq<Rule>, family: Family, wanted: Wanted) {
    exists i :: 0 <= i < |t| && Fits(t[i], family, wanted)
  }

  function DeleteFirst(t: seq<Rule>, family: Family, wanted: Wanted): seq<Rule>
    decreases |t|
  {
    if t == [] then []
    else if Fits(t[0], family, wanted) then t[1..]
    else [t[0]] + DeleteFirst(t[1..], family, wanted)
  }

  datatype Unset = Unset(rules: seq<Rule>, ok: bool)

  /** Deletes one IPv6 rule of each priority, and stops at the first priority that no rule has. */
  function DeleteEach6(t: seq<Rule>, priorities: seq<int>): Unset
    decreases |priorities|
  {
    if priorities == [] then Unset(t, true)
    else if !Has(t, V6, Request(priorities[0])) then Unset(t, false)
    else DeleteEach6(DeleteFirst(t, V6, Request(priorities[0])), priorities[1..])
  }

  lemma {:induction false} NothingToDelete(t: seq<Rule>, family: Family, wanted: Wanted)
    ensures !Has(t, family, wanted) ==> DeleteFirst(t, family, wanted) == t
    decreases |t|
  {
    if t != [] && !Has(t, family, wanted) {
      assert t == [t[0]] + t[1..] && !Fits(t[0], family, wanted);
      HasCons(t[0], t[1..], family, wanted);
      NothingToDelete(t[1..], family, wanted);
    }
  }

  /** The k-th addition is the first that the kernel refuses. */
  ghost predicate FirstRefused(list: seq<Rule>, adds: nat -> bool, k: nat) {
    k < |list| && !adds(k) && forall i: nat :: i < k ==> adds(i)
  }

  /** The kernel's rule table, and the priorities the device has noted for rules of its own choosing. */
  class RuleTable {
    var rules: seq<Rule>
    var ruleIndex6: seq<int>

    constructor (rules: seq<Rule>)
      ensures this.rules == rules && ruleIndex6 == []
    {
      this.rules, ruleIndex6 := rules, [];
    }

    /** Adds the rules in order; the first failure stops it and leaves what has been added. */
    method SetRules(list: seq<Rule>, adds: nat -> bool) returns (ok: bool)
      modifies this`rules
      ensures ok <==> forall k: nat :: k < |list| ==> adds(k)
      ensures ok ==> rules == AddAll(old(rules), list)
      ensures !ok ==> exists k: nat :: FirstRefused(list, adds, k) && rules == AddAll(old(rules), list[..k])
    {
      var i := 0;
      while i < |list|
        invariant 0 <= i <= |list|
        invariant rules == AddAll(old(rules), list[..i])
        invariant forall k :: 0 <= k < i ==> adds(k)
      {
        if !adds(i) {
          assert FirstRefused(list, adds, i);
          return false;
        }
        AddAllSnoc(old(rules), list[..i], list[i]);
        assert list[..i + 1] == list[..i] + [list[i]];
        rules := Add(rules, list[i]);
        i := i + 1;
      }
      assert list[..i] == list;
      return true;
    }

    method Delete(family: Family, wanted: Wanted) returns (ok: bool)
      modifies this`rules
      ensures ok <==> old(Has(rules, family, wanted))
      ensures rules == DeleteFirst(old(rules), family, wanted)
    {
      ok := Has(rules, family, wanted);
      rules := DeleteFirst(rules, family, wanted);
    }

    /** Takes away one rule for every rule in the device's range; everything else stays as it is. */
    method UnsetAutoRules(start: int) returns (ok: bool)
      modifies this`rules
      ensures ok && rules == Outside(old(rules), start)
      ensures forall r :: r in rules <==> r in old(rules) && !(start <= r.priority <= start + 10)
    {
      hide DeleteFirst, Outside, Keys;
      OutsideIs(rules, start);
      var list := rules;
      var i := 0;
      assert list[0..] == list;
      while i < |list|
        invariant 0 <= i <= |list|
        invariant Outside(rules, start) == Outside(list, start)
        invariant multiset(Keys(rules, start)) == multiset(Keys(list[i..], start))
      {
        KeysStep(list, start, i);
        if InRange(list[i], start) {
          assert (list[i].family, list[i].priority) in Keys(list[i..], start);
          DeleteOne(rules, start, list[i].family, list[i].priority);
          var deleted := Delete(list[i].family, Exactly(list[i].priority));
          if !deleted {
            return false;
          }
        }
        i := i + 1;
      }
      NoKeys(list[i..], start);
      KeylessIsOutside(rules, start);
      return true;
    }

    /** The rules with priorities the device had chosen itself, up to the first that is missing. */
    method UnsetOwnRules() returns (ok: bool)
      modifies this
      ensures Unset(rules, ok) == DeleteEach6(old(rules), old(ruleIndex6))
      ensures ruleIndex6 == (if ok then [] else old(ruleIndex6))
    {
      hide DeleteFirst, Has;
      ghost var goal := DeleteEach6(rules, ruleIndex6);
      var i := 0;
      assert ruleIndex6[0..] == ruleIndex6;
      while i < |ruleIndex6|
        invariant 0 <= i <= |ruleIndex6| && ruleIndex6 == old(ruleIndex6)
        invariant goal == DeleteEach6(rules, ruleIndex6[i..])
      {
        assert ruleIndex6[i..][1..] == ruleIndex6[i + 1..];
        NothingToDelete(rules, V6, Request(ruleIndex6[i]));
        ok := Delete(V6, Request(ruleIndex6[i]));
        if !ok {
          return false;
        }
        i := i + 1;
      }
      ruleIndex6 := [];
      return true;
    }

    /** One below the smallest positive IPv6 priority; -1 if there is none or the table cannot be read. */
    method NextIndex6(listed: bool) returns (index: int)
      modifies this`ruleIndex6
      ensures index == if listed then LowestPositive6(rules) - 1 else -1
      ensures ruleIndex6 == if listed then old(ruleIndex6) + [index] else old(ruleIndex6)
    {
      if !listed {
        return -1;
      }
      var minIndex := 0;
      var i := 0;
      assert rules[0..] == rules;
      while i < |rules|
        invariant 0 <= i <= |rules| && ruleIndex6 == old(ruleIndex6) && minIndex >= 0
        invariant LowestPositive6(rules) == Lower(minIndex, LowestPositive6(rules[i..]))
      {
        assert rules[i..][0] == rules[i] && rules[i..][1..] == rules[i + 1..];
        if rules[i].family == V6 && rules[i].priority > 0 && (minIndex == 0 || rules[i].priority < minIndex) {
          minIndex := rules[i].priority;
        }
        i := i + 1;
      }
      index := minIndex - 1;
      ruleIndex6 := ruleIndex6 + [index];
    }
  }

  lemma {:induction false} AddAllSnoc(t: seq<Rule>, rules: seq<Rule>, r: Rule)
    ensures AddAll(t, rules + [r]) == Add(AddAll(t, rules), r)
    decreases |rules|
  {
    hide Add;
    if rules == [] {
      assert [] + [r] == [r] && [r][1..] == [];
      assert AddAll(Add(t, r), []) == Add(t, r);
    } else {
      assert (rules + [r])[1..] == rules[1..] + [r];
      AddAllSnoc(Add(t, rules[0]), rules[1..], r);
    }
  }

  // ---------------------------------------------------------------- the device's range

  /** Family and priority of every rule in the range. */
  function Keys(t: seq<Rule>, start: int): seq<(Family, int)>
    decreases |t|
  {
    if t == [] then []
    else if InRange(t[0], start) then [(t[0].family, t[0].priority)] + Keys(t[1..], start)
    else Keys(t[1..], start)
  }

  lemma KeysStep(t: seq<Rule>, start: int, i: nat)
    requires i < |t|
    ensures multiset(Keys(t[i..], start)) ==
            multiset(Keys(t[i + 1..], start))
            + (if InRange(t[i], start) then multiset{(t[i].family, t[i].priority)} else multiset{})
    ensures InRange(t[i], start) ==> (t[i].family, t[i].priority) in Keys(t[i..], start)
  {
    assert t[i..][1..] == t[i + 1..];
  }

  lemma NoKeys(t: seq<Rule>, start: int)
    requires t == []
    ensures Keys(t, start) == []
  {
  }

  lemma {:induction false} KeyOfRule(t: seq<Rule>, start: int, family: Family, priority: int)
    requires (family, priority) in Keys(t, start)
    ensures start <= priority <= start + RANGE && Has(t, family, Exactly(priority))
    decreases |t|
  {
    if Fits(t[0], family, Exactly(priority)) && InRange(t[0], start) {
    } else {
      KeyOfRule(t[1..], start, family, priority);
      var j :| 0 <= j < |t| - 1 && Fits(t[1..][j], family, Exactly(priority));
      assert Fits(t[j + 1], family, Exactly(priority));
    }
  }

  lemma Cons(r: Rule, t: seq<Rule>, start: int)
    ensures Outside([r] + t, start) == if InRange(r, start) then Outside(t, start) else [r] + Outside(t, start)
    ensures Keys([r] + t, start)
            == if InRange(r, start) then [(r.family, r.priority)] + Keys(t, start) else Keys(t, start)
  {
    assert ([r] + t)[1..] == t;
  }

  /** Deleting a rule in the range takes away its key once, and nothing outside the range. */
  lemma {:induction false} DeleteOne(t: seq<Rule>, start: int, family: Family, priority: int)
    requires (family, priority) in multiset(Keys(t, start))
    ensures Has(t, family, Exactly(priority))
    ensures Outside(DeleteFirst(t, family, Exactly(priority)), start) == Outside(t, start)
    ensures multiset(Keys(DeleteFirst(t, family, Exactly(priority)), start))
            == multiset(Keys(t, start)) - multiset{(family, priority)}
    decreases |t|
  {
    hide Has, Outside, Keys;
    KeyOfRule(t, start, family, priority);
    NoKeys([], start);
    var r, rest := t[0], t[1..];
    assert t == [r] + rest;
    Cons(r, rest, start);
    if !Fits(r, family, Exactly(priority)) {
      var d := DeleteFirst(rest, family, Exactly(priority));
      DeleteOne(rest, start, family, priority);
      Cons(r, d, start);
      OneKeyLess(r, rest, d, start, (family, priority));
    }
  }

  lemma OneKeyLess(r: Rule, rest: seq<Rule>, d: seq<Rule>, start: int, key: (Family, int))
    requires multiset(Keys(d, start)) == multiset(Keys(rest, start)) - multiset{key} && key in Keys(rest, start)
    ensures multiset(Keys([r] + d, start)) == multiset(Keys([r] + rest, start)) - multiset{key}
  {
    hide Keys, Outside;
    Cons(r, rest, start);
    Cons(r, d, start);
  }

  lemma {:induction false} KeylessIsOutside(t: seq<Rule>, start: int)
    requires multiset(Keys(t, start)) == multiset([])
    ensures Outside(t, start) == t
    decreases |t|
  {
    assert |Keys(t, start)| == |multiset(Keys(t, start))| == 0;
    if t != [] {
      KeylessIsOutside(t[1..], start);
    }
  }

  lemma {:induction false} AddOutside(t: seq<Rule>, r: Rule, start: int)
    requires InRange(r, start)
    ensures Outside(Add(t, r), start) == Outside(t, start)
    decreases |t|
  {
    if t == [] || t[0].priority > r.priority {
      assert ([r] + t)[1..] == t;
    } else {
      AddOutside(t[1..], r, start);
      assert ([t[0]] + Add(t[1..], r))[1..] == Add(t[1..], r);
    }
  }

  lemma {:induction false} AddAllOutside(t: seq<Rule>, rules: seq<Rule>, start: int)
    requires AllInRange(rules, start)
    ensures Outside(AddAll(t, rules), start) == Outside(t, start)
    decreases |rules|
  {
    hide Add, Outside;
    if rules != [] {
      AddOutside(t, rules[0], start);
      assert forall i :: 0 <= i < |rules| - 1 ==> rules[1..][i] == rules[i + 1];
      AddAllOutside(Add(t, rules[0]), rules[1..], start);
    }
  }

  lemma {:induction false} OutsideIs(t: seq<Rule>, start: int)
    ensures forall r :: r in Outside(t, start) <==> r in t && !(start <= r.priority <= start + 10)
    decreases |t|
  {
    if t != [] {
      assert t == [t[0]] + t[1..];
      OutsideIs(t[1..], start);
    }
  }

  lemma {:induction false} OutsideIsAll(t: seq<Rule>, start: int)
    ensures |Outside(t, start)| <= |t|
    ensures Outside(t, start) == t <==> NoneInRange(t, start)
    decreases |t|
  {
    if t != [] {
      OutsideIsAll(t[1..], start);
      assert forall i :: 0 <= i < |t| - 1 ==> t[1..][i] == t[i + 1];
      if NoneInRange(t, start) {
        assert !InRange(t[0], start);
      }
      if Outside(t, start) == t && !InRange(t[0], start) {
        assert Outside(t, start)[1..] == Outside(t[1..], start);
      }
    }
  }

  /** Automatic routing set up and taken down leaves the table as it was, rule for rule and in order, iff
      it had no rule in the device's range; otherwise exactly those are lost. */
  method AutoRoundTrip(o: Options, table: RuleTable, adds: nat -> bool) returns (setOk: bool, unsetOk: bool)
    modifies table
    ensures unsetOk
    ensures table.rules == Outside(old(table.rules), o.start)
    ensures table.rules == old(table.rules) <==> NoneInRange(old(table.rules), o.start)
  {
    hide Outside, NoneInRange, AddAll, Of, AllInRange;
    ghost var before := table.rules;
    var list := AutoRules(o);
    AutoListInRange(o, list);
    setOk := table.SetRules(list, adds);
    if setOk {
      AddAllOutside(before, list, o.start);
    } else {
      ghost var k: nat :| FirstRefused(list, adds, k) && table.rules == AddAll(before, list[..k]);
      PrefixInRange(list, k, o.start);
      AddAllOutside(before, list[..k], o.start);
    }
    unsetOk := table.UnsetAutoRules(o.start);
    OutsideIsAll(before, o.start);
  }

  lemma {:induction false} OutsideSorted(t: seq<Rule>, start: int)
    requires Sorted(t)
    ensures Sorted(Outside(t, start)) && NoneInRange(Outside(t, start), start)
    ensures forall x :: x in Outside(t, start) ==> x in t
    decreases |t|
  {
    hide Sorted;
    if t != [] {
      SortedTail(t);
      OutsideSorted(t[1..], start);
      assert forall x :: x in t[1..] ==> x in t;
      SortedCons(t[0], Outside(t[1..], start));
    }
  }

  lemma {:induction false} AddAllSorted(t: seq<Rule>, rules: seq<Rule>)
    requires Sorted(t)
    ensures Sorted(AddAll(t, rules))
    decreases |rules|
  {
    hide Sorted, Add;
    if rules != [] {
      AddSorted(t, rules[0]);
      AddAllSorted(Add(t, rules[0]), rules[1..]);
    }
  }

  /** Starting with automatic routing, on any table: what an earlier run has left in the range goes, then the
      rules are added, and taken back if one cannot be. Afterwards they decide between the other rules. */
  method StartAutoRules(o: Options, table: RuleTable, adds: nat -> bool) returns (ok: bool)
    requires Sorted(table.rules) && o.name != LO && o.name != ""
    modifies table
    ensures Sorted(table.rules) && Outside(table.rules, o.start) == Outside(old(table.rules), o.start)
    ensures ok ==> Installed(o, Outside(old(table.rules), o.start), table.rules)
    ensures !ok ==> table.rules == Outside(old(table.rules), o.start)
  {
    hide Outside, NoneInRange, AddAll, Of, AllInRange, Sorted, Installed, Rules4, Rules6;
    ghost var before := table.rules;
    var cleared := table.UnsetAutoRules(o.start);
    OutsideSorted(before, o.start);
    ghost var clean := table.rules;
    OutsideIsAll(clean, o.start);
    var list := AutoRules(o);
    AutoListInRange(o, list);
    ok := table.SetRules(list, adds);
    if ok {
      AddAllOutside(clean, list, o.start);
      AddAllSorted(clean, list);
      InstalledInClean(o, clean, list);
    } else {
      ghost var k: nat :| FirstRefused(list, adds, k) && table.rules == AddAll(clean, list[..k]);
      PrefixInRange(list, k, o.start);
      AddAllOutside(clean, list[..k], o.start);
      cleared := table.UnsetAutoRules(o.start);
    }
  }

  lemma PrefixInRange(list: seq<Rule>, k: nat, start: int)
    requires AllInRange(list, start) && k <= |list|
    ensures AllInRange(list[..k], start)
  {
  }

  // ---------------------------------------------------------------- without automatic routing

  function Lower(a: int, b: int): int {
    if a == 0 then b else if b == 0 then a else if a <= b then a else b
  }

  /** The smallest positive priority of an IPv6 rule, or zero. */
  function LowestPositive6(t: seq<Rule>): (m: int)
    ensures m >= 0
    ensures m > 0 ==> Has(t, V6, Exactly(m))
    ensures forall i :: 0 <= i < |t| && t[i].family == V6 && t[i].priority > 0 ==> 0 < m <= t[i].priority
    decreases |t|
  {
    if t == [] then 0
    else
      var rest := LowestPositive6(t[1..]);
      assert forall i :: 0 < i < |t| ==> t[i] == t[1..][i - 1];
      assert rest > 0 ==> exists i ::
                            0 <= i < |t| - 1 && Fits(t[1..][i], V6, Exactly(rest)) && Fits(t[i + 1], V6, Exactly(rest));
      assert t[0].family == V6 ==> Fits(t[0], V6, Exactly(t[0].priority));
      if t[0].family == V6 && t[0].priority > 0 then Lower(t[0].priority, rest) else rest
  }

  /** The one rule that is set without automatic routing. */
  function OwnRule(o: Options, priority: int): Rule {
    NewRule(V6, priority, Lookup(TunTable, NO_SUPPRESS)).(oif := o.name)
  }

  /** It sends what is bound to the device into the tun table, and lets everything else pass. */
  lemma OwnRuleDecides(o: Options, priority: int, rest: seq<Rule>, p: Packet, routes: Routes)
    requires o.name != ""
    ensures OwnRule(o, priority).family == V6 && OwnRule(o, priority).priority == priority
    ensures Decide([OwnRule(o, priority)] + rest, p, routes) ==
            if p.oif == o.name then Via(TunTable) else Decide(rest, p, routes)
  {
    hide Decide;
    First(OwnRule(o, priority), rest, p, routes);
  }

  /** A rule that a deletion reaches no later than one of the given priority. */
  predicate HasUpTo(t: seq<Rule>, family: Family, wanted: Wanted, priority: int) {
    exists i :: 0 <= i < |t| && Fits(t[i], family, wanted) && t[i].priority <= priority
  }

  /** Deleting takes back the rule that was added iff no other rule is reached first; otherwise that one
      is deleted in its place, and the added rule stays. */
  lemma {:induction false} DeleteUndoesAdd(t: seq<Rule>, r: Rule, wanted: Wanted)
    requires Sorted(t) && r !in t && Fits(r, r.family, wanted)
    ensures Has(Add(t, r), r.family, wanted)
    ensures DeleteFirst(Add(t, r), r.family, wanted) ==
            if HasUpTo(t, r.family, wanted, r.priority) then Add(DeleteFirst(t, r.family, wanted), r) else t
    decreases |t|
  {
    hide Has, HasUpTo, Sorted;
    if t == [] || t[0].priority > r.priority {
      NoneUpTo(t, r, wanted);
      HasCons(r, t, r.family, wanted);
      assert ([r] + t)[1..] == t;
    } else {
      var rest := t[1..];
      assert t == [t[0]] + rest;
      SortedRest(t);
      DeleteUndoesAdd(rest, r, wanted);
      UpToCons(t[0], rest, r.family, wanted, r.priority);
      HasCons(t[0], Add(rest, r), r.family, wanted);
      assert ([t[0]] + Add(rest, r))[1..] == Add(rest, r);
      if !Fits(t[0], r.family, wanted) {
        AddCons(t[0], DeleteFirst(rest, r.family, wanted), r);
      }
    }
  }

  lemma AddCons(x: Rule, t: seq<Rule>, r: Rule)
    requires x.priority <= r.priority
    ensures Add([x] + t, r) == [x] + Add(t, r)
  {
    assert ([x] + t)[1..] == t;
  }

  lemma {:induction false} Contains(t: seq<Rule>, r: Rule)
    ensures r in Add(t, r)
    decreases |t|
  {
    if t != [] && t[0].priority <= r.priority {
      Contains(t[1..], r);
    }
  }

  lemma SortedRest(t: seq<Rule>)
    requires Sorted(t) && t != []
    ensures Sorted(t[1..])
  {
  }

  lemma NoneUpTo(t: seq<Rule>, r: Rule, wanted: Wanted)
    requires Sorted(t) && (t == [] || t[0].priority > r.priority)
    ensures !HasUpTo(t, r.family, wanted, r.priority)
  {
  }

  lemma HasCons(r: Rule, t: seq<Rule>, family: Family, wanted: Wanted)
    ensures Has([r] + t, family, wanted) <==> Fits(r, family, wanted) || Has(t, family, wanted)
  {
    var all := [r] + t;
    if Has(t, family, wanted) {
      var i :| 0 <= i < |t| && Fits(t[i], family, wanted);
      assert Fits(all[i + 1], family, wanted);
    }
    if Fits(r, family, wanted) {
      assert Fits(all[0], family, wanted);
    }
  }

  lemma UpToCons(r: Rule, t: seq<Rule>, family: Family, wanted: Wanted, priority: int)
    requires r.priority <= priority
    ensures HasUpTo([r] + t, family, wanted, priority)
            <==> Fits(r, family, wanted) || HasUpTo(t, family, wanted, priority)
  {
    var all := [r] + t;
    if HasUpTo(t, family, wanted, priority) {
      var i :| 0 <= i < |t| && Fits(t[i], family, wanted) && t[i].priority <= priority;
      assert Fits(all[i + 1], family, wanted) && all[i + 1].priority <= priority;
    }
    if Fits(r, family, wanted) {
      assert Fits(all[0], family, wanted) && all[0].priority <= priority;
    }
  }

  /** Whether a rule stands in the way of taking down a rule set at one below the lowest priority: with
      the lowest at one it is the rule of priority zero, the one for local addresses; with none positive
      the kernel has chosen the priority, and every rule up to there is in the way. */
  predicate InTheWay(t: seq<Rule>, chosen: int) {
    var lowest := LowestPositive6(t);
    if lowest > 1 then false
    else if lowest == 1 then Has(t, V6, Exactly(0))
    else HasUpTo(t, V6, Any, chosen)
  }

  /** Without automatic routing the table is restored, rule for rule, iff it could be listed and nothing is
      in the way. A rule in the way is deleted instead and the device's own stays; it also stays if its
      priority could not be noted. */
  method OwnRoundTrip(o: Options, table: RuleTable, listed: bool, chosen: int) returns (ok: bool)
    requires table.ruleIndex6 == [] && Sorted(table.rules)
    requires forall priority :: OwnRule(o, priority) !in table.rules
    modifies table
    ensures ok && table.ruleIndex6 == []
    ensures var t, lowest := old(table.rules), LowestPositive6(old(table.rules));
            var own := OwnRule(o, if listed && lowest > 0 then lowest - 1 else chosen);
            && table.rules == (if o.inet6 == [] then t
                               else if !listed then Add(t, own)
                               else if InTheWay(t, chosen) then Add(DeleteFirst(t, V6, Request(lowest - 1)), own)
                               else t)
            && (table.rules == t <==> o.inet6 == [] || (listed && !InTheWay(t, chosen)))
  {
    hide DeleteFirst, Add, Has, HasUpTo, Sorted, LowestPositive6, InTheWay;
    ghost var before := table.rules;
    if o.inet6 == [] {
      return true;
    }
    var index := table.NextIndex6(listed);
    LowestIsLowest(before);
    var own := OwnRule(o, if index < 0 then chosen else index);
    ok := table.SetRules([own], _ => true);
    assert AddAll(before, [own]) == Add(before, own);
    Contains(before, own);
    if listed {
      InTheWayIs(before, own, chosen);
      DeleteUndoesAdd(before, own, Request(index));
      Contains(DeleteFirst(before, V6, Request(index)), own);
      OneDeletion(table.rules, index);
    }
    ok := table.UnsetOwnRules();
  }

  /** A table on which this goes wrong: the rule for local addresses and one of priority one. Taking down
      the device's rule removes the former. */
  lemma LocalRuleLost(o: Options) returns (t: seq<Rule>)
    ensures Sorted(t) && LowestPositive6(t) == 1 && InTheWay(t, 0)
    ensures Add(DeleteFirst(t, V6, Request(0)), OwnRule(o, 0)) == [OwnRule(o, 0), t[1]] != t
  {
    var local := NewRule(V6, 0, Lookup(OtherTable(LOCAL_TABLE), NO_SUPPRESS));
    var other := NewRule(V6, 1, Lookup(MainTable, NO_SUPPRESS));
    t := [local, other];
    assert t[1..] == [other] && t[1..][1..] == [];
    assert LowestPositive6([other]) == 1;
    assert Fits(t[0], V6, Exactly(0));
    assert OwnRule(o, 0) != local;
  }

  lemma OneDeletion(t: seq<Rule>, index: int)
    requires Has(t, V6, Request(index))
    ensures DeleteEach6(t, [index]) == Unset(DeleteFirst(t, V6, Request(index)), true)
  {
    assert [index][1..] == [];
  }

  lemma InTheWayIs(t: seq<Rule>, own: Rule, chosen: int)
    requires own.family == V6 && own.priority == if LowestPositive6(t) > 0 then LowestPositive6(t) - 1 else chosen
    ensures HasUpTo(t, V6, Request(LowestPositive6(t) - 1), own.priority) <==> InTheWay(t, chosen)
  {
    hide LowestPositive6;
    LowestIsLowest(t);
    var lowest := LowestPositive6(t);
    if lowest > 0 {
      var w := Request(lowest - 1);
      if i :| 0 <= i < |t| && Fits(t[i], V6, w) {
        assert t[i].priority == lowest - 1 <= own.priority;
      }
    }
  }

  lemma LowestIsLowest(t: seq<Rule>)
    ensures LowestPositive6(t) >= 0
    ensures forall i :: 0 <= i < |t| && t[i].family == V6 && t[i].priority > 0 ==>
              0 < LowestPositive6(t) <= t[i].priority
  {
  }
}
