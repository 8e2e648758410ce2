/** The kernel's rule table: setting the rules up, what they then decide, and taking them down again. */
module PolicyTable {
  import opened PolicyRules
  import opened PolicyMeaning

  ghost predicate Sorted(t: seq<Rule>) {
    forall i, j :: 0 <= i < j < |t| ==> t[i].priority <= t[j].priority
  }

  /** A new rule goes behind all rules of its priority. */
  function Add(t: seq<Rule>, r: Rule): (t': seq<Rule>)
    ensures |t'| == |t| + 1
    decreases |t|
  {
    if t == [] || t[0].priority > r.priority then [r] + t else [t[0]] + Add(t[1..], r)
  }

  function AddAll(t: seq<Rule>, rules: seq<Rule>): seq<Rule>
    decreases |rules|
  {
    if rules == [] then t else AddAll(Add(t, rules[0]), rules[1..])
  }

  predicate InRange(r: Rule, start: int) {
    start <= r.priority <= start + RANGE
  }

  function Outside(t: seq<Rule>, start: int): seq<Rule>
    decreases |t|
  {
    if t == [] then []
    else if InRange(t[0], start) then Outside(t[1..], start)
    else [t[0]] + Outside(t[1..], start)
  }

  predicate AllInRange(rules: seq<Rule>, start: int) {
    forall i :: 0 <= i < |rules| ==> InRange(rules[i], start)
  }

  predicate NoneInRange(t: seq<Rule>, start: int) {
    forall i :: 0 <= i < |t| ==> !InRange(t[i], start)
  }

  // ---------------------------------------------------------------- one family at a time

  lemma {:induction false} AddSorted(t: seq<Rule>, r: Rule)
    requires Sorted(t)
    ensures Sorted(Add(t, r)) && forall x :: x in Add(t, r) ==> x in t || x == r
    decreases |t|
  {
    if t != [] && t[0].priority <= r.priority {
      AddSorted(t[1..], r);
      assert forall x :: x in t[1..] ==> x in t;
      assert forall x :: x in t[1..] ==> t[0].priority <= x.priority;
    }
  }

  /** Adding a rule changes the list of its own family only, and in the same way. */
  lemma {:induction false} AddToFamily(t: seq<Rule>, r: Rule, family: Family)
    requires Sorted(t)
    ensures Of(Add(t, r), family) == if r.family == family then Add(Of(t, family), r) else Of(t, family)
    decreases |t|
  {
    if t == [] || t[0].priority > r.priority {
      AddInFront(t, r, family);
    } else {
      AddToFamily(t[1..], r, family);
      OfCons(t[0], Add(t[1..], r), family);
      AddBehind(t, r, family);
    }
  }

  lemma OfCons(x: Rule, t: seq<Rule>, family: Family)
    ensures Of([x] + t, family) == if x.family == family then [x] + Of(t, family) else Of(t, family)
  {
    assert ([x] + t)[1..] == t;
  }

  lemma AddInFront(t: seq<Rule>, r: Rule, family: Family)
    requires Sorted(t) && (t == [] || t[0].priority > r.priority)
    ensures Of([r] + t, family) == if r.family == family then Add(Of(t, family), r) else Of(t, family)
  {
    hide Of;
    OfCons(r, t, family);
    assert forall x :: x in t ==> x.priority > r.priority;
    assert Of(t, family) != [] ==> Of(t, family)[0] in t;
  }

  lemma AddBehind(t: seq<Rule>, r: Rule, family: Family)
    requires t != [] && t[0].priority <= r.priority
    ensures t[0].family == family ==> Add(Of(t, family), r) == [t[0]] + Add(Of(t[1..], family), r)
    ensures t[0].family != family ==> Of(t, family) == Of(t[1..], family)
  {
    assert t[0].family == family ==> Of(t, family)[1..] == Of(t[1..], family);
  }

  lemma {:induction false} AddAllToFamily(t: seq<Rule>, rules: seq<Rule>, family: Family)
    requires Sorted(t)
    ensures Sorted(AddAll(t, rules))
    ensures Of(AddAll(t, rules), family) == AddAll(Of(t, family), Of(rules, family))
    decreases |rules|
  {
    hide Sorted, Add;
    if rules != [] {
      AddSorted(t, rules[0]);
      AddToFamily(t, rules[0], family);
      AddAllToFamily(Add(t, rules[0]), rules[1..], family);
      assert rules[0].family == family ==> Of(rules, family)[1..] == Of(rules[1..], family);
    }
  }

  // ---------------------------------------------------------------- where ascending rules end up

  function Before(t: seq<Rule>, priority: int): seq<Rule>
    decreases |t|
  {
    if t == [] || t[0].priority > priority then [] else [t[0]] + Before(t[1..], priority)
  }

  function After(t: seq<Rule>, priority: int): seq<Rule>
    decreases |t|
  {
    if t == [] || t[0].priority > priority then t else After(t[1..], priority)
  }

  lemma {:induction false} AddSplits(t: seq<Rule>, r: Rule)
    ensures Add(t, r) == Before(t, r.priority) + [r] + After(t, r.priority)
    decreases |t|
  {
    if t != [] && t[0].priority <= r.priority {
      AddSplits(t[1..], r);
    }
  }

  lemma {:induction false} Cut(a: seq<Rule>, b: seq<Rule>, priority: int)
    requires forall i :: 0 <= i < |a| ==> a[i].priority <= priority
    requires b == [] || b[0].priority > priority
    ensures Before(a + b, priority) == a && After(a + b, priority) == b
    decreases |a|
  {
    if a == [] {
      assert a + b == b;
    } else {
      assert (a + b)[1..] == a[1..] + b;
      Cut(a[1..], b, priority);
    }
  }

  ghost predicate AllAtMost(t: seq<Rule>, priority: int) {
    forall i :: 0 <= i < |t| ==> t[i].priority <= priority
  }

  /** Ascending rules, added one after the other above everything in `a` and below everything in `b`, end
      up between the two, in their order. */
  lemma {:induction false} AddedBetween(a: seq<Rule>, rules: seq<Rule>, b: seq<Rule>)
    requires Sorted(rules) && (rules != [] ==> AllAtMost(a, rules[0].priority))
    requires forall i :: 0 <= i < |rules| && b != [] ==> rules[i].priority < b[0].priority
    ensures AddAll(a + b, rules) == a + rules + b
    decreases |rules|
  {
    hide Add, Before, After, Sorted, AllAtMost;
    if rules == [] {
      assert a + rules == a;
    } else {
      var r, rest := rules[0], rules[1..];
      AddSplits(a + b, r);
      AtMost(a, r.priority);
      Cut(a, b, r.priority);
      RestAscends(a, rules);
      assert forall i :: 0 <= i < |rest| ==> rest[i] == rules[i + 1];
      AddedBetween(a + [r], rest, b);
      Shifted(a, rules, b);
    }
  }

  lemma AtMost(t: seq<Rule>, priority: int)
    requires AllAtMost(t, priority)
    ensures forall i :: 0 <= i < |t| ==> t[i].priority <= priority
  {
  }

  lemma RestAscends(a: seq<Rule>, rules: seq<Rule>)
    requires Sorted(rules) && rules != [] && AllAtMost(a, rules[0].priority)
    ensures Sorted(rules[1..]) && (rules[1..] != [] ==> AllAtMost(a + [rules[0]], rules[1..][0].priority))
  {
    if rules[1..] != [] {
      assert rules[0].priority <= rules[1].priority;
    }
  }

  lemma Shifted(a: seq<Rule>, rules: seq<Rule>, b: seq<Rule>)
    requires rules != []
    ensures (a + [rules[0]]) + rules[1..] + b == a + rules + b && a + [rules[0]] + b == (a + [rules[0]]) + b
  {
    assert [rules[0]] + rules[1..] == rules;
    assert (a + [rules[0]]) + rules[1..] == a + rules;
  }

  lemma {:induction false} CutAt(t: seq<Rule>, start: int) returns (a: seq<Rule>, b: seq<Rule>)
    requires Sorted(t) && NoneInRange(t, start)
    ensures t == a + b && (forall i :: 0 <= i < |a| ==> a[i].priority < start)
            && (forall i :: 0 <= i < |b| ==> b[i].priority > start + RANGE)
    decreases |t|
  {
    hide Sorted, NoneInRange;
    if t == [] || t[0].priority >= start {
      a, b := [], t;
      AllBeyond(t, start);
    } else {
      SortedTail(t);
      NoneInTail(t, start);
      a, b := CutAt(t[1..], start);
      assert t == [t[0]] + t[1..];
      assert [t[0]] + (a + b) == ([t[0]] + a) + b;
      a := [t[0]] + a;
    }
  }

  lemma AllBeyond(t: seq<Rule>, start: int)
    requires Sorted(t) && NoneInRange(t, start) && (t == [] || t[0].priority >= start)
    ensures forall i :: 0 <= i < |t| ==> t[i].priority > start + RANGE
  {
    assert t != [] ==> !InRange(t[0], start);
  }

  lemma NoneInTail(t: seq<Rule>, start: int)
    requires NoneInRange(t, start) && t != []
    ensures NoneInRange(t[1..], start)
  {
    assert forall i :: 0 <= i < |t| - 1 ==> t[1..][i] == t[i + 1];
  }

  // ---------------------------------------------------------------- the lists of automatic routing

  lemma Rules4Ascend(o: Options)
    ensures Sorted(Rules4(o)) && AllInRange(Rules4(o), o.start)
  {
    hide NewRule, DstRule, SrcRule, DstRules, SrcRules, Suppressed, ExceptDns, FromTun, FromLo, NotFromLo, Nothing;
  }

  lemma Rules6Ascend(o: Options)
    ensures Sorted(Rules6(o)) && AllInRange(Rules6(o), o.start)
  {
    hide NewRule, DstRule, SrcRule, DstRules, SrcRules, Suppressed, ExceptDns, FromTun, FromLo, NotFromLo, Nothing;
  }

  /** Every rule of the list has a priority in the range that belongs to the device. */
  lemma {:induction false} InItsFamily(rules: seq<Rule>, i: nat)
    requires i < |rules|
    ensures rules[i] in Of(rules, rules[i].family)
    decreases |rules|
  {
    if i > 0 {
      InItsFamily(rules[1..], i - 1);
    }
  }

  /** `rules` is what AutoRules answers. */
  ghost predicate IsAutoList(o: Options, rules: seq<Rule>) {
    && Of(rules, V4) == (if o.inet4 == [] then [] else Rules4(o))
    && Of(rules, V6) == (if o.inet6 == [] then [] else Rules6(o))
  }

  /** The priority of every rule, from the start of the device's range. */
  lemma PrioritiesExactly(o: Options, i: nat)
    ensures |Rules4(o)| == 2 * |o.inet4| + 6 && |Rules6(o)| == |o.inet6| + 7
    ensures i < |Rules4(o)| ==>
              Rules4(o)[i].priority == o.start +
              if i < |o.inet4| then 0
              else if i == |o.inet4| then 1
              else if i <= |o.inet4| + 2 then 2
              else if i < |Rules4(o)| - 1 then 3
              else 10
    ensures i < |Rules6(o)| ==>
              Rules6(o)[i].priority == o.start +
              if i == 0 then 0
              else if i < 5 then 1
              else if i < |o.inet6| + 5 then 2
              else if i < |Rules6(o)| - 1 then 3
              else 10
  {
    Places4(o, i);
    Places6(o, i);
  }

  lemma Places4(o: Options, i: nat)
    ensures |Rules4(o)| == 2 * |o.inet4| + 6
    ensures i < |Rules4(o)| ==>
              Rules4(o)[i].priority == o.start +
              if i < |o.inet4| then 0
              else if i == |o.inet4| then 1
              else if i <= |o.inet4| + 2 then 2
              else if i < |Rules4(o)| - 1 then 3
              else 10
  {
    hide DstRule, SrcRule;
  }

  lemma Places6(o: Options, i: nat)
    ensures |Rules6(o)| == |o.inet6| + 7
    ensures i < |Rules6(o)| ==>
              Rules6(o)[i].priority == o.start +
              if i == 0 then 0
              else if i < 5 then 1
              else if i < |o.inet6| + 5 then 2
              else if i < |Rules6(o)| - 1 then 3
              else 10
  {
    hide SrcRule;
  }

  lemma AutoListInRange(o: Options, rules: seq<Rule>)
    requires IsAutoList(o, rules)
    ensures AllInRange(rules, o.start)
    ensures forall r :: r in rules ==> o.start <= r.priority <= o.start + 10
  {
    hide Of, Rules4, Rules6, InRange, Sorted;
    Rules4Ascend(o);
    Rules6Ascend(o);
    forall i | 0 <= i < |rules|
      ensures InRange(rules[i], o.start)
    {
      InItsFamily(rules, i);
    }
    RangeIs(rules, o.start);
  }

  lemma RangeIs(rules: seq<Rule>, start: int)
    requires AllInRange(rules, start)
    ensures forall r :: r in rules ==> start <= r.priority <= start + 10
  {
    forall r | r in rules
      ensures start <= r.priority <= start + 10
    {
      var i :| 0 <= i < |rules| && rules[i] == r;
      assert InRange(rules[i], start);
    }
  }

  /** Every jump leads forward, to a rule of the same family with a larger priority. */
  lemma JumpsLeadForward(o: Options, rules: seq<Rule>, family: Family, i: nat)
    requires IsAutoList(o, rules) && i < |Of(rules, family)| && Of(rules, family)[i].action.Goto?
    ensures var list := Of(rules, family);
            && list[i].priority < list[i].action.target
            && exists j :: i < j < |list| && list[j].priority == list[i].action.target
  {
    hide Of;
    if family == V4 {
      LastOf4(o, i);
    } else {
      LastOf6(o, i);
    }
  }

  lemma LastOf4(o: Options, i: nat)
    requires i < |Rules4(o)| && Rules4(o)[i].action.Goto?
    ensures var list := Rules4(o);
            && i < |list| - 1 && list[i].priority == o.start + 2
              && list[i].action.target == o.start + RANGE == list[|list| - 1].priority
  {
    hide Body4;
    var head := Body4(o, Head4(o), o.start + 2);
    Shape4(o);
    assert Rules4(o)[i] == if i < |head| then head[i] else Nothing(o, V4);
  }

  lemma Shape4(o: Options)
    ensures var b := Body4(o, Head4(o), o.start + 2);
            forall i :: 0 <= i < |b| && b[i].action.Goto? ==> b[i] == FromTun(o, V4, o.start + 2)
  {
  }

  lemma LastOf6(o: Options, i: nat)
    requires i < |Rules6(o)| && Rules6(o)[i].action.Goto?
    ensures var list := Rules6(o);
            && i < |list| - 1 && list[i].priority == o.start + 1
              && list[i].action.target == o.start + RANGE == list[|list| - 1].priority
  {
    hide Body6;
    var head := Body6(o, Head6(o), o.start + 1);
    Shape6(o);
    assert Rules6(o)[i] == if i < |head| then head[i] else Nothing(o, V6);
  }

  lemma Shape6(o: Options)
    ensures var b := Body6(o, Head6(o), o.start + 1);
            forall i :: 0 <= i < |b| && b[i].action.Goto? ==>
              b[i].priority == o.start + 1 && b[i].action.target == o.start + RANGE
  {
  }

  // ---------------------------------------------------------------- the rules in their place

  /** What becomes of a packet among the first rules of a list: a decision, the end, or a jump out. */
  datatype Exit = Decided(verdict: Verdict) | FellThrough | Jumped(target: int)

  /** `rest` is what follows; a jump may lead into it. */
  function Walk(rules: seq<Rule>, rest: seq<Rule>, p: Packet, routes: Routes): Exit
    decreases |rules|
  {
    if rules == [] then FellThrough
    else if !Matches(rules[0], p) then Walk(rules[1..], rest, p, routes)
    else
      match rules[0].action
      case Lookup(table, suppress) =>
        if Finds(table, suppress, routes) then Decided(Via(table)) else Walk(rules[1..], rest, p, routes)
      case Goto(target) =>
        if HasTarget(rules[1..], target) then Walk(SkipTo(rules[1..], target), rest, p, routes)
        else if HasTarget(rest, target) then Jumped(target)
        else Walk(rules[1..], rest, p, routes)
      case Nop => Walk(rules[1..], rest, p, routes)
      case Refuse => Decided(Refused)
  }

  function Follow(exit: Exit, rest: seq<Rule>, p: Packet, routes: Routes): Verdict {
    match exit
    case Decided(v) => v
    case FellThrough => Decide(rest, p, routes)
    case Jumped(target) => Decide(SkipTo(rest, target), p, routes)
  }

  lemma {:induction false} TargetInTwo(a: seq<Rule>, rest: seq<Rule>, target: int)
    ensures HasTarget(a + rest, target) <==> HasTarget(a, target) || HasTarget(rest, target)
    ensures SkipTo(a + rest, target) == if HasTarget(a, target) then SkipTo(a, target) + rest else SkipTo(rest, target)
    decreases |a|
  {
    hide HasTarget;
    if a == [] {
      assert a + rest == rest;
      NoTarget(target);
    } else {
      assert a + rest == [a[0]] + (a[1..] + rest) && a == [a[0]] + a[1..];
      TargetInTwo(a[1..], rest, target);
      TargetCons(a[0], a[1..], target);
      TargetCons(a[0], a[1..] + rest, target);
    }
  }

  lemma NoTarget(target: int)
    ensures !HasTarget([], target)
  {
  }

  lemma TargetCons(r: Rule, rest: seq<Rule>, target: int)
    ensures HasTarget([r] + rest, target) <==> r.priority == target || HasTarget(rest, target)
    ensures SkipTo([r] + rest, target) == if r.priority == target then [r] + rest else SkipTo(rest, target)
  {
    var all := [r] + rest;
    assert all[1..] == rest && all[0] == r;
    if HasTarget(rest, target) {
      var i :| 0 <= i < |rest| && rest[i].priority == target;
      assert all[i + 1].priority == target;
    }
  }

  /** A list taken in two parts, at any point and with jumps of every kind. */
  lemma {:induction false} DecideInTwo(a: seq<Rule>, rest: seq<Rule>, p: Packet, routes: Routes)
    ensures Decide(a + rest, p, routes) == Follow(Walk(a, rest, p, routes), rest, p, routes)
    decreases |a|
  {
    hide Matches, HasTarget, SkipTo, Finds;
    if a == [] {
      assert a + rest == rest;
    } else {
      assert a + rest == [a[0]] + (a[1..] + rest);
      First(a[0], a[1..] + rest, p, routes);
      DecideInTwo(a[1..], rest, p, routes);
      if a[0].action.Goto? {
        TargetInTwo(a[1..], rest, a[0].action.target);
        DecideInTwo(SkipTo(a[1..], a[0].action.target), rest, p, routes);
      }
    }
  }

  /** No rule jumps to a priority of the device's range. */
  ghost predicate NoneJumpsInto(rules: seq<Rule>, start: int) {
    forall i :: 0 <= i < |rules| && rules[i].action.Goto? ==> !(start <= rules[i].action.target <= start + RANGE)
  }

  lemma NoTargetInRange(list: seq<Rule>, b: seq<Rule>, start: int, target: int)
    requires AllInRange(list, start) && !(start <= target <= start + RANGE)
    ensures HasTarget(list + b, target) <==> HasTarget(b, target)
    ensures SkipTo(list + b, target) == SkipTo(b, target)
  {
    hide SkipTo;
    TargetInTwo(list, b, target);
    assert forall i :: 0 <= i < |list| ==> InRange(list[i], start);
  }

  /** Rules in a range that nobody jumps into do not change the way through the rules before them. */
  lemma {:induction false} SameWalk(a: seq<Rule>, list: seq<Rule>, b: seq<Rule>, start: int, p: Packet, routes: Routes)
    requires AllInRange(list, start) && NoneJumpsInto(a, start)
    ensures Walk(a, list + b, p, routes) == Walk(a, b, p, routes)
    ensures Walk(a, b, p, routes).Jumped? ==> !(start <= Walk(a, b, p, routes).target <= start + RANGE)
    decreases |a|
  {
    hide Matches, HasTarget, SkipTo, Finds, AllInRange;
    if a != [] {
      assert forall i :: 0 <= i < |a| - 1 ==> a[1..][i] == a[i + 1];
      SameWalk(a[1..], list, b, start, p, routes);
      if a[0].action.Goto? {
        NoTargetInRange(list, b, start, a[0].action.target);
        SkipKeeps(a[1..], start, a[0].action.target);
        SameWalk(SkipTo(a[1..], a[0].action.target), list, b, start, p, routes);
      }
    }
  }

  lemma {:induction false} SkipKeeps(a: seq<Rule>, start: int, target: int)
    requires NoneJumpsInto(a, start)
    ensures NoneJumpsInto(SkipTo(a, target), start)
    decreases |a|
  {
    if a != [] && a[0].priority != target {
      assert forall i :: 0 <= i < |a| - 1 ==> a[1..][i] == a[i + 1];
      SkipKeeps(a[1..], start, target);
    }
  }

  /** The rules before and after the device's range. */
  function Below(t: seq<Rule>, start: int): seq<Rule> {
    Before(t, start + RANGE)
  }

  function Above(t: seq<Rule>, start: int): seq<Rule> {
    After(t, start + RANGE)
  }

  /** In a table with nothing in the device's range, the rules of a family end up between the two parts. */
  lemma InPlace(start: int, t: seq<Rule>, rules: seq<Rule>, list: seq<Rule>, family: Family)
    requires Sorted(t) && Sorted(Of(t, family)) && NoneInRange(Of(t, family), start)
    requires Of(rules, family) == list && Sorted(list) && AllInRange(list, start)
    ensures var ft := Of(t, family);
            && ft == Below(ft, start) + Above(ft, start)
            && Of(AddAll(t, rules), family) == Below(ft, start) + (list + Above(ft, start))
  {
    hide Of, AddAll, Before, After, Sorted, NoneInRange, AllInRange, AllAtMost;
    AddAllToFamily(t, rules, family);
    var a, b := CutAt(Of(t, family), start);
    RangeBetween(a, list, b, start);
    AddedBetween(a, list, b);
    assert a + list + b == a + (list + b);
    Cut(a, b, start + RANGE);
  }

  lemma RangeBetween(a: seq<Rule>, list: seq<Rule>, b: seq<Rule>, start: int)
    requires AllInRange(list, start)
    requires (forall i :: 0 <= i < |a| ==> a[i].priority < start)
             && (forall i :: 0 <= i < |b| ==> b[i].priority > start + RANGE)
    ensures list != [] ==> AllAtMost(a, list[0].priority)
    ensures forall i :: 0 <= i < |list| && b != [] ==> list[i].priority < b[0].priority
  {
    assert forall i :: 0 <= i < |list| ==> InRange(list[i], start);
  }

  lemma {:induction false} FamilySorted(t: seq<Rule>, family: Family)
    requires Sorted(t)
    ensures Sorted(Of(t, family))
    decreases |t|
  {
    hide Sorted;
    if t != [] {
      SortedTail(t);
      FamilySorted(t[1..], family);
      SortedCons(t[0], Of(t[1..], family));
    }
  }

  lemma SortedTail(t: seq<Rule>)
    requires Sorted(t) && t != []
    ensures Sorted(t[1..]) && forall x :: x in t[1..] ==> t[0].priority <= x.priority
  {
    assert forall i :: 0 <= i < |t| - 1 ==> t[1..][i] == t[i + 1];
  }

  lemma SortedCons(r: Rule, t: seq<Rule>)
    requires Sorted(t) && forall x :: x in t ==> r.priority <= x.priority
    ensures Sorted([r] + t)
  {
  }

  function AutoRulesOf(o: Options, family: Family): seq<Rule> {
    if family == V4 then (if o.inet4 == [] then [] else Rules4(o)) else if o.inet6 == [] then [] else Rules6(o)
  }

  /** What the device's rules of one family decide on their own. */
  function VerdictOf(o: Options, family: Family, p: Packet, routes: Routes): Verdict {
    if family == V4 then (if o.inet4 == [] then Undecided else Verdict4(o, p, routes))
    else if o.inet6 == [] then Undecided else Verdict6(o, p, routes)
  }

  lemma DecideOf(o: Options, family: Family, later: seq<Rule>, p: Packet, routes: Routes)
    requires o.name != LO && o.name != "" && (p.src.Some? ==> p.src.value < SIZE_6)
    ensures Decide(AutoRulesOf(o, family) + later, p, routes)
            == Then(VerdictOf(o, family, p, routes), Decide(later, p, routes))
  {
    hide Decide, Rules4, Rules6, Verdict4, Verdict6;
    assert [] + later == later;
    if family == V4 && o.inet4 != [] {
      Decide4(o, later, p, routes);
    } else if family == V6 && o.inet6 != [] {
      Decide6(o, later, p, routes);
    }
  }

  lemma AutoRulesAscend(o: Options, family: Family)
    ensures Sorted(AutoRulesOf(o, family)) && AllInRange(AutoRulesOf(o, family), o.start)
  {
    hide Rules4, Rules6;
    Rules4Ascend(o);
    Rules6Ascend(o);
  }

  /** Set up in a table that has nothing in the device's range, for every packet and whatever the other
      rules are: the rules with smaller priorities decide first, and may jump; what falls through them is
      decided by the device's rules as on their own; the rest goes on to the rules with larger priorities. */
  lemma InstalledDecision(o: Options, t: seq<Rule>, rules: seq<Rule>, family: Family, p: Packet, routes: Routes)
    requires Sorted(t) && NoneInRange(Of(t, family), o.start) && IsAutoList(o, rules)
    requires o.name != LO && o.name != "" && (p.src.Some? ==> p.src.value < SIZE_6)
    ensures var a, b, list := Below(Of(t, family), o.start), Above(Of(t, family), o.start), AutoRulesOf(o, family);
            && Decide(Of(t, family), p, routes) == Follow(Walk(a, b, p, routes), b, p, routes)
            && Decide(Of(AddAll(t, rules), family), p, routes)
              == Follow(Walk(a, list + b, p, routes), list + b, p, routes)
            && Decide(list + b, p, routes) == Then(VerdictOf(o, family, p, routes), Decide(b, p, routes))
  {
    hide Decide, Of, AddAll, Sorted, AllInRange, Walk, Below, Above, VerdictOf, AutoRulesOf, NoneInRange, Rules4,
         Rules6;
    ListOf(o, rules, family);
    AutoRulesAscend(o, family);
    FamilySorted(t, family);
    InPlace(o.start, t, rules, AutoRulesOf(o, family), family);
    var a, b := Below(Of(t, family), o.start), Above(Of(t, family), o.start);
    DecideInTwo(a, b, p, routes);
    DecideInTwo(a, AutoRulesOf(o, family) + b, p, routes);
    DecideOf(o, family, b, p, routes);
  }

  lemma ListOf(o: Options, rules: seq<Rule>, family: Family)
    requires IsAutoList(o, rules)
    ensures Of(rules, family) == AutoRulesOf(o, family)
  {
    hide Of, Rules4, Rules6;
  }

  /** If no rule of the table jumps into the range, setting up the device's rules changes the decision for
      exactly one kind of packet: those that fall through all rules with smaller priorities. For them the
      device's verdict comes first. */
  lemma InstalledChange(o: Options, t: seq<Rule>, rules: seq<Rule>, family: Family, p: Packet, routes: Routes)
    requires Sorted(t) && NoneInRange(Of(t, family), o.start) && IsAutoList(o, rules)
    requires o.name != LO && o.name != "" && (p.src.Some? ==> p.src.value < SIZE_6)
    requires NoneJumpsInto(Below(Of(t, family), o.start), o.start)
    ensures var a, b := Below(Of(t, family), o.start), Above(Of(t, family), o.start);
            var before, after := Decide(Of(t, family), p, routes), Decide(Of(AddAll(t, rules), family), p, routes);
            after == if Walk(a, b, p, routes).FellThrough?
                     then Then(VerdictOf(o, family, p, routes), before) else before
  {
    hide Decide, Of, AddAll, Sorted, AllInRange, Walk, Below, Above, VerdictOf, AutoRulesOf, NoneInRange, Rules4,
         Rules6, NoneJumpsInto, SkipTo, IsAutoList;
    var a, b, list := Below(Of(t, family), o.start), Above(Of(t, family), o.start), AutoRulesOf(o, family);
    InstalledDecision(o, t, rules, family, p, routes);
    AutoRulesAscend(o, family);
    SameWalk(a, list, b, o.start, p, routes);
    if Walk(a, b, p, routes).Jumped? {
      NoTargetInRange(list, b, o.start, Walk(a, b, p, routes).target);
    }
  }

  /** The decision for any packet after the rules have been set up in a table with nothing in their range. */
  function InstalledVerdict(o: Options, t: seq<Rule>, family: Family, p: Packet, routes: Routes): Verdict {
    var a, b, list := Below(t, o.start), Above(t, o.start), AutoRulesOf(o, family);
    match Walk(a, list + b, p, routes)
    case Decided(v) => v
    case FellThrough => Then(VerdictOf(o, family, p, routes), Decide(b, p, routes))
    case Jumped(target) => Decide(SkipTo(list + b, target), p, routes)
  }

  /** Table t' decides as the rules of t outside the device's range and the device's rules between them do. */
  ghost predicate Installed(o: Options, t: seq<Rule>, t': seq<Rule>) {
    forall family: Family, p: Packet, routes: Routes | p.src.Some? ==> p.src.value < SIZE_6 ::
      Decide(Of(t', family), p, routes) == InstalledVerdict(o, Of(t, family), family, p, routes)
  }

  lemma InstalledInClean(o: Options, t: seq<Rule>, rules: seq<Rule>)
    requires Sorted(t) && NoneInRange(t, o.start) && IsAutoList(o, rules) && o.name != LO && o.name != ""
    ensures Installed(o, t, AddAll(t, rules))
  {
    hide Decide, Of, AddAll, Sorted, Walk, Below, Above, VerdictOf, AutoRulesOf, NoneInRange, IsAutoList;
    forall family: Family, p: Packet, routes: Routes | p.src.Some? ==> p.src.value < SIZE_6
      ensures Decide(Of(AddAll(t, rules), family), p, routes) ==
              InstalledVerdict(o, Of(t, family), family, p, routes)
    {
      NoneOfFamily(t, o.start, family);
      InstalledDecision(o, t, rules, family, p, routes);
    }
  }

  const LOCAL_TABLE: nat := 255
  const DEFAULT_TABLE: nat := 253

  /** The rules that Linux starts with; the last is for IPv4 only. */
  function StockRules(family: Family): seq<Rule> {
    [NewRule(family, 0, Lookup(OtherTable(LOCAL_TABLE), NO_SUPPRESS))]
    + ([NewRule(family, 32766, Lookup(MainTable, NO_SUPPRESS))] + DefaultRule(family))
  }

  function DefaultRule(family: Family): seq<Rule> {
    if family == V4 then [NewRule(family, 32767, Lookup(OtherTable(DEFAULT_TABLE), NO_SUPPRESS))] else []
  }

  /** What the rules behind the device's decide. */
  function AfterDevice(family: Family, routes: Routes): Verdict {
    if routes.main.Some? then Via(MainTable)
    else if family == V4 && routes.other(DEFAULT_TABLE).Some? then Via(OtherTable(DEFAULT_TABLE))
    else Undecided
  }

  /** On a machine with no other rules: local addresses first, then the device, then the main table. */
  lemma OnStockRules(o: Options, t: seq<Rule>, rules: seq<Rule>, family: Family, p: Packet, routes: Routes)
    requires Sorted(t) && Of(t, family) == StockRules(family) && 0 < o.start && o.start + RANGE < 32766
    requires IsAutoList(o, rules) && o.name != LO && o.name != "" && (p.src.Some? ==> p.src.value < SIZE_6)
    ensures Decide(Of(AddAll(t, rules), family), p, routes) ==
            if routes.other(LOCAL_TABLE).Some? then Via(OtherTable(LOCAL_TABLE))
            else Then(VerdictOf(o, family, p, routes), AfterDevice(family, routes))
  {
    hide Of, AddAll, Sorted, VerdictOf, IsAutoList, Before, After, AllInRange;
    var local := NewRule(family, 0, Lookup(OtherTable(LOCAL_TABLE), NO_SUPPRESS));
    var main := NewRule(family, 32766, Lookup(MainTable, NO_SUPPRESS));
    Cut([local], [main] + DefaultRule(family), o.start + RANGE);
    InstalledChange(o, t, rules, family, p, routes);
    StockDecision(local, main, p, routes);
  }

  lemma StockDecision(local: Rule, main: Rule, p: Packet, routes: Routes)
    requires local == NewRule(local.family, 0, Lookup(OtherTable(LOCAL_TABLE), NO_SUPPRESS))
    requires main == NewRule(local.family, 32766, Lookup(MainTable, NO_SUPPRESS))
    ensures var rest := [main] + DefaultRule(local.family);
            && Walk([local], rest, p, routes) ==
               (if routes.other(LOCAL_TABLE).Some? then Decided(Via(OtherTable(LOCAL_TABLE))) else FellThrough)
            && Decide([local] + rest, p, routes) ==
               if routes.other(LOCAL_TABLE).Some? then Via(OtherTable(LOCAL_TABLE))
               else AfterDevice(local.family, routes)
  {
    hide Decide, Contains;
    assert [local][1..] == [];
    NoRules(p, routes);
    if local.family == V4 {
      First(DefaultRule(V4)[0], [], p, routes);
      assert DefaultRule(V4) == [DefaultRule(V4)[0]] + [];
    }
    First(main, DefaultRule(local.family), p, routes);
    First(local, [main] + DefaultRule(local.family), p, routes);
  }

  lemma NoneOfFamily(t: seq<Rule>, start: int, family: Family)
    requires NoneInRange(t, start)
    ensures NoneInRange(Of(t, family), start)
  {
    hide Of;
    assert forall x :: x in t ==> !InRange(x, start);
    assert forall i :: 0 <= i < |Of(t, family)| ==> Of(t, family)[i] in t;
  }
}
