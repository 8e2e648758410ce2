/** The policy-routing rules of the Linux tun device: what is added, in which order, and taken away again. */
module PolicyRules {
  datatype Option<T> = None | Some(value: T)

  datatype Family = V4 | V6

  /** The first `bits` bits of an address; the rest of addr does not matter. */
  datatype Prefix = Prefix(addr: nat, bits: nat)

  /** The tables of the device's own rules, and any other. */
  datatype Table = TunTable | MainTable | OtherTable(id: nat)

  /** A lookup whose best route is no longer than `suppress` bits counts as none. Refuse stands for the
      actions that end the search with an error. */
  datatype Action = Lookup(table: Table, suppress: int) | Goto(target: int) | Nop | Refuse

  /** `extra` stands for selectors that the device's rules do not use, such as marks or users. */
  datatype Rule = Rule(family: Family, priority: int, invert: bool, iif: string, oif: string,
                       src: Option<Prefix>, dst: Option<Prefix>, dport: Option<nat>, extra: Option<nat>, action: Action)

  datatype Options = Options(name: string, autoRoute: bool, start: int, inet4: seq<Prefix>, inet6: seq<Prefix>)

  const LO: string := "lo"
  const DNS_PORT: nat := 53
  const NO_SUPPRESS: int := -1
  const RANGE: int := 10

  function NewRule(family: Family, priority: int, action: Action): (r: Rule)
    ensures r.family == family && r.priority == priority && r.action == action
  {
    Rule(family, priority, false, "", "", None, None, None, None, action)
  }

  // ---------------------------------------------------------------- the rules, block by block

  function DstRule(address: Prefix, family: Family, priority: int): (r: Rule)
    ensures r.family == family && r.priority == priority
  {
    NewRule(family, priority, Lookup(TunTable, NO_SUPPRESS)).(dst := Some(address))
  }

  function SrcRule(address: Prefix, family: Family, priority: int): (r: Rule)
    ensures r.family == family && r.priority == priority
  {
    FromLo(family, priority, address, Lookup(TunTable, NO_SUPPRESS))
  }

  function DstRules(addresses: seq<Prefix>, family: Family, priority: int): (rules: seq<Rule>)
    ensures |rules| == |addresses|
            && forall i :: 0 <= i < |rules| ==> rules[i] == DstRule(addresses[i], family, priority)
  {
    seq(|addresses|, i requires 0 <= i < |addresses| => DstRule(addresses[i], family, priority))
  }

  function SrcRules(addresses: seq<Prefix>, family: Family, priority: int): (rules: seq<Rule>)
    ensures |rules| == |addresses|
            && forall i :: 0 <= i < |rules| ==> rules[i] == SrcRule(addresses[i], family, priority)
  {
    seq(|addresses|, i requires 0 <= i < |addresses| => SrcRule(addresses[i], family, priority))
  }

  function Suppressed(family: Family, priority: int): (r: Rule)
    ensures r.family == family && r.priority == priority
  {
    NewRule(family, priority, Lookup(TunTable, 0))
  }

  /** Of what its table holds, the rule uses everything but default routes. */
  lemma SuppressDefaultOnly(family: Family, priority: int, length: nat)
    ensures Suppressed(family, priority).action.Lookup? && Suppressed(family, priority).action.table == TunTable
    ensures length > Suppressed(family, priority).action.suppress <==> length != 0
  {
  }

  function ExceptDns(family: Family, priority: int): (r: Rule)
    ensures r.family == family && r.priority == priority
  {
    NewRule(family, priority, Lookup(MainTable, 0)).(invert := true, dport := Some(DNS_PORT))
  }

  function FromTun(o: Options, family: Family, priority: int): (r: Rule)
    ensures r.family == family && r.priority == priority
  {
    NewRule(family, priority, Goto(o.start + RANGE)).(iif := o.name)
  }

  function Nothing(o: Options, family: Family): (r: Rule)
    ensures r.family == family && r.priority == o.start + RANGE
  {
    NewRule(family, o.start + RANGE, Nop)
  }

  function NotFromLo(priority: int): (r: Rule)
    ensures r.family == V4 && r.priority == priority
  {
    NewRule(V4, priority, Lookup(TunTable, NO_SUPPRESS)).(invert := true, iif := LO)
  }

  function FromLo(family: Family, priority: int, src: Prefix, action: Action): (r: Rule)
    ensures r.family == family && r.priority == priority && r.action == action
  {
    NewRule(family, priority, action).(iif := LO, src := Some(src))
  }

  const UNSPECIFIED_4: Prefix := Prefix(0, 32)
  const LOWER_HALF_6: Prefix := Prefix(0, 1)

  const UPPER_HALF_6: Prefix := Prefix(0x8000_0000_0000_0000_0000_0000_0000_0000, 1)

  function Head4(o: Options): seq<Rule> {
    DstRules(o.inet4, V4, o.start) + [Suppressed(V4, o.start + 1)] + [ExceptDns(V4, o.start + 2)]
  }

  function Body4(o: Options, head: seq<Rule>, from: int): seq<Rule> {
    head + [FromTun(o, V4, from)] + [NotFromLo(from + 1)]
    + [FromLo(V4, from + 1, UNSPECIFIED_4, Lookup(TunTable, NO_SUPPRESS))]
    + SrcRules(o.inet4, V4, from + 1)
  }

  function Head6(o: Options): seq<Rule> {
    [Suppressed(V6, o.start)] + [ExceptDns(V6, o.start + 1)]
  }

  function Jumps6(o: Options, head: seq<Rule>, from: int): seq<Rule> {
    head + [FromTun(o, V6, from)] + [FromLo(V6, from, LOWER_HALF_6, Goto(o.start + RANGE))]
    + [FromLo(V6, from, UPPER_HALF_6, Goto(o.start + RANGE))]
  }

  function Body6(o: Options, head: seq<Rule>, from: int): seq<Rule> {
    Jumps6(o, head, from) + SrcRules(o.inet6, V6, from + 1) + [NewRule(V6, from + 2, Lookup(TunTable, NO_SUPPRESS))]
  }

  /** All rules of a family, in the order in which they are added. */
  function Rules4(o: Options): seq<Rule> {
    Body4(o, Head4(o), o.start + 2) + [Nothing(o, V4)]
  }

  function Rules6(o: Options): seq<Rule> {
    Body6(o, Head6(o), o.start + 1) + [Nothing(o, V6)]
  }

  /** The rules of one family, in order. */
  function Of(rules: seq<Rule>, family: Family): (r: seq<Rule>)
    ensures forall x :: x in r ==> x in rules && x.family == family
    decreases |rules|
  {
    if rules == [] then []
    else if rules[0].family == family then [rules[0]] + Of(rules[1..], family)
    else Of(rules[1..], family)
  }

  lemma {:induction false} OfAppend(a: seq<Rule>, b: seq<Rule>, family: Family)
    ensures Of(a + b, family) == Of(a, family) + Of(b, family)
    decreases |a|
  {
    if a == [] {
      assert a + b == b;
    } else {
      assert (a + b)[1..] == a[1..] + b;
      OfAppend(a[1..], b, family);
    }
  }

  lemma {:induction false} OfAll(rules: seq<Rule>, family: Family)
    requires forall r :: r in rules ==> r.family == family
    ensures Of(rules, family) == rules
    decreases |rules|
  {
    if rules != [] {
      assert forall r :: r in rules[1..] ==> r in rules;
      OfAll(rules[1..], family);
    }
  }

  lemma {:induction false} OfNone(rules: seq<Rule>, family: Family)
    requires forall r :: r in rules ==> r.family != family
    ensures Of(rules, family) == []
    decreases |rules|
  {
    if rules != [] {
      assert forall r :: r in rules[1..] ==> r in rules;
      OfNone(rules[1..], family);
    }
  }

  lemma Added(rules: seq<Rule>, more: seq<Rule>, family: Family)
    requires forall i :: 0 <= i < |more| ==> more[i].family == family
    ensures Of(rules + more, V4) == Of(rules, V4) + (if family == V4 then more else [])
    ensures Of(rules + more, V6) == Of(rules, V6) + (if family == V6 then more else [])
  {
    OfAppend(rules, more, V4);
    OfAppend(rules, more, V6);
    OfAll(more, family);
    if family == V4 {
      OfNone(more, V6);
    } else {
      OfNone(more, V4);
    }
  }

  // ---------------------------------------------------------------- building the list

  method AddressRules(addresses: seq<Prefix>, family: Family, priority: int, asSource: bool) returns (rules: seq<Rule>)
    ensures rules == if asSource then SrcRules(addresses, family, priority) else DstRules(addresses, family, priority)
    ensures forall i :: 0 <= i < |rules| ==> rules[i].family == family
  {
    rules := [];
    var i := 0;
    ghost var all := if asSource then SrcRules(addresses, family, priority) else DstRules(addresses, family, priority);
    while i < |addresses|
      invariant 0 <= i <= |addresses|
      invariant rules == all[..i]
    {
      var it := NewRule(family, priority, Lookup(TunTable, NO_SUPPRESS));
      it := if asSource then it.(iif := LO, src := Some(addresses[i])) else it.(dst := Some(addresses[i]));
      rules := rules + [it];
      i := i + 1;
    }
  }

  method Append(rules: seq<Rule>, more: seq<Rule>, family: Family) returns (r: seq<Rule>)
    requires forall i :: 0 <= i < |more| ==> more[i].family == family
    ensures family == V4 ==> Of(r, V4) == Of(rules, V4) + more && Of(r, V6) == Of(rules, V6)
    ensures family == V6 ==> Of(r, V6) == Of(rules, V6) + more && Of(r, V4) == Of(rules, V4)
  {
    Added(rules, more, family);
    r := rules + more;
  }

  /** The rules for automatic routing: those of the two families are interleaved, but within a family the
      order is the one above; a family without addresses has none. */
  method AutoRules(o: Options) returns (rules: seq<Rule>)
    ensures Of(rules, V4) == if o.inet4 == [] then [] else Rules4(o)
    ensures Of(rules, V6) == if o.inet6 == [] then [] else Rules6(o)
  {
    hide Of, Head4, Body4, Head6, Body6, Nothing;
    var p4, p6 := o.inet4 != [], o.inet6 != [];
    var priority, priority6;
    rules, priority, priority6 := FirstRules(o);
    if p4 {
      rules := BodyRules4(o, rules, priority);
    }
    if p6 {
      rules := BodyRules6(o, rules, priority6);
    }
    if p4 {
      rules := Append(rules, [Nothing(o, V4)], V4);
    }
    if p6 {
      rules := Append(rules, [Nothing(o, V6)], V6);
    }
  }

  /** The first half of the list, and the priorities of the next rules. */
  method FirstRules(o: Options) returns (rules: seq<Rule>, priority: int, priority6: int)
    ensures if o.inet4 == [] then Of(rules, V4) == [] else Of(rules, V4) == Head4(o) && priority == o.start + 2
    ensures if o.inet6 == [] then Of(rules, V6) == [] else Of(rules, V6) == Head6(o) && priority6 == o.start + 1
  {
    hide Of, NewRule, DstRules, SrcRules, Suppressed, ExceptDns;
    var p4, p6 := o.inet4 != [], o.inet6 != [];
    rules := [];
    NothingOf();
    priority, priority6 := o.start, o.start;
    if p4 {
      var forDst := AddressRules(o.inet4, V4, priority, false);
      rules := Append(rules, forDst, V4);
      assert [] + forDst == forDst;
      priority := priority + 1;
      rules := Append(rules, [Suppressed(V4, priority)], V4);
      priority := priority + 1;
    }
    if p6 {
      rules := Append(rules, [Suppressed(V6, priority6)], V6);
      priority6 := priority6 + 1;
    }
    if p4 {
      rules := Append(rules, [ExceptDns(V4, priority)], V4);
    }
    if p6 {
      rules := Append(rules, [ExceptDns(V6, priority6)], V6);
    }
  }

  lemma NothingOf()
    ensures Of([], V4) == [] && Of([], V6) == []
  {
  }

  method BodyRules4(o: Options, before: seq<Rule>, from: int) returns (rules: seq<Rule>)
    ensures Of(rules, V4) == Body4(o, Of(before, V4), from) && Of(rules, V6) == Of(before, V6)
  {
    hide Of, NewRule, SrcRules, FromTun, FromLo, NotFromLo;
    var priority := from;
    rules := Append(before, [FromTun(o, V4, priority)], V4);
    priority := priority + 1;
    rules := Append(rules, [NotFromLo(priority)], V4);
    rules := Append(rules, [FromLo(V4, priority, UNSPECIFIED_4, Lookup(TunTable, NO_SUPPRESS))], V4);
    var forSrc := AddressRules(o.inet4, V4, priority, true);
    rules := Append(rules, forSrc, V4);
  }

  method JumpRules6(o: Options, before: seq<Rule>, priority6: int) returns (rules: seq<Rule>)
    ensures Of(rules, V6) == Jumps6(o, Of(before, V6), priority6) && Of(rules, V4) == Of(before, V4)
  {
    hide Of, NewRule, FromTun, FromLo;
    rules := Append(before, [FromTun(o, V6, priority6)], V6);
    rules := Append(rules, [FromLo(V6, priority6, LOWER_HALF_6, Goto(o.start + RANGE))], V6);
    rules := Append(rules, [FromLo(V6, priority6, UPPER_HALF_6, Goto(o.start + RANGE))], V6);
  }

  method BodyRules6(o: Options, before: seq<Rule>, from: int) returns (rules: seq<Rule>)
    ensures Of(rules, V6) == Body6(o, Of(before, V6), from) && Of(rules, V4) == Of(before, V4)
  {
    hide Of, NewRule, SrcRules, Jumps6;
    var priority6 := from;
    rules := JumpRules6(o, before, priority6);
    priority6 := priority6 + 1;
    var forSrc := AddressRules(o.inet6, V6, priority6, true);
    rules := Append(rules, forSrc, V6);
    priority6 := priority6 + 1;
    rules := Append(rules, [NewRule(V6, priority6, Lookup(TunTable, NO_SUPPRESS))], V6);
  }
}
