/** What the rules do to a packet: ip-rule semantics, and the decision of each family's list for every
    packet and every list of addresses. */
module PolicyMeaning {
  import opened Bits
  import opened PolicyRules

  /** The source of an IPv6 packet may still be open when it is routed; `oif` is the interface its socket is
      bound to, if any, and `meets` are the other selectors the packet fits. */
  datatype Packet = Packet(iif: string, oif: string, src: Option<nat>, dst: nat, dport: nat, meets: set<nat>)

  datatype Verdict = Via(table: Table) | Refused | Undecided

  /** Length of the best route for the packet, in the main table and in others. */
  datatype Routes = Routes(main: Option<nat>, other: nat -> Option<nat>)

  function Width(family: Family): nat {
    if family == V4 then 32 else 128
  }

  predicate Contains(p: Prefix, a: nat, width: nat) {
    p.bits <= width && a / Pow2(width - p.bits) == p.addr / Pow2(width - p.bits)
  }

  predicate Selects(r: Rule, p: Packet) {
    && (r.iif == "" || r.iif == p.iif)
    && (r.oif == "" || r.oif == p.oif)
    && (r.src.Some? ==> p.src.Some? && Contains(r.src.value, p.src.value, Width(r.family)))
    && (r.dst.Some? ==> Contains(r.dst.value, p.dst, Width(r.family)))
    && (r.dport.Some? ==> r.dport.value == p.dport)
    && (r.extra.Some? ==> r.extra.value in p.meets)
  }

  /** An inverted rule matches exactly when its whole selector does not. */
  predicate Matches(r: Rule, p: Packet) {
    Selects(r, p) != r.invert
  }

  /** The tun table holds nothing but the default route. */
  function BestRoute(table: Table, routes: Routes): Option<nat> {
    match table
    case TunTable => Some(0)
    case MainTable => routes.main
    case OtherTable(id) => routes.other(id)
  }

  predicate Finds(table: Table, suppress: int, routes: Routes) {
    var best := BestRoute(table, routes);
    best.Some? && best.value > suppress
  }

  predicate HasTarget(rules: seq<Rule>, target: int) {
    exists i :: 0 <= i < |rules| && rules[i].priority == target
  }

  /** The rules from the first one of the given priority on. */
  function SkipTo(rules: seq<Rule>, target: int): (r: seq<Rule>)
    ensures |r| <= |rules|
  {
    if rules == [] || rules[0].priority == target then rules else SkipTo(rules[1..], target)
  }

  /** The rules are asked in order; a jump leads forward, and is passed over if it leads nowhere. */
  function Decide(rules: seq<Rule>, p: Packet, routes: Routes): Verdict
    decreases |rules|
  {
    if rules == [] then Undecided
    else if !Matches(rules[0], p) then Decide(rules[1..], p, routes)
    else
      match rules[0].action
      case Lookup(table, suppress) =>
        if Finds(table, suppress, routes) then Via(table) else Decide(rules[1..], p, routes)
      case Goto(target) =>
        if HasTarget(rules[1..], target) then Decide(SkipTo(rules[1..], target), p, routes)
        else Decide(rules[1..], p, routes)
      case Nop => Decide(rules[1..], p, routes)
      case Refuse => Refused
  }

  predicate InSome(prefixes: seq<Prefix>, a: nat, width: nat) {
    exists i :: 0 <= i < |prefixes| && Contains(prefixes[i], a, width)
  }

  predicate MainIsSpecific(routes: Routes) {
    routes.main.Some? && routes.main.value > 0
  }

  // ---------------------------------------------------------------- single rules

  lemma First(r: Rule, rest: seq<Rule>, p: Packet, routes: Routes)
    ensures Decide([r] + rest, p, routes) ==
            if !Matches(r, p) || r.action.Nop? then Decide(rest, p, routes)
            else if r.action.Lookup? then
              if Finds(r.action.table, r.action.suppress, routes) then Via(r.action.table) else Decide(rest, p, routes)
            else if r.action.Refuse? then Refused
            else if HasTarget(rest, r.action.target) then Decide(SkipTo(rest, r.action.target), p, routes)
            else Decide(rest, p, routes)
  {
    hide Matches, Finds, HasTarget, SkipTo;
    assert ([r] + rest)[1..] == rest;
  }

  lemma {:induction false} SkipOver(rules: seq<Rule>, z: Rule, later: seq<Rule>)
    requires forall i :: 0 <= i < |rules| ==> rules[i].priority != z.priority
    ensures SkipTo(rules + ([z] + later), z.priority) == [z] + later && HasTarget(rules + ([z] + later), z.priority)
  {
    var all := rules + ([z] + later);
    assert all[|rules|] == z;
    if rules == [] {
      assert all == [z] + later;
    } else {
      assert all[1..] == rules[1..] + ([z] + later);
      SkipOver(rules[1..], z, later);
    }
  }

  lemma {:induction false} DecideDst(prefixes: seq<Prefix>, family: Family, priority: int, rest: seq<Rule>, p: Packet,
                                     routes: Routes)
    ensures Decide(DstRules(prefixes, family, priority) + rest, p, routes) ==
            if InSome(prefixes, p.dst, Width(family)) then Via(TunTable) else Decide(rest, p, routes)
    decreases |prefixes|
  {
    hide Contains, Decide, Width;
    var rules := DstRules(prefixes, family, priority);
    if prefixes == [] {
      assert rules + rest == rest;
    } else {
      var others := DstRules(prefixes[1..], family, priority);
      assert rules == [DstRule(prefixes[0], family, priority)] + others;
      assert rules + rest == [rules[0]] + (others + rest);
      First(rules[0], others + rest, p, routes);
      DecideDst(prefixes[1..], family, priority, rest, p, routes);
      InSomeStep(prefixes, p.dst, Width(family));
    }
  }

  lemma InSomeStep(prefixes: seq<Prefix>, a: nat, width: nat)
    requires prefixes != []
    ensures InSome(prefixes, a, width) <==> Contains(prefixes[0], a, width) || InSome(prefixes[1..], a, width)
  {
    hide Contains;
    if InSome(prefixes, a, width) && !Contains(prefixes[0], a, width) {
      var i :| 0 <= i < |prefixes| && Contains(prefixes[i], a, width);
      assert prefixes[1..][i - 1] == prefixes[i];
    }
    if InSome(prefixes[1..], a, width) {
      var i :| 0 <= i < |prefixes| - 1 && Contains(prefixes[1..][i], a, width);
      assert prefixes[1..][i] == prefixes[i + 1];
    }
  }

  predicate FromLoIn(prefixes: seq<Prefix>, p: Packet, width: nat) {
    p.iif == LO && p.src.Some? && InSome(prefixes, p.src.value, width)
  }

  lemma {:induction false} DecideSrc(prefixes: seq<Prefix>, family: Family, priority: int, rest: seq<Rule>, p: Packet,
                                     routes: Routes)
    ensures Decide(SrcRules(prefixes, family, priority) + rest, p, routes) ==
            if FromLoIn(prefixes, p, Width(family)) then Via(TunTable) else Decide(rest, p, routes)
    decreases |prefixes|
  {
    hide Contains, Decide, Width;
    var rules := SrcRules(prefixes, family, priority);
    if prefixes == [] {
      assert rules + rest == rest;
    } else {
      var others := SrcRules(prefixes[1..], family, priority);
      assert rules == [SrcRule(prefixes[0], family, priority)] + others;
      assert rules + rest == [rules[0]] + (others + rest);
      First(rules[0], others + rest, p, routes);
      DecideSrc(prefixes[1..], family, priority, rest, p, routes);
      if p.src.Some? {
        InSomeStep(prefixes, p.src.value, Width(family));
      }
    }
  }

  // ---------------------------------------------------------------- IPv4

  /** The decision of the IPv4 list, read off in the order in which it is taken. */
  function Verdict4(o: Options, p: Packet, routes: Routes): Verdict {
    if InSome(o.inet4, p.dst, 32) then Via(TunTable)
    else if p.dport != 53 && MainIsSpecific(routes) then Via(MainTable)
    else if p.iif == o.name then Undecided
    else if p.iif != "lo" then Via(TunTable)
    else if p.src == Some(0) || FromLoIn(o.inet4, p, 32) then Via(TunTable)
    else Undecided
  }

  function Then(v: Verdict, next: Verdict): Verdict {
    if v == Undecided then next else v
  }

  /** The list from the jump of the tun device on. */
  lemma DecideBody4(o: Options, later: seq<Rule>, p: Packet, routes: Routes)
    requires o.name != LO && o.name != ""
    ensures var rest := [FromTun(o, V4, o.start + 2)] + ([NotFromLo(o.start + 3)]
                        + ([FromLo(V4, o.start + 3, UNSPECIFIED_4, Lookup(TunTable, NO_SUPPRESS))]
                        + (SrcRules(o.inet4, V4, o.start + 3) + ([Nothing(o, V4)] + later))));
            Decide(rest, p, routes) ==
            if p.iif == o.name then Decide(later, p, routes)
            else if p.iif != LO || p.src == Some(0) || FromLoIn(o.inet4, p, 32) then Via(TunTable)
            else Decide(later, p, routes)
  {
    hide Decide, SkipTo, Contains, FromLoIn, SrcRules, HasTarget;
    var z, u := Nothing(o, V4), FromLo(V4, o.start + 3, UNSPECIFIED_4, Lookup(TunTable, NO_SUPPRESS));
    var src := SrcRules(o.inet4, V4, o.start + 3);
    First(z, later, p, routes);
    DecideSrc(o.inet4, V4, o.start + 3, [z] + later, p, routes);
    First(u, src + ([z] + later), p, routes);
    UnspecifiedIsZero(p);
    First(NotFromLo(o.start + 3), [u] + (src + ([z] + later)), p, routes);
    JumpOver4(o, later);
    First(FromTun(o, V4, o.start + 2), [NotFromLo(o.start + 3)] + ([u] + (src + ([z] + later))), p, routes);
  }

  lemma UnspecifiedIsZero(p: Packet)
    ensures p.src.Some? ==> (Contains(UNSPECIFIED_4, p.src.value, 32) <==> p.src == Some(0))
  {
    assert Pow2(0) == 1;
  }

  lemma JumpOver4(o: Options, later: seq<Rule>)
    ensures var rest := [NotFromLo(o.start + 3)]
                       + ([FromLo(V4, o.start + 3, UNSPECIFIED_4, Lookup(TunTable, NO_SUPPRESS))]
                        + (SrcRules(o.inet4, V4, o.start + 3) + ([Nothing(o, V4)] + later)));
            HasTarget(rest, o.start + RANGE) && SkipTo(rest, o.start + RANGE) == [Nothing(o, V4)] + later
  {
    hide SkipTo, HasTarget;
    var between := [NotFromLo(o.start + 3)] + [FromLo(V4, o.start + 3, UNSPECIFIED_4, Lookup(TunTable, NO_SUPPRESS))]
                   + SrcRules(o.inet4, V4, o.start + 3);
    SkipOver(between, Nothing(o, V4), later);
    assert between + ([Nothing(o, V4)] + later)
        == [NotFromLo(o.start + 3)] + ([FromLo(V4, o.start + 3, UNSPECIFIED_4, Lookup(TunTable, NO_SUPPRESS))]
           + (SrcRules(o.inet4, V4, o.start + 3) + ([Nothing(o, V4)] + later)));
  }

  lemma Regroup(d: seq<Rule>, s: seq<Rule>, e: seq<Rule>, t: seq<Rule>, n: seq<Rule>, u: seq<Rule>, src: seq<Rule>,
                z: seq<Rule>, later: seq<Rule>)
    ensures (d + s + e + t + n + u + src + z) + later == d + (s + (e + (t + (n + (u + (src + (z + later)))))))
  {
    var a := d + s + e + t;
    assert (a + n + u + src + z) + later == a + (n + (u + (src + (z + later))));
    var b := n + (u + (src + (z + later)));
    assert (d + s + e + t) + b == d + (s + (e + (t + b)));
  }

  /** For every packet and every list of addresses, the IPv4 rules decide as said, and leave to the rules
      behind them what they do not decide. */
  lemma Decide4(o: Options, later: seq<Rule>, p: Packet, routes: Routes)
    requires o.name != LO && o.name != ""
    ensures Decide(Rules4(o) + later, p, routes) == Then(Verdict4(o, p, routes), Decide(later, p, routes))
  {
    hide Decide, SkipTo, Contains, InSome, FromLoIn, SrcRules, DstRules, HasTarget, FromTun, NotFromLo, FromLo, Nothing;
    var d, s, e := DstRules(o.inet4, V4, o.start), Suppressed(V4, o.start + 1), ExceptDns(V4, o.start + 2);
    var u := FromLo(V4, o.start + 3, UNSPECIFIED_4, Lookup(TunTable, NO_SUPPRESS));
    var src := SrcRules(o.inet4, V4, o.start + 3);
    var body := [FromTun(o, V4, o.start + 2)] + ([NotFromLo(o.start + 3)] + ([u] + (src + ([Nothing(o, V4)] + later))));
    Regroup(d, [s], [e], [FromTun(o, V4, o.start + 2)], [NotFromLo(o.start + 3)], [u], src, [Nothing(o, V4)], later);
    DecideBody4(o, later, p, routes);
    First(e, body, p, routes);
    First(s, [e] + body, p, routes);
    DecideDst(o.inet4, V4, o.start, [s] + ([e] + body), p, routes);
  }

  /** What the list is for: a packet that has come out of the tun device for somewhere else is never sent
      back into it by these rules, nor is one of a local socket bound to an address that is not of the
      tun; a packet of any other interface is, unless the main table has a specific route for it and it
      is not for port 53. */
  lemma Promise4(o: Options, p: Packet, routes: Routes)
    requires o.name != "lo" && o.name != "" && !InSome(o.inet4, p.dst, 32)
    ensures p.iif == o.name ==> Decide(Rules4(o), p, routes) != Via(TunTable)
    ensures p.iif == "lo" && p.src.Some? && p.src.value != 0 && !InSome(o.inet4, p.src.value, 32)
            ==> Decide(Rules4(o), p, routes) != Via(TunTable)
    ensures p.iif != o.name && p.iif != "lo" ==>
              (Decide(Rules4(o), p, routes) == Via(TunTable) <==> p.dport == 53 || !MainIsSpecific(routes))
  {
    hide InSome, Decide, Rules4;
    assert Rules4(o) + [] == Rules4(o);
    Decide4(o, [], p, routes);
    NoRules(p, routes);
  }

  lemma NoRules(p: Packet, routes: Routes)
    ensures Decide([], p, routes) == Undecided
  {
  }

  // ---------------------------------------------------------------- IPv6

  function Verdict6(o: Options, p: Packet, routes: Routes): Verdict {
    if p.dport != 53 && MainIsSpecific(routes) then Via(MainTable)
    else if p.iif == o.name || (p.iif == "lo" && p.src.Some?) then Undecided
    else Via(TunTable)
  }

  const SIZE_6: nat := 0x1_0000_0000_0000_0000_0000_0000_0000_0000

  /** Every address is in one half of the address space or the other. */
  lemma Halves(a: nat)
    requires a < SIZE_6
    ensures Contains(LOWER_HALF_6, a, 128) || Contains(UPPER_HALF_6, a, 128)
  {
    hide Pow2;
    Pow2Add(64, 64);
    Pow2Values();
    HalvesOf(a, 127, UPPER_HALF_6.addr);
  }

  lemma HalvesOf(a: nat, n: nat, half: nat)
    requires half + half == Pow2(n + 1) && a < Pow2(n + 1)
    ensures half == Pow2(n)
    ensures a / Pow2(n) == 0 / Pow2(n) || a / Pow2(n) == half / Pow2(n)
  {
    var h := Pow2(n);
    assert Pow2(n + 1) == 2 * h;
    if a < h {
      QuotientAndRemainder(a, h, 0, a);
      QuotientAndRemainder(0, h, 0, 0);
    } else {
      QuotientAndRemainder(a, h, 1, a - h);
      QuotientAndRemainder(h, h, 1, 0);
    }
  }

  lemma JumpOver6(o: Options, halves: seq<Rule>, later: seq<Rule>)
    requires forall i :: 0 <= i < |halves| ==> halves[i].priority == o.start + 1
    ensures var rest := halves + (SrcRules(o.inet6, V6, o.start + 2)
                        + ([NewRule(V6, o.start + 3, Lookup(TunTable, NO_SUPPRESS))] + ([Nothing(o, V6)] + later)));
            HasTarget(rest, o.start + RANGE) && SkipTo(rest, o.start + RANGE) == [Nothing(o, V6)] + later
  {
    hide SkipTo, HasTarget;
    var src, tun := SrcRules(o.inet6, V6, o.start + 2), [NewRule(V6, o.start + 3, Lookup(TunTable, NO_SUPPRESS))];
    SkipOver(halves + src + tun, Nothing(o, V6), later);
    assert (halves + src + tun) + ([Nothing(o, V6)] + later) == halves + (src + (tun + ([Nothing(o, V6)] + later)));
  }

  /** The end of the list; the rules for the addresses of the device never get to decide anything,
      because a packet from lo with a source has jumped over them. */
  lemma DecideEnd6(o: Options, later: seq<Rule>, p: Packet, routes: Routes)
    requires p.iif == LO ==> p.src.None?
    ensures Decide(SrcRules(o.inet6, V6, o.start + 2)
                   + ([NewRule(V6, o.start + 3, Lookup(TunTable, NO_SUPPRESS))] + ([Nothing(o, V6)] + later)),
                   p, routes) == Via(TunTable)
  {
    hide Decide, Contains, InSome, SrcRules, Nothing;
    First(NewRule(V6, o.start + 3, Lookup(TunTable, NO_SUPPRESS)), [Nothing(o, V6)] + later, p, routes);
    DecideSrc(o.inet6, V6, o.start + 2,
              [NewRule(V6, o.start + 3, Lookup(TunTable, NO_SUPPRESS))] + ([Nothing(o, V6)] + later), p, routes);
  }

  lemma DecideHalves6(o: Options, later: seq<Rule>, p: Packet, routes: Routes)
    requires p.src.Some? ==> p.src.value < SIZE_6
    ensures var rest := [FromLo(V6, o.start + 1, LOWER_HALF_6, Goto(o.start + RANGE))]
                        + ([FromLo(V6, o.start + 1, UPPER_HALF_6, Goto(o.start + RANGE))]
                        + (SrcRules(o.inet6, V6, o.start + 2)
                        + ([NewRule(V6, o.start + 3, Lookup(TunTable, NO_SUPPRESS))] + ([Nothing(o, V6)] + later))));
            Decide(rest, p, routes) ==
            if p.iif == LO && p.src.Some? then Decide(later, p, routes) else Via(TunTable)
  {
    hide Decide, SkipTo, Contains, SrcRules, HasTarget, Pow2;
    var lower := FromLo(V6, o.start + 1, LOWER_HALF_6, Goto(o.start + RANGE));
    var upper := FromLo(V6, o.start + 1, UPPER_HALF_6, Goto(o.start + RANGE));
    var end := SrcRules(o.inet6, V6, o.start + 2)
               + ([NewRule(V6, o.start + 3, Lookup(TunTable, NO_SUPPRESS))] + ([Nothing(o, V6)] + later));
    First(Nothing(o, V6), later, p, routes);
    JumpOver6(o, [], later);
    assert [] + end == end;
    First(upper, end, p, routes);
    JumpOver6(o, [upper], later);
    First(lower, [upper] + end, p, routes);
    if p.src.Some? {
      Halves(p.src.value);
    }
    if p.iif == LO ==> p.src.None? {
      DecideEnd6(o, later, p, routes);
    }
  }

  lemma DecideBody6(o: Options, later: seq<Rule>, p: Packet, routes: Routes)
    requires o.name != LO && o.name != "" && (p.src.Some? ==> p.src.value < SIZE_6)
    ensures var rest := [FromTun(o, V6, o.start + 1)] + ([FromLo(V6, o.start + 1, LOWER_HALF_6, Goto(o.start + RANGE))]
                        + ([FromLo(V6, o.start + 1, UPPER_HALF_6, Goto(o.start + RANGE))]
                        + (SrcRules(o.inet6, V6, o.start + 2)
                        + ([NewRule(V6, o.start + 3, Lookup(TunTable, NO_SUPPRESS))] + ([Nothing(o, V6)] + later)))));
            Decide(rest, p, routes) ==
            if p.iif == o.name || (p.iif == LO && p.src.Some?) then Decide(later, p, routes) else Via(TunTable)
  {
    hide Decide, SkipTo, Contains, SrcRules, HasTarget, Pow2;
    var lower := FromLo(V6, o.start + 1, LOWER_HALF_6, Goto(o.start + RANGE));
    var upper := FromLo(V6, o.start + 1, UPPER_HALF_6, Goto(o.start + RANGE));
    var end := SrcRules(o.inet6, V6, o.start + 2)
               + ([NewRule(V6, o.start + 3, Lookup(TunTable, NO_SUPPRESS))] + ([Nothing(o, V6)] + later));
    First(Nothing(o, V6), later, p, routes);
    JumpOver6(o, [lower, upper], later);
    assert [lower, upper] + end == [lower] + ([upper] + end);
    First(FromTun(o, V6, o.start + 1), [lower] + ([upper] + end), p, routes);
    DecideHalves6(o, later, p, routes);
  }

  lemma Regroup6(s: seq<Rule>, e: seq<Rule>, t: seq<Rule>, n: seq<Rule>, u: seq<Rule>, src: seq<Rule>, f: seq<Rule>,
                 z: seq<Rule>, later: seq<Rule>)
    ensures (s + e + t + n + u + src + f + z) + later == s + (e + (t + (n + (u + (src + (f + (z + later)))))))
  {
    var a := s + e + t;
    var b := n + (u + (src + (f + (z + later))));
    assert (a + n + u + src + f + z) + later == a + b;
    assert (s + e + t) + b == s + (e + (t + b));
  }

  /** For every packet and every list of addresses, the IPv6 rules decide as said. The addresses of the
      device do not matter. */
  lemma Decide6(o: Options, later: seq<Rule>, p: Packet, routes: Routes)
    requires o.name != LO && o.name != "" && (p.src.Some? ==> p.src.value < SIZE_6)
    ensures Decide(Rules6(o) + later, p, routes) == Then(Verdict6(o, p, routes), Decide(later, p, routes))
  {
    hide Decide, SkipTo, Contains, InSome, SrcRules, HasTarget, FromTun, FromLo, Nothing, Pow2;
    var s, e := Suppressed(V6, o.start), ExceptDns(V6, o.start + 1);
    var lower := FromLo(V6, o.start + 1, LOWER_HALF_6, Goto(o.start + RANGE));
    var upper := FromLo(V6, o.start + 1, UPPER_HALF_6, Goto(o.start + RANGE));
    var src, f := SrcRules(o.inet6, V6, o.start + 2), NewRule(V6, o.start + 3, Lookup(TunTable, NO_SUPPRESS));
    var body := [FromTun(o, V6, o.start + 1)] + ([lower] + ([upper] + (src + ([f] + ([Nothing(o, V6)] + later)))));
    Regroup6([s], [e], [FromTun(o, V6, o.start + 1)], [lower], [upper], src, [f], [Nothing(o, V6)], later);
    DecideBody6(o, later, p, routes);
    First(e, body, p, routes);
    First(s, [e] + body, p, routes);
  }
}
