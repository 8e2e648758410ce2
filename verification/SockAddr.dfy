/** Socket addresses and address prefixes in the 28 bytes of the system's union. The host is little-endian;
    ports are stored big-endian, and the zone of an IPv6 address as a number. */
module SockAddr {
  import opened Bits
  import opened Words

  const SIZE: nat := 28
  const AF_INET: nat := 2
  const AF_INET6: nat := 23
  const U16: nat := 0x1_0000

  datatype Addr = NoAddr | Addr4(bytes: Bytes) | Addr6(bytes: Bytes, zone: string)

  datatype AddrPort = AddrPort(addr: Addr, port: nat)

  predicate IsAddr(a: Addr) {
    match a
    case NoAddr => true
    case Addr4(b) => |b| == 4
    case Addr6(b, _) => |b| == 16
  }

  // ---------------------------------------------------------------- byte order

  /** The number whose little-endian bytes are the big-endian bytes of i, and back. */
  function Htons(i: nat): nat
    requires i < U16
  {
    i % 0x100 * 0x100 + i / 0x100
  }

  function Ntohs(i: nat): nat
    requires i < U16
  {
    i % 0x100 * 0x100 + i / 0x100
  }

  lemma NtohsOfHtons(i: nat)
    requires i < U16
    ensures Htons(i) < U16 && Ntohs(Htons(i)) == i
    ensures Encode(Htons(i), 2) == [i / 0x100, i % 0x100]
  {
    var h := Htons(i);
    assert h % 0x100 == i / 0x100 && h / 0x100 == i % 0x100;
    assert Encode(h, 2) == [h % 0x100] + Encode(h / 0x100, 1);
    assert Encode(h / 0x100, 1) == [h / 0x100 % 0x100] + Encode(h / 0x100 / 0x100, 0);
  }

  // ---------------------------------------------------------------- decimal zones

  predicate IsDigit(c: char) {
    '0' <= c <= '9'
  }

  predicate AllDigits(s: string) {
    forall i :: 0 <= i < |s| ==> IsDigit(s[i])
  }

  /** The number that a string of digits stands for. */
  function Value(s: string): nat
    requires AllDigits(s)
  {
    if s == "" then 0 else Value(s[..|s| - 1]) * 10 + (s[|s| - 1] - '0') as nat
  }

  /** strconv.ParseUint(z, 10, 32), with zero for an error. */
  function ScopeOf(zone: string): (scope: nat)
    ensures scope < U32
  {
    if zone != "" && AllDigits(zone) && Value(zone) < U32 then Value(zone) else 0
  }

  /** strconv.FormatUint(v, 10) */
  function Format(v: nat): string {
    var last := [('0' as int + v % 10) as char];
    if v < 10 then last else Format(v / 10) + last
  }

  lemma {:induction false} ValueOfFormat(v: nat)
    ensures AllDigits(Format(v)) && Value(Format(v)) == v && |Format(v)| > 0
    ensures v > 0 ==> Format(v)[0] != '0'
    decreases v
  {
    var last := ('0' as int + v % 10) as char;
    assert (last - '0') as nat == v % 10;
    if v >= 10 {
      ValueOfFormat(v / 10);
      var f := Format(v);
      assert f[..|f| - 1] == Format(v / 10);
    } else {
      assert Format(v) == [last] && [last][..0] == "";
    }
  }

  /** A zone that is written the way the decoder writes it: a decimal number from 1 to 2^32 - 1 without
      leading zeros. */
  predicate Canonical(zone: string) {
    zone != "" && AllDigits(zone) && zone[0] != '0' && Value(zone) < U32
  }

  lemma {:induction false} FormatOfValue(s: string)
    requires s != "" && AllDigits(s) && s[0] != '0'
    ensures Value(s) > 0 && Format(Value(s)) == s
    decreases |s|
  {
    var front, d := s[..|s| - 1], (s[|s| - 1] - '0') as nat;
    assert Value(s) == Value(front) * 10 + d;
    assert s == front + [s[|s| - 1]];
    if front != "" {
      assert front[0] == s[0];
      FormatOfValue(front);
      TenTimes(Value(front), d);
    } else {
      assert Value(front) == 0;
    }
  }

  lemma TenTimes(v: nat, d: nat)
    requires d < 10
    ensures (v * 10 + d) % 10 == d && (v * 10 + d) / 10 == v
  {
  }

  /** The zone that comes back for a zone that went in. */
  function ZoneOf(scope: nat): string {
    if scope != 0 then Format(scope) else ""
  }

  lemma ZoneRoundTrip(zone: string)
    ensures ZoneOf(ScopeOf(zone)) == zone <==> zone == "" || Canonical(zone)
  {
    if Canonical(zone) {
      FormatOfValue(zone);
    }
    if ScopeOf(zone) != 0 {
      ValueOfFormat(ScopeOf(zone));
    }
  }

  // ---------------------------------------------------------------- the union

  /** What the union holds after an address has been set; the last twelve bytes are not part of an IPv4
      address, and keep what they held. */
  function Layout(ap: AddrPort, before: Bytes): (raw: Bytes)
    requires IsAddr(ap.addr) && ap.addr != NoAddr && ap.port < U16 && |before| == SIZE
    ensures |raw| == SIZE
  {
    match ap.addr
    case Addr4(b) => Encode(AF_INET, 2) + Encode(Htons(ap.port), 2) + b + Zeros(8) + before[16..]
    case Addr6(b, zone) => Encode(AF_INET6, 2) + Encode(Htons(ap.port), 2) + Zeros(4) + b + Encode(ScopeOf(zone), 4)
  }

  function FamilyOf(raw: Bytes): nat
    requires |raw| == SIZE
  {
    Decode(raw[0..2])
  }

  function AddrOf(raw: Bytes): Addr
    requires |raw| == SIZE
  {
    if FamilyOf(raw) == AF_INET then Addr4(raw[4..8])
    else if FamilyOf(raw) == AF_INET6 then Addr6(raw[8..24], ZoneOf(Decode(raw[24..28])))
    else NoAddr
  }

  function PortOf(raw: Bytes): nat
    requires |raw| == SIZE
  {
    TwoBytes(raw[2..4]);
    if FamilyOf(raw) == AF_INET || FamilyOf(raw) == AF_INET6 then Ntohs(Decode(raw[2..4])) else 0
  }

  lemma TwoBytes(b: Bytes)
    requires |b| == 2
    ensures Decode(b) < U16
  {
    assert Span(2) == 0x100 * Span(1) && Span(1) == 0x100 * Span(0);
  }

  lemma LayoutParts(ap: AddrPort, before: Bytes)
    requires IsAddr(ap.addr) && ap.addr != NoAddr && ap.port < U16 && |before| == SIZE
    ensures var raw := Layout(ap, before);
            && raw[2..4] == Encode(Htons(ap.port), 2)
            && raw[2] == ap.port / 256 && raw[3] == ap.port % 256
            && raw[0] == (if ap.addr.Addr4? then 2 else 23) && raw[1] == 0
            && (ap.addr.Addr4? ==>
                && raw[0..2] == Encode(AF_INET, 2) && raw[4..8] == ap.addr.bytes
                && raw[8..16] == Zeros(8) && raw[16..] == before[16..])
            && (ap.addr.Addr6? ==>
                && raw[0..2] == Encode(AF_INET6, 2) && raw[4..8] == Zeros(4)
                && raw[8..24] == ap.addr.bytes && raw[24..28] == Encode(ScopeOf(ap.addr.zone), 4))
  {
    hide Encode, ScopeOf, Htons;
    FirstBytes(ap, before);
    match ap.addr
    case Addr4(b) => Parts(Encode(AF_INET, 2), Encode(Htons(ap.port), 2), b, Zeros(8), before[16..]);
    case Addr6(b, zone) => Parts(Encode(AF_INET6, 2), Encode(Htons(ap.port), 2), Zeros(4), b, Encode(ScopeOf(zone), 4));
  }

  lemma FirstBytes(ap: AddrPort, before: Bytes)
    requires IsAddr(ap.addr) && ap.addr != NoAddr && ap.port < U16 && |before| == SIZE
    ensures var raw := Layout(ap, before);
            && raw[2] == ap.port / 256 && raw[3] == ap.port % 256
            && raw[0] == (if ap.addr.Addr4? then 2 else 23) && raw[1] == 0
  {
    hide ScopeOf, Htons, Encode;
    NtohsOfHtons(ap.port);
    FamilyBytes();
    var e := Encode(Htons(ap.port), 2);
    var raw := Layout(ap, before);
    assert raw[2] == e[0] && raw[3] == e[1];
  }

  lemma FamilyBytes()
    ensures Encode(AF_INET, 2) == [2, 0] && Encode(AF_INET6, 2) == [23, 0]
  {
    assert Encode(AF_INET / 0x100, 1) == [0] + Encode(0, 0);
    assert Encode(AF_INET6 / 0x100, 1) == [0] + Encode(0, 0);
  }

  lemma TwoBytesAre(b: Bytes)
    requires |b| == 2
    ensures Decode(b) == b[0] as nat + 256 * b[1] as nat
  {
    assert b[1..] == [b[1]] && b[1..][1..] == [];
    assert Decode(b[1..]) == b[1] + 0x100 * Decode([]);
  }

  /** What any 28 bytes are taken for, whoever has filled them in. */
  lemma AnyUnion(raw: Bytes)
    requires |raw| == 28
    ensures var family := raw[0] as nat + 256 * raw[1] as nat;
            && (family == 2 ==> AddrOf(raw) == Addr4(raw[4..8]))
            && (family == 23 ==>
                  && AddrOf(raw).Addr6? && AddrOf(raw).bytes == raw[8..24]
                  && (AddrOf(raw).zone == "" <==> raw[24..28] == [0, 0, 0, 0]))
            && PortOf(raw) == (if family == 2 || family == 23 then 256 * raw[2] as nat + raw[3] as nat else 0)
            && (family != 2 && family != 23 ==> AddrOf(raw) == NoAddr)
  {
    hide Decode, Format, Ntohs;
    TwoBytesAre(raw[0..2]);
    TwoBytesAre(raw[2..4]);
    Swapped(raw[2], raw[3]);
    ZeroScope(raw[24..28]);
  }

  lemma ZeroScope(b: Bytes)
    requires |b| == 4
    ensures ZoneOf(Decode(b)) == "" <==> b == [0, 0, 0, 0]
  {
    hide Decode;
    var a, x, y, d := b[0], b[1], b[2], b[3];
    assert b == [a, x, y, d];
    FourBytes(a, x, y, d);
    if Decode(b) != 0 {
      FormatIsNotEmpty(Decode(b));
    }
  }

  lemma FormatIsNotEmpty(v: nat)
    ensures Format(v) != ""
  {
  }

  lemma Swapped(high: byte, low: byte)
    ensures high + 256 * low < U16
    ensures Ntohs(high + 256 * low) == 256 * high + low
  {
  }

  lemma Parts(a: Bytes, b: Bytes, c: Bytes, d: Bytes, e: Bytes)
    ensures var raw := a + b + c + d + e;
            var i, j, k := |a| + |b|, |a| + |b| + |c|, |a| + |b| + |c| + |d|;
            raw[0..|a|] == a && raw[|a|..i] == b && raw[i..j] == c && raw[j..k] == d && raw[k..] == raw[k..k + |e|] == e
  {
    var ab, abc := a + b, a + b + c;
    var abcd := abc + d;
    assert (abcd + e)[..|abcd|] == abcd;
    assert abcd[..|abc|] == abc;
    assert abc[..|ab|] == ab;
    assert (abcd + e)[|abcd|..] == e;
  }

  /** Every address and port comes back as it went in, whatever the union held before, iff it has no zone
      or a canonical one. */
  lemma AddrPortRoundTrip(ap: AddrPort, before: Bytes)
    requires IsAddr(ap.addr) && ap.addr != NoAddr && ap.port < U16 && |before| == SIZE
    ensures PortOf(Layout(ap, before)) == ap.port
    ensures AddrOf(Layout(ap, before)) == ap.addr
            <==> (ap.addr.Addr6? && ap.addr.zone != "" ==> Canonical(ap.addr.zone))
  {
    hide Layout, Encode, Decode, Span, ScopeOf, ZoneOf, Canonical, Htons, Ntohs;
    LayoutParts(ap, before);
    Spans();
    NtohsOfHtons(ap.port);
    DecodeOfEncode(Htons(ap.port), 2);
    DecodeOfEncode(AF_INET, 2);
    DecodeOfEncode(AF_INET6, 2);
    if ap.addr.Addr6? {
      DecodeOfEncode(ScopeOf(ap.addr.zone), 4);
      ZoneRoundTrip(ap.addr.zone);
    }
  }

  lemma Pieces(m: Bytes, a: nat, b: nat, c: nat, d: nat)
    requires a <= b <= c <= d <= |m|
    ensures m == m[..a] + m[a..b] + m[b..c] + m[c..d] + m[d..]
  {
  }

  /** Members written one after the other, into places that do not overlap. */
  lemma Members4(m0: Bytes, m1: Bytes, m2: Bytes, m3: Bytes, m4: Bytes, family: Bytes, address: Bytes, port: Bytes)
    requires |m0| == SIZE && |family| == |port| == 2 && |address| == 4
    requires m1 == Splice(m0, 0, family) && m2 == Splice(m1, 4, address) && m3 == Splice(m2, 2, port)
             && m4 == Splice(m3, 8, Zeros(8))
    ensures m4 == family + port + address + Zeros(8) + m0[16..]
  {
    hide Splice;
    Pieces(m4, 2, 4, 8, 16);
    FieldAfterSplice(m1, 4, address, 0, 2);
    FieldAfterSplice(m2, 2, port, 0, 2);
    FieldAfterSplice(m3, 8, Zeros(8), 0, 2);
    FieldAfterSplice(m2, 2, port, 4, 4);
    FieldAfterSplice(m3, 8, Zeros(8), 4, 4);
    FieldAfterSplice(m3, 8, Zeros(8), 2, 2);
    FieldAfterSplice(m0, 0, family, 16, 12);
    FieldAfterSplice(m1, 4, address, 16, 12);
    FieldAfterSplice(m2, 2, port, 16, 12);
    FieldAfterSplice(m3, 8, Zeros(8), 16, 12);
    assert m4[16..] == m4[16..16 + 12] && m0[16..] == m0[16..16 + 12];
  }

  lemma Members6(m0: Bytes, m1: Bytes, m2: Bytes, m3: Bytes, m4: Bytes, m5: Bytes,
                 family: Bytes, address: Bytes, port: Bytes, scope: Bytes)
    requires |m0| == SIZE && |family| == |port| == 2 && |address| == 16 && |scope| == 4
    requires m1 == Splice(m0, 0, family) && m2 == Splice(m1, 8, address) && m3 == Splice(m2, 2, port)
    requires m4 == Splice(m3, 4, Zeros(4)) && m5 == Splice(m4, 24, scope)
    ensures m5 == family + port + Zeros(4) + address + scope
  {
    hide Splice;
    Pieces(m5, 2, 4, 8, 24);
    FieldAfterSplice(m1, 8, address, 0, 2);
    FieldAfterSplice(m2, 2, port, 0, 2);
    FieldAfterSplice(m3, 4, Zeros(4), 0, 2);
    FieldAfterSplice(m4, 24, scope, 0, 2);
    FieldAfterSplice(m3, 4, Zeros(4), 2, 2);
    FieldAfterSplice(m4, 24, scope, 2, 2);
    FieldAfterSplice(m4, 24, scope, 4, 4);
    FieldAfterSplice(m2, 2, port, 8, 16);
    FieldAfterSplice(m3, 4, Zeros(4), 8, 16);
    FieldAfterSplice(m4, 24, scope, 8, 16);
    assert m5[24..] == m5[24..24 + 4];
  }

  class RawSockaddrInet {
    const raw: array<byte>

    constructor ()
      ensures raw.Length == SIZE && fresh(raw)
    {
      raw := new byte[SIZE];
    }

    ghost predicate Valid() {
      raw.Length == SIZE
    }

    /** Writes the members one by one; an invalid address is refused and changes nothing. */
    method SetAddrPort(ap: AddrPort) returns (ok: bool)
      requires Valid() && IsAddr(ap.addr) && ap.port < U16
      modifies raw
      ensures ok <==> ap.addr != NoAddr
      ensures raw[..] == if ok then Layout(ap, old(raw[..])) else old(raw[..])
    {
      hide Encode, ScopeOf, Htons;
      match ap.addr
      case NoAddr => return false;
      case Addr4(b) =>
        Set4(Encode(AF_INET, 2), b, Encode(Htons(ap.port), 2));
        return true;
      case Addr6(b, zone) =>
        Set6(Encode(AF_INET6, 2), b, Encode(Htons(ap.port), 2), Encode(ScopeOf(zone), 4));
        return true;
    }

    method Set4(family: Bytes, address: Bytes, port: Bytes)
      requires Valid() && |family| == |port| == 2 && |address| == 4
      modifies raw
      ensures raw[..] == family + port + address + Zeros(8) + old(raw[..])[16..]
    {
      ghost var m0 := raw[..];
      Poke(raw, 0, family);
      ghost var m1 := raw[..];
      Poke(raw, 4, address);
      ghost var m2 := raw[..];
      Poke(raw, 2, port);
      ghost var m3 := raw[..];
      Poke(raw, 8, Zeros(8));
      Members4(m0, m1, m2, m3, raw[..], family, address, port);
    }

    method Set6(family: Bytes, address: Bytes, port: Bytes, scope: Bytes)
      requires Valid() && |family| == |port| == 2 && |address| == 16 && |scope| == 4
      modifies raw
      ensures raw[..] == family + port + Zeros(4) + address + scope
    {
      ghost var m0 := raw[..];
      Poke(raw, 0, family);
      ghost var m1 := raw[..];
      Poke(raw, 8, address);
      ghost var m2 := raw[..];
      Poke(raw, 2, port);
      ghost var m3 := raw[..];
      Poke(raw, 4, Zeros(4));
      ghost var m4 := raw[..];
      Poke(raw, 24, scope);
      Members6(m0, m1, m2, m3, m4, raw[..], family, address, port, scope);
    }
  }

  // ---------------------------------------------------------------- prefixes

  /** bits is -1 for a prefix that is not valid; an address in a prefix has no zone. */
  datatype Prefix = Prefix(addr: Addr, bits: int)

  function BitLen(a: Addr): nat {
    match a
    case NoAddr => 0
    case Addr4(_) => 32
    case Addr6(_, _) => 128
  }

  function WithoutZone(a: Addr): Addr {
    if a.Addr6? then a.(zone := "") else a
  }

  /** netip.PrefixFrom */
  function PrefixFrom(a: Addr, bits: int): Prefix {
    Prefix(WithoutZone(a), if a != NoAddr && 0 <= bits <= BitLen(a) then bits else -1)
  }

  /** A prefix is valid up to the length of its address. */
  lemma PrefixBits(a: Addr, bits: int)
    ensures PrefixFrom(a, bits).bits ==
            if (a.Addr4? && 0 <= bits <= 32) || (a.Addr6? && 0 <= bits <= 128) then bits else -1
    ensures PrefixFrom(a, bits).addr == if a.Addr6? then Addr6(a.bytes, "") else a
  {
  }

  predicate IsPrefix(p: Prefix) {
    && IsAddr(p.addr)
    && WithoutZone(p.addr) == p.addr
    && (p.bits == -1 || (p.addr != NoAddr && 0 <= p.bits <= BitLen(p.addr)))
  }

  class IPAddressPrefix {
    const rawPrefix: RawSockaddrInet
    var prefixLength: byte

    constructor ()
      ensures rawPrefix.Valid()
    {
      rawPrefix := new RawSockaddrInet();
      prefixLength := 0;
    }

    /** The prefix that the stored bytes stand for. */
    function View(): Prefix
      requires rawPrefix.Valid()
      reads this, rawPrefix.raw
    {
      var a := AddrOf(rawPrefix.raw[..]);
      if a == NoAddr then Prefix(NoAddr, -1) else PrefixFrom(WithoutZone(a), prefixLength)
    }

    method SetPrefix(p: Prefix) returns (ok: bool)
      requires rawPrefix.Valid() && IsPrefix(p)
      modifies this`prefixLength, rawPrefix.raw
      ensures ok <==> p.addr != NoAddr
      ensures if ok then View() == p else View() == old(View())
    {
      hide Layout, AllDigits;
      ok := rawPrefix.SetAddrPort(AddrPort(p.addr, 0));
      if !ok {
        return false;
      }
      AddrPortRoundTrip(AddrPort(p.addr, 0), old(rawPrefix.raw[..]));
      prefixLength := p.bits % 0x100;
    }
  }
}
