/** The network gate of `http_server.c`: a request is trusted when the device runs
    its own access point, or when both the peer address and the address named by
    the `Origin` header lie in the private blocks of section 3 of RFC 1918. */
module Gate {
  import opened Common

  /** `INADDR_NONE`, what `inet_addr` returns for text it cannot read. */
  const INADDR_NONE: u32 := 0xFFFF_FFFF

  /** The four parts of a dotted IPv4 address a.b.c.d, in the order they are written. */
  datatype Octets = Octets(a: byte, b: byte, c: byte, d: byte)

  /** The `uint32_t` that holds a.b.c.d in network byte order on the (little-endian)
      ESP32: the first octet is the least significant byte. */
  function NetAddr(o: Octets): u32
  {
    o.a + 0x100 * o.b + 0x1_0000 * o.c + 0x100_0000 * o.d
  }

  /** The address held by a network-order `uint32_t`. */
  function OctetsOf(x: u32): Octets
  {
    Octets(x % 0x100, (x / 0x100) % 0x100, (x / 0x1_0000) % 0x100, x / 0x100_0000)
  }

  /** Splitting `x` at a byte boundary: the quotient and remainder are determined by
      the remainder's range. */
  lemma ByteSplit(x: int, q: int, r: int)
    requires 0 <= r < 0x100 && x == q * 0x100 + r
    ensures x / 0x100 == q && x % 0x100 == r
  {
  }

  lemma ShortSplit(x: int, q: int, r: int)
    requires 0 <= r < 0x1_0000 && x == q * 0x1_0000 + r
    ensures x / 0x1_0000 == q
  {
  }

  lemma TripleSplit(x: int, q: int, r: int)
    requires 0 <= r < 0x100_0000 && x == q * 0x100_0000 + r
    ensures x / 0x100_0000 == q
  {
  }

  lemma OctetsOfNetAddr(o: Octets)
    ensures OctetsOf(NetAddr(o)) == o
  {
    var x := NetAddr(o);
    ByteSplit(x, o.b + 0x100 * o.c + 0x1_0000 * o.d, o.a);
    ShortSplit(x, o.c + 0x100 * o.d, o.a + 0x100 * o.b);
    ByteSplit(o.c + 0x100 * o.d, o.d, o.c);
    ByteSplit(o.b + 0x100 * o.c + 0x1_0000 * o.d, o.c + 0x100 * o.d, o.b);
    TripleSplit(x, o.d, o.a + 0x100 * o.b + 0x1_0000 * o.c);
  }

  /** The same address as a host-order number: a is the most significant byte. */
  function HostOrder(o: Octets): u32
  {
    0x100_0000 * o.a + 0x1_0000 * o.b + 0x100 * o.c + o.d
  }

  /** `ntohl` on the little-endian ESP32 swaps the four bytes. */
  function Ntohl(x: u32): u32
  {
    HostOrder(OctetsOf(x))
  }

  /** Section 3 of RFC 1918, stated on the written octets: 10/8, 172.16/12, 192.168/16. */
  predicate Rfc1918(o: Octets)
  {
    o.a == 10 || (o.a == 172 && 16 <= o.b <= 31) || (o.a == 192 && o.b == 168)
  }

  /** `ip_in_private_range`: three range tests on the host-order address. It accepts
      exactly the RFC 1918 addresses. */
  function IpInPrivateRange(address: u32): (r: EspErr)
    ensures r == EspOk <==> Rfc1918(OctetsOf(address))
  {
    var ip := Ntohl(address);
    if 0x0A00_0000 <= ip <= 0x0AFF_FFFF then EspOk
    else if 0xAC10_0000 <= ip <= 0xAC1F_FFFF then EspOk
    else if 0xC0A8_0000 <= ip <= 0xC0A8_FFFF then EspOk
    else EspFail
  }

  predicate IsPrivate(address: u32)
  {
    Rfc1918(OctetsOf(address))
  }

  /** Neither sentinel that `extract_origin_ip_addr` can return on bad input, 0 and
      `INADDR_NONE`, is ever private. */
  lemma SentinelsNotPrivate()
    ensures !IsPrivate(0) && !IsPrivate(INADDR_NONE)
  {
  }

  /** The gate's range test on an address given by its written octets. */
  lemma PrivateIffRfc1918(o: Octets)
    ensures IpInPrivateRange(NetAddr(o)) == EspOk <==> Rfc1918(o)
  {
    OctetsOfNetAddr(o);
  }

  // ---------------------------------------------------------------------------
  // inet_addr (strict dotted decimal)

  /** One decimal octet: one to three digits, no leading zero, at most 255. */
  function ParseOctet(s: string): Option<byte>
  {
    if 1 <= |s| <= 3 && AllDigits(s) && (s[0] != '0' || |s| == 1) && DigitsValue(s) <= 255
    then Some(DigitsValue(s))
    else None
  }

  /** `inet_addr` on the dotted-decimal form a.b.c.d; any other text gives `INADDR_NONE`. */
  function InetAddr(s: string): u32
  {
    var parts := Split(s, '.');
    if |parts| != 4 then INADDR_NONE
    else match (ParseOctet(parts[0]), ParseOctet(parts[1]), ParseOctet(parts[2]), ParseOctet(parts[3]))
      case (Some(a), Some(b), Some(c), Some(d)) => NetAddr(Octets(a, b, c, d))
      case _ => INADDR_NONE
  }

  /** a.b.c.d written out as `inet_ntop` writes it. */
  function Dotted(o: Octets): string
  {
    NatToString(o.a) + ['.'] + (NatToString(o.b) + ['.'] + (NatToString(o.c) + ['.'] + NatToString(o.d)))
  }

  lemma ParseOctetOfNatToString(n: byte)
    ensures ParseOctet(NatToString(n)) == Some(n)
  {
    NatToStringShape(n);
    DigitsValueOfNatToString(n);
  }

  lemma DigitsHaveNoDot(n: nat)
    ensures '.' !in NatToString(n)
  {
    var s := NatToString(n);
    assert forall i :: 0 <= i < |s| ==> s[i] != '.';
  }

  lemma SplitOne(x: string)
    requires '.' !in x
    ensures Split(x, '.') == [x]
  {
    assert Find(x, '.') == None;
  }

  lemma SplitTwo(x: string, y: string)
    requires '.' !in x && '.' !in y
    ensures Split(x + ['.'] + y, '.') == [x, y]
  {
    SplitOne(y);
    SplitCons(x, '.', y);
  }

  lemma SplitThree(x: string, y: string, z: string)
    requires '.' !in x && '.' !in y && '.' !in z
    ensures Split(x + ['.'] + (y + ['.'] + z), '.') == [x, y, z]
  {
    SplitTwo(y, z);
    SplitCons(x, '.', y + ['.'] + z);
  }

  lemma SplitFour(w: string, x: string, y: string, z: string)
    requires '.' !in w && '.' !in x && '.' !in y && '.' !in z
    ensures Split(w + ['.'] + (x + ['.'] + (y + ['.'] + z)), '.') == [w, x, y, z]
  {
    SplitThree(x, y, z);
    SplitCons(w, '.', x + ['.'] + (y + ['.'] + z));
    assert [w] + [x, y, z] == [w, x, y, z];
  }

  lemma {:induction false} SplitDotted(o: Octets)
    ensures Split(Dotted(o), '.') == [NatToString(o.a), NatToString(o.b), NatToString(o.c), NatToString(o.d)]
  {
    DigitsHaveNoDot(o.a);
    DigitsHaveNoDot(o.b);
    DigitsHaveNoDot(o.c);
    DigitsHaveNoDot(o.d);
    SplitFour(NatToString(o.a), NatToString(o.b), NatToString(o.c), NatToString(o.d));
  }

  /** Reading back a written address gives the address. */
  lemma {:induction false} InetAddrOfDotted(o: Octets)
    ensures InetAddr(Dotted(o)) == NetAddr(o)
  {
    SplitDotted(o);
    ParseOctetOfNatToString(o.a);
    ParseOctetOfNatToString(o.b);
    ParseOctetOfNatToString(o.c);
    ParseOctetOfNatToString(o.d);
  }

  // ---------------------------------------------------------------------------
  // The Origin header

  const HTTP_PREFIX: string := "http://"

  /** The host text of an `Origin` header: what follows the first "http://", up to
      the next '/' or the end. None when there is no "http://". */
  function OriginHost(origin: string): (host: Option<string>)
    ensures host.Some? ==> '/' !in host.value
  {
    match FindSub(origin, HTTP_PREFIX)
    case None => None
    case Some(i) =>
      var rest := origin[i + |HTTP_PREFIX|..];
      match Find(rest, '/')
      case Some(j) => Some(rest[..j])
      case None => Some(rest)
  }

  /** `extract_origin_ip_addr`: 0 without "http://" or when the host text does not
      fit the 16-byte buffer, otherwise `inet_addr` of the host text (port included). */
  function ExtractOriginIpAddr(origin: string): (ip: u32)
    ensures FindSub(origin, HTTP_PREFIX).None? ==> ip == 0
    ensures OriginHost(origin).Some? && |OriginHost(origin).value| >= 16 ==> ip == 0
    ensures OriginHost(origin).Some? && |OriginHost(origin).value| < 16 ==> ip == InetAddr(OriginHost(origin).value)
  {
    match OriginHost(origin)
    case None => 0
    case Some(host) => if |host| < 16 then InetAddr(host) else 0
  }

  /** An origin "http://a.b.c.d" followed by nothing or by a path names a.b.c.d. */
  lemma {:induction false} ExtractOriginOfDotted(o: Octets, path: string)
    requires path == [] || path[0] == '/'
    ensures ExtractOriginIpAddr(HTTP_PREFIX + Dotted(o) + path) == NetAddr(o)
  {
    OriginHostOfDotted(o, path);
    DottedShape(o);
    InetAddrOfDotted(o);
  }

  /** The host text of "http://a.b.c.d" followed by a path is "a.b.c.d". */
  lemma OriginHostOfDotted(o: Octets, path: string)
    requires path == [] || path[0] == '/'
    ensures OriginHost(HTTP_PREFIX + Dotted(o) + path) == Some(Dotted(o))
  {
    var host := Dotted(o);
    var origin := HTTP_PREFIX + host + path;
    PrefixFound(HTTP_PREFIX, host + path);
    assert origin == HTTP_PREFIX + (host + path);
    var rest := origin[|HTTP_PREFIX|..];
    assert rest == host + path;
    DottedShape(o);
    if path == [] {
      assert rest == host;
    } else {
      FindAfter(host, '/', path[1..]);
      assert rest == host + ['/'] + path[1..];
      assert rest[..|host|] == host;
    }
  }

  /** `strstr` finds a non-empty prefix at the start. */
  lemma PrefixFound(p: string, rest: string)
    requires |p| > 0
    ensures FindSub(p + rest, p) == Some(0)
  {
    assert (p + rest)[..|p|] == p;
  }

  /** a.b.c.d is at most 15 characters of digits and dots. */
  lemma DottedShape(o: Octets)
    ensures '/' !in Dotted(o) && |Dotted(o)| <= 15
  {
    NatToStringShape(o.a);
    NatToStringShape(o.b);
    NatToStringShape(o.c);
    NatToStringShape(o.d);
    var d := Dotted(o);
    assert forall k :: 0 <= k < |d| ==> IsDigit(d[k]) || d[k] == '.';
  }

  /** Without "http://" in the header (an "https://" origin, say) the origin address is 0. */
  lemma NoHttpPrefixGivesZero(origin: string)
    requires forall i :: 0 <= i <= |origin| ==> !OccursAt(origin, HTTP_PREFIX, i)
    ensures ExtractOriginIpAddr(origin) == 0
  {
  }

  // ---------------------------------------------------------------------------
  // The decision

  /** The peer address `getpeername` reports: esp_http_server listens on IPv6, so an
      IPv4 client appears as an IPv4-mapped IPv6 address of four 32-bit words. */
  datatype In6Addr = In6Addr(w0: u32, w1: u32, w2: u32, w3: u32)

  /** The IPv4 address the gate takes from the peer: the last 32-bit word. */
  function PeerIp(peer: In6Addr): u32
  {
    peer.w3
  }

  /** The size of the buffer the `Origin` header is read into. */
  const ORIGIN_BUF: nat := 128

  /** `httpd_req_get_hdr_value_str` into the 128-byte buffer: the header as sent
      (None when absent) is read only when it fits with its terminating NUL; a
      longer one is reported as truncated, which the gate treats like no header. */
  function ReadOrigin(header: Option<string>): (origin: Option<string>)
    ensures origin.Some? <==> header.Some? && |header.value| < ORIGIN_BUF
    ensures origin.Some? ==> origin == header
  {
    match header
    case None => None
    case Some(h) => if |h| < ORIGIN_BUF then Some(h) else None
  }

  /** The origin address: from the header when the header could be read, otherwise
      the peer address. */
  function OriginIp(peer: In6Addr, origin: Option<string>): u32
  {
    match origin
    case None => PeerIp(peer)
    case Some(h) => ExtractOriginIpAddr(h)
  }

  /** `is_network_allowed`: `apEnabled` is the device's access-point flag, `peer` is
      None when `getpeername` fails, `header` is the request's `Origin` header as
      sent, None when there is none. */
  function IsNetworkAllowed(apEnabled: bool, peer: Option<In6Addr>, header: Option<string>): (r: EspErr)
    ensures apEnabled ==> r == EspOk
    ensures !apEnabled && peer.None? ==> r == EspFail
    ensures !apEnabled && peer.Some? ==>
      (r == EspOk <==> IsPrivate(OriginIp(peer.value, ReadOrigin(header))) && IsPrivate(PeerIp(peer.value)))
  {
    if apEnabled then EspOk
    else match peer
      case None => EspFail
      case Some(p) =>
        var requestIp := PeerIp(p);
        var originIp := OriginIp(p, ReadOrigin(header));
        if IpInPrivateRange(originIp) == EspOk && IpInPrivateRange(requestIp) == EspOk then EspOk
        else EspFail
  }

  /** Without an `Origin` header the decision rests on the peer alone. */
  lemma GateWithoutOrigin(peer: In6Addr)
    ensures IsNetworkAllowed(false, Some(peer), None) == EspOk <==> IsPrivate(PeerIp(peer))
  {
  }

  /** An `Origin` header that does not fit the buffer is treated as missing: the
      decision rests on the peer alone, whatever the header says. */
  lemma GateLongOrigin(peer: In6Addr, origin: string)
    requires |origin| >= ORIGIN_BUF
    ensures IsNetworkAllowed(false, Some(peer), Some(origin)) == IsNetworkAllowed(false, Some(peer), None)
    ensures IsNetworkAllowed(false, Some(peer), Some(origin)) == EspOk <==> IsPrivate(PeerIp(peer))
  {
  }

  /** A header that fits the buffer and has no "http://" is always refused outside
      access-point mode, whatever the peer. */
  lemma GateRefusesNonHttpOrigin(peer: Option<In6Addr>, origin: string)
    requires |origin| < ORIGIN_BUF
    requires forall i :: 0 <= i <= |origin| ==> !OccursAt(origin, HTTP_PREFIX, i)
    ensures IsNetworkAllowed(false, peer, Some(origin)) == EspFail
  {
    if peer.Some? {
      NoHttpPrefixGivesZero(origin);
      SentinelsNotPrivate();
    }
  }

  /** A LAN browser at a private peer address, whose page came from a private
      address, is let in (when the header fits the buffer). */
  lemma {:induction false} GateAdmitsLanOrigin(peer: In6Addr, o: Octets, path: string)
    requires path == [] || path[0] == '/'
    requires |HTTP_PREFIX + Dotted(o) + path| < ORIGIN_BUF
    requires Rfc1918(o) && IsPrivate(PeerIp(peer))
    ensures IsNetworkAllowed(false, Some(peer), Some(HTTP_PREFIX + Dotted(o) + path)) == EspOk
  {
    ExtractOriginOfDotted(o, path);
    OctetsOfNetAddr(o);
  }

  /** "http://192.168.1.5/foo" names 192.168.1.5. */
  lemma OriginExample()
    ensures ExtractOriginIpAddr("http://192.168.1.5/foo") == NetAddr(Octets(192, 168, 1, 5))
  {
    DottedExample();
    assert "http://192.168.1.5/foo" == HTTP_PREFIX + Dotted(Octets(192, 168, 1, 5)) + "/foo";
    ExtractOriginOfDotted(Octets(192, 168, 1, 5), "/foo");
  }

  lemma DottedExample()
    ensures Dotted(Octets(192, 168, 1, 5)) == "192.168.1.5"
  {
    assert NatToString(192) == "192";
    assert NatToString(168) == "168";
    assert NatToString(1) == "1" && NatToString(5) == "5";
  }
}
