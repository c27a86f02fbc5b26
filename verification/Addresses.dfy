/**
 IP addresses as Go's net package holds them after ParseIP: sixteen bytes, an IPv4 address being
 mapped. Reading and writing the text of an address is library code and a parameter; everything
 that looks at the bytes, and the host:port syntax, is spelled out.
 */
module Addresses {
  import opened Prelude
  import opened Text

  const ZEROS: seq<bv8> := [0, 0, 0, 0, 0, 0, 0, 0, 0, 0, 0, 0, 0, 0, 0, 0]

  type Ip = a: seq<bv8> | |a| == 16 witness ZEROS

  const MAPPED_PREFIX: seq<bv8> := [0, 0, 0, 0, 0, 0, 0, 0, 0, 0, 0xff, 0xff]

  /** net.ParseIP and IP.String. */
  datatype AddressText = AddressText(parse: string -> Option<Ip>, show: Ip -> string)

  /** Printing an address and parsing it gives it back, and its text never holds a bracket. */
  ghost predicate Faithful(lib: AddressText) {
    forall ip: Ip ::
      lib.parse(lib.show(ip)) == Some(ip) && '[' !in lib.show(ip) && ']' !in lib.show(ip)
  }

  /** The four bytes of an IPv4 address, plain or mapped. */
  function To4(ip: seq<bv8>): Option<seq<bv8>> {
    if |ip| == 4 then Some(ip)
    else if |ip| == 16 && MAPPED_PREFIX <= ip then Some(ip[12..])
    else None
  }

  /** The bytes an address is compared by: four for IPv4, however written, else all. */
  function Octets(ip: seq<bv8>): seq<bv8> {
    match To4(ip)
    case Some(v4) => v4
    case None => ip
  }

  predicate IsLoopback(ip: Ip) {
    match To4(ip)
    case Some(v4) => v4[0] == 127
    case None => ip == ZEROS[15 := 1]
  }

  predicate IsUnspecified(ip: Ip) {
    ip == ZEROS || ip == MAPPED_PREFIX + [0, 0, 0, 0]
  }

  predicate IsLinkLocalUnicast(ip: Ip) {
    match To4(ip)
    case Some(v4) => v4[0] == 169 && v4[1] == 254
    case None => ip[0] == 0xfe && ip[1] & 0xc0 == 0x80
  }

  predicate IsMulticast(ip: Ip) {
    match To4(ip)
    case Some(v4) => v4[0] & 0xf0 == 0xe0
    case None => ip[0] == 0xff
  }

  predicate IsInterfaceLocalMulticast(ip: Ip) {
    ip[0] == 0xff && ip[1] & 0x0f == 0x01
  }

  predicate IsLinkLocalMulticast(ip: Ip) {
    match To4(ip)
    case Some(v4) => v4[0] == 224 && v4[1] == 0 && v4[2] == 0
    case None => ip[0] == 0xff && ip[1] & 0x0f == 0x02
  }

  predicate IsRoutable(ip: Ip) {
    && !IsLoopback(ip) && !IsUnspecified(ip) && !IsLinkLocalUnicast(ip)
    && !IsMulticast(ip) && !IsInterfaceLocalMulticast(ip) && !IsLinkLocalMulticast(ip)
  }

  /** On IPv4, however the address was written, routable means: not 127/8, not 0.0.0.0, not
      169.254/16 and not 224/4. */
  lemma RoutableIpv4(v4: seq<bv8>)
    requires |v4| == 4
    ensures |MAPPED_PREFIX + v4| == 16
    ensures IsRoutable(MAPPED_PREFIX + v4) <==>
      && v4[0] != 127 && v4 != [0, 0, 0, 0]
      && !(v4[0] == 169 && v4[1] == 254) && !(224 <= v4[0] <= 239)
  {
    var ip: Ip := MAPPED_PREFIX + v4;
    assert ip[12..] == v4;
    assert To4(ip) == Some(v4);
    assert v4[0] & 0xf0 == 0xe0 <==> 224 <= v4[0] <= 239;
    assert IsUnspecified(ip) <==> v4 == [0, 0, 0, 0] by {
      assert ip[10] == 0xff && ZEROS[10] == 0;
      if ip == MAPPED_PREFIX + [0, 0, 0, 0] { assert (MAPPED_PREFIX + [0, 0, 0, 0])[12..] == [0, 0, 0, 0]; }
    }
  }

  /** On IPv6 it means: not ::, not ::1, not fe80::/10 and not ff00::/8. */
  lemma RoutableIpv6(ip: Ip)
    requires To4(ip).None?
    ensures IsRoutable(ip) <==>
      && ip != ZEROS && ip != ZEROS[15 := 1] && ip[0] != 0xff
      && !(ip[0] == 0xfe && 0x80 <= ip[1] <= 0xbf)
  {
    assert ip[1] & 0xc0 == 0x80 <==> 0x80 <= ip[1] <= 0xbf;
    assert MAPPED_PREFIX <= MAPPED_PREFIX + [0, 0, 0, 0];
  }

  /** net.IPNet. */
  datatype Net = Net(ip: seq<bv8>, mask: seq<bv8>) {

    /** The network number and a mask of the same length, if they fit together. */
    function NumberAndMask(): (nm: Option<(seq<bv8>, seq<bv8>)>)
      ensures nm.Some? ==> |nm.value.0| == |nm.value.1|
    {
      var number := Octets(ip);
      if |number| != 4 && |number| != 16 then None
      else if |mask| == |number| then Some((number, mask))
      else if |mask| == 16 && |number| == 4 then Some((number, mask[12..]))
      else None
    }

    predicate Contains(a: Ip) {
      var x := Octets(a);
      var nm := NumberAndMask();
      && nm.Some? && |nm.value.0| == |x|
      && forall i | 0 <= i < |x| :: nm.value.0[i] & nm.value.1[i] == x[i] & nm.value.1[i]
    }
  }

  /** A range of one family says nothing about addresses of the other, and a full mask makes it a
      single address, mapped or not. */
  lemma RangesRespectFamilies(n: Net, a: Ip)
    requires n.Contains(a)
    ensures To4(n.ip).Some? <==> To4(a).Some?
    ensures (forall i | 0 <= i < |n.mask| :: n.mask[i] == 0xff) ==>
              if To4(a).Some? then To4(n.ip) == To4(a) else n.ip == a
  {
    var x := Octets(a);
    var nm := n.NumberAndMask().value;
    if forall i | 0 <= i < |n.mask| :: n.mask[i] == 0xff {
      forall i | 0 <= i < |x| ensures nm.0[i] == x[i] {
        assert nm.1[i] == 0xff;
        assert nm.0[i] & nm.1[i] == x[i] & nm.1[i];
      }
      assert nm.0 == x;
    }
  }

  // ---------- host:port ----------

  function JoinHostPort(host: string, port: string): string {
    if ':' in host then "[" + host + "]:" + port else host + ":" + port
  }

  function SplitHostPort(hp: string): Option<(string, string)> {
    var i := LastIndexOf(hp, ':');
    if i < 0 then None
    else if hp[0] == '[' then
      var end := IndexOf(hp, ']');
      if end == |hp| || end + 1 != i then None
      else if '[' in hp[1..] || ']' in hp[end + 1..] then None
      else Some((hp[1..end], hp[i + 1..]))
    else if ':' in hp[..i] || '[' in hp || ']' in hp then None
    else Some((hp[..i], hp[i + 1..]))
  }

  /** The host of an advertised endpoint, or all of it when it is not host:port. */
  function HostOf(hp: string): string {
    match SplitHostPort(hp)
    case None => hp
    case Some(pair) => pair.0
  }

  /** An endpoint without a port is all host. */
  lemma HostWithoutPort(hp: string)
    requires ':' !in hp
    ensures HostOf(hp) == hp
  {
  }

  predicate Plain(s: string) { ':' !in s && '[' !in s && ']' !in s }

  lemma AroundColon(before: string, port: string)
    ensures var s := before + ":" + port;
      |s| == |before| + 1 + |port| && s[|before|] == ':' && s[|before| + 1..] == port && s[..|before|] == before
  {
  }

  lemma PortColon(before: string, port: string)
    requires Plain(port)
    ensures LastIndexOf(before + ":" + port, ':') == |before|
  {
    AroundColon(before, port);
    LastIndexAt(before + ":" + port, ':', |before|);
  }

  lemma ClosingBracket(host: string, port: string)
    requires ']' !in host
    ensures IndexOf("[" + host + "]" + ":" + port, ']') == |host| + 1
  {
    var s := "[" + host + "]" + ":" + port;
    assert forall j | 1 <= j < |host| + 1 :: s[j] == host[j - 1];
    IndexAt(s, ']', |host| + 1);
  }

  lemma BracketedParts(host: string, port: string)
    ensures var hp := "[" + host + "]:" + port;
      && hp == "[" + host + "]" + ":" + port && hp[0] == '[' && |hp| > |host| + 2
      && hp[1..] == host + "]:" + port && hp[1..|host| + 1] == host && hp[|host| + 2..] == ":" + port
  {
  }

  lemma JoinSplitBracketed(host: string, port: string)
    requires '[' !in host && ']' !in host && Plain(port)
    ensures SplitHostPort("[" + host + "]:" + port) == Some((host, port))
  {
    BracketedParts(host, port);
    AroundColon("[" + host + "]", port);
    PortColon("[" + host + "]", port);
    ClosingBracket(host, port);
  }

  lemma JoinSplitPlain(host: string, port: string)
    requires Plain(host) && Plain(port)
    ensures SplitHostPort(host + ":" + port) == Some((host, port))
  {
    AroundColon(host, port);
    PortColon(host, port);
    var hp := host + ":" + port;
    assert '[' !in hp && ']' !in hp;
  }

  /** Every host without brackets survives being joined with a port and split again, whether or not
      it contains colons. */
  lemma JoinSplit(host: string, port: string)
    requires '[' !in host && ']' !in host && Plain(port)
    ensures SplitHostPort(JoinHostPort(host, port)) == Some((host, port))
  {
    if ':' in host { JoinSplitBracketed(host, port); } else { JoinSplitPlain(host, port); }
  }
}
