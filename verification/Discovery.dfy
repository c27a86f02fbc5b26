/**
 Control-plane discovery (internal/apiservers/discovery.go): which endpoints are advertised, in what
 order, and that a failed refresh never takes them away.
 */
module Discovery {
  import opened Prelude
  import opened Text
  import opened Addresses
  import opened ServingSans

  datatype Condition = Condition(isReadyType: bool, isTrue: bool)
  datatype Address = Address(isInternalIp: bool, text: string)
  datatype Node = Node(name: string, conditions: seq<Condition>, addresses: seq<Address>)

  // ---------- byte order on strings ----------

  predicate Le(a: string, b: string) {
    a == "" || (b != "" && (a[0] < b[0] || (a[0] == b[0] && Le(a[1..], b[1..]))))
  }

  lemma {:induction false} LeTotal(a: string, b: string)
    ensures Le(a, b) || Le(b, a)
    ensures Le(a, b) && Le(b, a) ==> a == b
  {
    if a != "" && b != "" {
      LeTotal(a[1..], b[1..]);
      assert a == [a[0]] + a[1..] && b == [b[0]] + b[1..];
    }
  }

  lemma {:induction false} LeTransitive(a: string, b: string, c: string)
    requires Le(a, b) && Le(b, c)
    ensures Le(a, c)
  {
    if a != "" && a[0] == b[0] == c[0] { LeTransitive(a[1..], b[1..], c[1..]); }
  }

  /** a comes no later than b: it is a prefix of b, or smaller at the first byte in which they differ. */
  lemma {:induction false} LeIff(a: string, b: string)
    ensures Le(a, b) <==> a <= b || exists i :: DiffersAt(a, b, i) && a[i] < b[i]
  {
    if a != "" && b != "" {
      LeIff(a[1..], b[1..]);
      if a[0] == b[0] {
        assert a <= b <==> a[1..] <= b[1..] by { assert a == [a[0]] + a[1..] && b == [b[0]] + b[1..]; }
        if i :| DiffersAt(a[1..], b[1..], i) && a[1..][i] < b[1..][i] { FurtherOn(a, b, i); }
        if i :| DiffersAt(a, b, i) && a[i] < b[i] { FurtherOn(a, b, i - 1); }
      } else {
        assert DiffersAt(a, b, 0);
        forall i | DiffersAt(a, b, i) ensures i == 0 { }
      }
    }
  }

  predicate DiffersAt(a: string, b: string, i: int) {
    0 <= i < |a| && i < |b| && a[..i] == b[..i] && a[i] != b[i]
  }

  lemma FurtherOn(a: string, b: string, i: int)
    requires a != "" && b != "" && a[0] == b[0]
    ensures DiffersAt(a[1..], b[1..], i) <==> i >= 0 && DiffersAt(a, b, i + 1)
  {
    if 0 <= i < |a| - 1 && i < |b| - 1 {
      assert a[..i + 1] == [a[0]] + a[1..][..i] && b[..i + 1] == [b[0]] + b[1..][..i];
    }
  }

  predicate Sorted(s: seq<string>) {
    forall i, j | 0 <= i < j < |s| :: Le(s[i], s[j])
  }

  lemma HeadIsLeast(s: seq<string>, x: string)
    requires Sorted(s) && x in s
    ensures Le(s[0], x)
  {
    LeTotal(x, x);
  }

  lemma SameHead(a: seq<string>, b: seq<string>)
    requires Sorted(a) && Sorted(b) && multiset(a) == multiset(b) && a != []
    ensures b != [] && a[0] == b[0]
  {
    assert a[0] in multiset(b);
    assert b[0] in multiset(a);
    HeadIsLeast(a, b[0]);
    HeadIsLeast(b, a[0]);
    LeTotal(a[0], b[0]);
  }

  lemma SortedTail(s: seq<string>)
    requires Sorted(s) && s != []
    ensures Sorted(s[1..]) && multiset(s[1..]) == multiset(s) - multiset{s[0]}
  {
    assert s == [s[0]] + s[1..];
    forall i, j | 0 <= i < j < |s[1..]| ensures Le(s[1..][i], s[1..][j]) {
      assert Le(s[i + 1], s[j + 1]);
    }
  }

  lemma SameSize<T>(a: seq<T>, b: seq<T>)
    requires multiset(a) == multiset(b)
    ensures |a| == |b|
  {
    assert |multiset(a)| == |a| && |multiset(b)| == |b|;
  }

  /** Two sorted arrangements of the same strings are the same. */
  lemma {:induction false} SortedIsUnique(a: seq<string>, b: seq<string>)
    requires Sorted(a) && Sorted(b) && multiset(a) == multiset(b)
    ensures a == b
    decreases |a|
  {
    SameSize(a, b);
    if a != [] {
      SameHead(a, b);
      SortedTail(a);
      SortedTail(b);
      SortedIsUnique(a[1..], b[1..]);
      assert a == [a[0]] + a[1..] && b == [b[0]] + b[1..];
    }
  }

  lemma PrependSorted(x: string, s: seq<string>)
    requires Sorted(s) && forall y | y in s :: Le(x, y)
    ensures Sorted([x] + s) && multiset([x] + s) == multiset(s) + multiset{x}
  {
    var r := [x] + s;
    forall i, j | 0 <= i < j < |r| ensures Le(r[i], r[j]) {
      assert r[j] == s[j - 1] && r[j] in s;
      if i > 0 { assert r[i] == s[i - 1]; }
    }
  }

  lemma HeadBelowRest(x: string, s: seq<string>, y: string)
    requires Sorted(s) && s != [] && Le(x, s[0]) && y in s
    ensures Le(x, y)
  {
    var j :| 0 <= j < |s| && s[j] == y;
    if j > 0 { LeTransitive(x, s[0], s[j]); }
  }

  lemma HeadBelowInserted(x: string, s: seq<string>, r: seq<string>, y: string)
    requires Sorted(s) && s != [] && !Le(x, s[0]) && multiset(r) == multiset(s[1..]) + multiset{x} && y in r
    ensures Le(s[0], y)
  {
    assert y in multiset(r);
    LeTotal(x, s[0]);
    if y != x {
      assert y in multiset(s[1..]);
      var j :| 0 <= j < |s[1..]| && s[1..][j] == y;
      assert Le(s[0], s[j + 1]);
    }
  }

  function Insert(x: string, s: seq<string>): (r: seq<string>)
    requires Sorted(s)
    ensures Sorted(r) && multiset(r) == multiset(s) + multiset{x}
  {
    if s == [] then [x]
    else if Le(x, s[0]) then
      assert forall y | y in s :: Le(x, y) by { forall y | y in s ensures Le(x, y) { HeadBelowRest(x, s, y); } }
      PrependSorted(x, s);
      [x] + s
    else
      SortedTail(s);
      var r := Insert(x, s[1..]);
      assert forall y | y in r :: Le(s[0], y) by {
        forall y | y in r ensures Le(s[0], y) { HeadBelowInserted(x, s, r, y); }
      }
      PrependSorted(s[0], r);
      assert multiset{s[0]} + multiset(s[1..]) == multiset(s) by { assert s == [s[0]] + s[1..]; }
      [s[0]] + r
  }

  /** sort.Strings. */
  function SortStrings(s: seq<string>): (r: seq<string>)
    ensures Sorted(r) && multiset(r) == multiset(s)
  {
    if s == [] then []
    else
      assert s == s[..|s| - 1] + [s[|s| - 1]];
      Insert(s[|s| - 1], SortStrings(s[..|s| - 1]))
  }

  // ---------- what is listed ----------

  /** The first condition of type Ready decides. */
  predicate Ready(cs: seq<Condition>) {
    cs != [] && if cs[0].isReadyType then cs[0].isTrue else Ready(cs[1..])
  }

  function UsableIp(lib: AddressText, a: Address): Option<Ip> {
    if !a.isInternalIp then None
    else
      match lib.parse(a.text)
      case None => None
      case Some(ip) => if IsLoopback(ip) || IsUnspecified(ip) then None else Some(ip)
  }

  function FirstUsable(lib: AddressText, addrs: seq<Address>): Option<Ip> {
    if addrs == [] then None
    else if UsableIp(lib, addrs[0]).Some? then UsableIp(lib, addrs[0])
    else FirstUsable(lib, addrs[1..])
  }

  function Endpoint(lib: AddressText, port: int, ip: Ip): string {
    JoinHostPort(lib.show(ip), Signed(port))
  }

  /** The endpoint a node contributes, if it contributes one. */
  function Contribution(lib: AddressText, port: int, n: Node): seq<string> {
    var ip := FirstUsable(lib, n.addresses);
    if Ready(n.conditions) && ip.Some? then [Endpoint(lib, port, ip.value)] else []
  }

  function Candidates(lib: AddressText, port: int, nodes: seq<Node>): seq<string> {
    if nodes == [] then []
    else Candidates(lib, port, nodes[..|nodes| - 1]) + Contribution(lib, port, nodes[|nodes| - 1])
  }

  /** out is what List returns for these nodes. */
  ghost predicate IsListing(lib: AddressText, port: int, nodes: seq<Node>, out: seq<string>) {
    Sorted(out) && out != [] && multiset(out) == multiset(Candidates(lib, port, nodes))
  }

  class Discoverer {
    const lib: AddressText
    const port: int

    constructor (lib: AddressText, port: int)
      ensures this.lib == lib && this.port == port
    {
      this.lib, this.port := lib, port;
    }

    method IsReady(n: Node) returns (ready: bool)
      ensures ready == Ready(n.conditions)
    {
      for i := 0 to |n.conditions|
        invariant Ready(n.conditions) == Ready(n.conditions[i..])
      {
        if n.conditions[i].isReadyType {
          return n.conditions[i].isTrue;
        }
        assert n.conditions[i..][1..] == n.conditions[i + 1..];
      }
      return false;
    }

    /** nodes is what the API server answers, None for an error. */
    method List(nodes: Option<seq<Node>>) returns (r: Option<seq<string>>)
      ensures r.Some? ==> nodes.Some? && IsListing(lib, port, nodes.value, r.value)
      ensures r.None? <==> nodes.None? || Candidates(lib, port, nodes.value) == []
    {
      if nodes.None? {
        return None;
      }
      var out: seq<string> := [];
      for k := 0 to |nodes.value|
        invariant out == Candidates(lib, port, nodes.value[..k])
      {
        var n := nodes.value[k];
        assert nodes.value[..k + 1][..k] == nodes.value[..k];
        var ready := IsReady(n);
        if !ready {
          continue;
        }
        var i := 0;
        while i < |n.addresses|
          invariant 0 <= i <= |n.addresses|
          invariant FirstUsable(lib, n.addresses) == FirstUsable(lib, n.addresses[i..])
        {
          var ip := UsableIp(lib, n.addresses[i]);
          if ip.Some? {
            break;
          }
          assert n.addresses[i..][1..] == n.addresses[i + 1..];
          i := i + 1;
        }
        if i < |n.addresses| {
          var ip := UsableIp(lib, n.addresses[i]);
          out := out + [JoinHostPort(lib.show(ip.value), Signed(port))];
        }
      }
      assert nodes.value[..|nodes.value|] == nodes.value;
      var sorted := SortStrings(out);
      assert |multiset(sorted)| == |sorted| && |multiset(out)| == |out|;
      if |sorted| == 0 {
        return None;
      }
      return Some(sorted);
    }

    /** The refresh loop: one List per tick, each answer handed to the server. */
    method Run(server: Server, answers: seq<Option<seq<Node>>>)
      modifies server
      ensures AdvertisesLast(lib, port, answers, old(server.apiServers), server.apiServers)
    {
      for k := 0 to |answers|
        invariant AdvertisesLast(lib, port, answers[..k], old(server.apiServers), server.apiServers)
      {
        assert answers[..k + 1][..k] == answers[..k];
        var list := List(answers[k]);
        if list.Some? {
          server.SetApiServers(list.value);
        }
      }
      assert answers[..|answers|] == answers;
    }
  }

  predicate Succeeds(lib: AddressText, port: int, answer: Option<seq<Node>>) {
    answer.Some? && Candidates(lib, port, answer.value) != []
  }

  /** What is advertised after these answers is the listing of the last one that yields any. */
  ghost predicate AdvertisesLast(lib: AddressText, port: int, answers: seq<Option<seq<Node>>>,
                                 before: Option<seq<string>>, after: Option<seq<string>>)
  {
    if answers == [] then after == before
    else
      var last := answers[|answers| - 1];
      if Succeeds(lib, port, last) then after.Some? && IsListing(lib, port, last.value, after.value)
      else AdvertisesLast(lib, port, answers[..|answers| - 1], before, after)
  }

  // ---------- what follows ----------

  /** Once something is advertised, something is advertised ever after. */
  lemma {:induction false} NeverEmptied(lib: AddressText, port: int, answers: seq<Option<seq<Node>>>,
                                        before: Option<seq<string>>, after: Option<seq<string>>)
    requires AdvertisesLast(lib, port, answers, before, after)
    requires before.Some? && before.value != []
    ensures after.Some? && after.value != []
  {
    if answers != [] && !Succeeds(lib, port, answers[|answers| - 1]) {
      NeverEmptied(lib, port, answers[..|answers| - 1], before, after);
    }
  }

  lemma {:induction false} CandidatesAppend(lib: AddressText, port: int, a: seq<Node>, b: seq<Node>)
    ensures Candidates(lib, port, a + b) == Candidates(lib, port, a) + Candidates(lib, port, b)
  {
    if b == [] {
      assert a + b == a;
    } else {
      assert (a + b)[..|a + b| - 1] == a + b[..|b| - 1];
      CandidatesAppend(lib, port, a, b[..|b| - 1]);
    }
  }

  lemma TakeOut<T>(s: seq<T>, k: nat)
    requires k < |s|
    ensures s == s[..k] + [s[k]] + s[k + 1..]
    ensures multiset(s) == multiset(s[..k] + s[k + 1..]) + multiset{s[k]}
  {
    assert s == s[..k] + [s[k]] + s[k + 1..];
  }

  lemma CandidatesAround(lib: AddressText, port: int, pre: seq<Node>, n: Node, post: seq<Node>)
    ensures multiset(Candidates(lib, port, pre + [n] + post)) ==
            multiset(Candidates(lib, port, pre + post)) + multiset(Contribution(lib, port, n))
  {
    CandidatesAppend(lib, port, pre, post);
    CandidatesAppend(lib, port, pre + [n], post);
    assert (pre + [n])[..|pre|] == pre;
  }

  /** Taking one node out of a listing takes out its contribution. */
  lemma WithoutNode(lib: AddressText, port: int, nodes: seq<Node>, k: nat) returns (rest: seq<Node>)
    requires k < |nodes|
    ensures |rest| == |nodes| - 1 && multiset(nodes) == multiset(rest) + multiset{nodes[k]}
    ensures multiset(Candidates(lib, port, nodes)) ==
            multiset(Candidates(lib, port, rest)) + multiset(Contribution(lib, port, nodes[k]))
  {
    rest := nodes[..k] + nodes[k + 1..];
    TakeOut(nodes, k);
    CandidatesAround(lib, port, nodes[..k], nodes[k], nodes[k + 1..]);
  }

  lemma Cancels<T>(a: multiset<T>, b: multiset<T>, n: T)
    requires a + multiset{n} == b + multiset{n}
    ensures a == b
  {
    assert a == (a + multiset{n}) - multiset{n} && b == (b + multiset{n}) - multiset{n};
  }

  lemma {:induction false} CandidatesUpToOrder(lib: AddressText, port: int, a: seq<Node>, b: seq<Node>)
    requires multiset(a) == multiset(b)
    ensures multiset(Candidates(lib, port, a)) == multiset(Candidates(lib, port, b))
    decreases |a|
  {
    SameSize(a, b);
    if a != [] {
      assert a[0] in multiset(b);
      var k :| 0 <= k < |b| && b[k] == a[0];
      var ra := WithoutNode(lib, port, a, 0);
      var rb := WithoutNode(lib, port, b, k);
      Cancels(multiset(ra), multiset(rb), a[0]);
      CandidatesUpToOrder(lib, port, ra, rb);
    } else {
      assert a == b;
    }
  }

  /** The response is stable: it does not depend on the order in which the API server lists Nodes. */
  lemma ListingIsStable(lib: AddressText, port: int, a: seq<Node>, b: seq<Node>, one: seq<string>, other: seq<string>)
    requires multiset(a) == multiset(b)
    requires IsListing(lib, port, a, one) && IsListing(lib, port, b, other)
    ensures one == other
  {
    CandidatesUpToOrder(lib, port, a, b);
    SortedIsUnique(one, other);
  }

  lemma DigitsArePlain(d: string)
    requires Digits(d)
    ensures Plain(d)
  {
  }

  lemma PortIsPlain(port: int)
    ensures Plain(Signed(port))
  {
    var d := Decimal(if port < 0 then -port else port);
    DecimalIsDigits(if port < 0 then -port else port);
    DigitsArePlain(d);
    if port < 0 { assert Signed(port) == "-" + d; }
  }

  lemma {:induction false} ContributesCandidate(lib: AddressText, port: int, nodes: seq<Node>, k: nat, ip: Ip)
    requires k < |nodes| && Ready(nodes[k].conditions) && FirstUsable(lib, nodes[k].addresses) == Some(ip)
    ensures Endpoint(lib, port, ip) in Candidates(lib, port, nodes)
  {
    if k < |nodes| - 1 { ContributesCandidate(lib, port, nodes[..|nodes| - 1], k, ip); }
  }

  /** A node is Ready when its first condition of that type is true. */
  lemma {:induction false} ReadyIff(cs: seq<Condition>)
    ensures Ready(cs) <==> exists i :: 0 <= i < |cs| && cs[i].isReadyType && cs[i].isTrue
                                       && forall j | 0 <= j < i :: !cs[j].isReadyType
  {
    if cs != [] && !cs[0].isReadyType {
      ReadyIff(cs[1..]);
      if i :| 0 <= i < |cs[1..]| && cs[1..][i].isReadyType && cs[1..][i].isTrue
              && forall j | 0 <= j < i :: !cs[1..][j].isReadyType
      {
        assert forall j | 0 < j < i + 1 :: cs[j] == cs[1..][j - 1];
        assert cs[i + 1].isTrue;
      }
      if i :| 0 <= i < |cs| && cs[i].isReadyType && cs[i].isTrue && forall j | 0 <= j < i :: !cs[j].isReadyType {
        assert cs[1..][i - 1] == cs[i];
      }
    }
  }

  /** Address i of a node is an internal one that another host can reach. */
  predicate Reachable(lib: AddressText, a: Address, ip: Ip) {
    a.isInternalIp && lib.parse(a.text) == Some(ip) && !IsLoopback(ip) && !IsUnspecified(ip)
  }

  lemma {:induction false} FirstUsableIff(lib: AddressText, addrs: seq<Address>, ip: Ip)
    ensures FirstUsable(lib, addrs) == Some(ip) <==>
            exists i :: 0 <= i < |addrs| && Reachable(lib, addrs[i], ip)
                        && forall j, other: Ip | 0 <= j < i :: !Reachable(lib, addrs[j], other)
  {
    if addrs != [] {
      var rest := addrs[1..];
      FirstUsableIff(lib, rest, ip);
      if UsableIp(lib, addrs[0]).Some? {
        assert Reachable(lib, addrs[0], UsableIp(lib, addrs[0]).value);
      } else {
        assert forall other: Ip :: !Reachable(lib, addrs[0], other);
        if i :| 0 <= i < |rest| && Reachable(lib, rest[i], ip)
                && forall j, other: Ip | 0 <= j < i :: !Reachable(lib, rest[j], other)
        {
          assert forall j | 0 < j < i + 1 :: addrs[j] == rest[j - 1];
          assert Reachable(lib, addrs[i + 1], ip);
        }
        if i :| 0 <= i < |addrs| && Reachable(lib, addrs[i], ip)
                && forall j, other: Ip | 0 <= j < i :: !Reachable(lib, addrs[j], other)
        {
          assert rest[i - 1] == addrs[i];
          assert forall j | 0 <= j < i - 1 :: rest[j] == addrs[j + 1];
        }
      }
    }
  }

  lemma {:induction false} CandidateOrigin(lib: AddressText, port: int, nodes: seq<Node>, ep: string) returns (k: nat)
    requires ep in Candidates(lib, port, nodes)
    ensures k < |nodes| && Contribution(lib, port, nodes[k]) == [ep]
  {
    var last := |nodes| - 1;
    if ep in Contribution(lib, port, nodes[last]) {
      k := last;
    } else {
      k := CandidateOrigin(lib, port, nodes[..last], ep);
    }
  }

  /** ep names the first usable address of a Ready node. */
  predicate Contributes(lib: AddressText, port: int, n: Node, ep: string) {
    var ip := FirstUsable(lib, n.addresses);
    Ready(n.conditions) && ip.Some? && ep == Endpoint(lib, port, ip.value)
  }

  /** An endpoint is listed exactly if some node contributes it. */
  lemma ListedIff(lib: AddressText, port: int, nodes: seq<Node>, out: seq<string>, ep: string)
    requires IsListing(lib, port, nodes, out)
    ensures ep in out <==> exists k :: 0 <= k < |nodes| && Contributes(lib, port, nodes[k], ep)
  {
    assert ep in out <==> ep in multiset(Candidates(lib, port, nodes)) by {
      assert ep in out <==> ep in multiset(out);
    }
    if ep in out {
      var k := CandidateOrigin(lib, port, nodes, ep);
      assert Contributes(lib, port, nodes[k], ep);
    }
    if k :| 0 <= k < |nodes| && Contributes(lib, port, nodes[k], ep) {
      ContributesCandidate(lib, port, nodes, k, FirstUsable(lib, nodes[k].addresses).value);
    }
  }

  /** An endpoint names its address and its port, and brackets the address only if it has colons. */
  lemma EndpointNames(lib: AddressText, port: int, ip: Ip)
    requires Faithful(lib)
    ensures SplitHostPort(Endpoint(lib, port, ip)) == Some((lib.show(ip), Signed(port)))
    ensures lib.parse(HostOf(Endpoint(lib, port, ip))) == Some(ip)
    ensures ':' !in lib.show(ip) ==> Endpoint(lib, port, ip) == lib.show(ip) + ":" + Signed(port)
    ensures ':' in lib.show(ip) ==> Endpoint(lib, port, ip) == "[" + lib.show(ip) + "]:" + Signed(port)
  {
    PortIsPlain(port);
    assert lib.parse(lib.show(ip)) == Some(ip);
    JoinSplit(lib.show(ip), Signed(port));
  }

  /** Node n is Ready and this is its first usable address. */
  predicate Offers(lib: AddressText, n: Node, ip: Ip) {
    Ready(n.conditions) && FirstUsable(lib, n.addresses) == Some(ip)
  }

  lemma AdvertisedFrom(lib: AddressText, port: int, nodes: seq<Node>, out: seq<string>, i: nat, ip: Ip) returns (k: nat)
    requires Faithful(lib) && IsListing(lib, port, nodes, out)
    requires i < |out| && lib.parse(HostOf(out[i])) == Some(ip)
    ensures k < |nodes| && Offers(lib, nodes[k], ip)
  {
    ListedIff(lib, port, nodes, out, out[i]);
    k :| 0 <= k < |nodes| && Contributes(lib, port, nodes[k], out[i]);
    EndpointNames(lib, port, FirstUsable(lib, nodes[k].addresses).value);
  }

  lemma OfferedIsAdvertised(lib: AddressText, port: int, nodes: seq<Node>, out: seq<string>, k: nat, ip: Ip)
    requires Faithful(lib) && IsListing(lib, port, nodes, out)
    requires k < |nodes| && Offers(lib, nodes[k], ip)
    ensures Advertised(lib, out, ip)
  {
    var ep := Endpoint(lib, port, ip);
    assert Contributes(lib, port, nodes[k], ep);
    ListedIff(lib, port, nodes, out, ep);
    EndpointNames(lib, port, ip);
    var i :| 0 <= i < |out| && out[i] == ep;
  }

  /** Once these nodes are listed, the addresses kept out of serving certificates are exactly the first
      usable ones of the Ready nodes. Further addresses of a node, and those of nodes that are not
      Ready, are not among them unless some Ready node has them first. */
  lemma AdvertisedIff(lib: AddressText, port: int, nodes: seq<Node>, out: seq<string>, ip: Ip)
    requires Faithful(lib) && IsListing(lib, port, nodes, out)
    ensures Advertised(lib, out, ip) <==> exists k :: 0 <= k < |nodes| && Offers(lib, nodes[k], ip)
  {
    if Advertised(lib, out, ip) {
      var i :| 0 <= i < |out| && lib.parse(HostOf(out[i])) == Some(ip);
      var k := AdvertisedFrom(lib, port, nodes, out, i, ip);
    }
    if k :| 0 <= k < |nodes| && Offers(lib, nodes[k], ip) {
      OfferedIsAdvertised(lib, port, nodes, out, k, ip);
    }
  }

  /** The first usable address of every Ready control-plane node is, once listed, one that no serving
      certificate will carry: any header naming it, in any form that parses to it, is refused. */
  lemma ListedAddressIsRefused(cfg: SanConfig, port: int, nodes: seq<Node>, out: seq<string>, k: nat, ip: Ip,
                               csv: string, entry: nat)
    requires Faithful(cfg.lib) && IsListing(cfg.lib, port, nodes, out)
    requires k < |nodes| && Ready(nodes[k].conditions) && FirstUsable(cfg.lib, nodes[k].addresses) == Some(ip)
    requires !Blank(csv) && entry < |Split(csv, ',')| && ParsedEntry(cfg.lib, Split(csv, ',')[entry]) == Some(ip)
    ensures Advertised(cfg.lib, out, ip)
    ensures Refuses(cfg, out, csv)
  {
    OfferedIsAdvertised(cfg.lib, port, nodes, out, k, ip);
    if cfg.serviceNets.Some? { AdvertisedIsRefused(cfg, out, csv, entry, ip); }
  }
}
