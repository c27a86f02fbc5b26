/**
 Which addresses a kubelet serving certificate may carry: `servingSANIPs`, `apiServerIPs` and
 `SetAPIServers` (internal/supervisor/supervisor.go).
 */
module ServingSans {
  import opened Prelude
  import opened Text
  import opened Addresses
  import opened Ranges

  const MAX_NODE_IPS := 8

  /** serviceNets is None when the configured service CIDR did not parse. */
  datatype SanConfig = SanConfig(lib: AddressText, serviceNets: Option<seq<Net>>)

  // ---------- what is acceptable ----------

  /** The advertised endpoints name this address. */
  ghost predicate Advertised(lib: AddressText, endpoints: seq<string>, ip: Ip) {
    exists i | 0 <= i < |endpoints| :: lib.parse(HostOf(endpoints[i])) == Some(ip)
  }

  predicate InRange(nets: seq<Net>, ip: Ip) { exists i | 0 <= i < |nets| :: nets[i].Contains(ip) }

  ghost predicate AcceptableIp(cfg: SanConfig, endpoints: seq<string>, ip: Ip)
    requires cfg.serviceNets.Some?
  {
    && IsRoutable(ip)
    && !InRange(cfg.serviceNets.value, ip)
    && !Advertised(cfg.lib, endpoints, ip)
  }

  function ParsedEntry(lib: AddressText, entry: string): Option<Ip> { lib.parse(TrimSpace(entry)) }

  ghost predicate AcceptableEntry(cfg: SanConfig, endpoints: seq<string>, entry: string)
    requires cfg.serviceNets.Some?
  {
    var ip := ParsedEntry(cfg.lib, entry);
    ip.Some? && AcceptableIp(cfg, endpoints, ip.value)
  }

  /** The entry is acceptable and this is its address. */
  ghost predicate EntryIs(cfg: SanConfig, endpoints: seq<string>, entry: string, ip: Ip)
    requires cfg.serviceNets.Some?
  {
    ParsedEntry(cfg.lib, entry) == Some(ip) && AcceptableIp(cfg, endpoints, ip)
  }

  predicate Blank(csv: string) { TrimSpace(csv) == "" }

  /** The header is accepted and these are its addresses. */
  ghost predicate Accepts(cfg: SanConfig, endpoints: seq<string>, csv: string, ips: seq<Ip>) {
    cfg.serviceNets.Some? &&
    if Blank(csv) then ips == []
    else
      var parts := Split(csv, ',');
      && |ips| == |parts| <= MAX_NODE_IPS
      && forall i | 0 <= i < |parts| :: EntryIs(cfg, endpoints, parts[i], ips[i])
  }

  /** A header is accepted with at most one list of addresses. */
  lemma AcceptedAddressesAreUnique(cfg: SanConfig, endpoints: seq<string>, csv: string, a: seq<Ip>, b: seq<Ip>)
    requires Accepts(cfg, endpoints, csv, a) && Accepts(cfg, endpoints, csv, b)
    ensures a == b
  {
    if !Blank(csv) {
      var parts := Split(csv, ',');
      forall i | 0 <= i < |a| ensures a[i] == b[i] {
        assert EntryIs(cfg, endpoints, parts[i], a[i]) && EntryIs(cfg, endpoints, parts[i], b[i]);
      }
    }
  }

  /** An entry is parsed without the blanks around it. */
  lemma EntryIsTrimmed(lib: AddressText, entry: string) returns (before: seq<string>, text: string, after: seq<string>)
    ensures ParsedEntry(lib, entry) == lib.parse(text)
    ensures var blank := BlankOf(IsWideBlank);
      && Each(blank, before) && Each(blank, after) && entry == Flatten(before) + text + Flatten(after)
      && !StartsWith(blank, text) && !EndsWith(blank, text)
  {
    text := TrimSpace(entry);
    before, after := TrimIsExact(entry);
  }

  /** A header is acceptable: blank, or at most eight entries, each of which parses, once trimmed, to a
      routable address in no service range and not advertised. */
  ghost predicate Acceptable(cfg: SanConfig, endpoints: seq<string>, csv: string)
    requires cfg.serviceNets.Some?
  {
    var parts := Split(csv, ',');
    TrimSpace(csv) == "" || (|parts| <= 8 && forall i | 0 <= i < |parts| :: AcceptableEntry(cfg, endpoints, parts[i]))
  }

  /** That is exactly when it is accepted. */
  lemma AcceptedIff(cfg: SanConfig, endpoints: seq<string>, csv: string)
    ensures (exists ips: seq<Ip> :: Accepts(cfg, endpoints, csv, ips)) <==>
            cfg.serviceNets.Some? && Acceptable(cfg, endpoints, csv)
  {
    var parts := Split(csv, ',');
    if ips: seq<Ip> :| Accepts(cfg, endpoints, csv, ips) {
      forall i | 0 <= i < |parts| && !Blank(csv) ensures AcceptableEntry(cfg, endpoints, parts[i]) {
        AcceptedEntry(cfg, endpoints, csv, ips, i);
      }
    }
    if cfg.serviceNets.Some? && Acceptable(cfg, endpoints, csv) {
      if Blank(csv) {
        assert Accepts(cfg, endpoints, csv, []);
      } else {
        var ips := seq(|parts|, i requires 0 <= i < |parts| => IpOf(cfg, endpoints, parts[i]));
        assert forall i | 0 <= i < |parts| :: AcceptableEntry(cfg, endpoints, parts[i]);
        assert forall i | 0 <= i < |parts| :: EntryIs(cfg, endpoints, parts[i], ips[i]);
        assert Accepts(cfg, endpoints, csv, ips);
      }
    }
  }

  ghost function IpOf(cfg: SanConfig, endpoints: seq<string>, entry: string): (ip: Ip)
    requires cfg.serviceNets.Some?
    ensures AcceptableEntry(cfg, endpoints, entry) ==> EntryIs(cfg, endpoints, entry, ip)
  {
    if ParsedEntry(cfg.lib, entry).Some? then ParsedEntry(cfg.lib, entry).value else ZEROS
  }

  lemma AcceptedIsAcceptable(cfg: SanConfig, endpoints: seq<string>, csv: string, ips: seq<Ip>, ip: Ip)
    requires Accepts(cfg, endpoints, csv, ips) && ip in ips
    ensures AcceptableIp(cfg, endpoints, ip)
  {
    var i :| 0 <= i < |ips| && ips[i] == ip;
    assert EntryIs(cfg, endpoints, Split(csv, ',')[i], ips[i]);
  }

  lemma AcceptedAreParsed(cfg: SanConfig, endpoints: seq<string>, csv: string, ips: seq<Ip>, i: nat)
    requires Accepts(cfg, endpoints, csv, ips) && !Blank(csv)
    ensures |ips| == |Split(csv, ',')|
    ensures i < |ips| ==> ParsedEntry(cfg.lib, Split(csv, ',')[i]) == Some(ips[i])
  {
    if i < |ips| { assert EntryIs(cfg, endpoints, Split(csv, ',')[i], ips[i]); }
  }

  /** Put behind two other addresses, they are in place two further on. */
  lemma ParsedBehind(cfg: SanConfig, endpoints: seq<string>, csv: string, ips: seq<Ip>, two: seq<Ip>)
    requires Accepts(cfg, endpoints, csv, ips) && !Blank(csv) && |two| == 2
    ensures var all, parts := two + ips, Split(csv, ',');
      && |all| == 2 + |parts|
      && forall i | 0 <= i < |parts| :: ParsedEntry(cfg.lib, parts[i]) == Some(all[2 + i])
  {
    var all := two + ips;
    AcceptedAreParsed(cfg, endpoints, csv, ips, 0);
    forall i | 0 <= i < |ips| ensures ParsedEntry(cfg.lib, Split(csv, ',')[i]) == Some(all[2 + i]) {
      AcceptedAreParsed(cfg, endpoints, csv, ips, i);
    }
  }

  datatype SanError = BadConfig | TooMany | BadEntry(index: nat)
  datatype SanResult = Ok(ips: seq<Ip>) | Err(error: SanError)

  /** No list of addresses makes the header acceptable. */
  ghost predicate Refuses(cfg: SanConfig, endpoints: seq<string>, csv: string) {
    forall ips: seq<Ip> :: !Accepts(cfg, endpoints, csv, ips)
  }

  // ---------- the server ----------

  class Server {
    const cfg: SanConfig
    var apiServers: Option<seq<string>>

    constructor (cfg: SanConfig, initial: seq<string>)
      ensures this.cfg == cfg
      ensures apiServers == if initial == [] then None else Some(initial)
    {
      this.cfg := cfg;
      apiServers := if initial == [] then None else Some(initial);
    }

    function Endpoints(): seq<string>
      reads this
    {
      if apiServers.Some? then apiServers.value else []
    }

    /** An empty list is ignored; any other becomes the advertised one. */
    method SetApiServers(list: seq<string>)
      modifies this
      ensures apiServers == if list == [] then old(apiServers) else Some(list)
      ensures old(apiServers).Some? && old(apiServers).value != [] ==> apiServers.Some? && apiServers.value != []
    {
      if |list| == 0 {
        return;
      }
      if apiServers.Some? && apiServers.value == list {
        return;
      }
      apiServers := Some(list);
    }

    method ApiServerIps() returns (out: seq<Ip>)
      ensures forall ip: Ip :: ip in out <==> Advertised(cfg.lib, Endpoints(), ip)
    {
      out := [];
      var list := Endpoints();
      for k := 0 to |list|
        invariant forall ip: Ip :: ip in out <==> Advertised(cfg.lib, list[..k], ip)
      {
        var ip := cfg.lib.parse(HostOf(list[k]));
        AdvertisedOneMore(cfg.lib, list, k);
        if ip.Some? {
          out := out + [ip.value];
        }
      }
      assert list[..|list|] == list;
    }

    /** The address of an entry, if it is acceptable. */
    method JudgeEntry(entry: string, apiservers: seq<Ip>) returns (ip: Option<Ip>)
      requires cfg.serviceNets.Some?
      requires forall a: Ip :: a in apiservers <==> Advertised(cfg.lib, Endpoints(), a)
      ensures ip.Some? ==> EntryIs(cfg, Endpoints(), entry, ip.value)
      ensures ip.None? ==> !AcceptableEntry(cfg, Endpoints(), entry)
    {
      ip := cfg.lib.parse(TrimSpace(entry));
      if ip.None? || !IsRoutable(ip.value) {
        return None;
      }
      var inside := InServiceRange(ip.value);
      if inside || ip.value in apiservers {
        return None;
      }
    }

    method InServiceRange(ip: Ip) returns (inside: bool)
      requires cfg.serviceNets.Some?
      ensures inside <==> InRange(cfg.serviceNets.value, ip)
    {
      for n := 0 to |cfg.serviceNets.value|
        invariant forall m | 0 <= m < n :: !cfg.serviceNets.value[m].Contains(ip)
      {
        if cfg.serviceNets.value[n].Contains(ip) {
          return true;
        }
      }
      return false;
    }

    /** All or nothing: either every entry is acceptable and the result is the parsed entries in
        order, or nothing is. The error names the first entry that is not acceptable. */
    method ServingSanIps(csv: string) returns (r: SanResult)
      ensures r.Ok? ==> Accepts(cfg, Endpoints(), csv, r.ips)
      ensures r.Err? ==> Refuses(cfg, Endpoints(), csv)
      ensures r == Err(BadConfig) <==> cfg.serviceNets.None?
      ensures r == Err(TooMany) ==> |Split(csv, ',')| > MAX_NODE_IPS
      ensures r.Err? && r.error.BadEntry? ==> FirstBad(cfg, Endpoints(), Split(csv, ','), r.error.index)
    {
      if cfg.serviceNets.None? {
        return Err(BadConfig);
      }
      if TrimSpace(csv) == "" {
        return Ok([]);
      }
      var parts := Split(csv, ',');
      if |parts| > MAX_NODE_IPS {
        return Err(TooMany);
      }
      var apiservers := ApiServerIps();
      r := JudgeEntries(parts, apiservers);
      if r.Err? {
        OneBadEntryRefuses(cfg, Endpoints(), csv, r.error.index);
      }
    }

    method JudgeEntries(parts: seq<string>, apiservers: seq<Ip>) returns (r: SanResult)
      requires cfg.serviceNets.Some?
      requires forall a: Ip :: a in apiservers <==> Advertised(cfg.lib, Endpoints(), a)
      ensures r.Ok? ==>
        |r.ips| == |parts| && forall i | 0 <= i < |parts| :: EntryIs(cfg, Endpoints(), parts[i], r.ips[i])
      ensures r.Err? ==> r.error.BadEntry? && FirstBad(cfg, Endpoints(), parts, r.error.index)
    {
      var out: seq<Ip> := [];
      for k := 0 to |parts|
        invariant |out| == k
        invariant forall j | 0 <= j < k :: EntryIs(cfg, Endpoints(), parts[j], out[j])
      {
        var ip := JudgeEntry(parts[k], apiservers);
        if ip.None? {
          forall j | 0 <= j < k ensures AcceptableEntry(cfg, Endpoints(), parts[j]) {
            assert EntryIs(cfg, Endpoints(), parts[j], out[j]);
          }
          return Err(BadEntry(k));
        }
        out := out + [ip.value];
      }
      return Ok(out);
    }
  }

  /** The entry at k is not acceptable, and those before it are. */
  ghost predicate FirstBad(cfg: SanConfig, endpoints: seq<string>, parts: seq<string>, k: nat)
    requires cfg.serviceNets.Some?
  {
    && k < |parts| && !AcceptableEntry(cfg, endpoints, parts[k])
    && forall j | 0 <= j < k :: AcceptableEntry(cfg, endpoints, parts[j])
  }

  lemma AdvertisedOneMore(lib: AddressText, list: seq<string>, k: nat)
    requires k < |list|
    ensures forall ip: Ip :: Advertised(lib, list[..k + 1], ip) <==>
              Advertised(lib, list[..k], ip) || lib.parse(HostOf(list[k])) == Some(ip)
  {
    forall ip: Ip
      ensures Advertised(lib, list[..k + 1], ip) <==>
                Advertised(lib, list[..k], ip) || lib.parse(HostOf(list[k])) == Some(ip)
    {
      if Advertised(lib, list[..k], ip) {
        var i :| 0 <= i < k && lib.parse(HostOf(list[..k][i])) == Some(ip);
        assert list[..k + 1][i] == list[..k][i];
      }
      if lib.parse(HostOf(list[k])) == Some(ip) { assert list[..k + 1][k] == list[k]; }
      if Advertised(lib, list[..k + 1], ip) {
        var i :| 0 <= i < k + 1 && lib.parse(HostOf(list[..k + 1][i])) == Some(ip);
        if i < k { assert list[..k][i] == list[..k + 1][i]; }
      }
    }
  }

  lemma AcceptedEntry(cfg: SanConfig, endpoints: seq<string>, csv: string, ips: seq<Ip>, k: nat)
    requires cfg.serviceNets.Some? && !Blank(csv) && k < |Split(csv, ',')|
    ensures Accepts(cfg, endpoints, csv, ips) ==> AcceptableEntry(cfg, endpoints, Split(csv, ',')[k])
  {
    if Accepts(cfg, endpoints, csv, ips) { assert EntryIs(cfg, endpoints, Split(csv, ',')[k], ips[k]); }
  }

  /** One unacceptable entry is enough to refuse the whole header. */
  lemma OneBadEntryRefuses(cfg: SanConfig, endpoints: seq<string>, csv: string, k: nat)
    requires cfg.serviceNets.Some? && !Blank(csv) && k < |Split(csv, ',')|
    requires !AcceptableEntry(cfg, endpoints, Split(csv, ',')[k])
    ensures Refuses(cfg, endpoints, csv)
  {
    forall ips: seq<Ip> ensures !Accepts(cfg, endpoints, csv, ips) {
      AcceptedEntry(cfg, endpoints, csv, ips, k);
    }
  }

  /** A header naming an address in the block of a service range, in any form, is refused. */
  lemma RangeIsRefused(cfg: SanConfig, endpoints: seq<string>, csv: string, entry: nat, m: nat, k: nat, ip: Ip)
    requires cfg.serviceNets.Some? && m < |cfg.serviceNets.value| && IsRange(cfg.serviceNets.value[m], k)
    requires InBlock(Octets(cfg.serviceNets.value[m].ip), k, ip)
    requires !Blank(csv) && entry < |Split(csv, ',')| && ParsedEntry(cfg.lib, Split(csv, ',')[entry]) == Some(ip)
    ensures Refuses(cfg, endpoints, csv)
  {
    ContainsIff(cfg.serviceNets.value[m], k, ip);
    OneBadEntryRefuses(cfg, endpoints, csv, entry);
  }

  /** An advertised address is refused however it is written: any text that parses to it, IPv4 or
      IPv4-mapped or IPv6, spoils the header it stands in. */
  lemma AdvertisedIsRefused(cfg: SanConfig, endpoints: seq<string>, csv: string, k: nat, ip: Ip)
    requires cfg.serviceNets.Some? && !Blank(csv) && k < |Split(csv, ',')|
    requires Advertised(cfg.lib, endpoints, ip) && ParsedEntry(cfg.lib, Split(csv, ',')[k]) == Some(ip)
    ensures Refuses(cfg, endpoints, csv)
  {
    OneBadEntryRefuses(cfg, endpoints, csv, k);
  }
}
