/**
 The lookup algorithms of the resolver, each proved against the meaning defined in `Resolver`
 (internal/syncer/resolver.go:38-278, 299-317). Map iteration picks elements in any order.
 */
module HostnameResolver {
  import opened Wrappers
  import opened Strings
  import opened SourceLabels
  import opened IpOrder
  import opened Resolver

  /**
   One address lookup. Whatever the order of servers and aliases, the result is the sorted set
   of addresses that the specification finds for the set of servers, an error exactly when it
   finds none, and the number of exchanges, counted where they are made, is the specified one.
   */
  method LookupAWithServers(d: Dns, hostname: string, servers: seq<string>, depth: nat)
    returns (r: Result<seq<string>, LookupError>, queries: nat)
    ensures r.Ok? <==> Resolve(d, ServerSet(servers), hostname, depth) != {}
    ensures r.Ok? ==> multiset(r.value) == multiset(Resolve(d, ServerSet(servers), hostname, depth))
    ensures r.Ok? ==> Sorted(d.lib, r.value)
    ensures depth > MAX_CNAME_FOLLOW_DEPTH ==> r == Err(ChainTooLong)
    ensures depth <= MAX_CNAME_FOLLOW_DEPTH && ServerSet(servers) == {} ==> r == Err(NoServers)
    ensures r.Err? && depth <= MAX_CNAME_FOLLOW_DEPTH && ServerSet(servers) != {} ==>
      r.error == WhyNothing(d, ServerSet(servers), hostname)
    ensures queries == QueryCount(d, ServerSet(servers), hostname, depth)
    decreases if depth > MAX_CNAME_FOLLOW_DEPTH then 0 else MAX_CNAME_FOLLOW_DEPTH + 1 - depth, 1
  {
    if depth > MAX_CNAME_FOLLOW_DEPTH {
      return Err(ChainTooLong), 0;
    }
    UniqueServers(servers);
    var unique := UniqueStrings(servers);
    if |unique| == 0 {
      assert ServerSet(servers) == {};
      return Err(NoServers), 0;
    }
    var addresses, failed;
    addresses, failed, queries := GatherAddresses(d, hostname, unique, depth);
    if addresses == {} {
      return Err(if failed then ServerFailures else NoRecords), queries;
    }
    var ips := KeysInSomeOrder(addresses);
    ips := SortSlice(d.lib, ips);
    return Ok(ips), queries;
  }

  /** The queries of one lookup and the following of the aliases they give. */
  method GatherAddresses(d: Dns, hostname: string, servers: seq<string>, depth: nat)
    returns (addresses: set<string>, failed: bool, queries: nat)
    requires depth <= MAX_CNAME_FOLLOW_DEPTH && Distinct(servers) && "" !in servers
    ensures Gathered(d, ServerSet(servers), hostname, depth, addresses, failed, queries)
    decreases MAX_CNAME_FOLLOW_DEPTH + 1 - depth, 0
  {
    ghost var all := ServerSet(servers);
    AllAsked(servers);
    var aliases;
    addresses, aliases, failed, queries := QueryServers(d, servers, d.fqdn(hostname));
    addresses, failed, queries := FollowIfNeeded(d, hostname, servers, depth, addresses, aliases, failed, queries);
  }

  /** Aliases are followed only when no server gave an address. */
  method FollowIfNeeded(d: Dns, hostname: string, servers: seq<string>, depth: nat,
                        addresses: set<string>, aliases: set<string>, failed: bool, queries: nat)
    returns (found: set<string>, anyFailed: bool, allQueries: nat)
    requires depth <= MAX_CNAME_FOLLOW_DEPTH && queries == |ServerSet(servers)|
    requires Answered(d, ServerSet(servers), d.fqdn(hostname), addresses, aliases, failed)
    ensures Gathered(d, ServerSet(servers), hostname, depth, found, anyFailed, allQueries)
    decreases MAX_CNAME_FOLLOW_DEPTH - depth, 4
  {
    if addresses == {} && aliases != {} {
      var aliasFailed, spent;
      found, aliasFailed, spent := FollowAliases(d, aliases, servers, depth + 1);
      anyFailed, allQueries := failed || aliasFailed, queries + spent;
      GatheredByAliases(d, ServerSet(servers), hostname, depth, aliases, failed, found, aliasFailed, spent,
                        anyFailed, allQueries);
    } else {
      found, anyFailed, allQueries := addresses, failed, queries;
      GatheredDirectly(d, ServerSet(servers), hostname, depth, found, aliases, anyFailed, allQueries);
    }
  }

  lemma AllAsked(servers: seq<string>)
    requires Distinct(servers) && "" !in servers
    ensures Elements(servers) == ServerSet(servers) && |servers| == |ServerSet(servers)|
  {
    DistinctCount(servers, ServerSet(servers));
  }

  /** What the queries of one lookup and its aliases must have found, and how many there were. */
  ghost predicate Gathered(d: Dns, servers: set<string>, name: string, depth: nat,
                           addresses: set<string>, failed: bool, queries: nat) {
    && addresses == Resolve(d, servers, name, depth)
    && (addresses == {} ==> (failed <==> WhyNothing(d, servers, name) == ServerFailures))
    && queries == QueryCount(d, servers, name, depth)
  }

  lemma GatheredDirectly(d: Dns, servers: set<string>, name: string, depth: nat,
                         addresses: set<string>, aliases: set<string>, failed: bool, queries: nat)
    requires depth <= MAX_CNAME_FOLLOW_DEPTH && Answered(d, servers, d.fqdn(name), addresses, aliases, failed)
    requires (addresses != {} || aliases == {}) && queries == |servers|
    ensures Gathered(d, servers, name, depth, addresses, failed, queries)
  {
    NothingToFollow(d, servers, depth + 1);
  }

  lemma GatheredByAliases(d: Dns, servers: set<string>, name: string, depth: nat, aliases: set<string>, failed: bool,
                          found: set<string>, aliasFailed: bool, spent: nat, anyFailed: bool, allQueries: nat)
    requires depth <= MAX_CNAME_FOLLOW_DEPTH && Answered(d, servers, d.fqdn(name), {}, aliases, failed)
    requires aliases != {} && found == ResolveAll(d, servers, aliases, depth + 1)
    requires found == {} ==> aliasFailed
    requires spent == QueryCountAll(d, servers, aliases, depth + 1)
    requires anyFailed == (failed || aliasFailed) && allQueries == |servers| + spent
    ensures Gathered(d, servers, name, depth, found, anyFailed, allQueries)
  {
  }

  lemma NothingToFollow(d: Dns, servers: set<string>, depth: nat)
    ensures ResolveAll(d, servers, {}, depth) == {} && QueryCountAll(d, servers, {}, depth) == 0
  {
  }

  /** The alias loop of one lookup. */
  method FollowAliases(d: Dns, aliases: set<string>, servers: seq<string>, depth: nat)
    returns (addresses: set<string>, failed: bool, queries: nat)
    requires depth <= MAX_CNAME_FOLLOW_DEPTH + 1
    ensures addresses == ResolveAll(d, ServerSet(servers), aliases, depth)
    ensures addresses == {} && aliases != {} ==> failed
    ensures queries == QueryCountAll(d, ServerSet(servers), aliases, depth)
    decreases MAX_CNAME_FOLLOW_DEPTH + 1 - depth, 3
  {
    addresses, failed, queries := {}, false, 0;
    var rest := aliases;
    while rest != {}
      invariant rest <= aliases
      invariant Followed(d, ServerSet(servers), aliases, rest, depth, addresses, queries)
      invariant addresses == {} && rest != aliases ==> failed
      decreases rest
    {
      var alias :| alias in rest;
      var found, aliasFailed, spent := FollowAlias(d, alias, servers, depth);
      FollowedOneMore(d, ServerSet(servers), aliases, rest, alias, depth, addresses, queries, spent);
      addresses, failed, queries := addresses + found, failed || aliasFailed, queries + spent;
      rest := rest - {alias};
    }
    assert aliases - rest == aliases;
  }

  /** The alias loop has yet to ask about the names in `rest`. */
  ghost predicate Followed(d: Dns, servers: set<string>, aliases: set<string>, rest: set<string>, depth: nat,
                           addresses: set<string>, queries: nat) {
    && addresses == ResolveAll(d, servers, aliases - rest, depth)
    && queries + QueryCountAll(d, servers, rest, depth) == QueryCountAll(d, servers, aliases, depth)
  }

  lemma FollowedOneMore(d: Dns, servers: set<string>, aliases: set<string>, rest: set<string>, alias: string,
                        depth: nat, addresses: set<string>, queries: nat, spent: nat)
    requires rest <= aliases && alias in rest
    requires Followed(d, servers, aliases, rest, depth, addresses, queries)
    requires spent == QueryCount(d, servers, alias, depth)
    ensures Followed(d, servers, aliases, rest - {alias}, depth,
                     addresses + Resolve(d, servers, alias, depth), queries + spent)
  {
    ResolveOneMore(d, servers, aliases - rest, alias, depth);
    assert aliases - (rest - {alias}) == (aliases - rest) + {alias};
    QueryCountPicksAny(d, servers, rest, depth, alias);
  }

  method FollowAlias(d: Dns, alias: string, servers: seq<string>, depth: nat)
    returns (found: set<string>, failed: bool, queries: nat)
    requires depth <= MAX_CNAME_FOLLOW_DEPTH + 1
    ensures found == Resolve(d, ServerSet(servers), alias, depth)
    ensures failed <==> found == {}
    ensures queries == QueryCount(d, ServerSet(servers), alias, depth)
    decreases MAX_CNAME_FOLLOW_DEPTH + 1 - depth, 2
  {
    var aliasIPs;
    aliasIPs, queries := LookupAWithServers(d, alias, servers, depth);
    match aliasIPs
    case Err(_) =>
      return {}, true, queries;
    case Ok(ips) =>
      SetArrangement(ips, Resolve(d, ServerSet(servers), alias, depth));
      return Elements(ips), false, queries;
  }

  lemma ResolveOneMore(d: Dns, servers: set<string>, names: set<string>, name: string, depth: nat)
    ensures ResolveAll(d, servers, names + {name}, depth)
         == ResolveAll(d, servers, names, depth) + Resolve(d, servers, name, depth)
  {
  }

  /** What the servers say about one name. */
  ghost predicate Answered(d: Dns, servers: set<string>, qname: string,
                           addresses: set<string>, aliases: set<string>, failed: bool) {
    && addresses == AllAddresses(d, servers, qname)
    && aliases == AllAliases(d, servers, qname)
    && (failed <==> SomeFail(d, servers, qname, TypeA))
  }

  /** The query loop of one lookup: what the servers say about one name, each asked once. */
  method QueryServers(d: Dns, servers: seq<string>, qname: string)
    returns (addresses: set<string>, aliases: set<string>, failed: bool, queries: nat)
    ensures queries == |servers|
    ensures Answered(d, Elements(servers), qname, addresses, aliases, failed)
  {
    addresses, aliases, failed, queries := {}, {}, false, 0;
    for i := 0 to |servers|
      invariant queries == i
      invariant Answered(d, Elements(servers[..i]), qname, addresses, aliases, failed)
    {
      assert Elements(servers[..i + 1]) == Elements(servers[..i]) + {servers[i]};
      OneMoreServer(d, Elements(servers[..i]), servers[i], qname);
      var msg := d.exchange(servers[i], qname, TypeA);
      queries := queries + 1;
      if !msg.Message? || msg.rcode != RCODE_SUCCESS {
        failed := true;
        continue;
      }
      var newAddresses, newAliases := ReadAnswers(d, msg.answers);
      addresses, aliases := addresses + newAddresses, aliases + newAliases;
    }
    assert servers[..|servers|] == servers;
  }

  method ReadAnswers(d: Dns, answers: seq<RR>) returns (addresses: set<string>, aliases: set<string>)
    ensures addresses == AddressesIn(answers) && aliases == AliasesIn(d, answers)
  {
    addresses, aliases := {}, {};
    for k := 0 to |answers|
      invariant addresses == AddressesIn(answers[..k]) && aliases == AliasesIn(d, answers[..k])
    {
      assert answers[..k + 1] == answers[..k] + [answers[k]];
      match answers[k]
      case A(Some(addr)) => addresses := addresses + {Dotted(addr)};
      case CNAME(target) => aliases := aliases + {NormalizeDNSName(d, target)};
      case _ =>
    }
    assert answers[..|answers|] == answers;
  }

  method KeysInSomeOrder(keys: set<string>) returns (s: seq<string>)
    ensures multiset(s) == multiset(keys)
  {
    s := [];
    var rest := keys;
    while rest != {}
      invariant rest <= keys
      invariant multiset(s) + multiset(rest) == multiset(keys)
    {
      var x :| x in rest;
      rest := rest - {x};
      s := s + [x];
    }
  }

  /**
   Two lookups that ask the same set of servers, in any order and with repetitions, return the
   same list: the parsed text of an address is the address, so no two listed addresses tie.
   */
  lemma LookupDependsOnServerSetOnly(d: Dns, servers: set<string>, name: string, depth: nat,
                                     ips: seq<string>, ips': seq<string>)
    requires forall a: Addr :: d.lib.parseIP(Dotted(a)) == Some(a)
    requires Sorted(d.lib, ips) && multiset(ips) == multiset(Resolve(d, servers, name, depth))
    requires Sorted(d.lib, ips') && multiset(ips') == multiset(Resolve(d, servers, name, depth))
    ensures ips == ips'
  {
    forall x | x in ips
      ensures Canonical(d.lib, x) && d.lib.parseIP(x).Some?
    {
      assert x in multiset(ips);
      ResolvedIsDotted(d, servers, name, depth, x);
    }
    SortedArrangementsAgree(d.lib, ips, ips');
  }

  lemma {:induction false} ResolvedIsDotted(d: Dns, servers: set<string>, name: string, depth: nat, ip: string)
    requires ip in Resolve(d, servers, name, depth)
    ensures exists a: Addr :: ip == Dotted(a)
  {
    var path := PathOfLookup(d, servers, name, depth, ip);
  }

  // ----- Authoritative servers -----

  ghost function NSHosts(d: Dns, servers: set<string>, zone: string): set<string> {
    AllHosts(d, servers, d.fqdn(zone)) - {""}
  }

  ghost function HostsIn(d: Dns, answers: seq<RR>): set<string> {
    set rr | rr in answers && rr.NS? :: NormalizeDNSName(d, rr.host)
  }

  ghost function AllHosts(d: Dns, servers: set<string>, qname: string): set<string> {
    set s, x | s in servers && x in HostsIn(d, Answers(d, s, qname, TypeNS)) :: x
  }

  lemma OneMoreHostServer(d: Dns, servers: set<string>, s: string, qname: string)
    ensures AllHosts(d, servers + {s}, qname)
         == AllHosts(d, servers, qname) + HostsIn(d, Answers(d, s, qname, TypeNS))
  {
  }

  ghost function ZoneServers(d: Dns, bootstrap: set<string>, zone: string): set<string> {
    HostServers(d, bootstrap, NSHosts(d, bootstrap, zone))
  }

  ghost function HostServers(d: Dns, bootstrap: set<string>, hosts: set<string>): set<string> {
    set host, ip | host in hosts && ip in Resolve(d, bootstrap, host, 0) :: JoinHostPort53(ip)
  }

  /** The server addresses of the most specific zone whose name servers could be resolved. */
  ghost function AuthoritativeServers(d: Dns, bootstrap: set<string>, zones: seq<string>): set<string> {
    if zones == [] then {}
    else if ZoneServers(d, bootstrap, zones[0]) != {} then ZoneServers(d, bootstrap, zones[0])
    else AuthoritativeServers(d, bootstrap, zones[1..])
  }

  function Zones(d: Dns, hostname: string): seq<string> {
    var labels := d.splitDomainName(d.fqdn(hostname));
    seq(|labels|, i requires 0 <= i < |labels| => Join(labels[i..], ".") + ".")
  }

  method ZoneCandidates(d: Dns, hostname: string) returns (candidates: seq<string>)
    ensures candidates == Zones(d, hostname)
    ensures var labels := d.splitDomainName(d.fqdn(hostname));
      |candidates| == |labels| && forall i :: 0 <= i < |labels| ==> candidates[i] == Join(labels[i..], ".") + "."
  {
    var labels := d.splitDomainName(d.fqdn(hostname));
    candidates := [];
    for i := 0 to |labels|
      invariant candidates == Zones(d, hostname)[..i]
    {
      candidates := candidates + [Join(labels[i..], ".") + "."];
    }
  }

  method LookupNSHosts(d: Dns, zone: string, servers: seq<string>) returns (r: Result<seq<string>, LookupError>)
    ensures r.Ok? <==> NSHosts(d, ServerSet(servers), zone) != {}
    ensures r.Ok? ==> Distinct(r.value) && forall h :: h in r.value <==> h in NSHosts(d, ServerSet(servers), zone)
    ensures r.Err? ==>
      r.error == if SomeFail(d, ServerSet(servers), d.fqdn(zone), TypeNS) then ServerFailures else NoRecords
  {
    UniqueServers(servers);
    var unique := UniqueStrings(servers);
    assert Elements(unique) == ServerSet(servers);
    var nsHosts, failed := QueryNSHosts(d, unique, d.fqdn(zone));
    UniqueIsASetInOrder(nsHosts);
    assert forall h :: h in Unique(nsHosts) <==> h in Elements(nsHosts) && h != "";
    nsHosts := UniqueStrings(nsHosts);
    if |nsHosts| == 0 {
      return Err(if failed then ServerFailures else NoRecords);
    }
    assert nsHosts[0] in NSHosts(d, ServerSet(servers), zone);
    return Ok(nsHosts);
  }

  method QueryNSHosts(d: Dns, servers: seq<string>, qname: string) returns (nsHosts: seq<string>, failed: bool)
    ensures Elements(nsHosts) == AllHosts(d, Elements(servers), qname)
    ensures failed <==> SomeFail(d, Elements(servers), qname, TypeNS)
  {
    nsHosts, failed := [], false;
    for i := 0 to |servers|
      invariant Elements(nsHosts) == AllHosts(d, Elements(servers[..i]), qname)
      invariant failed <==> SomeFail(d, Elements(servers[..i]), qname, TypeNS)
    {
      assert Elements(servers[..i + 1]) == Elements(servers[..i]) + {servers[i]};
      OneMoreHostServer(d, Elements(servers[..i]), servers[i], qname);
      var msg := d.exchange(servers[i], qname, TypeNS);
      if !msg.Message? || msg.rcode != RCODE_SUCCESS {
        failed := true;
        continue;
      }
      var hosts := ReadNSHosts(d, msg.answers);
      assert Elements(nsHosts + hosts) == Elements(nsHosts) + Elements(hosts);
      nsHosts := nsHosts + hosts;
    }
    assert servers[..|servers|] == servers;
  }

  method ReadNSHosts(d: Dns, answers: seq<RR>) returns (hosts: seq<string>)
    ensures Elements(hosts) == HostsIn(d, answers)
  {
    hosts := [];
    for k := 0 to |answers|
      invariant Elements(hosts) == HostsIn(d, answers[..k])
    {
      assert answers[..k + 1] == answers[..k] + [answers[k]];
      if answers[k].NS? {
        var host := NormalizeDNSName(d, answers[k].host);
        assert Elements(hosts + [host]) == Elements(hosts) + {host};
        hosts := hosts + [host];
      }
    }
    assert answers[..|answers|] == answers;
  }

  method LookupAuthoritativeServers(d: Dns, hostname: string, bootstrap: seq<string>)
    returns (r: Result<seq<string>, LookupError>)
    ensures r.Ok? <==> AuthoritativeServers(d, ServerSet(bootstrap), Zones(d, hostname)) != {}
    ensures r.Ok? ==>
      forall s :: s in r.value <==> s in AuthoritativeServers(d, ServerSet(bootstrap), Zones(d, hostname))
    ensures r.Ok? ==> Distinct(r.value)
    ensures r.Err? ==>
      r.error == if bootstrap == [] then NoServers else if Zones(d, hostname) == [] then NoRecords else ServerFailures
  {
    ghost var boot := ServerSet(bootstrap);
    var zones := ZoneCandidates(d, hostname);
    if |bootstrap| == 0 {
      assert boot == {};
      NoBootstrapNoServers(d, zones);
      return Err(NoServers);
    }
    var failed := false;
    for i := 0 to |zones|
      invariant AuthoritativeServers(d, boot, zones) == AuthoritativeServers(d, boot, zones[i..])
      invariant failed <==> i > 0
    {
      assert zones[i..][0] == zones[i] && zones[i..][1..] == zones[i + 1..];
      var nsHosts := LookupNSHosts(d, zones[i], bootstrap);
      if nsHosts.Err? {
        assert ZoneServers(d, boot, zones[i]) == {};
        failed := true;
        continue;
      }
      assert NSHosts(d, boot, zones[i]) == Elements(nsHosts.value);
      var ips, hostFailed := ServersOfHosts(d, nsHosts.value, bootstrap);
      failed := failed || hostFailed;
      UniqueIsASetInOrder(ips);
      ips := UniqueStrings(ips);
      if |ips| > 0 {
        assert ips[0] in ZoneServers(d, boot, zones[i]);
        return Ok(ips);
      }
      assert ZoneServers(d, boot, zones[i]) == {} by {
        forall s ensures s !in ZoneServers(d, boot, zones[i]) {
          assert s !in ips;
        }
      }
    }
    assert zones[|zones|..] == [];
    return Err(if failed then ServerFailures else NoRecords);
  }

  lemma {:induction false} NoBootstrapNoServers(d: Dns, zones: seq<string>)
    ensures AuthoritativeServers(d, {}, zones) == {}
  {
    if zones == [] {
    } else {
      assert NSHosts(d, {}, zones[0]) == {};
      NoBootstrapNoServers(d, zones[1..]);
    }
  }

  method ServersOfHosts(d: Dns, hosts: seq<string>, bootstrap: seq<string>) returns (servers: seq<string>, failed: bool)
    ensures forall s :: s in servers <==> s in HostServers(d, ServerSet(bootstrap), Elements(hosts))
    ensures "" !in servers
    ensures servers == [] && hosts != [] ==> failed
  {
    servers, failed := [], false;
    for i := 0 to |hosts|
      invariant forall s :: s in servers <==> s in HostServers(d, ServerSet(bootstrap), Elements(hosts[..i]))
      invariant "" !in servers
      invariant servers == [] && i > 0 ==> failed
    {
      assert hosts[..i + 1] == hosts[..i] + [hosts[i]];
      var ips, _ := LookupAWithServers(d, hosts[i], bootstrap, 0);
      if ips.Err? {
        failed := true;
        continue;
      }
      SetArrangement(ips.value, Resolve(d, ServerSet(bootstrap), hosts[i], 0));
      var joined := seq(|ips.value|, k requires 0 <= k < |ips.value| => JoinHostPort53(ips.value[k]));
      JoinedMembers(ips.value, joined);
      servers := servers + joined;
    }
    assert hosts[..|hosts|] == hosts;
  }

  lemma JoinedMembers(ips: seq<string>, joined: seq<string>)
    requires |joined| == |ips| && forall k :: 0 <= k < |ips| ==> joined[k] == JoinHostPort53(ips[k])
    ensures forall s :: s in joined <==> exists ip :: ip in ips && s == JoinHostPort53(ip)
  {
    forall ip | ip in ips ensures JoinHostPort53(ip) in joined {
      var k :| 0 <= k < |ips| && ips[k] == ip;
      assert joined[k] == JoinHostPort53(ip);
    }
  }

  // ----- Hostnames -----

  /** All servers asked about a hostname: its zone's own, if any were found, and the given ones. */
  ghost function ServersFor(d: Dns, servers: set<string>, hostname: string): set<string> {
    AuthoritativeServers(d, servers, Zones(d, hostname)) + servers
  }

  ghost function HostEntries(d: Dns, servers: set<string>, hostname: string): set<string> {
    var name := NormalizeDNSName(d, hostname);
    Resolve(d, ServersFor(d, servers, name), name, 0)
  }

  lemma {:induction false} AuthoritativeNamesNonEmpty(d: Dns, bootstrap: set<string>, zones: seq<string>)
    ensures "" !in AuthoritativeServers(d, bootstrap, zones)
  {
    if zones == [] {
    } else {
      AuthoritativeNamesNonEmpty(d, bootstrap, zones[1..]);
    }
  }

  lemma AskedServers(authoritative: seq<string>, found: set<string>, known: seq<string>)
    requires "" !in found && forall s :: s in authoritative <==> s in found
    ensures ServerSet(Unique(authoritative + Unique(known))) == found + ServerSet(known)
  {
    UniqueServers(known);
    UniqueServers(authoritative + Unique(known));
  }

  method ResolveIPv4(d: Dns, hostname: string, publicServers: seq<string>) returns (r: Result<seq<string>, LookupError>)
    ensures r.Ok? <==> HostEntries(d, ServerSet(publicServers), hostname) != {}
    ensures r.Ok? ==> multiset(r.value) == multiset(HostEntries(d, ServerSet(publicServers), hostname))
    ensures r.Ok? ==> Sorted(d.lib, r.value)
  {
    var name := NormalizeDNSName(d, hostname);
    UniqueServers(publicServers);
    var unique := UniqueStrings(publicServers);
    var auth := LookupAuthoritativeServers(d, name, unique);
    var authoritative := if auth.Ok? then auth.value else [];
    AuthoritativeNamesNonEmpty(d, ServerSet(publicServers), Zones(d, name));
    AskedServers(authoritative, AuthoritativeServers(d, ServerSet(publicServers), Zones(d, name)), publicServers);
    var servers := UniqueStrings(authoritative + unique);
    var queries;
    r, queries := LookupAWithServers(d, name, servers, 0);
  }

  function NormalizeHostnameLine(rawLine: string): string {
    var line := TrimSpace(rawLine);
    if line == "" then ""
    else match Index(line, "#")
      case Some(i) => TrimSpace(line[..i])
      case None => line
  }

  predicate NeedsDns(d: Dns, line: string) {
    NormalizeIPv4Literal(d.lib, line).None? && NormalizeIPv4CIDR(d.lib, line).None?
  }

  /** The entries that one input line contributes. */
  ghost function LineEntries(d: Dns, servers: set<string>, line: string): set<string> {
    match NormalizeIPv4Literal(d.lib, line)
    case Some(ip) => {ip}
    case None =>
      match NormalizeIPv4CIDR(d.lib, line)
      case Some(cidr) => {cidr}
      case None => HostEntries(d, servers, line)
  }

  /** The input lines that count: comments and surrounding space removed, blank lines dropped. */
  function InputLines(rawLines: seq<string>): seq<string> {
    if rawLines == [] then []
    else
      var init, line := InputLines(rawLines[..|rawLines| - 1]), NormalizeHostnameLine(rawLines[|rawLines| - 1]);
      if line == "" then init else init + [line]
  }

  /** The lines that contribute an entry, in input order. */
  ghost function Contributors(d: Dns, servers: set<string>, lines: seq<string>, entry: string): seq<string> {
    if lines == [] then []
    else
      var init, line := Contributors(d, servers, lines[..|lines| - 1], entry), lines[|lines| - 1];
      if entry in LineEntries(d, servers, line) then init + [line] else init
  }

  lemma {:induction false} ContributorsAreLines(d: Dns, servers: set<string>, lines: seq<string>, entry: string)
    ensures forall l ::
      l in Contributors(d, servers, lines, entry) <==> l in lines && entry in LineEntries(d, servers, l)
  {
    if lines == [] {
    } else {
      ContributorsAreLines(d, servers, lines[..|lines| - 1], entry);
      assert lines == lines[..|lines| - 1] + [lines[|lines| - 1]];
    }
  }

  lemma {:induction false} InputLinesNonEmpty(rawLines: seq<string>)
    ensures "" !in InputLines(rawLines)
  {
    if rawLines == [] {
    } else {
      InputLinesNonEmpty(rawLines[..|rawLines| - 1]);
    }
  }

  /** What the result map must be after the given lines. */
  ghost predicate Describes(d: Dns, servers: set<string>, lines: seq<string>, result: map<string, string>) {
    forall e ::
      && (e in result <==> Contributors(d, servers, lines, e) != [])
      && LabelOf(result, e) == LabelOfSources(Contributors(d, servers, lines, e))
  }

  /** Adding one line's entries, each once, extends the description by that line. */
  method AddLine(d: Dns, ghost servers: set<string>, ghost lines: seq<string>, result: map<string, string>,
                 entries: seq<string>, line: string) returns (result': map<string, string>)
    requires Describes(d, servers, lines, result) && line != ""
    requires multiset(entries) == multiset(LineEntries(d, servers, line))
    ensures Describes(d, servers, lines + [line], result')
  {
    SetArrangement(entries, LineEntries(d, servers, line));
    result' := AddEntries(result, entries, line);
    DescribesNext(d, servers, lines, result, entries, line, result');
  }

  method AddEntries(result: map<string, string>, entries: seq<string>, line: string)
    returns (result': map<string, string>)
    requires Distinct(entries)
    ensures Extends(result, entries, line, result')
  {
    result' := result;
    for i := 0 to |entries|
      invariant Extends(result, entries[..i], line, result')
    {
      ExtendsOneMore(result, entries[..i], line, result', entries[i]);
      assert entries[..i + 1] == entries[..i] + [entries[i]];
      result' := AddResolvedSource(result', entries[i], line);
    }
    assert entries[..|entries|] == entries;
  }

  /** The result after the line was added for each of the given distinct entries. */
  ghost predicate Extends(result: map<string, string>, entries: seq<string>, line: string,
                          result': map<string, string>) {
    forall e ::
      && (e in result' <==> e in result || e in entries)
      && LabelOf(result', e) == LabelAfter(result, entries, line, e)
  }

  ghost function LabelAfter(result: map<string, string>, entries: seq<string>, line: string, e: string): string {
    if e in entries then AddToLabel(LabelOf(result, e), line) else LabelOf(result, e)
  }

  lemma ExtendsOneMore(result: map<string, string>, entries: seq<string>, line: string,
                       result': map<string, string>, entry: string)
    requires Extends(result, entries, line, result') && entry !in entries
    ensures Extends(result, entries + [entry], line, AddSource(result', entry, line))
  {
    var next := AddSource(result', entry, line);
    forall e
      ensures e in next <==> e in result || e in entries + [entry]
      ensures LabelOf(next, e) == LabelAfter(result, entries + [entry], line, e)
    {
      assert e in result' <==> e in result || e in entries;
      assert LabelOf(result', e) == LabelAfter(result, entries, line, e);
    }
  }

  lemma DescribesNext(d: Dns, servers: set<string>, lines: seq<string>, result: map<string, string>,
                      entries: seq<string>, line: string, result': map<string, string>)
    requires Describes(d, servers, lines, result)
    requires forall e :: e in entries <==> e in LineEntries(d, servers, line)
    requires Extends(result, entries, line, result')
    ensures Describes(d, servers, lines + [line], result')
  {
    var lines' := lines + [line];
    assert lines'[..|lines|] == lines;
    forall e
      ensures e in result' <==> Contributors(d, servers, lines', e) != []
      ensures LabelOf(result', e) == LabelOfSources(Contributors(d, servers, lines', e))
    {
      var before := Contributors(d, servers, lines, e);
      assert LabelOf(result, e) == LabelOfSources(before);
      assert LabelOf(result', e) == LabelAfter(result, entries, line, e);
      if e in entries {
        assert Contributors(d, servers, lines', e) == before + [line];
        assert (before + [line])[..|before|] == before;
      } else {
        assert Contributors(d, servers, lines', e) == before;
      }
    }
  }

  // ----- What entries look like -----

  /**
   The parsers read back what the program prints: an address as that address, and a network as
   the network with its 32-bit mask and not as an address.
   */
  ghost predicate ReadsBack(lib: NetLib) {
    && (forall a: Addr :: lib.parseIP(Dotted(a)) == Some(a))
    && forall text, n :: lib.parseCIDR(text) == Some(n) ==> ReadsBackNet(lib, n)
  }

  ghost predicate ReadsBackNet(lib: NetLib, n: Net) {
    && lib.parseIP(NetText(n)).None?
    && lib.parseCIDR(NetText(n)) == Some(Net(n.addr, PrintedOnes(n), 32))
  }

  /** Every entry that a line yields is the text of what it parses to. */
  lemma EntriesAreCanonical(d: Dns, servers: set<string>, line: string, entry: string)
    requires ReadsBack(d.lib) && entry in LineEntries(d, servers, line)
    ensures Canonical(d.lib, entry)
  {
    match NormalizeIPv4Literal(d.lib, line)
    case Some(_) =>
    case None =>
      match d.lib.parseCIDR(TrimSpace(line)) {
        case Some(n) => assert ReadsBackNet(d.lib, n);
        case None =>
          var name := NormalizeDNSName(d, line);
          ResolvedIsDotted(d, ServersFor(d, servers, name), name, 0, entry);
      }
  }

  // ----- The resolution of an input text -----

  /** Some line needs DNS, but no server is configured. */
  ghost predicate LacksServers(d: Dns, known: set<string>, lines: seq<string>) {
    known == {} && exists l :: l in lines && NeedsDns(d, l)
  }

  ghost function AllEntries(d: Dns, known: set<string>, lines: seq<string>): set<string> {
    set l, e | l in lines && e in LineEntries(d, known, l) :: e
  }

  /** The entries of all lines, each labelled with the lines that contribute it. */
  ghost function Resolution(d: Dns, known: set<string>, lines: seq<string>): map<string, string> {
    map e | e in AllEntries(d, known, lines) :: LabelOfSources(Contributors(d, known, lines, e))
  }

  ghost function ResolutionResult(d: Dns, known: set<string>, lines: seq<string>):
    Result<map<string, string>, LookupError>
  {
    if LacksServers(d, known, lines) then Err(NoServers)
    else if AllEntries(d, known, lines) == {} then Err(NothingResolved)
    else Ok(Resolution(d, known, lines))
  }

  /**
   An entry is resolved exactly if some line yields it. Its label splits into the distinct
   contributing lines, in order of first appearance, exactly when none of them contains the
   separator.
   */
  lemma ResolutionMeaning(d: Dns, known: set<string>, rawLines: seq<string>, e: string)
    ensures var lines := InputLines(rawLines); var result := Resolution(d, known, lines);
      && (e in result <==> exists l :: l in lines && e in LineEntries(d, known, l))
      && (e in result ==>
            var sources := Contributors(d, known, lines, e);
            && (forall l :: l in sources <==> l in lines && e in LineEntries(d, known, l))
            && (Split(result[e], SEP) == Unique(sources) <==> Clean(sources)))
  {
    var lines := InputLines(rawLines);
    InputLinesNonEmpty(rawLines);
    ContributorsAreLines(d, known, lines, e);
    if e in Resolution(d, known, lines) {
      var l :| l in lines && e in LineEntries(d, known, l);
      assert l in Contributors(d, known, lines, e);
      LabelSplitsIntoSourcesIff(Contributors(d, known, lines, e));
    }
  }

  lemma DescribedIsResolution(d: Dns, known: set<string>, lines: seq<string>, result: map<string, string>)
    requires Describes(d, known, lines, result)
    ensures result == Resolution(d, known, lines)
    ensures result == map[] <==> AllEntries(d, known, lines) == {}
  {
    forall e
      ensures e in result <==> e in AllEntries(d, known, lines)
      ensures e in result ==> result[e] == LabelOfSources(Contributors(d, known, lines, e))
    {
      var sources := Contributors(d, known, lines, e);
      ContributorsAreLines(d, known, lines, e);
      if e in result {
        assert sources[0] in sources;
        assert result[e] == LabelOf(result, e);
      }
    }
    assert result.Keys == AllEntries(d, known, lines);
    assert result == map[] <==> result.Keys == {};
  }

  /** One input line; `None` when it needs DNS but no server is configured. */
  method ResolveLine(d: Dns, ghost lines: seq<string>, result: map<string, string>, line: string, servers: seq<string>)
    returns (r: Option<map<string, string>>)
    requires Describes(d, ServerSet(servers), lines, result) && line != ""
    ensures r.None? <==> ServerSet(servers) == {} && NeedsDns(d, line)
    ensures r.Some? ==> Describes(d, ServerSet(servers), lines + [line], r.value)
  {
    ghost var known := ServerSet(servers);
    var result' := result;
    var literal := NormalizeIPv4Literal(d.lib, line);
    if literal.Some? {
      result' := AddLine(d, known, lines, result, [literal.value], line);
      return Some(result');
    }
    var cidr := NormalizeIPv4CIDR(d.lib, line);
    if cidr.Some? {
      result' := AddLine(d, known, lines, result, [cidr.value], line);
      return Some(result');
    }
    UniqueServers(servers);
    var unique := UniqueStrings(servers);
    if |unique| == 0 {
      assert known == {};
      return None;
    }
    assert unique[0] in known;
    var ips := ResolveIPv4(d, line, unique);
    if ips.Err? {
      SkipLine(d, known, lines, line, result);
      return Some(result);
    }
    result' := AddLine(d, known, lines, result, ips.value, line);
    return Some(result');
  }

  /**
   The whole input text. It fails for want of servers when some line needs DNS and none is
   configured, otherwise when no line yields an entry; otherwise the result holds exactly the
   entries of all lines, labelled with the lines they came from.
   */
  method ResolveHostnames(d: Dns, hostnamesText: string, servers: seq<string>)
    returns (r: Result<map<string, string>, LookupError>)
    ensures r == ResolutionResult(d, ServerSet(servers), InputLines(Split(hostnamesText, "\n")))
  {
    var rawLines := Split(hostnamesText, "\n");
    var result := ResolveLines(d, rawLines, servers);
    if result.None? {
      return Err(NoServers);
    }
    DescribedIsResolution(d, ServerSet(servers), InputLines(rawLines), result.value);
    if |result.value| == 0 {
      return Err(NothingResolved);
    }
    return Ok(result.value);
  }

  /** The loop over the input lines; `None` when a line needs DNS but no server is configured. */
  method ResolveLines(d: Dns, rawLines: seq<string>, servers: seq<string>) returns (r: Option<map<string, string>>)
    ensures r.None? <==> LacksServers(d, ServerSet(servers), InputLines(rawLines))
    ensures r.Some? ==> Describes(d, ServerSet(servers), InputLines(rawLines), r.value)
  {
    var result: map<string, string> := map[];
    ghost var known := ServerSet(servers);
    for i := 0 to |rawLines|
      invariant Processed(d, known, rawLines[..i], result)
    {
      assert rawLines[..i + 1] == rawLines[..i] + [rawLines[i]];
      var line := NormalizeHostnameLine(rawLines[i]);
      InputLinesNext(rawLines[..i], rawLines[i]);
      if line != "" {
        var next := ResolveLine(d, InputLines(rawLines[..i]), result, line, servers);
        if next.None? {
          StillLacksServers(d, known, rawLines, i + 1, line);
          return None;
        }
        ProcessedNext(d, known, rawLines[..i], rawLines[i], result, next.value);
        result := next.value;
      }
    }
    assert rawLines[..|rawLines|] == rawLines;
    return Some(result);
  }

  ghost predicate Processed(d: Dns, known: set<string>, rawLines: seq<string>, result: map<string, string>) {
    && Describes(d, known, InputLines(rawLines), result)
    && !LacksServers(d, known, InputLines(rawLines))
  }

  lemma ProcessedNext(d: Dns, known: set<string>, rawLines: seq<string>, rawLine: string,
                      result: map<string, string>, result': map<string, string>)
    requires Processed(d, known, rawLines, result) && NormalizeHostnameLine(rawLine) != ""
    requires Describes(d, known, InputLines(rawLines) + [NormalizeHostnameLine(rawLine)], result')
    requires known == {} ==> !NeedsDns(d, NormalizeHostnameLine(rawLine))
    ensures Processed(d, known, rawLines + [rawLine], result')
  {
    InputLinesNext(rawLines, rawLine);
  }

  lemma InputLinesNext(rawLines: seq<string>, rawLine: string)
    ensures var lines, line := InputLines(rawLines), NormalizeHostnameLine(rawLine);
      InputLines(rawLines + [rawLine]) == if line == "" then lines else lines + [line]
  {
    assert (rawLines + [rawLine])[..|rawLines|] == rawLines;
  }

  lemma StillLacksServers(d: Dns, known: set<string>, rawLines: seq<string>, i: nat, line: string)
    requires i <= |rawLines| && line in InputLines(rawLines[..i]) && known == {} && NeedsDns(d, line)
    ensures LacksServers(d, known, InputLines(rawLines))
  {
    InputLinesGrow(rawLines, i);
  }

  lemma SkipLine(d: Dns, servers: set<string>, lines: seq<string>, line: string, result: map<string, string>)
    requires Describes(d, servers, lines, result) && LineEntries(d, servers, line) == {}
    ensures Describes(d, servers, lines + [line], result)
  {
    assert (lines + [line])[..|lines|] == lines;
  }

  lemma {:induction false} InputLinesGrow(rawLines: seq<string>, i: nat)
    requires i <= |rawLines|
    ensures InputLines(rawLines[..i]) <= InputLines(rawLines)
    decreases |rawLines| - i
  {
    if i < |rawLines| {
      assert rawLines[..i + 1][..i] == rawLines[..i];
      InputLinesGrow(rawLines, i + 1);
    } else {
      assert rawLines[..i] == rawLines;
    }
  }

  /** So an input line naming the head of a chain of ten names yields nothing. */
  lemma TenNamesYieldNothing()
    ensures Reaches(CHAIN, {"s"}, "x", Dotted(CHAIN_END)) && LineEntries(CHAIN, {"s"}, "x") == {}
  {
    TenNamesLoseTheAddress();
    assert Xs(1) == "x";
    XsAreNormal(1);
    assert Zones(CHAIN, "x") == [];
    assert ServersFor(CHAIN, {"s"}, "x") == {"s"};
  }

  // ----- An address together with its own network -----

  /** Non-empty text of digits, dots and slashes only. */
  predicate Numeric(s: string) {
    s != "" && forall c :: c in s ==> '0' <= c <= '9' || c == '.' || c == '/'
  }

  lemma NumericHolds(s: string, c: char)
    requires Numeric(s) && !('0' <= c <= '9' || c == '.' || c == '/')
    ensures Index(s, [c]).None?
  {
    IndexOfChar(s, c);
  }

  lemma NumericIsPlain(s: string)
    requires Numeric(s)
    ensures TrimSpace(s) == s && NormalizeHostnameLine(s) == s
  {
    assert s[0] in s && s[|s| - 1] in s;
    assert TrimSpace(s) == s;
    NumericHolds(s, '#');
  }

  lemma NumericSplit(x: string, y: string)
    requires Numeric(x) && Numeric(y)
    ensures Split(x + "\n" + y, "\n") == [x, y]
  {
    var text := x + "\n" + y;
    NumericHolds(x, '\n');
    NumericHolds(y, '\n');
    IndexFinds(text, "\n");
    assert OccursAt(text, "\n", |x|);
    forall i | 0 <= i < |x| ensures !OccursAt(text, "\n", i) {
      assert text[i..i + 1] == x[i..i + 1];
      assert !OccursAt(x, "\n", i);
    }
    assert text[|x| + 1..] == y && text[..|x|] == x;
  }

  lemma NumericLines(x: string, y: string)
    requires Numeric(x) && Numeric(y)
    ensures InputLines(Split(x + "\n" + y, "\n")) == [x, y]
  {
    NumericSplit(x, y);
    NumericIsPlain(x);
    NumericIsPlain(y);
    InputLinesNext([], x);
    InputLinesNext([x], y);
    assert [] + [x] == [x] && [x] + [y] == [x, y];
  }

  lemma DottedIsNumeric(a: Addr)
    ensures Numeric(Dotted(a)) && Numeric(Dotted(a) + "/32")
  {
  }

  /**
   The tie is one the program meets: the two lines of any address and that address with /32
   resolve, without DNS, to two entries that can be listed in either order.
   */
  lemma AddressWithItsNetHasTwoListings(d: Dns, known: set<string>, a: Addr)
    requires ReadsBack(d.lib) && d.lib.parseCIDR(Dotted(a) + "/32") == Some(Net(a, 32, 32))
    ensures var text := Dotted(a) + "\n" + (Dotted(a) + "/32");
      var r := ResolutionResult(d, known, InputLines(Split(text, "\n")));
      && r.Ok? && r.value.Keys == {Dotted(a), Dotted(a) + "/32"}
      && !OneListing(d.lib, r.value.Keys)
  {
    var host, net := Dotted(a), Dotted(a) + "/32";
    DottedIsNumeric(a);
    NumericLines(host, net);
    EntriesOfPair(d, known, a);
    TwoLinesTwoEntries(d, known, host, net);
    EntriesAreCanonical(d, known, host, host);
    EntriesAreCanonical(d, known, net, net);
    PairHasTwoListings(d.lib, host, net);
  }

  lemma EntriesOfPair(d: Dns, known: set<string>, a: Addr)
    requires ReadsBack(d.lib) && d.lib.parseCIDR(Dotted(a) + "/32") == Some(Net(a, 32, 32))
    ensures d.lib.parseIP(Dotted(a) + "/32").None?
    ensures var host, net := Dotted(a), Dotted(a) + "/32";
      && LineEntries(d, known, host) == {host} && LineEntries(d, known, net) == {net}
      && !NeedsDns(d, host) && !NeedsDns(d, net)
  {
    DottedIsNumeric(a);
    NumericIsPlain(Dotted(a));
    NumericIsPlain(Dotted(a) + "/32");
    HostNetTie(a, Net(a, 32, 32));
    assert ReadsBackNet(d.lib, Net(a, 32, 32));
  }

  lemma TwoLinesTwoEntries(d: Dns, known: set<string>, x: string, y: string)
    requires LineEntries(d, known, x) == {x} && LineEntries(d, known, y) == {y}
    requires !NeedsDns(d, x) && !NeedsDns(d, y)
    ensures var r := ResolutionResult(d, known, [x, y]); r.Ok? && r.value.Keys == {x, y}
  {
    var lines := [x, y];
    assert lines[0] == x && lines[1] == y;
    forall e ensures e in AllEntries(d, known, lines) <==> e in {x, y} {
      assert e == x ==> x in lines && e in LineEntries(d, known, x);
      assert e == y ==> y in lines && e in LineEntries(d, known, y);
    }
    assert AllEntries(d, known, lines) == {x, y};
  }
}
