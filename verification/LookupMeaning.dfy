/**
 What lookups find, said in terms of the messages that servers send
 (internal/syncer/resolver.go:128-278, 299-306). The specification functions of `Resolver` and
 `HostnameResolver` are proved here to mean this.
 */
module LookupMeaning {
  import opened HostnameResolver
  import opened IpOrder
  import opened Resolver
  import opened SourceLabels
  import opened Strings
  import opened Wrappers

  /** Some non-empty server answers without error, and the record is anywhere in its message. */
  ghost predicate Gives(d: Dns, servers: seq<string>, qname: string, qtype: QType, rr: RR) {
    exists s, k :: s in servers && s != "" && HoldsRecord(d.exchange(s, qname, qtype), k, rr)
  }

  predicate HoldsRecord(response: Response, k: int, rr: RR) {
    response.Message? && response.rcode == 0 && 0 <= k < |response.answers| && response.answers[k] == rr
  }

  ghost predicate GivesAddress(d: Dns, servers: seq<string>, name: string, ip: string) {
    exists a: Addr :: ip == Dotted(a) && Gives(d, servers, d.fqdn(name), TypeA, A(Some(a)))
  }

  /** A name in lower case, without surrounding white space and without one final dot. */
  function Normalized(d: Dns, name: string): (r: string) {
    TrimSuffix(d.lower(TrimSpace(name)), ".")
  }

  ghost predicate GivesAlias(d: Dns, servers: seq<string>, name: string, alias: string) {
    exists target :: alias == Normalized(d, target) && Gives(d, servers, d.fqdn(name), TypeA, CNAME(target))
  }

  /** Each name but the last has no address from any server, and the next name is an alias of it. */
  ghost predicate Route(d: Dns, servers: seq<string>, path: seq<string>) {
    path != [] && forall i :: 0 <= i < |path| - 1 ==> RouteHop(d, servers, path[i], path[i + 1])
  }

  ghost predicate RouteHop(d: Dns, servers: seq<string>, name: string, alias: string) {
    (forall ip :: !GivesAddress(d, servers, name, ip)) && GivesAlias(d, servers, name, alias)
  }

  ghost predicate RouteTo(d: Dns, servers: seq<string>, path: seq<string>, name: string, ip: string) {
    Route(d, servers, path) && path[0] == name && GivesAddress(d, servers, path[|path| - 1], ip)
  }

  lemma AnswersHold(d: Dns, s: string, qname: string, qtype: QType, rr: RR)
    ensures rr in Answers(d, s, qname, qtype) <==> exists k :: HoldsRecord(d.exchange(s, qname, qtype), k, rr)
  {
    var response := d.exchange(s, qname, qtype);
    if rr in Answers(d, s, qname, qtype) {
      var k :| 0 <= k < |response.answers| && response.answers[k] == rr;
      assert HoldsRecord(response, k, rr);
    }
  }

  lemma GivesIsAnswered(d: Dns, servers: seq<string>, qname: string, qtype: QType, rr: RR)
    ensures Gives(d, servers, qname, qtype, rr)
      <==> exists s :: s in ServerSet(servers) && rr in Answers(d, s, qname, qtype)
  {
    if Gives(d, servers, qname, qtype, rr) {
      var s, k :| s in servers && s != "" && HoldsRecord(d.exchange(s, qname, qtype), k, rr);
      AnswersHold(d, s, qname, qtype, rr);
      assert s in ServerSet(servers);
    }
    if s :| s in ServerSet(servers) && rr in Answers(d, s, qname, qtype) {
      AnswersHold(d, s, qname, qtype, rr);
    }
  }

  lemma AddressesMean(d: Dns, servers: seq<string>, name: string, ip: string)
    ensures ip in DirectAddresses(d, ServerSet(servers), name) <==> GivesAddress(d, servers, name, ip)
  {
    var qname := d.fqdn(name);
    if ip in DirectAddresses(d, ServerSet(servers), name) {
      var s :| s in ServerSet(servers) && ip in AddressesIn(Answers(d, s, qname, TypeA));
      var rr :| rr in Answers(d, s, qname, TypeA) && rr.A? && rr.addr.Some? && ip == Dotted(rr.addr.value);
      GivesIsAnswered(d, servers, qname, TypeA, A(Some(rr.addr.value)));
    }
    if GivesAddress(d, servers, name, ip) {
      var a: Addr :| ip == Dotted(a) && Gives(d, servers, qname, TypeA, A(Some(a)));
      GivesIsAnswered(d, servers, qname, TypeA, A(Some(a)));
      var s :| s in ServerSet(servers) && A(Some(a)) in Answers(d, s, qname, TypeA);
      assert ip in AddressesIn(Answers(d, s, qname, TypeA));
    }
  }

  lemma AliasesMean(d: Dns, servers: seq<string>, name: string, alias: string)
    ensures alias in Aliases(d, ServerSet(servers), name) <==> GivesAlias(d, servers, name, alias)
  {
    var qname := d.fqdn(name);
    if alias in Aliases(d, ServerSet(servers), name) {
      var s :| s in ServerSet(servers) && alias in AliasesIn(d, Answers(d, s, qname, TypeA));
      var rr :| rr in Answers(d, s, qname, TypeA) && rr.CNAME? && alias == NormalizeDNSName(d, rr.target);
      GivesIsAnswered(d, servers, qname, TypeA, CNAME(rr.target));
    }
    if GivesAlias(d, servers, name, alias) {
      var target :| alias == NormalizeDNSName(d, target) && Gives(d, servers, qname, TypeA, CNAME(target));
      GivesIsAnswered(d, servers, qname, TypeA, CNAME(target));
      var s :| s in ServerSet(servers) && CNAME(target) in Answers(d, s, qname, TypeA);
      assert alias in AliasesIn(d, Answers(d, s, qname, TypeA));
    }
  }

  lemma HopsMean(d: Dns, servers: seq<string>, name: string, alias: string)
    ensures Hop(d, ServerSet(servers), name, alias) <==> RouteHop(d, servers, name, alias)
  {
    forall ip ensures ip in DirectAddresses(d, ServerSet(servers), name) <==> GivesAddress(d, servers, name, ip) {
      AddressesMean(d, servers, name, ip);
    }
    AliasesMean(d, servers, name, alias);
  }

  lemma RoutesMean(d: Dns, servers: seq<string>, path: seq<string>)
    ensures FollowPath(d, ServerSet(servers), path) <==> Route(d, servers, path)
  {
    forall i | 0 <= i < |path| - 1
      ensures Hop(d, ServerSet(servers), path[i], path[i + 1]) <==> RouteHop(d, servers, path[i], path[i + 1])
    {
      HopsMean(d, servers, path[i], path[i + 1]);
    }
  }

  lemma LeadsMeans(d: Dns, servers: seq<string>, path: seq<string>, name: string, ip: string)
    ensures Leads(d, ServerSet(servers), path, name, ip) <==> RouteTo(d, servers, path, name, ip)
  {
    RoutesMean(d, servers, path);
    if path != [] {
      AddressesMean(d, servers, path[|path| - 1], ip);
    }
  }

  /**
   A lookup finds an address exactly if a route of at most 8 - depth aliases, each read from a
   server's message, leads to a name for which some server's message holds that address.
   */
  lemma LookupMeansRoutes(d: Dns, servers: seq<string>, name: string, depth: nat, ip: string)
    ensures ip in Resolve(d, ServerSet(servers), name, depth)
      <==> exists path :: RouteTo(d, servers, path, name, ip) && |path| - 1 + depth <= 8
  {
    LookupFollowsPaths(d, ServerSet(servers), name, depth, ip);
    forall path ensures Leads(d, ServerSet(servers), path, name, ip) <==> RouteTo(d, servers, path, name, ip) {
      LeadsMeans(d, servers, path, name, ip);
    }
  }

  /** If at most nine names can be reached, the lookup finds every address that any route leads to. */
  lemma NineNamesLoseNothing(d: Dns, servers: seq<string>, name: string, names: set<string>, ip: string)
    requires forall path :: Route(d, servers, path) && path[0] == name ==> path[|path| - 1] in names
    requires |names| <= 9
    ensures ip in Resolve(d, ServerSet(servers), name, 0) <==> exists path :: RouteTo(d, servers, path, name, ip)
  {
    forall path ensures FollowPath(d, ServerSet(servers), path) <==> Route(d, servers, path) {
      RoutesMean(d, servers, path);
    }
    DepthLimitLosesNothing(d, ServerSet(servers), name, names, ip);
    forall path ensures Leads(d, ServerSet(servers), path, name, ip) <==> RouteTo(d, servers, path, name, ip) {
      LeadsMeans(d, servers, path, name, ip);
    }
  }

  /** A lookup that finds nothing blames the servers exactly if some query failed or some alias led nowhere. */
  lemma FailureMeans(d: Dns, servers: seq<string>, name: string)
    ensures WhyNothing(d, ServerSet(servers), name) in {ServerFailures, NoRecords}
    ensures WhyNothing(d, ServerSet(servers), name) == ServerFailures
      <==> (exists s :: s in servers && s != "" && QueryFails(d.exchange(s, d.fqdn(name), TypeA)))
           || exists alias :: GivesAlias(d, servers, name, alias)
  {
    forall alias ensures alias in Aliases(d, ServerSet(servers), name) <==> GivesAlias(d, servers, name, alias) {
      AliasesMean(d, servers, name, alias);
    }
    if s :| s in servers && s != "" && QueryFails(d.exchange(s, d.fqdn(name), TypeA)) {
      assert s in ServerSet(servers) && Fails(d, s, d.fqdn(name), TypeA);
    }
    if SomeFail(d, ServerSet(servers), d.fqdn(name), TypeA) {
      var s :| s in ServerSet(servers) && Fails(d, s, d.fqdn(name), TypeA);
      assert QueryFails(d.exchange(s, d.fqdn(name), TypeA));
    }
  }

  predicate QueryFails(response: Response) {
    match response
    case Message(rcode, _) => rcode != 0
    case _ => true
  }

  // ----- Authoritative servers -----

  /** The zone made of the hostname's labels from the `i`-th on. */
  function ZoneFrom(labels: seq<string>, i: nat): string
    requires i <= |labels|
  {
    Join(labels[i..], ".") + "."
  }

  /** Some server's message names this host, once normalised, as a name server of the zone. */
  ghost predicate NamesServer(d: Dns, bootstrap: seq<string>, zone: string, host: string) {
    exists target :: host == Normalized(d, target) && Gives(d, bootstrap, d.fqdn(zone), TypeNS, NS(target))
  }

  ghost predicate ServerOfHost(d: Dns, bootstrap: seq<string>, zone: string, server: string, host: string, ip: string) {
    && host != "" && NamesServer(d, bootstrap, zone, host)
    && ip in Resolve(d, ServerSet(bootstrap), host, 0)
    && server == ip + ":53"
  }

  /** Some name server of the zone resolves to the address of `server`. */
  ghost predicate ZoneYields(d: Dns, bootstrap: seq<string>, zone: string, server: string) {
    exists host, ip :: ServerOfHost(d, bootstrap, zone, server, host, ip)
  }

  lemma HostsMean(d: Dns, bootstrap: seq<string>, zone: string, host: string)
    ensures host in NSHosts(d, ServerSet(bootstrap), zone) <==> host != "" && NamesServer(d, bootstrap, zone, host)
  {
    var boot, qname := ServerSet(bootstrap), d.fqdn(zone);
    if host in NSHosts(d, boot, zone) {
      var s :| s in boot && host in HostsIn(d, Answers(d, s, qname, TypeNS));
      var rr :| rr in Answers(d, s, qname, TypeNS) && rr.NS? && host == NormalizeDNSName(d, rr.host);
      GivesIsAnswered(d, bootstrap, qname, TypeNS, NS(rr.host));
    }
    if host != "" && NamesServer(d, bootstrap, zone, host) {
      var target :| host == NormalizeDNSName(d, target) && Gives(d, bootstrap, qname, TypeNS, NS(target));
      GivesIsAnswered(d, bootstrap, qname, TypeNS, NS(target));
      var s :| s in boot && NS(target) in Answers(d, s, qname, TypeNS);
      assert host in HostsIn(d, Answers(d, s, qname, TypeNS));
    }
  }

  lemma ZoneServersMean(d: Dns, bootstrap: seq<string>, zone: string, server: string)
    ensures server in ZoneServers(d, ServerSet(bootstrap), zone) <==> ZoneYields(d, bootstrap, zone, server)
  {
    var boot := ServerSet(bootstrap);
    if server in ZoneServers(d, boot, zone) {
      var host, ip :| host in NSHosts(d, boot, zone) && ip in Resolve(d, boot, host, 0) && server == JoinHostPort53(ip);
      HostsMean(d, bootstrap, zone, host);
      assert ServerOfHost(d, bootstrap, zone, server, host, ip);
    }
    if ZoneYields(d, bootstrap, zone, server) {
      var host, ip :| ServerOfHost(d, bootstrap, zone, server, host, ip);
      HostsMean(d, bootstrap, zone, host);
      assert JoinHostPort53(ip) in HostServers(d, boot, NSHosts(d, boot, zone));
    }
  }

  /** The first zone of the list that yields anything decides. */
  ghost predicate FirstYielding(d: Dns, bootstrap: seq<string>, zones: seq<string>, server: string, i: int) {
    && 0 <= i < |zones|
    && ZoneYields(d, bootstrap, zones[i], server)
    && forall j :: 0 <= j < i ==> YieldsNothing(d, bootstrap, zones[j])
  }

  ghost predicate YieldsNothing(d: Dns, bootstrap: seq<string>, zone: string) {
    forall x :: !ZoneYields(d, bootstrap, zone, x)
  }

  lemma EmptyZone(d: Dns, bootstrap: seq<string>, zone: string)
    ensures ZoneServers(d, ServerSet(bootstrap), zone) == {} <==> YieldsNothing(d, bootstrap, zone)
  {
    forall x ensures x in ZoneServers(d, ServerSet(bootstrap), zone) <==> ZoneYields(d, bootstrap, zone, x) {
      ZoneServersMean(d, bootstrap, zone, x);
    }
  }

  lemma {:induction false} FirstZoneDecides(d: Dns, bootstrap: seq<string>, zones: seq<string>, server: string)
    ensures server in AuthoritativeServers(d, ServerSet(bootstrap), zones)
      <==> exists i :: FirstYielding(d, bootstrap, zones, server, i)
  {
    if zones == [] {
    } else {
      FirstZoneDecides(d, bootstrap, zones[1..], server);
      EmptyZone(d, bootstrap, zones[0]);
      ZoneServersMean(d, bootstrap, zones[0], server);
      if ZoneServers(d, ServerSet(bootstrap), zones[0]) == {} {
        ShiftYielding(d, bootstrap, zones, server);
      } else if server in ZoneServers(d, ServerSet(bootstrap), zones[0]) {
        assert FirstYielding(d, bootstrap, zones, server, 0);
      }
    }
  }

  lemma ShiftYielding(d: Dns, bootstrap: seq<string>, zones: seq<string>, server: string)
    requires zones != [] && YieldsNothing(d, bootstrap, zones[0])
    ensures (exists i :: FirstYielding(d, bootstrap, zones[1..], server, i))
      <==> exists i :: FirstYielding(d, bootstrap, zones, server, i)
  {
    if i :| FirstYielding(d, bootstrap, zones[1..], server, i) {
      forall j | 0 <= j < i + 1 ensures YieldsNothing(d, bootstrap, zones[j]) {
        assert j > 0 ==> zones[j] == zones[1..][j - 1];
      }
      assert FirstYielding(d, bootstrap, zones, server, i + 1);
    }
    if i :| FirstYielding(d, bootstrap, zones, server, i) {
      assert i > 0 && forall j :: 0 <= j < i - 1 ==> zones[1..][j] == zones[j + 1];
      assert FirstYielding(d, bootstrap, zones[1..], server, i - 1);
    }
  }

  /** The zone from label `i` yields the server, and no zone from an earlier label yields any. */
  ghost predicate FirstZone(d: Dns, bootstrap: seq<string>, labels: seq<string>, server: string, i: int) {
    && 0 <= i < |labels|
    && ZoneYields(d, bootstrap, ZoneFrom(labels, i), server)
    && forall j :: 0 <= j < i ==> YieldsNothing(d, bootstrap, ZoneFrom(labels, j))
  }

  /**
   A server is authoritative for a hostname exactly if the first of the hostname's zones, from
   the full name up to the last label, that yields any server yields this one.
   */
  lemma AuthoritativeMeansFirstZone(d: Dns, bootstrap: seq<string>, hostname: string, server: string)
    ensures var labels := d.splitDomainName(d.fqdn(hostname));
      server in AuthoritativeServers(d, ServerSet(bootstrap), Zones(d, hostname))
      <==> exists i :: FirstZone(d, bootstrap, labels, server, i)
  {
    var labels, zones := d.splitDomainName(d.fqdn(hostname)), Zones(d, hostname);
    FirstZoneDecides(d, bootstrap, zones, server);
    assert |zones| == |labels| && forall i :: 0 <= i < |labels| ==> zones[i] == ZoneFrom(labels, i);
    if i :| FirstYielding(d, bootstrap, zones, server, i) {
      forall j | 0 <= j < i ensures YieldsNothing(d, bootstrap, ZoneFrom(labels, j)) {
        assert YieldsNothing(d, bootstrap, zones[j]);
      }
      assert FirstZone(d, bootstrap, labels, server, i);
    }
    if i :| FirstZone(d, bootstrap, labels, server, i) {
      assert FirstYielding(d, bootstrap, zones, server, i);
    }
  }

  // ----- Input lines and their labels -----

  lemma {:induction false} TrimBlankPrefix(before: string, s: string)
    requires Blank(before)
    ensures TrimSpace(before + s) == TrimSpace(s)
  {
    if before == "" {
      assert before + s == s;
    } else {
      assert before[0] in before;
      assert (before + s)[1..] == before[1..] + s;
      TrimBlankPrefix(before[1..], s);
    }
  }

  /** A line counts without surrounding white space. */
  lemma PlainLineMeans(line: string)
    requires '#' !in line
    ensures NormalizeHostnameLine(line) == TrimSpace(line)
  {
    var before, after := TrimSpaceMeans(line);
    assert forall c :: c in TrimSpace(line) ==> c in line;
    IndexOfChar(TrimSpace(line), '#');
  }

  /** What follows the first '#' is a comment: only what stands before it counts. */
  lemma CommentedLineMeans(line: string, comment: string)
    requires '#' !in line
    ensures NormalizeHostnameLine(line + "#" + comment) == TrimSpace(line)
  {
    var before, x, rest := CommentParts(line, comment);
    CutAtMark(line + "#" + comment, x, rest);
    TrimBlankPrefix(before, x);
  }

  lemma CommentParts(line: string, comment: string) returns (before: string, x: string, rest: string)
    requires '#' !in line
    ensures TrimSpace(line + "#" + comment) == x + "#" + rest && '#' !in x
    ensures line == before + x && Blank(before)
  {
    var after;
    before, after := TrimSpaceMeans(line + "#" + comment);
    var t := TrimSpace(line + "#" + comment);
    CommentStays(line, comment, before, t, after);
    x, rest := line[|before|..], t[|line| - |before| + 1..];
    SplitAtMark(t, |line| - |before|);
    SplitsInto(line, |before|);
  }

  lemma SplitAtMark(t: string, i: nat)
    requires i < |t| && t[i] == '#'
    ensures t == t[..i] + "#" + t[i + 1..]
  {
  }

  lemma SplitsInto(s: string, i: nat)
    requires i <= |s|
    ensures s == s[..i] + s[i..]
  {
  }

  lemma CutAtMark(raw: string, x: string, rest: string)
    requires TrimSpace(raw) == x + "#" + rest && '#' !in x
    ensures NormalizeHostnameLine(raw) == TrimSpace(x)
  {
    FirstMark(x, rest);
    assert (x + "#" + rest)[..|x|] == x;
  }

  /** Trimming removes neither the mark nor anything right before it. */
  lemma CommentStays(line: string, comment: string, before: string, t: string, after: string)
    requires line + "#" + comment == before + t + after && Blank(before) && Blank(after)
    ensures |before| <= |line| < |before| + |t|
    ensures before == line[..|before|]
    ensures t[..|line| - |before|] == line[|before|..] && t[|line| - |before|] == '#'
  {
    var raw := line + "#" + comment;
    assert raw[|line|] == '#' && !IsSpace('#');
    assert forall i :: 0 <= i < |before| ==> before[i] in before && raw[i] == before[i];
    var hi := |before| + |t|;
    forall i | hi <= i < |raw| ensures IsSpace(raw[i]) {
      assert raw[i] == after[i - hi] && after[i - hi] in after;
    }
    NotInBlankEnds(raw, |before|, hi, |line|);
    assert raw[..|before|] == before && raw[..|before|] == line[..|before|];
    assert raw[|before|..|line|] == t[..|line| - |before|] && raw[|before|..|line|] == line[|before|..];
  }

  lemma NotInBlankEnds(raw: string, lo: nat, hi: nat, k: nat)
    requires lo <= hi <= |raw| && k < |raw| && !IsSpace(raw[k])
    requires forall i :: 0 <= i < lo ==> IsSpace(raw[i])
    requires forall i :: hi <= i < |raw| ==> IsSpace(raw[i])
    ensures lo <= k < hi
  {
  }

  lemma FirstMark(x: string, rest: string)
    requires '#' !in x
    ensures Index(x + "#" + rest, "#") == Some(|x|)
  {
    var s := x + "#" + rest;
    assert OccursAt(s, "#", |x|);
    IndexFinds(s, "#");
    forall i | 0 <= i < |x| ensures !OccursAt(s, "#", i) {
      assert s[i..i + 1][0] == x[i] && x[i] in x;
    }
  }

  /** The lines that count are the non-empty ones, cut and trimmed, in order. */
  lemma LinesMean(rawLines: seq<string>, rawLine: string)
    ensures InputLines([]) == []
    ensures InputLines(rawLines + [rawLine]) == InputLines(rawLines)
      + if NormalizeHostnameLine(rawLine) == "" then [] else [NormalizeHostnameLine(rawLine)]
  {
    InputLinesNext(rawLines, rawLine);
  }

  /**
   What one line yields: the text of the address it parses as, else of the network, else every
   address that a route leads to from its name, asking the given servers and those that are
   authoritative for it.
   */
  lemma LineMeans(d: Dns, servers: seq<string>, asked: seq<string>, line: string, e: string)
    requires var name := NormalizeDNSName(d, line);
      forall s :: s in asked <==> s in servers || s in AuthoritativeServers(d, ServerSet(servers), Zones(d, name))
    ensures e in LineEntries(d, ServerSet(servers), line) <==>
      match d.lib.parseIP(TrimSpace(line))
      case Some(a) => e == Dotted(a)
      case None =>
        match d.lib.parseCIDR(TrimSpace(line))
        case Some(n) => e == NetText(n)
        case None => exists path :: RouteTo(d, asked, path, Normalized(d, line), e) && |path| - 1 <= 8
  {
    if NeedsDns(d, line) {
      NamedLineMeans(d, servers, asked, line, e);
    }
  }

  lemma NamedLineMeans(d: Dns, servers: seq<string>, asked: seq<string>, line: string, e: string)
    requires NeedsDns(d, line)
    requires var name := NormalizeDNSName(d, line);
      forall s :: s in asked <==> s in servers || s in AuthoritativeServers(d, ServerSet(servers), Zones(d, name))
    ensures d.lib.parseIP(TrimSpace(line)).None? && d.lib.parseCIDR(TrimSpace(line)).None?
    ensures e in LineEntries(d, ServerSet(servers), line)
      <==> exists path :: RouteTo(d, asked, path, NormalizeDNSName(d, line), e) && |path| - 1 <= 8
  {
    var name := NormalizeDNSName(d, line);
    AskedTogether(d, servers, asked, name);
    LookupMeansRoutes(d, asked, name, 0, e);
    assert LineEntries(d, ServerSet(servers), line) == Resolve(d, ServerSet(asked), name, 0);
  }

  lemma AskedTogether(d: Dns, servers: seq<string>, asked: seq<string>, name: string)
    requires forall s :: s in asked <==>
      s in servers || s in AuthoritativeServers(d, ServerSet(servers), Zones(d, name))
    ensures ServerSet(asked) == ServersFor(d, ServerSet(servers), name)
  {
    AuthoritativeNamesNonEmpty(d, ServerSet(servers), Zones(d, name));
  }

  /** The text is refused for want of servers exactly if no server is named and some line is not a literal. */
  lemma RefusalMeans(d: Dns, servers: seq<string>, rawLines: seq<string>)
    ensures ResolutionResult(d, ServerSet(servers), InputLines(rawLines)) == Err(NoServers)
      <==> (forall s :: s in servers ==> s == "")
           && exists l :: l in InputLines(rawLines) && IsNoLiteral(d, l)
  {
    assert ServerSet(servers) == {} <==> forall s :: s in servers ==> s == "" by {
      if s :| s in servers && s != "" {
        assert s in ServerSet(servers);
      }
    }
    assert forall l :: NeedsDns(d, l) <==> IsNoLiteral(d, l);
  }

  predicate IsNoLiteral(d: Dns, line: string) {
    d.lib.parseIP(TrimSpace(line)).None? && d.lib.parseCIDR(TrimSpace(line)).None?
  }

  /** The contributing lines are the lines in order, others left out. */
  lemma {:induction false} ContributorsInOrder(d: Dns, known: set<string>, lines: seq<string>, e: string,
                                               v: string, w: string)
    requires var sources := Contributors(d, known, lines, e); w in sources && AppearsBefore(sources, v, w)
    ensures AppearsBefore(lines, v, w)
  {
    if lines == [] {
    } else {
      var init, last := lines[..|lines| - 1], lines[|lines| - 1];
      var before := Contributors(d, known, init, e);
      OneMoreContributor(d, known, init, last, e);
      SplitsOffLast(lines);
      if w in before && AppearsBefore(before, v, w) {
        ContributorsInOrder(d, known, init, e, v, w);
      }
      OrderOfOneMore(init, last, before, Contributors(d, known, lines, e), v, w);
    }
  }

  lemma SplitsOffLast(lines: seq<string>)
    requires lines != []
    ensures lines == lines[..|lines| - 1] + [lines[|lines| - 1]]
  {
  }

  lemma OneMoreContributor(d: Dns, known: set<string>, init: seq<string>, last: string, e: string)
    ensures var before, sources := Contributors(d, known, init, e), Contributors(d, known, init + [last], e);
      && (forall l :: l in before ==> l in init)
      && (sources == before || (sources == before + [last] && (last in init ==> last in before)))
  {
    assert (init + [last])[..|init|] == init;
    ContributorsAreLines(d, known, init, e);
  }

  lemma OrderOfOneMore(init: seq<string>, last: string, before: seq<string>, sources: seq<string>, v: string, w: string)
    requires forall l :: l in before ==> l in init
    requires sources == before || (sources == before + [last] && (last in init ==> last in before))
    requires w in before && AppearsBefore(before, v, w) ==> AppearsBefore(init, v, w)
    requires w in sources && AppearsBefore(sources, v, w)
    ensures AppearsBefore(init + [last], v, w)
  {
    if w in before {
      if sources != before {
        AppearsInPrefix(before, last, v, w);
      }
      AppearsBeforeSnoc(init, last, v, w);
    } else {
      AppearsOnlyLast(before, last, v, w);
      AppearsBeforeLast(init, v, w);
    }
  }

  lemma AppearsInPrefix(before: seq<string>, last: string, v: string, w: string)
    requires AppearsBefore(before + [last], v, w) && w in before
    ensures AppearsBefore(before, v, w)
  {
    var all := before + [last];
    var k :| 0 <= k < |all| && all[k] == v && w !in all[..k + 1];
    assert k < |before| by {
      assert all[..|all|] == all;
    }
    assert all[..k + 1] == before[..k + 1];
  }

  lemma AppearsOnlyLast(before: seq<string>, last: string, v: string, w: string)
    requires AppearsBefore(before + [last], v, w) && w in before + [last] && w !in before
    ensures w == last && v in before
  {
    var all := before + [last];
    var k :| 0 <= k < |all| && all[k] == v && w !in all[..k + 1];
    assert k < |before| by {
      assert all[..|all|] == all;
    }
  }

  /**
   The label of a resolved entry, if none of its lines holds the separator, lists exactly the
   lines that yield the entry, each once, in the order in which they first appear in the input.
   */
  lemma LabelMeans(d: Dns, known: set<string>, rawLines: seq<string>, e: string)
    requires var lines := InputLines(rawLines);
      && e in Resolution(d, known, lines)
      && forall l :: l in lines && e in LineEntries(d, known, l) ==> !Contains(l, ", ")
    ensures var lines := InputLines(rawLines); var parts := Split(Resolution(d, known, lines)[e], ", ");
      && (forall p :: p in parts <==> p in lines && e in LineEntries(d, known, p))
      && (forall i, j :: 0 <= i < j < |parts| ==> parts[i] != parts[j] && AppearsBefore(lines, parts[i], parts[j]))
  {
    var lines := InputLines(rawLines);
    var sources := Contributors(d, known, lines, e);
    var parts := Unique(sources);
    ResolutionMeaning(d, known, rawLines, e);
    InputLinesNonEmpty(rawLines);
    UniqueIsASetInOrder(sources);
    assert Split(Resolution(d, known, lines)[e], SEP) == parts;
    forall i, j | 0 <= i < j < |parts| ensures AppearsBefore(lines, parts[i], parts[j]) {
      assert parts[i] in parts && parts[j] in parts;
      ContributorsInOrder(d, known, lines, e, parts[i], parts[j]);
    }
  }
}
