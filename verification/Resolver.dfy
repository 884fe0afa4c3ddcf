/**
 Address lookup over several DNS servers, with alias following cut off by depth
 (internal/syncer/resolver.go:38-278, 299-337). Aliases are followed as in section 3.6.2 of
 RFC 1034: an answer either gives addresses or names an alias to ask about instead.
 */
module Resolver {
  import opened Wrappers
  import opened Strings
  import opened SourceLabels
  import opened IpOrder

  const MAX_CNAME_FOLLOW_DEPTH: nat := 8
  const RCODE_SUCCESS := 0

  datatype QType = TypeA | TypeNS

  /** `A(None)` is an address record without an IPv4 address. */
  datatype RR = A(addr: Option<Addr>) | CNAME(target: string) | NS(host: string) | Other

  datatype Response = NetworkError | EmptyResponse | Message(rcode: int, answers: seq<RR>)

  /** The network and the library functions: queries are answered by one fixed function. */
  datatype Dns = Dns(
    exchange: (string, string, QType) -> Response,
    fqdn: string -> string,
    lower: string -> string,
    splitDomainName: string -> seq<string>,
    lib: NetLib)

  datatype LookupError =
    | ChainTooLong | NoServers | NoRecords | ServerFailures | NothingResolved

  function NormalizeDNSName(d: Dns, name: string): string {
    TrimSuffix(d.lower(TrimSpace(name)), ".")
  }

  function JoinHostPort53(ip: string): string {
    ip + ":53"
  }

  /** The usable answers of one server; every kind of failure gives none. */
  function Answers(d: Dns, server: string, qname: string, qtype: QType): seq<RR> {
    match d.exchange(server, qname, qtype)
    case Message(rcode, answers) => if rcode == RCODE_SUCCESS then answers else []
    case _ => []
  }

  /** The query fails: no message, an empty one, or an error code. */
  predicate Fails(d: Dns, server: string, qname: string, qtype: QType) {
    var msg := d.exchange(server, qname, qtype);
    !msg.Message? || msg.rcode != RCODE_SUCCESS
  }

  ghost predicate SomeFail(d: Dns, servers: set<string>, qname: string, qtype: QType) {
    exists s :: s in servers && Fails(d, s, qname, qtype)
  }

  function ServerSet(servers: seq<string>): set<string> {
    set s | s in servers && s != ""
  }

  // ----- Meaning -----

  ghost function AddressesIn(answers: seq<RR>): set<string> {
    set rr | rr in answers && rr.A? && rr.addr.Some? :: Dotted(rr.addr.value)
  }

  ghost function AliasesIn(d: Dns, answers: seq<RR>): set<string> {
    set rr | rr in answers && rr.CNAME? :: NormalizeDNSName(d, rr.target)
  }

  ghost function AllAddresses(d: Dns, servers: set<string>, qname: string): set<string> {
    set s, x | s in servers && x in AddressesIn(Answers(d, s, qname, TypeA)) :: x
  }

  ghost function AllAliases(d: Dns, servers: set<string>, qname: string): set<string> {
    set s, x | s in servers && x in AliasesIn(d, Answers(d, s, qname, TypeA)) :: x
  }

  lemma OneMoreServer(d: Dns, servers: set<string>, s: string, qname: string)
    ensures AllAddresses(d, servers + {s}, qname)
         == AllAddresses(d, servers, qname) + AddressesIn(Answers(d, s, qname, TypeA))
    ensures AllAliases(d, servers + {s}, qname)
         == AllAliases(d, servers, qname) + AliasesIn(d, Answers(d, s, qname, TypeA))
  {
  }

  lemma OnlyServer(d: Dns, s: string, qname: string)
    ensures AllAddresses(d, {s}, qname) == AddressesIn(Answers(d, s, qname, TypeA))
    ensures AllAliases(d, {s}, qname) == AliasesIn(d, Answers(d, s, qname, TypeA))
  {
    assert {} + {s} == {s};
    OneMoreServer(d, {}, s, qname);
  }

  ghost function DirectAddresses(d: Dns, servers: set<string>, name: string): set<string> {
    AllAddresses(d, servers, d.fqdn(name))
  }

  ghost function Aliases(d: Dns, servers: set<string>, name: string): set<string> {
    AllAliases(d, servers, d.fqdn(name))
  }

  /** What a lookup at the given depth finds. */
  ghost function Resolve(d: Dns, servers: set<string>, name: string, depth: nat): set<string>
    decreases MAX_CNAME_FOLLOW_DEPTH + 1 - depth, 0
  {
    if depth > MAX_CNAME_FOLLOW_DEPTH then {}
    else if DirectAddresses(d, servers, name) != {} then DirectAddresses(d, servers, name)
    else ResolveAll(d, servers, Aliases(d, servers, name), depth + 1)
  }

  ghost function ResolveAll(d: Dns, servers: set<string>, names: set<string>, depth: nat): set<string>
    decreases MAX_CNAME_FOLLOW_DEPTH + 1 - depth, 1
  {
    set name, ip | name in names && ip in Resolve(d, servers, name, depth) :: ip
  }

  /**
   Why a lookup that finds nothing says so: some server failed or some alias led nowhere, or
   else every server answered and none knew anything.
   */
  ghost function WhyNothing(d: Dns, servers: set<string>, name: string): LookupError {
    if SomeFail(d, servers, d.fqdn(name), TypeA) || Aliases(d, servers, name) != {} then ServerFailures else NoRecords
  }

  /** A chain of aliases, every name before the last having no address of its own. */
  ghost predicate FollowPath(d: Dns, servers: set<string>, path: seq<string>) {
    && path != []
    && forall i :: 0 <= i < |path| - 1 ==> Hop(d, servers, path[i], path[i + 1])
  }

  ghost predicate Hop(d: Dns, servers: set<string>, name: string, alias: string) {
    DirectAddresses(d, servers, name) == {} && alias in Aliases(d, servers, name)
  }

  ghost predicate Leads(d: Dns, servers: set<string>, path: seq<string>, name: string, ip: string) {
    && FollowPath(d, servers, path)
    && path[0] == name
    && ip in DirectAddresses(d, servers, path[|path| - 1])
  }

  /** The unbounded, transitive meaning of a name. */
  ghost predicate Reaches(d: Dns, servers: set<string>, name: string, ip: string) {
    exists path :: Leads(d, servers, path, name, ip)
  }

  lemma PathCons(d: Dns, servers: set<string>, name: string, path: seq<string>, ip: string)
    requires path != [] && Leads(d, servers, path, path[0], ip) && Hop(d, servers, name, path[0])
    ensures Leads(d, servers, [name] + path, name, ip)
  {
    var longer := [name] + path;
    forall i | 0 <= i < |longer| - 1 ensures Hop(d, servers, longer[i], longer[i + 1]) {
      if i > 0 {
        assert longer[i] == path[i - 1] && longer[i + 1] == path[i];
      }
    }
  }

  lemma PathTail(d: Dns, servers: set<string>, path: seq<string>, ip: string)
    requires |path| > 1 && Leads(d, servers, path, path[0], ip)
    ensures Hop(d, servers, path[0], path[1]) && Leads(d, servers, path[1..], path[1], ip)
  {
    var tail := path[1..];
    forall i | 0 <= i < |tail| - 1 ensures Hop(d, servers, tail[i], tail[i + 1]) {
      assert tail[i] == path[i + 1] && tail[i + 1] == path[i + 2];
    }
  }

  lemma AliasBehindLookup(d: Dns, servers: set<string>, name: string, depth: nat, ip: string) returns (alias: string)
    requires ip in Resolve(d, servers, name, depth) && DirectAddresses(d, servers, name) == {}
    ensures depth <= MAX_CNAME_FOLLOW_DEPTH
    ensures Hop(d, servers, name, alias) && ip in Resolve(d, servers, alias, depth + 1)
  {
    assert ip in ResolveAll(d, servers, Aliases(d, servers, name), depth + 1);
    alias :| alias in Aliases(d, servers, name) && ip in Resolve(d, servers, alias, depth + 1);
  }

  lemma {:induction false} PathOfLookup(d: Dns, servers: set<string>, name: string, depth: nat, ip: string)
    returns (path: seq<string>)
    requires ip in Resolve(d, servers, name, depth)
    ensures Leads(d, servers, path, name, ip) && |path| - 1 + depth <= MAX_CNAME_FOLLOW_DEPTH
    decreases MAX_CNAME_FOLLOW_DEPTH + 1 - depth
  {
    if DirectAddresses(d, servers, name) != {} {
      path := [name];
    } else {
      var alias := AliasBehindLookup(d, servers, name, depth, ip);
      var rest := PathOfLookup(d, servers, alias, depth + 1, ip);
      PathCons(d, servers, name, rest, ip);
      path := [name] + rest;
    }
  }

  lemma {:induction false} LookupOfPath(d: Dns, servers: set<string>, path: seq<string>, depth: nat, ip: string)
    requires path != [] && Leads(d, servers, path, path[0], ip)
    requires |path| - 1 + depth <= MAX_CNAME_FOLLOW_DEPTH
    ensures ip in Resolve(d, servers, path[0], depth)
    decreases |path|
  {
    if |path| == 1 {
    } else {
      PathTail(d, servers, path, ip);
      LookupOfPath(d, servers, path[1..], depth + 1, ip);
    }
  }

  /**
   A lookup finds an address exactly when an alias path of at most 8 - depth hops leads to it.
   */
  lemma LookupFollowsPaths(d: Dns, servers: set<string>, name: string, depth: nat, ip: string)
    ensures ip in Resolve(d, servers, name, depth)
      <==> exists path :: Leads(d, servers, path, name, ip) && |path| - 1 + depth <= MAX_CNAME_FOLLOW_DEPTH
  {
    if ip in Resolve(d, servers, name, depth) {
      var path := PathOfLookup(d, servers, name, depth, ip);
    }
    forall path | Leads(d, servers, path, name, ip) && |path| - 1 + depth <= MAX_CNAME_FOLLOW_DEPTH
      ensures ip in Resolve(d, servers, name, depth)
    {
      LookupOfPath(d, servers, path, depth, ip);
    }
  }

  /** Every name that following aliases from `name` can arrive at lies in `names`. */
  ghost predicate ReachableNamesWithin(d: Dns, servers: set<string>, name: string, names: set<string>) {
    forall path :: FollowPath(d, servers, path) && path[0] == name ==> path[|path| - 1] in names
  }

  /**
   On alias graphs with at most nine reachable names, cyclic or not, the depth limit loses
   nothing: the bounded lookup finds exactly what unbounded following would.
   */
  lemma DepthLimitLosesNothing(d: Dns, servers: set<string>, name: string, names: set<string>, ip: string)
    requires ReachableNamesWithin(d, servers, name, names)
    requires |names| <= 9
    ensures ip in Resolve(d, servers, name, 0) <==> Reaches(d, servers, name, ip)
  {
    LookupFollowsPaths(d, servers, name, 0, ip);
    if Reaches(d, servers, name, ip) {
      var path :| Leads(d, servers, path, name, ip);
      var short := ShortestDetour(d, servers, path, name, ip);
      PathWithin(d, servers, short, names);
      DistinctFit(short, names);
    }
  }

  ghost predicate Distinct(s: seq<string>) {
    forall i, j :: 0 <= i < j < |s| ==> s[i] != s[j]
  }

  /** Cutting out a loop keeps a path a path, so some path repeats no name. */
  lemma {:induction false} ShortestDetour(d: Dns, servers: set<string>, path: seq<string>, name: string, ip: string)
    returns (short: seq<string>)
    requires Leads(d, servers, path, name, ip)
    ensures Leads(d, servers, short, name, ip) && Distinct(short)
    decreases |path|
  {
    if Distinct(path) {
      return path;
    }
    var i, j :| 0 <= i < j < |path| && path[i] == path[j];
    CutLoop(d, servers, path, name, ip, i, j);
    short := ShortestDetour(d, servers, path[..i] + path[j..], name, ip);
  }

  lemma CutLoop(d: Dns, servers: set<string>, path: seq<string>, name: string, ip: string, i: nat, j: nat)
    requires Leads(d, servers, path, name, ip) && i < j < |path| && path[i] == path[j]
    ensures Leads(d, servers, path[..i] + path[j..], name, ip)
  {
    var cut := path[..i] + path[j..];
    forall k | 0 <= k < |cut| - 1 ensures Hop(d, servers, cut[k], cut[k + 1]) {
      if k < i {
        assert cut[k] == path[k] && cut[k + 1] == path[k + 1];
      } else {
        assert cut[k] == path[k - i + j] && cut[k + 1] == path[k - i + j + 1];
      }
    }
    assert cut[0] == name;
  }

  lemma PathWithin(d: Dns, servers: set<string>, path: seq<string>, names: set<string>)
    requires FollowPath(d, servers, path) && ReachableNamesWithin(d, servers, path[0], names)
    ensures forall x :: x in path ==> x in names
  {
    forall k | 0 <= k < |path| ensures path[k] in names {
      var prefix := path[..k + 1];
      forall i | 0 <= i < k ensures Hop(d, servers, prefix[i], prefix[i + 1]) {
        assert prefix[i] == path[i] && prefix[i + 1] == path[i + 1];
      }
      assert FollowPath(d, servers, prefix) && prefix[0] == path[0];
      assert prefix[|prefix| - 1] == path[k];
    }
  }

  /** Pigeonhole: a sequence without repetition fits only a set at least as large. */
  lemma {:induction false} DistinctFit(s: seq<string>, names: set<string>)
    requires Distinct(s) && forall x :: x in s ==> x in names
    ensures |s| <= |names|
  {
    if s == [] {
    } else {
      DistinctFit(s[1..], names - {s[0]});
    }
  }

  /** A chain of ten names x, xx, ..., x^10, only the last of which has an address. */
  const CHAIN: Dns := Dns((_, q, _) => ChainResponse(q), s => TrimSuffix(s, ".") + ".", s => s, _ => [], TEXT_ONLY)
  const CHAIN_END: Addr := [192, 0, 2, 1]

  function ChainResponse(qname: string): Response {
    if |qname| < 11 then Message(0, [CNAME("x" + qname)]) else Message(0, [A(Some(CHAIN_END))])
  }

  function Xs(k: nat): (s: string)
    ensures |s| == k && forall c :: c in s ==> c == 'x'
  {
    seq(k, _ => 'x')
  }

  lemma XsAreNormal(k: nat)
    requires k > 0
    ensures CHAIN.fqdn(Xs(k)) == Xs(k) + "."
    ensures NormalizeDNSName(CHAIN, Xs(k)) == Xs(k) && NormalizeDNSName(CHAIN, Xs(k) + ".") == Xs(k)
  {
    var s := Xs(k);
    assert s[0] in s && s[|s| - 1] in s;
    assert s[|s| - 1..] == [s[|s| - 1]] != ".";
    assert TrimSpace(s) == s && TrimSpace(s + ".") == s + ".";
    assert (s + ".")[|s|..] == "." && (s + ".")[..|s|] == s;
  }

  lemma ChainHop(k: nat)
    requires 0 < k < 10
    ensures DirectAddresses(CHAIN, {"s"}, Xs(k)) == {}
    ensures Aliases(CHAIN, {"s"}, Xs(k)) == {Xs(k + 1)}
  {
    XsAreNormal(k);
    XsAreNormal(k + 1);
    assert "x" + Xs(k) == Xs(k + 1);
    assert "x" + (Xs(k) + ".") == Xs(k + 1) + ".";
    var rr := CNAME(Xs(k + 1) + ".");
    assert Answers(CHAIN, "s", Xs(k) + ".", TypeA) == [rr];
    assert rr in [rr];
    OnlyServer(CHAIN, "s", Xs(k) + ".");
  }

  lemma ChainEndHasAddress()
    ensures Dotted(CHAIN_END) in DirectAddresses(CHAIN, {"s"}, Xs(10))
  {
    XsAreNormal(10);
    var rr := A(Some(CHAIN_END));
    assert Answers(CHAIN, "s", Xs(10) + ".", TypeA) == [rr];
    assert rr in [rr];
    OnlyServer(CHAIN, "s", Xs(10) + ".");
  }

  lemma {:induction false} ChainPath(k: nat) returns (path: seq<string>)
    requires 0 < k <= 10
    ensures Leads(CHAIN, {"s"}, path, Xs(k), Dotted(CHAIN_END))
    decreases 10 - k
  {
    if k == 10 {
      ChainEndHasAddress();
      path := [Xs(10)];
    } else {
      ChainHop(k);
      var rest := ChainPath(k + 1);
      PathCons(CHAIN, {"s"}, Xs(k), rest, Dotted(CHAIN_END));
      path := [Xs(k)] + rest;
    }
  }

  lemma {:induction false} ChainLookupStops(k: nat)
    requires 0 < k <= 10
    ensures Resolve(CHAIN, {"s"}, Xs(k), k - 1) == {}
    decreases 10 - k
  {
    if k == 10 {
    } else {
      ChainHop(k);
      ChainLookupStops(k + 1);
    }
  }

  /** The bound nine is sharp: along a chain of ten names the address at the end is lost. */
  lemma TenNamesLoseTheAddress()
    ensures Reaches(CHAIN, {"s"}, "x", Dotted(CHAIN_END)) && Resolve(CHAIN, {"s"}, "x", 0) == {}
  {
    assert Xs(1) == "x";
    var path := ChainPath(1);
    ChainLookupStops(1);
  }

  // ----- Query budget -----

  /** 1 + b + ... + b^(8 - depth) */
  function Budget(b: nat, depth: nat): nat
    decreases MAX_CNAME_FOLLOW_DEPTH + 1 - depth
  {
    if depth > MAX_CNAME_FOLLOW_DEPTH then 0 else 1 + b * Budget(b, depth + 1)
  }

  function Power(b: nat, k: nat): nat {
    if k == 0 then 1 else b * Power(b, k - 1)
  }

  function PowerSum(b: nat, k: nat): nat {
    if k == 0 then 0 else PowerSum(b, k - 1) + Power(b, k - 1)
  }

  lemma {:induction false} BudgetIsPowerSum(b: nat, depth: nat)
    requires depth <= MAX_CNAME_FOLLOW_DEPTH + 1
    ensures Budget(b, depth) == PowerSum(b, MAX_CNAME_FOLLOW_DEPTH + 1 - depth)
    ensures b == 1 ==> Budget(b, depth) == MAX_CNAME_FOLLOW_DEPTH + 1 - depth
    decreases MAX_CNAME_FOLLOW_DEPTH + 1 - depth
  {
    if depth > MAX_CNAME_FOLLOW_DEPTH {
    } else {
      BudgetIsPowerSum(b, depth + 1);
      PowerSumShift(b, MAX_CNAME_FOLLOW_DEPTH - depth);
    }
  }

  lemma {:induction false} PowerSumShift(b: nat, k: nat)
    ensures 1 + b * PowerSum(b, k) == PowerSum(b, k + 1)
  {
    if k == 0 {
    } else {
      PowerSumShift(b, k - 1);
      Distribute(b, PowerSum(b, k - 1), Power(b, k - 1));
    }
  }

  lemma Distribute(x: nat, y: nat, z: nat)
    ensures x * (y + z) == x * y + x * z
  {
  }

  /** The exchanges that a lookup makes: one per server, and those of following each alias. */
  ghost function QueryCount(d: Dns, servers: set<string>, name: string, depth: nat): nat
    decreases MAX_CNAME_FOLLOW_DEPTH + 1 - depth, 0
  {
    if depth > MAX_CNAME_FOLLOW_DEPTH then 0
    else if DirectAddresses(d, servers, name) != {} then |servers|
    else |servers| + QueryCountAll(d, servers, Aliases(d, servers, name), depth + 1)
  }

  ghost function QueryCountAll(d: Dns, servers: set<string>, names: set<string>, depth: nat): nat
    decreases MAX_CNAME_FOLLOW_DEPTH + 1 - depth, 1, |names|
  {
    if names == {} then 0
    else
      var name :| name in names;
      QueryCount(d, servers, name, depth) + QueryCountAll(d, servers, names - {name}, depth)
  }

  /** The count does not depend on the order in which aliases are followed. */
  lemma {:induction false} QueryCountPicksAny(d: Dns, servers: set<string>, names: set<string>, depth: nat, x: string)
    requires x in names
    ensures QueryCountAll(d, servers, names, depth)
         == QueryCount(d, servers, x, depth) + QueryCountAll(d, servers, names - {x}, depth)
    decreases |names|
  {
    var name :| name in names && QueryCountAll(d, servers, names, depth)
      == QueryCount(d, servers, name, depth) + QueryCountAll(d, servers, names - {name}, depth);
    if name != x {
      QueryCountPicksAny(d, servers, names - {name}, depth, x);
      QueryCountPicksAny(d, servers, names - {x}, depth, name);
      assert names - {name} - {x} == names - {x} - {name};
    }
  }

  ghost predicate FanoutAtMost(d: Dns, servers: set<string>, b: nat) {
    forall name :: |Aliases(d, servers, name)| <= b
  }

  /**
   If no name has more than `b` aliases, a lookup makes at most |servers| * (1 + b + ... +
   b^(8 - depth)) exchanges, on any alias graph, cyclic ones included.
   */
  lemma {:induction false} QueriesWithinBudget(d: Dns, servers: set<string>, name: string, depth: nat, b: nat)
    requires FanoutAtMost(d, servers, b)
    ensures QueryCount(d, servers, name, depth) <= |servers| * Budget(b, depth)
    decreases MAX_CNAME_FOLLOW_DEPTH + 1 - depth, 0
  {
    if depth > MAX_CNAME_FOLLOW_DEPTH {
    } else {
      var aliases := Aliases(d, servers, name);
      var spent := QueryCountAll(d, servers, aliases, depth + 1);
      AllQueriesWithinBudget(d, servers, aliases, depth + 1, b);
      BudgetArithmetic(|servers|, Budget(b, depth + 1), spent, |aliases|, b);
    }
  }

  lemma {:induction false} AllQueriesWithinBudget(d: Dns, servers: set<string>, names: set<string>, depth: nat, b: nat)
    requires FanoutAtMost(d, servers, b)
    ensures QueryCountAll(d, servers, names, depth) <= |names| * (|servers| * Budget(b, depth))
    decreases MAX_CNAME_FOLLOW_DEPTH + 1 - depth, 1, |names|
  {
    if names == {} {
    } else {
      var name :| name in names;
      var rest := names - {name};
      QueryCountPicksAny(d, servers, names, depth, name);
      QueriesWithinBudget(d, servers, name, depth, b);
      AllQueriesWithinBudget(d, servers, rest, depth, b);
      assert |names| == |rest| + 1;
      OneMoreShare(|rest|, |servers| * Budget(b, depth));
    }
  }

  lemma OneMoreShare(k: nat, m: int)
    ensures (k + 1) * m == k * m + m
  {
  }

  lemma BudgetArithmetic(n: nat, m: nat, spent: nat, k: nat, b: nat)
    requires spent <= k * (n * m) && k <= b
    ensures n + spent <= n * (1 + b * m)
    ensures n <= n * (1 + b * m)
  {
    assert (b - k) * (n * m) >= 0;
    assert n * (1 + b * m) == n + b * (n * m);
    assert b * (n * m) == k * (n * m) + (b - k) * (n * m);
  }

  lemma UniqueServers(servers: seq<string>)
    ensures forall s :: s in Unique(servers) <==> s in ServerSet(servers)
    ensures Distinct(Unique(servers))
    ensures |Unique(servers)| == |ServerSet(servers)|
    ensures ServerSet(Unique(servers)) == ServerSet(servers)
  {
    UniqueIsASetInOrder(servers);
    DistinctCount(Unique(servers), ServerSet(servers));
  }

  lemma {:induction false} DistinctCount(s: seq<string>, elements: set<string>)
    requires Distinct(s) && forall x :: x in s <==> x in elements
    ensures |s| == |elements|
  {
    if s == [] {
    } else {
      assert forall x :: x in s[1..] <==> x in elements - {s[0]} by {
        assert s == [s[0]] + s[1..];
      }
      DistinctCount(s[1..], elements - {s[0]});
    }
  }
}
