/**
 IPv4 entries, their text, and the order in which they are listed
 (internal/syncer/resolver.go:319-333, 379-426; internal/syncer/syncer.go:149-173).
 */
module IpOrder {
  import opened Wrappers
  import opened Strings

  type byte = x: int | 0 <= x < 256

  /** The four bytes that `To4` returns. */
  type Addr = a: seq<byte> | |a| == 4 witness [0, 0, 0, 0]

  /** A parsed CIDR whose network address is IPv4; `bits` is the mask width, 128 for IPv4-mapped text. */
  datatype Net = Net(addr: Addr, ones: nat, bits: nat)

  /** The standard library's parsers, restricted to results whose `To4` is not nil. */
  datatype NetLib = NetLib(parseIP: string -> Option<Addr>, parseCIDR: string -> Option<Net>)

  /** No text parses: the comparator then is plain text order, as `sort.Strings` uses. */
  const TEXT_ONLY := NetLib(_ => None, _ => None)

  function Dotted(a: Addr): string {
    Decimal(a[0]) + "." + (Decimal(a[1]) + "." + (Decimal(a[2]) + "." + Decimal(a[3])))
  }

  /** `network.String()`: an IPv4-mapped mask is printed relative to its last 32 bits. */
  function NetText(n: Net): string {
    Dotted(n.addr) + "/" + Decimal(PrintedOnes(n))
  }

  function PrintedOnes(n: Net): nat {
    if n.ones + 32 >= n.bits then n.ones + 32 - n.bits else 0
  }

  function NormalizeIPv4Literal(lib: NetLib, value: string): Option<string> {
    match lib.parseIP(TrimSpace(value))
    case None => None
    case Some(a) => Some(Dotted(a))
  }

  function NormalizeIPv4CIDR(lib: NetLib, value: string): Option<string> {
    match lib.parseCIDR(TrimSpace(value))
    case None => None
    case Some(n) => Some(NetText(n))
  }

  datatype Key = Key(addr: Addr, prefix: nat)

  function IpSortKey(lib: NetLib, value: string): Option<Key> {
    match lib.parseIP(value)
    case Some(a) => Some(Key(a, 32))
    case None =>
      match lib.parseCIDR(value)
      case None => None
      case Some(n) => Some(Key(n.addr, n.ones))
  }

  /** Lexicographic comparison of byte slices, a proper prefix first. */
  function CompareBytes(left: seq<byte>, right: seq<byte>): int {
    if left == [] then (if right == [] then 0 else -1)
    else if right == [] then 1
    else if left[0] < right[0] then -1
    else if left[0] > right[0] then 1
    else CompareBytes(left[1..], right[1..])
  }

  /** The resolver's own scan agrees with the lexicographic comparison that sorting lists uses. */
  method BytesCompare(left: seq<byte>, right: seq<byte>) returns (c: int)
    ensures c == CompareBytes(left, right)
  {
    var i := 0;
    while i < |left| && i < |right|
      invariant i <= |left| && i <= |right|
      invariant CompareBytes(left, right) == CompareBytes(left[i..], right[i..])
    {
      if left[i] < right[i] {
        return -1;
      }
      if left[i] > right[i] {
        return 1;
      }
      i := i + 1;
    }
    if |left| < |right| {
      return -1;
    }
    if |left| > |right| {
      return 1;
    }
    return 0;
  }

  /** The number that an address is. */
  function Value(a: Addr): nat {
    (((a[0] as int) * 256 + a[1] as int) * 256 + a[2] as int) * 256 + a[3] as int
  }

  /** The value and prefix length of a parsed entry; an address has prefix length 32. */
  function Place(lib: NetLib, text: string): Option<(nat, nat)> {
    match lib.parseIP(text)
    case Some(a) => Some((Value(a), 32))
    case None =>
      match lib.parseCIDR(text)
      case Some(n) => Some((Value(n.addr), n.ones))
      case None => None
  }

  /**
   The order of lists: parsed entries before the others, by value and then by prefix length;
   the others as text.
   */
  predicate NotAfter(lib: NetLib, left: string, right: string) {
    match (Place(lib, left), Place(lib, right))
    case (Some(l), Some(r)) => l.0 < r.0 || (l.0 == r.0 && l.1 <= r.1)
    case (Some(_), None) => true
    case (None, Some(_)) => false
    case (None, None) => left == right || StringLess(left, right)
  }

  /** The comparator: parsed entries first, by address and then prefix; the rest as text. */
  predicate EntryLess(lib: NetLib, left: string, right: string) {
    match (IpSortKey(lib, left), IpSortKey(lib, right))
    case (Some(l), Some(r)) =>
      var c := CompareBytes(l.addr, r.addr);
      if c != 0 then c < 0 else l.prefix < r.prefix
    case (Some(_), None) => true
    case (None, Some(_)) => false
    case (None, None) => StringLess(left, right)
  }

  method BytesLessIP(lib: NetLib, left: string, right: string) returns (less: bool)
    ensures less == EntryLess(lib, left, right)
  {
    var leftKey, rightKey := IpSortKey(lib, left), IpSortKey(lib, right);
    match (leftKey, rightKey)
    case (Some(l), Some(r)) =>
      var c := BytesCompare(l.addr, r.addr);
      less := if c != 0 then c < 0 else l.prefix < r.prefix;
    case (Some(_), None) => less := true;
    case (None, Some(_)) => less := false;
    case (None, None) => less := StringLess(left, right);
  }

  predicate Tied(lib: NetLib, x: string, y: string) {
    !EntryLess(lib, x, y) && !EntryLess(lib, y, x)
  }

  lemma {:induction false} CompareBytesIsTotal(x: seq<byte>, y: seq<byte>)
    ensures CompareBytes(x, y) == -CompareBytes(y, x)
    ensures CompareBytes(x, y) == 0 <==> x == y
  {
    if x == [] || y == [] || x[0] != y[0] {
    } else {
      CompareBytesIsTotal(x[1..], y[1..]);
      assert x == [x[0]] + x[1..] && y == [y[0]] + y[1..];
    }
  }

  lemma {:induction false} CompareBytesIsTransitive(x: seq<byte>, y: seq<byte>, z: seq<byte>)
    requires CompareBytes(x, y) < 0 && CompareBytes(y, z) < 0
    ensures CompareBytes(x, z) < 0
  {
    if x == [] || x[0] != y[0] || y[0] != z[0] {
    } else {
      CompareBytesIsTransitive(x[1..], y[1..], z[1..]);
    }
  }

  /**
   A strict weak order on all entries, parsed or not: no cycles, and an entry strictly between
   two others' positions is ordered against at least one of them.
   */
  lemma ComparatorIsStrictWeakOrder(lib: NetLib, x: string, y: string, z: string)
    ensures !(EntryLess(lib, x, y) && EntryLess(lib, y, x))
    ensures EntryLess(lib, x, y) && EntryLess(lib, y, z) ==> EntryLess(lib, x, z)
    ensures EntryLess(lib, x, z) ==> EntryLess(lib, x, y) || EntryLess(lib, y, z)
  {
    StringOrderIsTotal(x, y);
    StringOrderIsTotal(y, z);
    StringOrderIsTotal(x, z);
    if StringLess(z, y) && StringLess(y, x) {
      StringOrderIsTransitive(z, y, x);
    }
    if StringLess(x, y) && StringLess(y, z) {
      StringOrderIsTransitive(x, y, z);
    }
    match (IpSortKey(lib, x), IpSortKey(lib, y), IpSortKey(lib, z))
    case (Some(k), Some(l), Some(m)) => KeyOrder(k.addr, l.addr, m.addr);
    case (Some(k), Some(l), None) => CompareBytesIsTotal(k.addr, l.addr);
    case _ =>
  }

  lemma KeyOrder(x: seq<byte>, y: seq<byte>, z: seq<byte>)
    ensures CompareBytes(x, y) == -CompareBytes(y, x) && (CompareBytes(x, y) == 0 <==> x == y)
    ensures CompareBytes(y, z) == -CompareBytes(z, y) && (CompareBytes(y, z) == 0 <==> y == z)
    ensures CompareBytes(x, y) < 0 && CompareBytes(y, z) < 0 ==> CompareBytes(x, z) < 0
    ensures CompareBytes(x, y) > 0 && CompareBytes(y, z) > 0 ==> CompareBytes(x, z) > 0
  {
    CompareBytesIsTotal(x, y);
    CompareBytesIsTotal(y, z);
    CompareBytesIsTotal(x, z);
    if CompareBytes(x, y) < 0 && CompareBytes(y, z) < 0 {
      CompareBytesIsTransitive(x, y, z);
    }
    if CompareBytes(x, y) > 0 && CompareBytes(y, z) > 0 {
      CompareBytesIsTransitive(z, y, x);
    }
  }

  /**
   An entry that is the text of what it parses to, or that does not parse at all.
   */
  predicate Canonical(lib: NetLib, text: string) {
    match lib.parseIP(text)
    case Some(a) => text == Dotted(a)
    case None =>
      match lib.parseCIDR(text)
      case None => true
      case Some(n) => n.bits == 32 && text == NetText(n)
  }

  /** The text of one address and of the network that holds only it. */
  predicate HostAndItsNet(lib: NetLib, host: string, net: string) {
    lib.parseIP(host).Some? && lib.parseIP(net).None? && lib.parseCIDR(net).Some? && net == host + "/32"
  }

  lemma FieldsSplitAt(a: string, x: string, b: string, y: string, c: char)
    requires c !in a && c !in b && a + [c] + x == b + [c] + y
    ensures a == b && x == y
  {
    var s := a + [c] + x;
    assert s[|a|] == c && s[|b|] == c;
    assert forall i :: 0 <= i < |a| ==> s[i] == a[i] && a[i] in a;
    assert forall i :: 0 <= i < |b| ==> s[i] == b[i] && b[i] in b;
    assert |a| == |b|;
    assert a == s[..|a|] && b == s[..|b|] && x == s[|a| + 1..] && y == s[|b| + 1..];
  }

  lemma DottedIsInjective(a: Addr, b: Addr)
    requires Dotted(a) == Dotted(b)
    ensures a == b
  {
    assert forall n :: '.' !in Decimal(n);
    FieldsSplitAt(Decimal(a[0]), Decimal(a[1]) + "." + (Decimal(a[2]) + "." + Decimal(a[3])),
                  Decimal(b[0]), Decimal(b[1]) + "." + (Decimal(b[2]) + "." + Decimal(b[3])), '.');
    FieldsSplitAt(Decimal(a[1]), Decimal(a[2]) + "." + Decimal(a[3]),
                  Decimal(b[1]), Decimal(b[2]) + "." + Decimal(b[3]), '.');
    FieldsSplitAt(Decimal(a[2]), Decimal(a[3]), Decimal(b[2]), Decimal(b[3]), '.');
    DecimalIsInjective(a[0], b[0]);
    DecimalIsInjective(a[1], b[1]);
    DecimalIsInjective(a[2], b[2]);
    DecimalIsInjective(a[3], b[3]);
  }

  lemma DottedHasNoSlash(a: Addr)
    ensures '/' !in Dotted(a)
  {
  }

  lemma HostNetTie(a: Addr, n: Net)
    requires n.bits == 32
    ensures NetText(n) == Dotted(a) + "/32" <==> n.addr == a && n.ones == 32
  {
    assert Decimal(32) == "32" by {
      assert Decimal(3) == "3";
    }
    DottedHasNoSlash(a);
    DottedHasNoSlash(n.addr);
    if NetText(n) == Dotted(a) + "/32" {
      FieldsSplitAt(Dotted(a), "32", Dotted(n.addr), Decimal(n.ones), '/');
      DottedIsInjective(a, n.addr);
      DecimalIsInjective(32, n.ones);
    }
  }

  lemma ParsedTieIffSameKey(lib: NetLib, x: string, y: string)
    requires IpSortKey(lib, x).Some? && IpSortKey(lib, y).Some?
    ensures Tied(lib, x, y) <==> IpSortKey(lib, x) == IpSortKey(lib, y)
  {
    CompareBytesIsTotal(IpSortKey(lib, x).value.addr, IpSortKey(lib, y).value.addr);
  }

  /** Two distinct canonical entries tie exactly when they are `a` and `a/32`. */
  lemma TiesAreHostAndItsNet(lib: NetLib, x: string, y: string)
    requires Canonical(lib, x) && Canonical(lib, y) && x != y
    ensures Tied(lib, x, y) <==> HostAndItsNet(lib, x, y) || HostAndItsNet(lib, y, x)
  {
    StringOrderIsTotal(x, y);
    if IpSortKey(lib, x).Some? && IpSortKey(lib, y).Some? {
      ParsedTieIffSameKey(lib, x, y);
      match (lib.parseIP(x), lib.parseIP(y)) {
        case (Some(a), None) => HostNetTie(a, lib.parseCIDR(y).value);
        case (None, Some(a)) => HostNetTie(a, lib.parseCIDR(x).value);
        case _ =>
      }
    }
  }

  ghost predicate Sorted(lib: NetLib, s: seq<string>) {
    forall i, j :: 0 <= i < j < |s| ==> !EntryLess(lib, s[j], s[i])
  }

  lemma CompareBytesFirst(x: seq<byte>, y: seq<byte>)
    requires x != [] && y != []
    ensures x[0] < y[0] ==> CompareBytes(x, y) < 0
    ensures x[0] > y[0] ==> CompareBytes(x, y) > 0
    ensures x[0] == y[0] ==> CompareBytes(x, y) == CompareBytes(x[1..], y[1..])
  {
  }

  /** Comparing the bytes of two addresses is comparing their values. */
  lemma CompareBytesIsNumeric(x: Addr, y: Addr)
    ensures CompareBytes(x, y) < 0 <==> Value(x) < Value(y)
    ensures CompareBytes(x, y) == 0 <==> Value(x) == Value(y)
  {
    CompareBytesFirst(x, y);
    CompareBytesFirst(x[1..], y[1..]);
    CompareBytesFirst(x[2..], y[2..]);
    CompareBytesFirst(x[3..], y[3..]);
    assert x[1..][1..] == x[2..] && x[2..][1..] == x[3..] && x[3..][1..] == [];
    assert y[1..][1..] == y[2..] && y[2..][1..] == y[3..] && y[3..][1..] == [];
    assert CompareBytes([], []) == 0;
  }

  lemma NotAfterIsNotLess(lib: NetLib, x: string, y: string)
    ensures NotAfter(lib, x, y) <==> !EntryLess(lib, y, x)
  {
    StringOrderIsTotal(x, y);
    match (IpSortKey(lib, x), IpSortKey(lib, y))
    case (Some(l), Some(r)) =>
      CompareBytesIsNumeric(l.addr, r.addr);
      CompareBytesIsNumeric(r.addr, l.addr);
    case _ =>
  }

  /** A list is sorted by the comparator exactly if no entry comes after a later one. */
  lemma SortedMeans(lib: NetLib, s: seq<string>)
    ensures Sorted(lib, s) <==> forall i, j :: 0 <= i < j < |s| ==> NotAfter(lib, s[i], s[j])
  {
    forall i, j | 0 <= i < j < |s| ensures NotAfter(lib, s[i], s[j]) <==> !EntryLess(lib, s[j], s[i]) {
      NotAfterIsNotLess(lib, s[i], s[j]);
    }
  }

  ghost predicate NoHostWithItsNet(lib: NetLib, s: seq<string>) {
    forall x, y :: x in s && y in s ==> !HostAndItsNet(lib, x, y)
  }

  /**
   Sorting is deterministic: two sorted arrangements of the same canonical entries are equal
   unless the entries hold some `a` together with `a/32`.
   */
  lemma {:induction false} SortedArrangementsAgree(lib: NetLib, s: seq<string>, t: seq<string>)
    requires Sorted(lib, s) && Sorted(lib, t) && multiset(s) == multiset(t)
    requires forall x :: x in s ==> Canonical(lib, x)
    requires NoHostWithItsNet(lib, s)
    ensures s == t
  {
    assert |s| == |multiset(s)| == |t|;
    if s == [] {
    } else {
      HeadsAgree(lib, s, t);
      SameHeadSameRest(s, t);
      assert forall x :: x in s[1..] ==> x in s;
      SortedArrangementsAgree(lib, s[1..], t[1..]);
    }
  }

  lemma SameHeadSameRest(s: seq<string>, t: seq<string>)
    requires s != [] && t != [] && s[0] == t[0] && multiset(s) == multiset(t)
    ensures s == [s[0]] + s[1..] && t == [t[0]] + t[1..]
    ensures multiset(s[1..]) == multiset(t[1..])
  {
    assert s == [s[0]] + s[1..] && t == [t[0]] + t[1..];
    assert multiset(s[1..]) == multiset(s) - multiset{s[0]};
    assert multiset(t[1..]) == multiset(t) - multiset{t[0]};
  }

  lemma HeadsAgree(lib: NetLib, s: seq<string>, t: seq<string>)
    requires Sorted(lib, s) && Sorted(lib, t) && multiset(s) == multiset(t) && s != [] && t != []
    requires forall x :: x in s ==> Canonical(lib, x)
    requires NoHostWithItsNet(lib, s)
    ensures s[0] == t[0]
  {
    assert s[0] in multiset(t) && t[0] in multiset(s);
    var i :| 0 <= i < |t| && t[i] == s[0];
    var j :| 0 <= j < |s| && s[j] == t[0];
    ComparatorIsStrictWeakOrder(lib, s[0], s[0], s[0]);
    assert Tied(lib, s[0], t[0]);
    if s[0] != t[0] {
      TiesAreHostAndItsNet(lib, s[0], t[0]);
    }
  }

  ghost predicate SortedArrangementOf(lib: NetLib, s: seq<string>, keys: set<string>) {
    Sorted(lib, s) && multiset(s) == multiset(keys)
  }

  /** Tied entries compare alike with every entry. */
  lemma TiedAlike(lib: NetLib, x: string, y: string, z: string)
    requires Tied(lib, x, y)
    ensures EntryLess(lib, x, z) <==> EntryLess(lib, y, z)
    ensures EntryLess(lib, z, x) <==> EntryLess(lib, z, y)
  {
    ComparatorIsStrictWeakOrder(lib, x, y, z);
    ComparatorIsStrictWeakOrder(lib, y, x, z);
    ComparatorIsStrictWeakOrder(lib, z, x, y);
    ComparatorIsStrictWeakOrder(lib, z, y, x);
  }

  lemma TiedSwapStaysSorted(lib: NetLib, s: seq<string>, i: nat, j: nat)
    requires Sorted(lib, s) && i < j < |s| && Tied(lib, s[i], s[j])
    ensures Sorted(lib, s[i := s[j]][j := s[i]]) && multiset(s[i := s[j]][j := s[i]]) == multiset(s)
  {
    var t := s[i := s[j]][j := s[i]];
    forall p, q | 0 <= p < q < |t| ensures !EntryLess(lib, t[q], t[p]) {
      SwappedAlike(lib, s, i, j, p, s[q]);
      SwappedAlike(lib, s, i, j, q, t[p]);
    }
  }

  lemma SwappedAlike(lib: NetLib, s: seq<string>, i: nat, j: nat, k: nat, z: string)
    requires i < j < |s| && k < |s| && Tied(lib, s[i], s[j])
    ensures var t := s[i := s[j]][j := s[i]];
      (EntryLess(lib, t[k], z) <==> EntryLess(lib, s[k], z)) && (EntryLess(lib, z, t[k]) <==> EntryLess(lib, z, s[k]))
  {
    TiedAlike(lib, s[i], s[j], z);
  }

  lemma {:induction false} SomeSortedArrangement(lib: NetLib, keys: set<string>) returns (s: seq<string>)
    ensures SortedArrangementOf(lib, s, keys)
  {
    if keys == {} {
      s := [];
    } else {
      var x :| x in keys;
      var rest := SomeSortedArrangement(lib, keys - {x});
      s := Inserted(lib, rest, x);
      assert multiset(keys) == multiset(keys - {x}) + multiset{x};
    }
  }

  /** Where an entry goes in a sorted list: before the first one that it precedes. */
  function InsertionPoint(lib: NetLib, s: seq<string>, x: string): (k: nat)
    ensures k <= |s| && forall i :: 0 <= i < k ==> !EntryLess(lib, x, s[i])
    ensures k < |s| ==> EntryLess(lib, x, s[k])
  {
    if s == [] || EntryLess(lib, x, s[0]) then 0 else 1 + InsertionPoint(lib, s[1..], x)
  }

  function Inserted(lib: NetLib, s: seq<string>, x: string): (r: seq<string>)
    requires Sorted(lib, s)
    ensures Sorted(lib, r) && multiset(r) == multiset(s) + multiset{x}
  {
    var k := InsertionPoint(lib, s, x);
    SortedAfterInsert(lib, s, x, k);
    InsertAddsOne(s, x, k);
    s[..k] + [x] + s[k..]
  }

  lemma InsertAddsOne(s: seq<string>, x: string, k: nat)
    requires k <= |s|
    ensures multiset(s[..k] + [x] + s[k..]) == multiset(s) + multiset{x}
  {
    assert s == s[..k] + s[k..];
  }

  /**
   Listing is deterministic for a set of canonical entries if and only if the set holds no
   address together with the network of only that address.
   */
  lemma OneListingIffNoHostWithItsNet(lib: NetLib, keys: set<string>)
    requires forall x :: x in keys ==> Canonical(lib, x)
    ensures OneListing(lib, keys) <==> NoPairIn(lib, keys)
  {
    var s := SomeSortedArrangement(lib, keys);
    SetArrangement(s, keys);
    if NoPairIn(lib, keys) {
      forall t | SortedArrangementOf(lib, t, keys) ensures t == s {
        SortedArrangementsAgree(lib, s, t);
      }
    } else {
      var x, y :| x in keys && y in keys && HostAndItsNet(lib, x, y);
      var t := TwoListings(lib, s, x, y);
      assert SortedArrangementOf(lib, s, keys) && SortedArrangementOf(lib, t, keys);
    }
  }

  ghost predicate OneListing(lib: NetLib, keys: set<string>) {
    forall s, t :: SortedArrangementOf(lib, s, keys) && SortedArrangementOf(lib, t, keys) ==> s == t
  }

  ghost predicate NoPairIn(lib: NetLib, keys: set<string>) {
    forall x, y :: x in keys && y in keys ==> !HostAndItsNet(lib, x, y)
  }

  lemma PairHasTwoListings(lib: NetLib, host: string, net: string)
    requires Canonical(lib, host) && Canonical(lib, net) && HostAndItsNet(lib, host, net)
    ensures !OneListing(lib, {host, net})
  {
    OneListingIffNoHostWithItsNet(lib, {host, net});
  }

  lemma TwoListings(lib: NetLib, s: seq<string>, x: string, y: string) returns (t: seq<string>)
    requires Sorted(lib, s) && x in s && y in s
    requires Canonical(lib, x) && Canonical(lib, y) && HostAndItsNet(lib, x, y)
    ensures Sorted(lib, t) && multiset(t) == multiset(s) && t != s
  {
    TiesAreHostAndItsNet(lib, x, y);
    var i :| 0 <= i < |s| && s[i] == x;
    var j :| 0 <= j < |s| && s[j] == y;
    var p, q := if i < j then i else j, if i < j then j else i;
    TiedSwapStaysSorted(lib, s, p, q);
    t := s[p := s[q]][q := s[p]];
    assert t[p] != s[p];
  }

  /** The library sort: some sorted arrangement of its input, which one is left open for ties. */
  method SortSlice(lib: NetLib, s: seq<string>) returns (r: seq<string>)
    ensures Sorted(lib, r) && multiset(r) == multiset(s)
  {
    r := [];
    for i := 0 to |s|
      invariant Sorted(lib, r) && multiset(r) == multiset(s[..i])
    {
      assert s[..i + 1] == s[..i] + [s[i]];
      r := Inserted(lib, r, s[i]);
    }
    assert s[..|s|] == s;
  }

  lemma SortedAfterInsert(lib: NetLib, s: seq<string>, x: string, k: nat)
    requires Sorted(lib, s) && k <= |s|
    requires forall i :: 0 <= i < k ==> !EntryLess(lib, x, s[i])
    requires k < |s| ==> EntryLess(lib, x, s[k])
    ensures Sorted(lib, s[..k] + [x] + s[k..])
  {
    var r := s[..k] + [x] + s[k..];
    forall i, j | 0 <= i < j < |r| ensures !EntryLess(lib, r[j], r[i]) {
      if i == k {
        assert r[j] == s[j - 1];
        ComparatorIsStrictWeakOrder(lib, s[j - 1], x, s[k]);
        ComparatorIsStrictWeakOrder(lib, x, s[k], x);
      } else if j == k {
        assert r[i] == s[i];
      } else {
        assert r[i] == s[if i < k then i else i - 1] && r[j] == s[if j < k then j else j - 1];
      }
    }
  }

  /** `SortedIPs`: the keys of a result in listing order; map iteration order is arbitrary. */
  method SortedIPs(lib: NetLib, hostIPs: map<string, string>) returns (ips: seq<string>)
    ensures Sorted(lib, ips) && multiset(ips) == multiset(hostIPs.Keys)
    ensures forall i, j :: 0 <= i < j < |ips| ==> NotAfter(lib, ips[i], ips[j])
  {
    ips := [];
    var rest := hostIPs.Keys;
    while rest != {}
      invariant rest <= hostIPs.Keys
      invariant multiset(ips) + multiset(rest) == multiset(hostIPs.Keys)
    {
      var ip :| ip in rest;
      rest := rest - {ip};
      ips := ips + [ip];
    }
    ips := SortSlice(lib, ips);
    SortedMeans(lib, ips);
  }

  lemma RepeatCountsTwice(s: seq<string>, i: nat, j: nat)
    requires i < j < |s| && s[i] == s[j]
    ensures multiset(s)[s[i]] >= 2
  {
    assert s == s[..j] + [s[j]] + s[j + 1..];
    assert s[..j] == s[..i] + [s[i]] + s[i + 1..j];
  }

  lemma SetArrangement(s: seq<string>, keys: set<string>)
    requires multiset(s) == multiset(keys)
    ensures forall x :: x in s <==> x in keys
    ensures |s| == |keys|
    ensures forall i, j :: 0 <= i < j < |s| ==> s[i] != s[j]
  {
    assert forall x :: x in s <==> x in multiset(s);
    assert |multiset(s)| == |s|;
    forall i, j | 0 <= i < j < |s| ensures s[i] != s[j] {
      if s[i] == s[j] {
        RepeatCountsTwice(s, i, j);
      }
    }
  }

  // ----- The text of entries -----

  /** An address is written as its four bytes in order, in decimal, separated by dots. */
  lemma DottedMeans(a: Addr)
    ensures Split(Dotted(a), ".") == [Decimal(a[0]), Decimal(a[1]), Decimal(a[2]), Decimal(a[3])]
    ensures Digits(Decimal(a[0])) == a[0] && Digits(Decimal(a[1])) == a[1]
    ensures Digits(Decimal(a[2])) == a[2] && Digits(Decimal(a[3])) == a[3]
  {
    FourParts(Decimal(a[0]), Decimal(a[1]), Decimal(a[2]), Decimal(a[3]));
    DecimalReadsBack(a[0]);
    DecimalReadsBack(a[1]);
    DecimalReadsBack(a[2]);
    DecimalReadsBack(a[3]);
  }

  lemma FourParts(p: string, q: string, r: string, t: string)
    requires '.' !in p && '.' !in q && '.' !in r && '.' !in t
    ensures Split(p + "." + (q + "." + (r + "." + t)), ".") == [p, q, r, t]
  {
    NoDot(t);
    SplitAtFirst(r, '.', t);
    SplitAtFirst(q, '.', r + "." + t);
    SplitAtFirst(p, '.', q + "." + (r + "." + t));
    assert [p] + ([q] + ([r] + [t])) == [p, q, r, t];
  }

  lemma NoDot(s: string)
    requires '.' !in s
    ensures Split(s, ".") == [s]
  {
    IndexFinds(s, ".");
    forall i ensures !OccursAt(s, ".", i) {
      NotThere(s, '.', i);
    }
  }

  lemma NotThere(s: string, c: char, i: int)
    requires c !in s
    ensures !OccursAt(s, [c], i)
  {
    assert 0 <= i < |s| ==> s[i..i + 1][0] == s[i] && s[i] in s;
  }

  lemma SplitAtFirst(x: string, c: char, rest: string)
    requires c !in x
    ensures Split(x + [c] + rest, [c]) == [x] + Split(rest, [c])
  {
    var s := x + [c] + rest;
    assert OccursAt(s, [c], |x|);
    IndexFinds(s, [c]);
    forall i | 0 <= i < |x| ensures !OccursAt(s, [c], i) {
      NotThere(x, c, i);
      assert s[i..i + 1] == x[i..i + 1];
    }
    assert Index(s, [c]) == Some(|x|);
    assert s[..|x|] == x && s[|x| + 1..] == rest;
  }

  /**
   A network is written as its address, a slash and its prefix length, which for an IPv4-mapped
   mask counts from the last 32 of its 128 bits.
   */
  lemma NetTextMeans(n: Net)
    requires n.bits == 32 || (n.bits == 128 && n.ones >= 96)
    ensures var parts := Split(NetText(n), "/");
      && |parts| == 2 && parts[0] == Dotted(n.addr)
      && Digits(parts[1]) == if n.bits == 32 then n.ones else n.ones - 96
  {
    var ones := if n.bits == 32 then n.ones else n.ones - 96;
    DottedHasNoSlash(n.addr);
    DecimalReadsBack(ones);
    SplitAtFirst(Dotted(n.addr), '/', Decimal(ones));
    IndexFinds(Decimal(ones), "/");
    forall i ensures !OccursAt(Decimal(ones), "/", i) {
      NotThere(Decimal(ones), '/', i);
    }
  }
}
