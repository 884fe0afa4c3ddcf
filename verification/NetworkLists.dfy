/**
 The controller's list and the comparison with the desired entries
 (internal/syncer/syncer.go:122-147, 175-198, 219-255; internal/unifi/client.go:42-47).
 */
module NetworkLists {
  import opened Strings
  import opened SourceLabels

  datatype TrafficMatchItem = TrafficMatchItem(kind: string, value: string, start: string, stop: string)

  const IP_ADDRESS: string := "IP_ADDRESS"
  const SUBNET: string := "SUBNET"

  predicate Comparable(item: TrafficMatchItem) {
    item.kind == IP_ADDRESS || item.kind == SUBNET
  }

  /** The entries of a list that take part in comparisons; ranges and other kinds do not. */
  function Entries(items: seq<TrafficMatchItem>): seq<string> {
    if items == [] then []
    else
      var init, last := Entries(items[..|items| - 1]), items[|items| - 1];
      if Comparable(last) then init + [last.value] else init
  }

  function ItemFor(ip: string): TrafficMatchItem {
    TrafficMatchItem(if Index(ip, "/").Some? then SUBNET else IP_ADDRESS, ip, "", "")
  }

  function Items(ips: seq<string>): seq<TrafficMatchItem> {
    seq(|ips|, i requires 0 <= i < |ips| => ItemFor(ips[i]))
  }

  /** An item holds an entry: its value and nothing else, a subnet exactly if the entry has a slash. */
  predicate ItemHolds(item: TrafficMatchItem, ip: string) {
    && item.value == ip && item.start == "" && item.stop == ""
    && item.kind == if '/' in ip then "SUBNET" else "IP_ADDRESS"
  }

  lemma ItemForHolds(ip: string)
    ensures ItemHolds(ItemFor(ip), ip)
  {
    IndexOfChar(ip, '/');
  }

  lemma EntriesAppend(items: seq<TrafficMatchItem>, more: seq<TrafficMatchItem>)
    ensures Entries(items + more) == Entries(items) + Entries(more)
  {
    if more == [] {
      assert items + more == items;
    } else {
      EntriesAppend(items, more[..|more| - 1]);
      assert (items + more)[..|items + more| - 1] == items + more[..|more| - 1];
    }
  }

  /**
   The entries of a list, item by item: an address or subnet item gives its value; ranges and
   items of any other kind give nothing.
   */
  lemma EntriesMean(items: seq<TrafficMatchItem>, item: TrafficMatchItem)
    ensures Entries([]) == []
    ensures Entries(items + [item])
         == Entries(items) + if item.kind == "IP_ADDRESS" || item.kind == "SUBNET" then [item.value] else []
  {
    assert [item][..0] == [];
    EntriesAppend(items, [item]);
  }

  method ExtractIPsFromItems(items: seq<TrafficMatchItem>) returns (ips: seq<string>)
    ensures ips == Entries(items)
    ensures forall ip :: ip in ips <==> exists i :: 0 <= i < |items| && GivesEntry(items[i], ip)
  {
    ips := [];
    for i := 0 to |items|
      invariant ips == Entries(items[..i])
      invariant forall ip :: ip in ips <==> exists k :: 0 <= k < i && GivesEntry(items[k], ip)
    {
      assert items[..i + 1][..i] == items[..i];
      if items[i].kind == IP_ADDRESS || items[i].kind == SUBNET {
        ips := ips + [items[i].value];
      }
    }
    assert items[..|items|] == items;
  }

  predicate GivesEntry(item: TrafficMatchItem, ip: string) {
    item.value == ip && (item.kind == "IP_ADDRESS" || item.kind == "SUBNET")
  }

  method IPsToItems(ips: seq<string>) returns (items: seq<TrafficMatchItem>)
    ensures items == Items(ips)
    ensures |items| == |ips| && forall i :: 0 <= i < |ips| ==> ItemHolds(items[i], ips[i])
  {
    items := [];
    for i := 0 to |ips|
      invariant items == Items(ips)[..i]
      invariant forall k :: 0 <= k < i ==> ItemHolds(items[k], ips[k])
    {
      ItemForHolds(ips[i]);
      items := items + [ItemFor(ips[i])];
    }
  }

  /** Reading back a written list gives the written entries, in order. */
  lemma {:induction false} EntriesOfItems(ips: seq<string>)
    ensures Entries(Items(ips)) == ips
  {
    if ips == [] {
    } else {
      var n := |ips| - 1;
      EntriesOfItems(ips[..n]);
      assert Items(ips)[..n] == Items(ips[..n]);
      assert ips == ips[..n] + [ips[n]];
    }
  }

  /** The elements of `s` that are, or are not, in a set, in order. */
  function Within(s: seq<string>, keep: set<string>): seq<string> {
    if s == [] then []
    else Within(s[..|s| - 1], keep) + if s[|s| - 1] in keep then [s[|s| - 1]] else []
  }

  function Without(s: seq<string>, drop: set<string>): seq<string> {
    if s == [] then []
    else Without(s[..|s| - 1], drop) + if s[|s| - 1] in drop then [] else [s[|s| - 1]]
  }

  method DiffIPs(oldIPs: seq<string>, newIPs: seq<string>)
    returns (added: seq<string>, removed: seq<string>, kept: seq<string>)
    ensures added == Without(newIPs, Elements(oldIPs))
    ensures removed == Without(oldIPs, Elements(newIPs))
    ensures kept == Within(newIPs, Elements(oldIPs))
  {
    var oldSet := SetOf(oldIPs);
    var newSet := SetOf(newIPs);
    added, removed, kept := [], [], [];
    for i := 0 to |newIPs|
      invariant added == Without(newIPs[..i], oldSet) && kept == Within(newIPs[..i], oldSet)
    {
      assert newIPs[..i + 1][..i] == newIPs[..i];
      if newIPs[i] in oldSet {
        kept := kept + [newIPs[i]];
      } else {
        added := added + [newIPs[i]];
      }
    }
    for i := 0 to |oldIPs|
      invariant removed == Without(oldIPs[..i], newSet)
    {
      assert oldIPs[..i + 1][..i] == oldIPs[..i];
      if oldIPs[i] !in newSet {
        removed := removed + [oldIPs[i]];
      }
    }
    assert newIPs[..|newIPs|] == newIPs && oldIPs[..|oldIPs|] == oldIPs;
  }

  method SetOf(values: seq<string>) returns (s: set<string>)
    ensures s == Elements(values)
  {
    s := {};
    for i := 0 to |values|
      invariant s == Elements(values[..i])
    {
      assert Elements(values[..i + 1]) == Elements(values[..i]) + {values[i]};
      s := s + {values[i]};
    }
    assert values[..|values|] == values;
  }

  lemma {:induction false} WithinMeans(s: seq<string>, keep: set<string>)
    ensures Elements(Within(s, keep)) == Elements(s) * keep
    ensures Elements(Without(s, keep)) == Elements(s) - keep
    ensures |Within(s, keep)| + |Without(s, keep)| == |s|
  {
    if s == [] {
    } else {
      var init, last := s[..|s| - 1], s[|s| - 1];
      WithinMeans(init, keep);
      assert s == init + [last];
      assert Elements(s) == Elements(init) + {last};
      ElementsSnoc(Within(init, keep), last);
      ElementsSnoc(Without(init, keep), last);
      assert Within(init, keep) + [] == Within(init, keep) && Without(init, keep) + [] == Without(init, keep);
    }
  }

  lemma ElementsSnoc(s: seq<string>, x: string)
    ensures Elements(s + [x]) == Elements(s) + {x}
  {
  }

  /**
   The laws of a diff: applying it to the old entries gives the new ones, it is empty exactly
   when both lists hold the same entries, and it accounts for every new entry once.
   */
  lemma DiffLaws(oldIPs: seq<string>, newIPs: seq<string>)
    ensures var added := Without(newIPs, Elements(oldIPs));
      var removed := Without(oldIPs, Elements(newIPs));
      var kept := Within(newIPs, Elements(oldIPs));
      && (Elements(oldIPs) - Elements(removed)) + Elements(added) == Elements(newIPs)
      && (added == [] && removed == [] <==> Elements(oldIPs) == Elements(newIPs))
      && |added| + |kept| == |newIPs|
      && Elements(kept) == Elements(oldIPs) * Elements(newIPs)
      && Elements(added) !! Elements(oldIPs) && Elements(removed) !! Elements(newIPs)
  {
    var added, removed := Without(newIPs, Elements(oldIPs)), Without(oldIPs, Elements(newIPs));
    WithinMeans(newIPs, Elements(oldIPs));
    WithinMeans(oldIPs, Elements(newIPs));
    EmptyElements(added);
    EmptyElements(removed);
  }

  lemma EmptyElements(s: seq<string>)
    ensures s == [] <==> Elements(s) == {}
  {
    if s != [] {
      assert s[0] in Elements(s);
    }
  }

  /** How often each entry is left does not depend on the order of the list. */
  lemma {:induction false} WithoutCounts(s: seq<string>, drop: set<string>)
    ensures forall x :: multiset(Without(s, drop))[x] == if x in drop then 0 else multiset(s)[x]
  {
    if s == [] {
    } else {
      var init, last := s[..|s| - 1], s[|s| - 1];
      WithoutCounts(init, drop);
      assert s == init + [last];
    }
  }

  /** The entries missing from a list plus those of its items, repeats included, that are not wanted. */
  function ChangesFor(items: seq<TrafficMatchItem>, wanted: set<string>): nat {
    |wanted - Elements(Entries(items))| + |Without(Entries(items), wanted)|
  }

  /** As many entries are left as there are positions with one that is not dropped. */
  lemma {:induction false} WithoutLength(s: seq<string>, drop: set<string>)
    ensures |Without(s, drop)| == |set i | 0 <= i < |s| && s[i] !in drop|
  {
    var kept := set i | 0 <= i < |s| && s[i] !in drop;
    if s == [] {
      assert kept == {};
    } else {
      var n := |s| - 1;
      var before := set i | 0 <= i < n && s[..n][i] !in drop;
      WithoutLength(s[..n], drop);
      assert kept == before + if s[n] in drop then {} else {n};
    }
  }

  /** What a diff reports as changes, however both lists are arranged. */
  lemma ChangesCounted(items: seq<TrafficMatchItem>, oldIPs: seq<string>, newIPs: seq<string>, wanted: set<string>)
    requires multiset(oldIPs) == multiset(Entries(items)) && multiset(newIPs) == multiset(wanted)
    requires Elements(oldIPs) == Elements(Entries(items)) && Elements(newIPs) == wanted
    ensures |Without(newIPs, Elements(oldIPs))| + |Without(oldIPs, Elements(newIPs))| == ChangesFor(items, wanted)
  {
    ArrangedWithout(newIPs, wanted, Elements(oldIPs));
    RearrangedWithout(oldIPs, Entries(items), wanted);
  }

  lemma ArrangedWithout(s: seq<string>, keys: set<string>, drop: set<string>)
    requires multiset(s) == multiset(keys)
    ensures |Without(s, drop)| == |keys - drop|
  {
    WithoutCounts(s, drop);
    var rest := Without(s, drop);
    forall x ensures multiset(rest)[x] == multiset(keys - drop)[x] {
      assert multiset(s)[x] == multiset(keys)[x];
    }
    assert multiset(rest) == multiset(keys - drop);
    assert |rest| == |multiset(rest)|;
  }

  lemma RearrangedWithout(s: seq<string>, t: seq<string>, drop: set<string>)
    requires multiset(s) == multiset(t)
    ensures |Without(s, drop)| == |Without(t, drop)|
  {
    WithoutCounts(s, drop);
    WithoutCounts(t, drop);
    var u, v := Without(s, drop), Without(t, drop);
    assert multiset(u) == multiset(v);
    assert |u| == |multiset(u)| && |v| == |multiset(v)|;
  }

  // ----- Merging labels -----

  function MergeLabel(text: string, parts: seq<string>): string {
    if parts == [] then text
    else AddToLabel(MergeLabel(text, parts[..|parts| - 1]), parts[|parts| - 1])
  }

  function Merged(observed: map<string, string>, current: map<string, string>): map<string, string> {
    map ip | ip in observed.Keys + current.Keys ::
      if ip in current then MergeLabel(LabelOf(observed, ip), Split(current[ip], SEP)) else observed[ip]
  }

  /** The part loop for one entry. */
  method MergeParts(merged: map<string, string>, ip: string, source: string) returns (merged': map<string, string>)
    ensures merged' == merged[ip := MergeLabel(LabelOf(merged, ip), Split(source, SEP))]
  {
    var parts := Split(source, SEP);
    merged' := merged;
    for i := 0 to |parts|
      invariant PartsMerged(merged, ip, parts[..i], merged')
    {
      PartsMergedNext(merged, ip, parts[..i], parts[i], merged');
      assert parts[..i + 1] == parts[..i] + [parts[i]];
      merged' := AddResolvedSource(merged', ip, parts[i]);
    }
    assert parts[..|parts|] == parts;
  }

  lemma PartsMergedNext(merged: map<string, string>, ip: string, parts: seq<string>, part: string,
                        merged': map<string, string>)
    requires PartsMerged(merged, ip, parts, merged')
    ensures PartsMerged(merged, ip, parts + [part], AddSource(merged', ip, part))
  {
    assert (parts + [part])[..|parts|] == parts;
  }

  ghost predicate PartsMerged(merged: map<string, string>, ip: string, parts: seq<string>,
                              merged': map<string, string>) {
    merged' == if parts == [] then merged else merged[ip := MergeLabel(LabelOf(merged, ip), parts)]
  }

  /** `mergeResolvedIPs`, over both maps in arbitrary order. */
  method MergeResolvedIPs(observed: map<string, string>, current: map<string, string>)
    returns (merged: map<string, string>)
    ensures merged == Merged(observed, current)
  {
    merged := observed;
    var rest := current.Keys;
    MergeStart(observed, current);
    while rest != {}
      invariant IsMergedSoFar(observed, current, rest, merged)
    {
      var ip :| ip in rest;
      MergeStep(observed, current, rest, merged, ip);
      merged := MergeParts(merged, ip, current[ip]);
      rest := rest - {ip};
    }
    MergeEnd(observed, current, merged);
  }

  ghost predicate IsMergedSoFar(observed: map<string, string>, current: map<string, string>, rest: set<string>,
                                merged: map<string, string>) {
    && rest <= current.Keys
    && (forall ip :: ip in merged <==> ip in observed || (ip in current && ip !in rest))
    && forall ip :: ip in merged ==> merged[ip] == MergedSoFar(observed, current, rest, ip)
  }

  lemma MergeStart(observed: map<string, string>, current: map<string, string>)
    ensures IsMergedSoFar(observed, current, current.Keys, observed)
  {
  }

  lemma MergeEnd(observed: map<string, string>, current: map<string, string>, merged: map<string, string>)
    requires IsMergedSoFar(observed, current, {}, merged)
    ensures merged == Merged(observed, current)
  {
    forall ip | ip in merged ensures merged[ip] == Merged(observed, current)[ip] {
      assert merged[ip] == MergedSoFar(observed, current, {}, ip);
    }
  }

  lemma MergeStep(observed: map<string, string>, current: map<string, string>, rest: set<string>,
                  merged: map<string, string>, ip: string)
    requires IsMergedSoFar(observed, current, rest, merged) && ip in rest
    ensures IsMergedSoFar(observed, current, rest - {ip},
                          merged[ip := MergeLabel(LabelOf(merged, ip), Split(current[ip], SEP))])
  {
    assert LabelOf(merged, ip) == LabelOf(observed, ip);
    var merged' := merged[ip := MergeLabel(LabelOf(merged, ip), Split(current[ip], SEP))];
    forall x | x in merged' ensures merged'[x] == MergedSoFar(observed, current, rest - {ip}, x) {
      if x != ip {
        assert merged[x] == MergedSoFar(observed, current, rest, x);
      }
    }
  }

  ghost function MergedSoFar(observed: map<string, string>, current: map<string, string>, rest: set<string>,
                             ip: string): string {
    if ip in current && ip !in rest then MergeLabel(LabelOf(observed, ip), Split(current[ip], SEP))
    else LabelOf(observed, ip)
  }

  /** A label gains exactly the part it lacks, at its end. */
  lemma AddedPart(text: string, part: string)
    requires text != "" && !Contains(part, SEP)
    ensures var parts := Split(text, ", ");
      Split(AddToLabel(text, part), ", ") == if part in parts then parts else parts + [part]
  {
    var parts := Split(text, SEP);
    SplitPartsAreClean(text, SEP);
    JoinSplit(text, SEP);
    if part !in parts {
      JoinSnoc(parts, part, SEP);
      SplitOfJoin(parts + [part]);
    }
  }

  /**
   Merging keeps every observed entry's parts in front and adds the parts of the current label
   that are missing; an entry that was not observed gets its current parts, each once.
   */
  lemma {:induction false} MergedParts(text: string, more: seq<string>)
    requires text != "" && forall p :: p in more ==> !Contains(p, SEP)
    ensures MergeLabel(text, more) != ""
    ensures Split(text, ", ") <= Split(MergeLabel(text, more), ", ")
    ensures forall p :: p in Split(MergeLabel(text, more), ", ") <==> p in Split(text, ", ") || p in more
  {
    if more == [] {
    } else {
      var init, last := more[..|more| - 1], more[|more| - 1];
      MergedParts(text, init);
      assert more == init + [last];
      AddedPart(MergeLabel(text, init), last);
    }
  }

  /** Keys of both maps; entries only in the first keep their label; common ones merge part by part. */
  lemma MergedMeans(observed: map<string, string>, current: map<string, string>, ip: string)
    ensures ip in Merged(observed, current) <==> ip in observed || ip in current
    ensures ip in observed && ip !in current ==> Merged(observed, current)[ip] == observed[ip]
    ensures ip in observed && ip in current && observed[ip] != "" ==>
      var parts := Split(Merged(observed, current)[ip], ", ");
      && Split(observed[ip], ", ") <= parts
      && forall p :: p in parts <==> p in Split(observed[ip], ", ") || p in Split(current[ip], ", ")
  {
    if ip in observed && ip in current && observed[ip] != "" {
      SplitPartsAreClean(current[ip], SEP);
      MergedParts(observed[ip], Split(current[ip], SEP));
    }
  }

  lemma {:induction false} MergingOwnLabel(text: string, n: nat)
    requires n <= |Split(text, SEP)|
    ensures MergeLabel(text, Split(text, SEP)[..n]) == text
  {
    var parts := Split(text, SEP);
    if n == 0 {
    } else {
      MergingOwnLabel(text, n - 1);
      assert parts[..n][..n - 1] == parts[..n - 1] && parts[n - 1] in parts;
      assert text == "" ==> parts == [""];
    }
  }

  /**
   Merging a resolution into a cache that already lists it, with the same labels, changes
   neither keys nor labels, whatever text the labels hold.
   */
  lemma MergeIsIdentity(observed: map<string, string>, current: map<string, string>)
    requires forall ip :: ip in current ==> ip in observed && observed[ip] == current[ip]
    ensures Merged(observed, current) == observed
  {
    forall ip | ip in current ensures MergeLabel(observed[ip], Split(current[ip], SEP)) == observed[ip] {
      var parts := Split(current[ip], SEP);
      MergingOwnLabel(current[ip], |parts|);
      assert parts[..|parts|] == parts;
    }
  }
}
