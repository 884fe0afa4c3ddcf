/**
 De-duplicated string lists and the source labels of resolved entries: an ordered set of input
 lines kept as text, joined by ", " (internal/syncer/resolver.go:346-377).
 */
module SourceLabels {
  import opened Strings

  const SEP: string := ", "

  /** The non-empty values in order of first appearance. */
  function Unique(values: seq<string>): seq<string> {
    if values == [] then []
    else
      var init, last := Unique(values[..|values| - 1]), values[|values| - 1];
      if last == "" || last in init then init else init + [last]
  }

  lemma {:induction false} UniqueMembers(values: seq<string>)
    ensures forall v :: v in Unique(values) <==> v in values && v != ""
  {
    if values == [] {
    } else {
      var init, last := values[..|values| - 1], values[|values| - 1];
      UniqueMembers(init);
      assert values == init + [last];
      forall v ensures v in Unique(values) <==> v in values && v != "" {
        assert v in values <==> v in init || v == last;
        assert v in Unique(init) <==> v in init && v != "";
      }
    }
  }

  /** Some occurrence of `v` comes before every occurrence of `w`. */
  ghost predicate AppearsBefore(values: seq<string>, v: string, w: string) {
    exists k :: 0 <= k < |values| && values[k] == v && w !in values[..k + 1]
  }

  lemma AppearsBeforeSnoc(init: seq<string>, last: string, v: string, w: string)
    requires AppearsBefore(init, v, w)
    ensures AppearsBefore(init + [last], v, w)
  {
    var k :| 0 <= k < |init| && init[k] == v && w !in init[..k + 1];
    assert (init + [last])[k] == v && (init + [last])[..k + 1] == init[..k + 1];
  }

  lemma AppearsBeforeLast(init: seq<string>, v: string, w: string)
    requires v in init && w !in init
    ensures AppearsBefore(init + [w], v, w)
  {
    var k :| 0 <= k < |init| && init[k] == v;
    assert (init + [w])[k] == v && (init + [w])[..k + 1] == init[..k + 1];
  }

  /** `Unique` lists every non-empty value once, in order of first appearance. */
  lemma {:induction false} UniqueIsASetInOrder(values: seq<string>)
    ensures forall v :: v in Unique(values) <==> v in values && v != ""
    ensures forall i, j :: 0 <= i < j < |Unique(values)| ==> Unique(values)[i] != Unique(values)[j]
    ensures forall i, j :: 0 <= i < j < |Unique(values)| ==>
      AppearsBefore(values, Unique(values)[i], Unique(values)[j])
  {
    UniqueMembers(values);
    if values == [] {
    } else {
      var init, last := values[..|values| - 1], values[|values| - 1];
      var u := Unique(init);
      UniqueIsASetInOrder(init);
      assert values == init + [last];
      forall i, j | 0 <= i < j < |Unique(values)|
        ensures AppearsBefore(values, Unique(values)[i], Unique(values)[j])
      {
        if j < |u| {
          AppearsBeforeSnoc(init, last, u[i], u[j]);
        } else {
          assert u[i] in init;
          AppearsBeforeLast(init, u[i], last);
        }
      }
    }
  }

  method UniqueStrings(values: seq<string>) returns (unique: seq<string>)
    ensures unique == Unique(values)
  {
    if |values| == 0 {
      return [];
    }
    var seen := {};
    unique := [];
    for i := 0 to |values|
      invariant unique == Unique(values[..i])
      invariant forall v :: v in seen <==> v in unique
    {
      assert values[..i + 1][..i] == values[..i];
      if values[i] == "" || values[i] in seen {
        continue;
      }
      seen := seen + {values[i]};
      unique := unique + [values[i]];
    }
    assert values[..|values|] == values;
  }

  /** The label after one more source contributed; "" is the label of a missing entry. */
  function AddToLabel(text: string, source: string): string {
    if text == "" then source
    else if source in Split(text, SEP) then text
    else text + SEP + source
  }

  function LabelOf(result: map<string, string>, entry: string): string {
    if entry in result then result[entry] else ""
  }

  function AddSource(result: map<string, string>, entry: string, source: string): map<string, string> {
    result[entry := AddToLabel(LabelOf(result, entry), source)]
  }

  method AddResolvedSource(result: map<string, string>, entry: string, source: string)
    returns (result': map<string, string>)
    ensures result' == AddSource(result, entry, source)
    ensures entry in result' && forall e :: e != entry ==> (e in result' <==> e in result)
    ensures forall e :: e != entry && e in result ==> result'[e] == result[e]
    ensures entry !in result || result[entry] == "" ==> result'[entry] == source
    ensures entry in result && result[entry] != "" ==>
      result'[entry] == if source in Split(result[entry], ", ") then result[entry] else result[entry] + ", " + source
  {
    var existing := if entry in result then result[entry] else "";
    if existing == "" {
      return result[entry := source];
    }
    var parts := Split(existing, SEP);
    for i := 0 to |parts|
      invariant source !in parts[..i]
    {
      if parts[i] == source {
        assert result == result[entry := existing];
        return result;
      }
    }
    assert parts[..|parts|] == parts;
    return result[entry := existing + SEP + source];
  }

  function LabelOfSources(sources: seq<string>): string {
    if sources == [] then ""
    else AddToLabel(LabelOfSources(sources[..|sources| - 1]), sources[|sources| - 1])
  }

  ghost predicate Clean(parts: seq<string>) {
    forall p :: p in parts ==> !Contains(p, SEP)
  }

  /** After a clean part the first separator is the one that joined it to the rest. */
  lemma FirstSeparator(p: string, rest: string)
    requires !Contains(p, SEP)
    ensures var i := Index(p + SEP + rest, SEP); i.Some? && i.value == |p|
  {
    var s := p + SEP + rest;
    assert OccursAt(s, SEP, |p|);
    forall i | 0 <= i < |p|
      ensures !OccursAt(s, SEP, i)
    {
      if i + 2 <= |p| {
        assert s[i..i + 2] == p[i..i + 2];
        assert !OccursAt(p, SEP, i);
      } else {
        assert s[i..i + 2][1] == s[i + 1] == ',';
      }
    }
  }

  lemma {:induction false} SplitOfJoin(parts: seq<string>)
    requires parts != [] && Clean(parts)
    ensures Split(Join(parts, SEP), SEP) == parts
  {
    var p, rest := parts[0], parts[1..];
    if rest == [] {
      IndexFinds(p, SEP);
      assert parts == [p];
    } else {
      var s := p + SEP + Join(rest, SEP);
      FirstSeparator(p, Join(rest, SEP));
      assert s[|p| + |SEP|..] == Join(rest, SEP) && s[..|p|] == p;
      SplitOfJoin(rest);
    }
  }

  /** A label decodes to the list it encodes exactly for non-empty lists of separator-free parts. */
  lemma LabelRoundTripIff(parts: seq<string>)
    ensures Split(Join(parts, ", "), ", ") == parts <==> parts != [] && forall p :: p in parts ==> !Contains(p, ", ")
  {
    SplitPartsAreClean(Join(parts, SEP), SEP);
    if parts != [] && Clean(parts) {
      SplitOfJoin(parts);
    }
  }

  lemma {:induction false} LabelEncodesUnique(sources: seq<string>)
    requires Clean(sources) && "" !in sources
    ensures LabelOfSources(sources) == Join(Unique(sources), SEP)
    ensures sources != [] ==> Unique(sources) != [] && LabelOfSources(sources) != ""
  {
    if sources == [] {
    } else {
      var init, last := sources[..|sources| - 1], sources[|sources| - 1];
      LabelEncodesUnique(init);
      if init != [] {
        UniqueIsASetInOrder(init);
        SplitOfJoin(Unique(init));
        JoinSnoc(Unique(init), last, SEP);
      } else {
        assert Unique(init) == [] && Unique(sources) == [last];
      }
    }
  }

  /**
   A label built from non-empty sources splits into the distinct sources in first-appearance
   order exactly when no source contains the separator.
   */
  lemma LabelSplitsIntoSourcesIff(sources: seq<string>)
    requires sources != [] && "" !in sources
    ensures Split(LabelOfSources(sources), SEP) == Unique(sources) <==> Clean(sources)
  {
    UniqueIsASetInOrder(sources);
    SplitPartsAreClean(LabelOfSources(sources), SEP);
    if Clean(sources) {
      LabelEncodesUnique(sources);
      LabelRoundTripIff(Unique(sources));
    }
  }
}
