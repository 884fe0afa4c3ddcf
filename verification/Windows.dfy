/**
 What a sink should receive, defined without any ring: a worker that starts at `start` and
 collects when the head stands at `collects[0] < collects[1] < ...` gets, at each collection,
 the last `cap` events of those that arrived since the previous one.
 */
module Windows {
  import opened EventRing

  /** The sequence numbers lo, lo + 1, ..., hi - 1. */
  function Numbers(lo: nat, hi: nat): seq<nat>
    requires lo <= hi
  {
    seq(hi - lo, i => lo + i)
  }

  ghost predicate Ascending(s: seq<nat>) {
    forall i, j :: 0 <= i < j < |s| ==> s[i] < s[j]
  }

  /** Collections happen at ever larger heads, the first one beyond the start. */
  ghost predicate Chain(start: nat, collects: seq<nat>) {
    Ascending([start] + collects)
  }

  /** Where the cursor stands after the given collections. */
  function Reached(start: nat, collects: seq<nat>): nat {
    if collects == [] then start else collects[|collects| - 1]
  }

  function Max(a: nat, b: nat): nat {
    if a < b then b else a
  }

  /** The first sequence still collectable at head `h` for a cursor at `lo`. */
  function From(lo: nat, h: nat, cap: nat): nat {
    Max(lo, OldestLive(h, cap))
  }

  ghost function DeliveredSeqs(start: nat, collects: seq<nat>, cap: nat): seq<nat>
    requires cap > 0 && Chain(start, collects)
  {
    if collects == [] then []
    else
      var init, h := collects[..|collects| - 1], collects[|collects| - 1];
      ChainPrefix(start, collects);
      DeliveredSeqs(start, init, cap) + Numbers(From(Reached(start, init), h, cap), h)
  }

  ghost function SkippedSeqs(start: nat, collects: seq<nat>, cap: nat): seq<nat>
    requires cap > 0 && Chain(start, collects)
  {
    if collects == [] then []
    else
      var init, h := collects[..|collects| - 1], collects[|collects| - 1];
      ChainPrefix(start, collects);
      SkippedSeqs(start, init, cap) + Numbers(Reached(start, init), From(Reached(start, init), h, cap))
  }

  lemma ChainPrefix(start: nat, collects: seq<nat>)
    requires Chain(start, collects) && collects != []
    ensures Chain(start, collects[..|collects| - 1])
    ensures start <= Reached(start, collects[..|collects| - 1]) < collects[|collects| - 1]
  {
    var all := [start] + collects;
    assert [start] + collects[..|collects| - 1] == all[..|collects|];
    assert all[0] == start && all[|collects|] == collects[|collects| - 1];
    assert Reached(start, collects[..|collects| - 1]) == all[|collects| - 1];
  }

  lemma ChainExtend(start: nat, collects: seq<nat>, h: nat)
    requires Chain(start, collects) && Reached(start, collects) < h
    ensures Chain(start, collects + [h])
    ensures (collects + [h])[..|collects|] == collects
  {
    var all := [start] + (collects + [h]);
    assert all[..|collects| + 1] == [start] + collects;
    forall i, j | 0 <= i < j < |all|
      ensures all[i] < all[j]
    {
      if j == |collects| + 1 {
        assert all[i] == ([start] + collects)[i];
        assert Reached(start, collects) == ([start] + collects)[|collects|];
      } else {
        assert all[i] == ([start] + collects)[i] && all[j] == ([start] + collects)[j];
      }
    }
  }

  /** One more collection adds the live part of the new events to the delivered numbers. */
  lemma OneMoreCollection(start: nat, collects: seq<nat>, h: nat, cap: nat)
    requires cap > 0 && Chain(start, collects) && Reached(start, collects) < h
    ensures Chain(start, collects + [h])
    ensures var lo := Reached(start, collects); var from := From(lo, h, cap);
      && DeliveredSeqs(start, collects + [h], cap) == DeliveredSeqs(start, collects, cap) + Numbers(from, h)
      && SkippedSeqs(start, collects + [h], cap) == SkippedSeqs(start, collects, cap) + Numbers(lo, from)
  {
    ChainExtend(start, collects, h);
  }

  ghost predicate Within(s: seq<nat>, lo: nat, hi: nat) {
    forall i :: 0 <= i < |s| ==> lo <= s[i] < hi
  }

  lemma AscendOn(s: seq<nat>, start: nat, lo: nat, from: nat, to: nat, hi: nat)
    requires Ascending(s) && Within(s, start, lo) && start <= lo <= from <= to <= hi
    ensures Ascending(s + Numbers(from, to)) && Within(s + Numbers(from, to), start, hi)
  {
    var t := s + Numbers(from, to);
    forall i | 0 <= i < |t|
      ensures start <= t[i] < hi && (i < |s| ==> t[i] < lo) && (i >= |s| ==> t[i] == from + (i - |s|))
    {
      if i < |s| {
        assert t[i] == s[i];
      }
    }
    forall i, j | 0 <= i < j < |t| ensures t[i] < t[j] {
      if j < |s| {
        assert t[i] == s[i] && t[j] == s[j];
      }
    }
  }

  /** Delivered numbers and skipped numbers both ascend strictly, so neither repeats one. */
  lemma {:induction false} BothAscend(start: nat, collects: seq<nat>, cap: nat)
    requires cap > 0 && Chain(start, collects)
    ensures Ascending(DeliveredSeqs(start, collects, cap))
    ensures Ascending(SkippedSeqs(start, collects, cap))
    ensures Within(DeliveredSeqs(start, collects, cap), start, Reached(start, collects))
    ensures Within(SkippedSeqs(start, collects, cap), start, Reached(start, collects))
  {
    if collects == [] {
    } else {
      var init, h := collects[..|collects| - 1], collects[|collects| - 1];
      var lo := Reached(start, init);
      ChainPrefix(start, collects);
      BothAscend(start, init, cap);
      AscendOn(DeliveredSeqs(start, init, cap), start, lo, From(lo, h, cap), h, h);
      AscendOn(SkippedSeqs(start, init, cap), start, lo, lo, From(lo, h, cap), h);
    }
  }

  /**
   Delivered and skipped numbers partition everything from the start to the cursor, and a
   number is skipped exactly when more than `cap` events, itself included, had arrived by the
   first collection after it.
   */
  lemma {:induction false} DeliveredOrEvicted(start: nat, collects: seq<nat>, cap: nat, q: nat)
    requires cap > 0 && Chain(start, collects) && start <= q < Reached(start, collects)
    ensures q in DeliveredSeqs(start, collects, cap) <==> FirstCollectAfter(collects, q) <= q + cap
    ensures q in SkippedSeqs(start, collects, cap) <==> FirstCollectAfter(collects, q) > q + cap
  {
    var init, h := collects[..|collects| - 1], collects[|collects| - 1];
    ChainPrefix(start, collects);
    BothAscend(start, init, cap);
    var lo := Reached(start, init);
    var from := From(lo, h, cap);
    NumbersMembers(lo, from, q);
    NumbersMembers(from, h, q);
    FirstCollectPrefix(start, collects, q);
    if q < lo {
      DeliveredOrEvicted(start, init, cap, q);
    }
  }

  lemma NumbersMembers(lo: nat, hi: nat, q: nat)
    requires lo <= hi
    ensures q in Numbers(lo, hi) <==> lo <= q < hi
  {
    if lo <= q < hi {
      assert Numbers(lo, hi)[q - lo] == q;
    }
  }

  /** The head at the first collection that came after event `q` was pushed. */
  function FirstCollectAfter(collects: seq<nat>, q: nat): nat
    requires collects != [] && collects[|collects| - 1] > q
  {
    if |collects| >= 2 && collects[|collects| - 2] > q
    then FirstCollectAfter(collects[..|collects| - 1], q)
    else collects[|collects| - 1]
  }

  /** It is the least of the collection heads beyond the event. */
  lemma {:induction false} FirstCollectIsLeast(start: nat, collects: seq<nat>, q: nat) returns (k: nat)
    requires Chain(start, collects) && start <= q < Reached(start, collects)
    ensures k < |collects| && FirstCollectAfter(collects, q) == collects[k] > q
    ensures forall j :: 0 <= j < k ==> collects[j] <= q
  {
    var n := |collects| - 1;
    ChainPrefix(start, collects);
    if n > 0 && collects[n - 1] > q {
      k := FirstCollectIsLeast(start, collects[..n], q);
    } else {
      k := n;
      var all := [start] + collects;
      assert forall j :: 0 <= j < |collects| ==> all[j + 1] == collects[j];
    }
  }

  lemma FirstCollectPrefix(start: nat, collects: seq<nat>, q: nat)
    requires Chain(start, collects) && start <= q < Reached(start, collects)
    ensures var init := collects[..|collects| - 1];
      FirstCollectAfter(collects, q) ==
        if q < Reached(start, init) then FirstCollectAfter(init, q) else collects[|collects| - 1]
  {
  }

  /** At most `cap` events arrive between one collection and the next. */
  ghost predicate GapsFit(start: nat, collects: seq<nat>, cap: nat) {
    forall k :: 0 <= k < |collects| ==> collects[k] - Reached(start, collects[..k]) <= cap
  }

  /** Nothing is skipped exactly when at most `cap` events arrive between collections. */
  lemma {:induction false} NothingSkippedIff(start: nat, collects: seq<nat>, cap: nat)
    requires cap > 0 && Chain(start, collects)
    ensures SkippedSeqs(start, collects, cap) == [] <==> GapsFit(start, collects, cap)
  {
    if collects == [] {
    } else {
      var n := |collects| - 1;
      var init, h := collects[..n], collects[n];
      ChainPrefix(start, collects);
      NothingSkippedIff(start, init, cap);
      assert forall k :: 0 <= k < n ==> init[k] == collects[k] && init[..k] == collects[..k];
      assert GapsFit(start, collects, cap) <==> GapsFit(start, init, cap) && h - Reached(start, init) <= cap;
    }
  }

  /** Together they cover every number once. */
  lemma {:induction false} CountsAddUp(start: nat, collects: seq<nat>, cap: nat)
    requires cap > 0 && Chain(start, collects)
    ensures start <= Reached(start, collects)
    ensures |DeliveredSeqs(start, collects, cap)| + |SkippedSeqs(start, collects, cap)|
         == Reached(start, collects) - start
  {
    if collects == [] {
    } else {
      ChainPrefix(start, collects);
      CountsAddUp(start, collects[..|collects| - 1], cap);
    }
  }
}
