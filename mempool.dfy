/** The mempool side of frontend/service.go: the exclusion filter that
    decides which mempool transactions a wallet still needs
    (`MempoolFilter`), and the server's cached copy of the node's mempool
    that `GetMempoolTx` refreshes and serves from.

    A wallet names the transactions it already has by short ids: prefixes
    of the full hex ids. An item is withheld only when it is the one item
    its exclude entry matches; an entry that matches several items is
    ambiguous, and all of them are sent. */
module Mempool {

  import opened Wrappers
  import opened GoStrings
  import opened GoEncoding

  // ---------------------------------------------------------------------
  // What the filter computes

  /** The first exclude entry that is a prefix of `x`. On a sorted exclude
      list that is the shortest such entry (`FirstPrefixShortest`). */
  function FirstPrefix(ex: seq<string>, x: string): (r: Option<nat>)
    ensures r.Some? ==> r.value < |ex| && ex[r.value] <= x && forall j :: 0 <= j < r.value ==> !(ex[j] <= x)
    ensures r.None? ==> forall j :: 0 <= j < |ex| ==> !(ex[j] <= x)
  {
    if ex == [] then None
    else if ex[0] <= x then Some(0)
    else match FirstPrefix(ex[1..], x)
      case None => None
      case Some(k) => Some(k + 1)
  }

  /** How many items (with repetitions) have `e` as a prefix. */
  function CountPrefixed(items: seq<string>, e: string): nat {
    if items == [] then 0
    else CountPrefixed(items[..|items| - 1], e) + (if e <= items[|items| - 1] then 1 else 0)
  }

  /** How many items have exclude entry `k` as their first prefix entry:
      what `nmatches[k]` holds after the first pass. */
  function CountOwned(items: seq<string>, ex: seq<string>, k: int): nat {
    if items == [] then 0
    else CountOwned(items[..|items| - 1], ex, k) + (if FirstPrefix(ex, items[|items| - 1]) == Some(k) then 1 else 0)
  }

  /** `x` is sent: no exclude entry is a prefix of it, or its entry is a
      prefix of more than one item. */
  predicate Survives(items: seq<string>, ex: seq<string>, x: string) {
    match FirstPrefix(ex, x)
    case None => true
    case Some(k) => CountPrefixed(items, ex[k]) > 1
  }

  /** The members of `xs` that survive among `items`, in order. */
  function Filter(xs: seq<string>, items: seq<string>, ex: seq<string>): (r: seq<string>)
    ensures |r| <= |xs|
  {
    if xs == [] then []
    else
      var last := xs[|xs| - 1];
      Filter(xs[..|xs| - 1], items, ex) + (if Survives(items, ex, last) then [last] else [])
  }

  /** The items the filter sends, for sorted `items` and `ex`. */
  function Kept(items: seq<string>, ex: seq<string>): seq<string> {
    Filter(items, items, ex)
  }

  // ---------------------------------------------------------------------
  // Properties of the specification

  /** On a sorted exclude list the first prefix entry is the shortest one,
      and a prefix of every other entry that is a prefix of `x`. */
  lemma FirstPrefixShortest(ex: seq<string>, x: string, j: int)
    requires Sorted(ex) && FirstPrefix(ex, x).Some? && 0 <= j < |ex| && ex[j] <= x
    ensures ex[FirstPrefix(ex, x).value] <= ex[j]
  {
    var k := FirstPrefix(ex, x).value;
    assert k <= j;
    if k < j {
      PrefixesNested(ex[k], ex[j], x);
    }
  }

  /** An item has the owner of `x` as its first prefix entry exactly when
      that entry is a prefix of it; so `nmatches` counts every item the
      entry matches. */
  lemma {:induction false} OwnedIsPrefixed(items: seq<string>, ex: seq<string>, k: nat, x: string)
    requires Sorted(ex) && FirstPrefix(ex, x) == Some(k)
    ensures CountOwned(items, ex, k) == CountPrefixed(items, ex[k])
    decreases |items|
  {
    if items != [] {
      OwnedIsPrefixed(items[..|items| - 1], ex, k, x);
      var y := items[|items| - 1];
      if ex[k] <= y {
        // The first prefix entry of `y` is a prefix of `ex[k]`, so of `x`
        // too, and so cannot come before `k`.
        FirstPrefixShortest(ex, y, k);
      }
    }
  }

  lemma {:induction false} FilterMembers(xs: seq<string>, items: seq<string>, ex: seq<string>)
    ensures forall y :: y in Filter(xs, items, ex) <==> y in xs && Survives(items, ex, y)
    decreases |xs|
  {
    if xs != [] {
      FilterMembers(xs[..|xs| - 1], items, ex);
      assert xs == xs[..|xs| - 1] + [xs[|xs| - 1]];
    }
  }

  lemma {:induction false} FilterSubMultiset(xs: seq<string>, items: seq<string>, ex: seq<string>)
    ensures multiset(Filter(xs, items, ex)) <= multiset(xs)
    decreases |xs|
  {
    if xs != [] {
      FilterSubMultiset(xs[..|xs| - 1], items, ex);
      assert xs == xs[..|xs| - 1] + [xs[|xs| - 1]];
    }
  }

  lemma {:induction false} FilterSorted(xs: seq<string>, items: seq<string>, ex: seq<string>)
    requires Sorted(xs)
    ensures Sorted(Filter(xs, items, ex))
    decreases |xs|
  {
    if xs != [] {
      var init := xs[..|xs| - 1];
      var last := xs[|xs| - 1];
      FilterSorted(init, items, ex);
      FilterMembers(init, items, ex);
      var f := Filter(init, items, ex);
      forall i | 0 <= i < |f|
        ensures LessEq(f[i], last)
      {
        assert f[i] in init;
        var p :| 0 <= p < |init| && init[p] == f[i];
        assert xs[p] == f[i];
      }
    }
  }

  /** What is sent is a sorted selection of the items: every one of them an
      item, none more often than among the items. */
  lemma KeptSelection(items: seq<string>, ex: seq<string>)
    requires Sorted(items)
    ensures Sorted(Kept(items, ex))
    ensures multiset(Kept(items, ex)) <= multiset(items)
  {
    FilterSorted(items, items, ex);
    FilterSubMultiset(items, items, ex);
  }

  /** An item that no exclude entry starts is always sent. */
  lemma NoPrefixSent(items: seq<string>, ex: seq<string>, x: string)
    requires x in items && forall e :: e in ex ==> !(e <= x)
    ensures x in Kept(items, ex)
  {
    FilterMembers(items, items, ex);
    forall j | 0 <= j < |ex|
      ensures !(ex[j] <= x)
    {
      assert ex[j] in ex;
    }
  }

  /** With nothing excluded every item is sent, in order. */
  lemma {:induction false} NothingExcluded(xs: seq<string>, items: seq<string>)
    ensures Filter(xs, items, []) == xs
    decreases |xs|
  {
    if xs != [] {
      NothingExcluded(xs[..|xs| - 1], items);
      assert xs == xs[..|xs| - 1] + [xs[|xs| - 1]];
    }
  }

  /** An item is withheld when an exclude entry starts it and every entry
      that starts it starts no other item. */
  lemma UniqueMatchWithheld(items: seq<string>, ex: seq<string>, x: string)
    requires exists e :: e in ex && e <= x
    requires forall e :: e in ex && e <= x ==> CountPrefixed(items, e) == 1
    ensures x !in Kept(items, ex)
  {
    FilterMembers(items, items, ex);
    var k := FirstPrefix(ex, x).value;
    assert ex[k] in ex;
  }

  /** An exclude entry that starts two or more items is ambiguous: every
      item it starts is sent. */
  lemma AmbiguousMatchSent(items: seq<string>, ex: seq<string>, j: int, y: string)
    requires Sorted(ex) && 0 <= j < |ex| && CountPrefixed(items, ex[j]) > 1
    requires y in items && ex[j] <= y
    ensures y in Kept(items, ex)
  {
    FilterMembers(items, items, ex);
    var k := FirstPrefix(ex, y).value;
    FirstPrefixShortest(ex, y, j);
    CountPrefixedMonotone(items, ex[k], ex[j]);
  }

  /** A shorter prefix starts at least the items a longer one does. */
  lemma {:induction false} CountPrefixedMonotone(items: seq<string>, p: string, e: string)
    requires p <= e
    ensures CountPrefixed(items, e) <= CountPrefixed(items, p)
    decreases |items|
  {
    if items != [] {
      CountPrefixedMonotone(items[..|items| - 1], p, e);
    }
  }

  /** A worked example: "abcd" starts two items and is
      ambiguous, so both are sent; "ef000000" starts only itself and is
      withheld. */
  lemma FilterExample()
    ensures Kept(["abcd1234", "abcd5678", "ef000000"], ["abcd", "ef000000"]) == ["abcd1234", "abcd5678"]
  {
    var items := ["abcd1234", "abcd5678", "ef000000"];
    var ex := ["abcd", "ef000000"];
    assert items[..2] == ["abcd1234", "abcd5678"] && items[..1] == ["abcd1234"] && items[..0] == [];
    assert ex[1..] == ["ef000000"];
    assert "abcd" <= items[0] && "abcd" <= items[1] && "ef000000" <= items[2];
    assert items[2][0] != "abcd"[0] && items[0][0] != "ef000000"[0] && items[1][0] != "ef000000"[0];
    assert FirstPrefix(ex, items[2]) == Some(1);
    assert CountPrefixed(items[..1], ex[0]) == 1 && CountPrefixed(items[..1], ex[1]) == 0;
    assert CountPrefixed(items[..2], ex[0]) == 2 && CountPrefixed(items[..2], ex[1]) == 0;
    assert CountPrefixed(items, ex[0]) == 2 && CountPrefixed(items, ex[1]) == 1;
    assert Filter(items[..1], items, ex) == ["abcd1234"];
    assert Filter(items[..2], items, ex) == ["abcd1234", "abcd5678"];
  }

  // ---------------------------------------------------------------------
  // The merge cursor

  /** `ei` is where the filter's cursor stops for item `x`: every entry
      before it is behind `x`, the entry at it (if any) is not. */
  predicate IsCursor(ex: seq<string>, x: string, ei: int) {
    && 0 <= ei <= |ex|
    && (forall k :: 0 <= k < ei ==> TruncatedLess(ex[k], x))
    && (ei < |ex| ==> !TruncatedLess(ex[ei], x))
  }

  /** Where the cursor stops, the filter's match test finds the first
      prefix entry of the item, or finds nothing when there is none. */
  lemma CursorMatch(ex: seq<string>, x: string, ei: int)
    requires Sorted(ex) && IsCursor(ex, x, ei)
    ensures FirstPrefix(ex, x) == if ei < |ex| && ex[ei] <= x then Some(ei) else None
  {
    forall k | 0 <= k < ei
      ensures !(ex[k] <= x)
    {
      if ex[k] <= x {
        PrefixNotTruncatedLess(ex[k], x);
      }
    }
    if ei < |ex| && ex[ei] <= x {
      var r := FirstPrefix(ex, x);
      assert r.Some? && r.value >= ei;
    } else if FirstPrefix(ex, x).Some? {
      var k := FirstPrefix(ex, x).value;
      assert ei < |ex| && k > ei;
      CursorEntryIsPrefix(ex[ei], ex[k], x);
    }
  }

  /** Entries behind one item are behind every later item. */
  lemma CursorCarries(ex: seq<string>, prev: string, x: string, ei: int)
    requires 0 <= ei <= |ex| && LessEq(prev, x)
    requires forall k :: 0 <= k < ei ==> TruncatedLess(ex[k], prev)
    ensures forall k :: 0 <= k < ei ==> TruncatedLess(ex[k], x)
  {
    forall k | 0 <= k < ei
      ensures TruncatedLess(ex[k], x)
    {
      TruncatedLessMonotone(ex[k], prev, x);
    }
  }

  // ---------------------------------------------------------------------
  // Sorting in place (sort.Slice with `<`)

  /** Insertion of `s[i]` into the sorted `s[..i]` is under way: the
      element being moved sits at `j`; the others, up to `i`, are in order,
      and those after `j` are all at least the moving element. */
  predicate Inserting(s: seq<string>, i: int, j: int) {
    && 0 <= j <= i < |s|
    && (forall p, q :: 0 <= p < q <= i && p != j && q != j ==> LessEq(s[p], s[q]))
    && (forall q :: j < q <= i ==> LessEq(s[j], s[q]))
  }

  lemma InsertStart(s: seq<string>, i: int)
    requires 0 <= i < |s| && Sorted(s[..i])
    ensures Inserting(s, i, i)
  {
    forall p, q | 0 <= p < q <= i && p != i && q != i
      ensures LessEq(s[p], s[q])
    {
      assert s[p] == s[..i][p] && s[q] == s[..i][q];
    }
  }

  lemma InsertSwap(s: seq<string>, i: int, j: int)
    requires Inserting(s, i, j) && 0 < j && Less(s[j], s[j - 1])
    ensures Inserting(s[j - 1 := s[j]][j := s[j - 1]], i, j - 1)
  {
    var t := s[j - 1 := s[j]][j := s[j - 1]];
    LessIrreflexive(s[j]);
    if Less(s[j - 1], s[j]) {
      LessTransitive(s[j], s[j - 1], s[j]);
    }
    assert LessEq(t[j - 1], t[j]);
  }

  lemma InsertDone(s: seq<string>, i: int, j: int)
    requires Inserting(s, i, j) && (j == 0 || !Less(s[j], s[j - 1]))
    ensures Sorted(s[..i + 1])
  {
    forall p, q | 0 <= p < q <= i
      ensures LessEq(s[p], s[q])
    {
      if q == j && p < j - 1 {
        LessEqTransitive(s[p], s[j - 1], s[j]);
      }
    }
  }

  /** sort.Slice with Go's string `<`: the array ends sorted, holding the
      same strings. */
  method SortStrings(a: array<string>)
    modifies a
    ensures Sorted(a[..]) && multiset(a[..]) == multiset(old(a[..]))
  {
    if a.Length == 0 {
      return;
    }
    var i := 1;
    while i < a.Length
      invariant 1 <= i <= a.Length
      invariant Sorted(a[..i])
      invariant multiset(a[..]) == multiset(old(a[..]))
    {
      Insert(a, i);
      i := i + 1;
    }
    assert a[..] == a[..a.Length];
  }

  /** One round of the insertion sort: `a[i]` moves down past the larger
      strings before it. */
  method Insert(a: array<string>, i: int)
    requires 0 <= i < a.Length && Sorted(a[..i])
    modifies a
    ensures Sorted(a[..i + 1]) && multiset(a[..]) == multiset(old(a[..]))
    ensures a[i + 1..] == old(a[i + 1..])
  {
    InsertStart(a[..], i);
    var j := i;
    while j > 0 && Less(a[j], a[j - 1])
      invariant Inserting(a[..], i, j)
      invariant multiset(a[..]) == multiset(old(a[..]))
      invariant a[i + 1..] == old(a[i + 1..])
    {
      InsertSwap(a[..], i, j);
      a[j - 1], a[j] := a[j], a[j - 1];
      j := j - 1;
    }
    InsertDone(a[..], i, j);
  }

  // ---------------------------------------------------------------------
  // The filter

  /** MempoolFilter: sorts both lists in place, counts in a first merge
      pass how many items each exclude entry owns, and in a second pass
      sends every item that no entry owns alone. */
  method MempoolFilter(items: array<string>, exclude: array<string>) returns (tosend: seq<string>)
    requires items != exclude
    modifies items, exclude
    ensures Sorted(items[..]) && multiset(items[..]) == multiset(old(items[..]))
    ensures Sorted(exclude[..]) && multiset(exclude[..]) == multiset(old(exclude[..]))
    ensures tosend == Kept(items[..], exclude[..])
  {
    SortStrings(items);
    ghost var sorted := items[..];
    SortStrings(exclude);
    assert items[..] == sorted;
    var nmatches := CountMatches(items, exclude);
    tosend := SelectItems(items, exclude, nmatches);
  }

  /** The cursor moved past every exclude entry that is behind `item`. */
  method AdvanceCursor(exclude: array<string>, item: string, ei: int) returns (next: int)
    requires 0 <= ei <= exclude.Length
    requires forall k :: 0 <= k < ei ==> TruncatedLess(exclude[k], item)
    ensures ei <= next && IsCursor(exclude[..], item, next)
  {
    next := ei;
    while next < exclude.Length && TruncatedLess(exclude[next], item)
      invariant ei <= next <= exclude.Length
      invariant forall k :: 0 <= k < next ==> TruncatedLess(exclude[k], item)
    {
      next := next + 1;
    }
  }

  /** The first pass: `nmatches[k]` is the number of items whose first
      prefix entry is entry `k`. */
  method CountMatches(items: array<string>, exclude: array<string>) returns (nmatches: array<int>)
    requires Sorted(items[..]) && Sorted(exclude[..])
    ensures fresh(nmatches) && nmatches.Length == exclude.Length
    ensures forall k :: 0 <= k < nmatches.Length ==> nmatches[k] == CountOwned(items[..], exclude[..], k)
  {
    ghost var its, exs := items[..], exclude[..];
    nmatches := new int[exclude.Length](_ => 0);
    var ei := 0;
    var i := 0;
    while i < items.Length
      modifies nmatches
      invariant 0 <= i <= items.Length
      invariant if i == 0 then ei == 0 else IsCursor(exs, its[i - 1], ei)
      invariant forall k :: 0 <= k < nmatches.Length ==> nmatches[k] == CountOwned(its[..i], exs, k)
    {
      var matched;
      ei, matched := Locate(items, exclude, i, ei);
      CountStep(its, exs, i);
      if matched {
        nmatches[ei] := nmatches[ei] + 1;
      }
      i := i + 1;
    }
    assert its[..i] == its;
  }

  /** Both passes at item `i`: the cursor moves on from where the previous
      item left it, and the entry it stops at is a prefix of the item exactly
      when that entry is the item's first prefix entry. */
  method Locate(items: array<string>, exclude: array<string>, i: int, ei: int) returns (next: int, matched: bool)
    requires Sorted(items[..]) && Sorted(exclude[..])
    requires 0 <= i < items.Length
    requires if i == 0 then ei == 0 else IsCursor(exclude[..], items[i - 1], ei)
    ensures IsCursor(exclude[..], items[i], next)
    ensures matched == (next < exclude.Length && exclude[next] <= items[i])
    ensures FirstPrefix(exclude[..], items[i]) == if matched then Some(next) else None
  {
    ghost var its, exs := items[..], exclude[..];
    var item := items[i];
    if i > 0 {
      CursorCarries(exs, its[i - 1], item, ei);
    }
    next := AdvanceCursor(exclude, item, ei);
    CursorMatch(exs, item, next);
    matched := next < exclude.Length && HasPrefix(item, exclude[next]);
  }

  /** One more item raises the count of its first prefix entry, and only
      that one, by one. */
  lemma CountStep(items: seq<string>, ex: seq<string>, i: int)
    requires 0 <= i < |items|
    ensures forall k :: (CountOwned(items[..i + 1], ex, k)
         == CountOwned(items[..i], ex, k) + (if FirstPrefix(ex, items[i]) == Some(k) then 1 else 0))
  {
    assert items[..i + 1][..i] == items[..i];
  }

  /** The second pass: every item that is not its entry's only match, in
      order. */
  method SelectItems(items: array<string>, exclude: array<string>, nmatches: array<int>) returns (tosend: seq<string>)
    requires Sorted(items[..]) && Sorted(exclude[..])
    requires nmatches.Length == exclude.Length
    requires forall k :: 0 <= k < nmatches.Length ==> nmatches[k] == CountOwned(items[..], exclude[..], k)
    ensures tosend == Kept(items[..], exclude[..])
  {
    ghost var its, exs := items[..], exclude[..];
    tosend := [];
    var ei := 0;
    var i := 0;
    while i < items.Length
      invariant 0 <= i <= items.Length
      invariant if i == 0 then ei == 0 else IsCursor(exs, its[i - 1], ei)
      invariant tosend == Filter(its[..i], its, exs)
    {
      var keep;
      ei, keep := Decide(items, exclude, nmatches, i, ei);
      FilterStep(its, its, exs, i);
      if keep {
        tosend := tosend + [items[i]];
      }
      i := i + 1;
    }
    assert its[..i] == its;
  }

  /** The second pass at item `i`: the cursor moves on to the item, and the
      item is kept unless the entry it stops at is a prefix of it and of no
      other item. */
  method Decide(items: array<string>, exclude: array<string>, nmatches: array<int>, i: int, ei: int)
    returns (next: int, keep: bool)
    requires Sorted(items[..]) && Sorted(exclude[..])
    requires nmatches.Length == exclude.Length
    requires forall k :: 0 <= k < nmatches.Length ==> nmatches[k] == CountOwned(items[..], exclude[..], k)
    requires 0 <= i < items.Length
    requires if i == 0 then ei == 0 else IsCursor(exclude[..], items[i - 1], ei)
    ensures IsCursor(exclude[..], items[i], next)
    ensures keep == Survives(items[..], exclude[..], items[i])
  {
    var matched;
    next, matched := Locate(items, exclude, i, ei);
    keep := !matched || nmatches[next] > 1;
    KeepDecision(items[..], exclude[..], items[i], next, matched, if matched then nmatches[next] else 0, keep);
  }

  /** The filter's decision for one item, taken at the cursor with the count
      of the first pass, is the specification's `Survives`. */
  lemma KeepDecision(items: seq<string>, ex: seq<string>, x: string, ei: int, matched: bool, n: int, keep: bool)
    requires Sorted(ex) && IsCursor(ex, x, ei)
    requires matched == (ei < |ex| && ex[ei] <= x)
    requires matched ==> n == CountOwned(items, ex, ei)
    requires keep == (!matched || n > 1)
    ensures keep == Survives(items, ex, x)
  {
    CursorMatch(ex, x, ei);
    if matched {
      OwnedIsPrefixed(items, ex, ei, x);
    }
  }

  /** One more element of `xs` extends the filtered prefix by itself or by
      nothing. */
  lemma FilterStep(xs: seq<string>, items: seq<string>, ex: seq<string>, i: int)
    requires 0 <= i < |xs|
    ensures Filter(xs[..i + 1], items, ex)
         == Filter(xs[..i], items, ex) + (if Survives(items, ex, xs[i]) then [xs[i]] else [])
  {
    assert xs[..i + 1][..i] == xs[..i];
  }
}
