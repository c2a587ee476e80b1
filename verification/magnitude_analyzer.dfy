/** Top-K by magnitude (service/QuakeMagnitudeAnalyzer.java): the index
    scan, the selection loop exactly as written, and the selection its
    documentation describes. */
module MagnitudeAnalyzer {
  import opened Outcomes
  import opened Seqs
  import opened Quake

  /** `k` is the earliest position holding the largest magnitude among the first `n` records. */
  ghost predicate EarliestLargest(s: seq<QuakeEntry>, k: int, n: int) {
    && 0 <= k < n <= |s|
    && (forall j :: 0 <= j < n ==> s[j].magnitude <= s[k].magnitude)
    && (forall j :: 0 <= j < k ==> s[j].magnitude < s[k].magnitude)
  }

  /** The loop of indexOfLargest from position `i`, with `best` the index kept so far. */
  function ScanLargest(s: seq<QuakeEntry>, i: int, best: int): (r: int)
    requires 0 <= best < i <= |s|
    ensures 0 <= r < |s|
    decreases |s| - i
  {
    if i == |s| then best
    else if s[i].magnitude > s[best].magnitude then ScanLargest(s, i + 1, i)
    else ScanLargest(s, i + 1, best)
  }

  /** `indexOfLargest(data)`: -1 for a null or empty list, otherwise the
      first index of a largest magnitude (a later tie does not replace it). */
  function IndexOfLargest(data: Option<seq<QuakeEntry>>): (r: int)
    ensures r == -1 <==> data.None? || |data.value| == 0
    ensures r != -1 ==> 0 <= r < |data.value|
  {
    if data.None? || |data.value| == 0 then -1 else ScanLargest(data.value, 1, 0)
  }

  lemma {:induction false} ScanLargestFindsEarliest(s: seq<QuakeEntry>, i: int, best: int)
    requires 0 <= best < i <= |s| && EarliestLargest(s, best, i)
    ensures EarliestLargest(s, ScanLargest(s, i, best), |s|)
    decreases |s| - i
  {
    if i < |s| {
      if s[i].magnitude > s[best].magnitude {
        ScanLargestFindsEarliest(s, i + 1, i);
      } else {
        ScanLargestFindsEarliest(s, i + 1, best);
      }
    }
  }

  /** `indexOfLargest` on a non-empty list finds the first largest magnitude. */
  lemma IndexOfLargestIsEarliest(data: seq<QuakeEntry>)
    requires |data| > 0
    ensures EarliestLargest(data, IndexOfLargest(Some(data)), |data|)
  {
    ScanLargestFindsEarliest(data, 1, 0);
  }

  // ---------------------------------------------------------------------
  // getLargest as written

  /** The loop of `getLargest` with `howMany` iterations left. `copy` is the
      snapshot taken on entry, which never shrinks; `data` is the caller's
      list, from which each round removes the largest record while the record
      appended is `copy` at that same index. The pair holds the outcome and
      the caller's list afterwards. */
  function LargestRun(copy: seq<QuakeEntry>, data: seq<QuakeEntry>, howMany: int)
    : (r: (Result<seq<QuakeEntry>>, seq<QuakeEntry>))
    requires |data| <= |copy|
    ensures howMany <= 0 || |copy| == 0 ==> r == (Success([]), data)
    ensures 0 < howMany <= |data| && |copy| > 0 ==> r.0.Success? && |r.0.value| == howMany && |r.1| == |data| - howMany
    ensures |data| < howMany && |copy| > 0 ==> r.0 == Failure(IndexOutOfBounds) && r.1 == []
    decreases |data|
  {
    if howMany <= 0 || |copy| == 0 then
      (Success([]), data)
    else
      var m := IndexOfLargest(Some(data));
      if m == -1 then
        (Failure(IndexOutOfBounds), data)
      else
        var run := LargestRun(copy, RemoveAt(data, m), howMany - 1);
        if run.0.Success? then (Success([copy[m]] + run.0.value), run.1) else run
  }

  /** Every record returned comes from the snapshot. */
  lemma {:induction false} LargestRunDrawsFromSnapshot(copy: seq<QuakeEntry>, data: seq<QuakeEntry>, howMany: int)
    requires |data| <= |copy|
    ensures var r := LargestRun(copy, data, howMany);
            r.0.Success? ==> forall i :: 0 <= i < |r.0.value| ==> r.0.value[i] in copy
    decreases |data|
  {
    if howMany > 0 && |copy| > 0 && |data| > 0 {
      var m := IndexOfLargest(Some(data));
      LargestRunDrawsFromSnapshot(copy, RemoveAt(data, m), howMany - 1);
    }
  }

  /** The caller's list only loses records. */
  lemma {:induction false} LargestRunShrinksList(copy: seq<QuakeEntry>, data: seq<QuakeEntry>, howMany: int)
    requires |data| <= |copy|
    ensures multiset(LargestRun(copy, data, howMany).1) <= multiset(data)
    decreases |data|
  {
    if howMany > 0 && |copy| > 0 && |data| > 0 {
      var m := IndexOfLargest(Some(data));
      var d := RemoveAt(data, m);
      LargestRunShrinksList(copy, d, howMany - 1);
      RemoveAtMultiset(data, m);
      assert LargestRun(copy, data, howMany).1 == LargestRun(copy, d, howMany - 1).1;
    }
  }

  /** Puts the records chosen by earlier rounds in front of an outcome. */
  function Prefixed(out: seq<QuakeEntry>, run: (Result<seq<QuakeEntry>>, seq<QuakeEntry>))
    : (Result<seq<QuakeEntry>>, seq<QuakeEntry>)
  {
    if run.0.Success? then (Success(out + run.0.value), run.1) else run
  }

  lemma PrefixedNothing(run: (Result<seq<QuakeEntry>>, seq<QuakeEntry>))
    ensures Prefixed([], run) == run
  {
    if run.0.Success? {
      assert [] + run.0.value == run.0.value;
    }
  }

  lemma PrefixedTwice(out: seq<QuakeEntry>, e: QuakeEntry, run: (Result<seq<QuakeEntry>>, seq<QuakeEntry>))
    ensures Prefixed(out, Prefixed([e], run)) == Prefixed(out + [e], run)
  {
    if run.0.Success? {
      assert out + ([e] + run.0.value) == out + [e] + run.0.value;
    }
  }

  /** `getLargest(quakeData, howMany)`. Returns the outcome and the caller's
      list after the call, which the method shrinks as it goes. */
  method GetLargest(quakeData: seq<QuakeEntry>, howMany: int)
    returns (largest: Result<seq<QuakeEntry>>, callerList: seq<QuakeEntry>)
    ensures (largest, callerList) == LargestRun(quakeData, quakeData, howMany)
    ensures howMany <= 0 ==> largest == Success([]) && callerList == quakeData
    ensures 0 < howMany <= |quakeData| ==>
              largest.Success? && |largest.value| == howMany && |callerList| == |quakeData| - howMany
    ensures 0 < |quakeData| < howMany ==> largest == Failure(IndexOutOfBounds) && callerList == []
    ensures largest.Success? ==> forall i :: 0 <= i < |largest.value| ==> largest.value[i] in quakeData
    ensures multiset(callerList) <= multiset(quakeData)
  {
    LargestRunDrawsFromSnapshot(quakeData, quakeData, howMany);
    LargestRunShrinksList(quakeData, quakeData, howMany);
    var copy := quakeData;
    var data := quakeData;
    var out: seq<QuakeEntry> := [];
    var i := 0;
    PrefixedNothing(LargestRun(copy, data, howMany));
    while i < howMany && |copy| > 0
      invariant copy == quakeData && |data| <= |copy|
      invariant LargestRun(quakeData, quakeData, howMany) == Prefixed(out, LargestRun(copy, data, howMany - i))
      decreases |data|
    {
      var maxIndex := IndexOfLargest(Some(data));
      if maxIndex == -1 {
        return Failure(IndexOutOfBounds), data;
      }
      LargestRunRound(copy, data, howMany - i, maxIndex);
      PrefixedTwice(out, copy[maxIndex], LargestRun(copy, RemoveAt(data, maxIndex), howMany - i - 1));
      out := out + [copy[maxIndex]];
      data := RemoveAt(data, maxIndex);
      i := i + 1;
    }
    assert out + [] == out;
    return Success(out), data;
  }

  /** On the first round snapshot and list agree, so the first record
      returned is a largest one. */
  lemma LargestRunHeadIsLargest(quakeData: seq<QuakeEntry>, howMany: int)
    requires 0 < howMany <= |quakeData|
    ensures var r := LargestRun(quakeData, quakeData, howMany).0;
            r.Success? && |r.value| > 0
            && r.value[0] == quakeData[IndexOfLargest(Some(quakeData))]
            && forall j :: 0 <= j < |quakeData| ==> quakeData[j].magnitude <= r.value[0].magnitude
  {
    IndexOfLargestIsEarliest(quakeData);
  }

  // ---------------------------------------------------------------------
  // The selection the documentation promises

  function Min(a: int, b: int): int {
    if a < b then a else b
  }

  /** The `howMany` largest records, largest first, ties in list order;
      never more than the list holds and leaving the list itself alone. */
  function TopLargest(data: seq<QuakeEntry>, howMany: int): (r: seq<QuakeEntry>)
    ensures |r| == if howMany <= 0 then 0 else Min(howMany, |data|)
    decreases |data|
  {
    if howMany <= 0 || |data| == 0 then
      []
    else
      var m := IndexOfLargest(Some(data));
      [data[m]] + TopLargest(RemoveAt(data, m), howMany - 1)
  }

  /** Magnitudes never increase along `r`. */
  ghost predicate NonIncreasing(r: seq<QuakeEntry>) {
    forall i, j :: 0 <= i < j < |r| ==> r[i].magnitude >= r[j].magnitude
  }

  /** Every record of `data` that `r` leaves out is no larger than any record `r` takes. */
  ghost predicate LeftOutNoLarger(data: seq<QuakeEntry>, r: seq<QuakeEntry>) {
    forall i, x :: 0 <= i < |r| && x in multiset(data) - multiset(r) ==> x.magnitude <= r[i].magnitude
  }

  /** `r` is drawn from `data`, is in non-increasing order of magnitude, and
      every record it leaves out is no larger than any it takes. */
  ghost predicate SelectsLargest(data: seq<QuakeEntry>, r: seq<QuakeEntry>) {
    multiset(r) <= multiset(data) && NonIncreasing(r) && LeftOutNoLarger(data, r)
  }

  lemma TopLargestIsTop(data: seq<QuakeEntry>, howMany: int)
    ensures SelectsLargest(data, TopLargest(data, howMany))
  {
    TopSelects(data, howMany, TopLargest(data, howMany));
  }

  lemma {:induction false} TopSelects(data: seq<QuakeEntry>, howMany: int, r: seq<QuakeEntry>)
    requires r == TopLargest(data, howMany)
    ensures SelectsLargest(data, r)
    decreases |data|
  {
    if howMany > 0 && |data| > 0 {
      var m := IndexOfLargest(Some(data));
      var rest := TopLargest(RemoveAt(data, m), howMany - 1);
      TopSelects(RemoveAt(data, m), howMany - 1, rest);
      TopLargestStep(data, m, rest);
    } else {
      assert r == [];
      assert multiset(r) == multiset{};
    }
  }

  lemma LargestBoundsAll(data: seq<QuakeEntry>, m: int, x: QuakeEntry)
    requires EarliestLargest(data, m, |data|) && x in multiset(data)
    ensures x.magnitude <= data[m].magnitude
  {
    assert x in data;
    var j :| 0 <= j < |data| && data[j] == x;
  }

  lemma TopLargestStep(data: seq<QuakeEntry>, m: int, rest: seq<QuakeEntry>)
    requires |data| > 0 && m == IndexOfLargest(Some(data))
    requires SelectsLargest(RemoveAt(data, m), rest)
    ensures SelectsLargest(data, [data[m]] + rest)
  {
    RemoveAtMultiset(data, m);
    IndexOfLargestIsEarliest(data);
    forall x | x in multiset(data)
      ensures x.magnitude <= data[m].magnitude
    {
      LargestBoundsAll(data, m, x);
    }
    TopLargestStepSorted(data, data[m], rest);
    TopLargestStepBound(data, data[m], rest);
    var r := [data[m]] + rest;
    assert multiset(r) == multiset{data[m]} + multiset(rest);
    assert multiset(r) <= multiset(data);
  }

  lemma TopLargestStepSorted(data: seq<QuakeEntry>, top: QuakeEntry, rest: seq<QuakeEntry>)
    requires forall x :: x in multiset(data) ==> x.magnitude <= top.magnitude
    requires multiset(rest) <= multiset(data)
    requires forall i, j :: 0 <= i < j < |rest| ==> rest[i].magnitude >= rest[j].magnitude
    ensures NonIncreasing([top] + rest)
  {
    var r := [top] + rest;
    forall i, j | 0 <= i < j < |r|
      ensures r[i].magnitude >= r[j].magnitude
    {
      assert r[j] == rest[j - 1];
      if i == 0 {
        assert rest[j - 1] in multiset(rest);
      } else {
        assert r[i] == rest[i - 1];
      }
    }
  }

  lemma TopLargestStepBound(data: seq<QuakeEntry>, top: QuakeEntry, rest: seq<QuakeEntry>)
    requires forall x :: x in multiset(data) ==> x.magnitude <= top.magnitude
    requires forall i, x :: 0 <= i < |rest| && x in multiset(data) - multiset{top} - multiset(rest) ==> x.magnitude <= rest[i].magnitude
    ensures LeftOutNoLarger(data, [top] + rest)
  {
    var r := [top] + rest;
    assert multiset(r) == multiset{top} + multiset(rest);
    forall i, x | 0 <= i < |r| && x in multiset(data) - multiset(r)
      ensures x.magnitude <= r[i].magnitude
    {
      if i > 0 {
        assert r[i] == rest[i - 1];
        assert x in multiset(data) - multiset{top} - multiset(rest);
      }
    }
  }

  /** One round of the loop as written. */
  lemma LargestRunRound(copy: seq<QuakeEntry>, data: seq<QuakeEntry>, howMany: int, m: int)
    requires 0 < |data| <= |copy| && howMany > 0 && m == IndexOfLargest(Some(data))
    ensures 0 <= m < |data|
    ensures LargestRun(copy, data, howMany) == Prefixed([copy[m]], LargestRun(copy, RemoveAt(data, m), howMany - 1))
  {
  }

  // ---------------------------------------------------------------------
  // Where the code and its documentation part ways

  /** Magnitudes [5, 3, 4], two wanted: the second round indexes the snapshot
      with a position found in the shrunken list and returns 3 instead of 4. */
  lemma GetLargestMissesSecondLargest()
    ensures var e5 := NewQuakeEntry(0.0, 0.0, 5.0, "", 0.0);
            var e3 := NewQuakeEntry(0.0, 0.0, 3.0, "", 0.0);
            var e4 := NewQuakeEntry(0.0, 0.0, 4.0, "", 0.0);
            && LargestRun([e5, e3, e4], [e5, e3, e4], 2) == (Success([e5, e3]), [e3])
            && TopLargest([e5, e3, e4], 2) == [e5, e4]
  {
    var e5 := NewQuakeEntry(0.0, 0.0, 5.0, "", 0.0);
    var e3 := NewQuakeEntry(0.0, 0.0, 3.0, "", 0.0);
    var e4 := NewQuakeEntry(0.0, 0.0, 4.0, "", 0.0);
    var s := [e5, e3, e4];
    assert IndexOfLargest(Some(s)) == 0 by {
      assert ScanLargest(s, 1, 0) == ScanLargest(s, 2, 0) == ScanLargest(s, 3, 0) == 0;
    }
    assert RemoveAt(s, 0) == [e3, e4];
    assert IndexOfLargest(Some([e3, e4])) == 1 by {
      assert ScanLargest([e3, e4], 1, 0) == ScanLargest([e3, e4], 2, 1) == 1;
    }
    assert RemoveAt([e3, e4], 1) == [e3];
    LargestRunRound(s, s, 2, 0);
    LargestRunRound(s, [e3, e4], 1, 1);
    assert LargestRun(s, [e3], 0) == (Success([]), [e3]);
    assert [e5] + ([e3] + []) == [e5, e3];
    TopLargestPicksFour(e5, e3, e4);
  }

  lemma TopLargestPicksFour(e5: QuakeEntry, e3: QuakeEntry, e4: QuakeEntry)
    requires e5.magnitude == 5.0 && e3.magnitude == 3.0 && e4.magnitude == 4.0
    ensures TopLargest([e5, e3, e4], 2) == [e5, e4]
  {
    var s := [e5, e3, e4];
    assert IndexOfLargest(Some(s)) == 0 by {
      assert ScanLargest(s, 1, 0) == ScanLargest(s, 2, 0) == ScanLargest(s, 3, 0) == 0;
    }
    assert RemoveAt(s, 0) == [e3, e4];
    assert IndexOfLargest(Some([e3, e4])) == 1 by {
      assert ScanLargest([e3, e4], 1, 0) == ScanLargest([e3, e4], 2, 1) == 1;
    }
    assert TopLargest([e3, e4], 1) == [e4] + TopLargest(RemoveAt([e3, e4], 1), 0);
    assert TopLargest(s, 2) == [e5] + TopLargest([e3, e4], 1);
  }

  /** Magnitudes [9, 7, 1, 8], three wanted: the output [9, 1, 9] is not in
      descending order and returns one record twice. */
  lemma GetLargestUnsortedWithRepeat()
    ensures var e9 := NewQuakeEntry(0.0, 0.0, 9.0, "", 0.0);
            var e7 := NewQuakeEntry(0.0, 0.0, 7.0, "", 0.0);
            var e1 := NewQuakeEntry(0.0, 0.0, 1.0, "", 0.0);
            var e8 := NewQuakeEntry(0.0, 0.0, 8.0, "", 0.0);
            LargestRun([e9, e7, e1, e8], [e9, e7, e1, e8], 3) == (Success([e9, e1, e9]), [e1])
  {
    var e9 := NewQuakeEntry(0.0, 0.0, 9.0, "", 0.0);
    var e7 := NewQuakeEntry(0.0, 0.0, 7.0, "", 0.0);
    var e1 := NewQuakeEntry(0.0, 0.0, 1.0, "", 0.0);
    var e8 := NewQuakeEntry(0.0, 0.0, 8.0, "", 0.0);
    var s := [e9, e7, e1, e8];
    assert IndexOfLargest(Some(s)) == 0 by {
      assert ScanLargest(s, 1, 0) == ScanLargest(s, 2, 0) == ScanLargest(s, 3, 0) == ScanLargest(s, 4, 0) == 0;
    }
    assert RemoveAt(s, 0) == [e7, e1, e8];
    assert IndexOfLargest(Some([e7, e1, e8])) == 2 by {
      var t := [e7, e1, e8];
      assert ScanLargest(t, 1, 0) == ScanLargest(t, 2, 0) == ScanLargest(t, 3, 2) == 2;
    }
    assert RemoveAt([e7, e1, e8], 2) == [e7, e1];
    assert IndexOfLargest(Some([e7, e1])) == 0 by {
      assert ScanLargest([e7, e1], 1, 0) == ScanLargest([e7, e1], 2, 0) == 0;
    }
    assert RemoveAt([e7, e1], 0) == [e1];
    LargestRunRound(s, s, 3, 0);
    LargestRunRound(s, [e7, e1, e8], 2, 2);
    LargestRunRound(s, [e7, e1], 1, 0);
    assert LargestRun(s, [e1], 0) == (Success([]), [e1]);
    assert [e9] + ([e1] + ([e9] + [])) == [e9, e1, e9];
  }

  /** Asking for more records than the list holds empties the caller's list
      and then fails on `get(-1)`, where the documentation promises every record. */
  lemma GetLargestFailsWhenTooMany(e: QuakeEntry)
    ensures LargestRun([e], [e], 2) == (Failure(IndexOutOfBounds), [])
    ensures TopLargest([e], 2) == [e]
  {
    assert RemoveAt([e], 0) == [];
  }
}
