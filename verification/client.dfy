/** The list-level filters of service/EarthQuakeClient.java, whose
    `filterByMagnitude` is repeated verbatim in service/EarthQuakeClientImpl.java. */
module Client {
  import opened Outcomes
  import opened Seqs
  import opened Quake
  import opened Filters

  /** `filterByMagnitude(quakeData, magMin)`: a null list or a negative
      threshold is rejected; otherwise the records strictly above the
      threshold, in their original order. */
  function FilterByMagnitude(quakeData: Option<seq<QuakeEntry>>, magMin: real): (r: Result<seq<QuakeEntry>>)
    ensures quakeData.None? ==> r == Failure(IllegalArgument)
    ensures quakeData.Some? && magMin < 0.0 ==> r == Failure(IllegalArgument)
    ensures quakeData.Some? && magMin >= 0.0 ==> r.Success?
    ensures r.Success? ==> IsSubsequence(r.value, quakeData.value) && |r.value| <= |quakeData.value|
    ensures r.Success? ==> forall i :: 0 <= i < |r.value| ==> r.value[i].magnitude > magMin
    ensures r.Success? ==> forall e :: multiset(r.value)[e] == if e.magnitude > magMin then multiset(quakeData.value)[e] else 0
  {
    if quakeData.None? then Failure(IllegalArgument)
    else if magMin < 0.0 then Failure(IllegalArgument)
    else
      var above := (e: QuakeEntry) => e.magnitude > magMin;
      KeepSelects(quakeData.value, above);
      Success(Keep(quakeData.value, above))
  }

  /** `filterByDistanceFrom(quakeData, distMax, from)`: the records with
      `from.distanceTo(location) < distMax`, in their original order. */
  function FilterByDistanceFrom(quakeData: seq<QuakeEntry>, distMax: real, from: Location, dist: Distance): (r: seq<QuakeEntry>)
    ensures IsSubsequence(r, quakeData) && |r| <= |quakeData|
    ensures forall i :: 0 <= i < |r| ==> dist(from, r[i].location) < distMax
    ensures forall e :: multiset(r)[e] == if dist(from, e.location) < distMax then multiset(quakeData)[e] else 0
  {
    var near := (e: QuakeEntry) => dist(from, e.location) < distMax;
    KeepSelects(quakeData, near);
    Keep(quakeData, near)
  }

  /** The threshold 5.0 used by `bigQuakes` is strict: a magnitude-5.0
      record is left out although the log line speaks of "5.0 and above". */
  lemma BigQuakesExcludesFive(quakeData: seq<QuakeEntry>, e: QuakeEntry)
    requires e in quakeData && e.magnitude == 5.0
    ensures FilterByMagnitude(Some(quakeData), 5.0).Success?
    ensures e !in FilterByMagnitude(Some(quakeData), 5.0).value
  {
    var r := FilterByMagnitude(Some(quakeData), 5.0).value;
    assert multiset(r)[e] == 0;
  }

  /** With a symmetric distance the list filter keeps exactly what a
      DistanceFilter around the same point accepts; it measures from the
      origin to the record, the filter from the record to the origin. */
  lemma DistanceFromAgreesWithFilter(quakeData: seq<QuakeEntry>, distMax: real, from: Location, dist: Distance)
    requires forall a, b :: dist(a, b) == dist(b, a)
    ensures FilterByDistanceFrom(quakeData, distMax, from, dist)
            == Keep(quakeData, (e: QuakeEntry) => Satisfies(DistanceFilter(from, distMax), e, dist))
  {
    KeepAgrees(quakeData, (e: QuakeEntry) => dist(from, e.location) < distMax,
               (e: QuakeEntry) => Satisfies(DistanceFilter(from, distMax), e, dist));
  }

  /** Without symmetry the two can disagree. */
  lemma DistanceFromDisagreesWhenAsymmetric()
    ensures var from := Location(0.0, 0.0);
            var e := NewQuakeEntry(1.0, 1.0, 2.0, "", 0.0);
            var dist := (a: Location, b: Location) => if a == from then 0.0 else 10.0;
            FilterByDistanceFrom([e], 5.0, from, dist) == [e] && !Satisfies(DistanceFilter(from, 5.0), e, dist)
  {
    var from := Location(0.0, 0.0);
    var e := NewQuakeEntry(1.0, 1.0, 2.0, "", 0.0);
    var dist := (a: Location, b: Location) => if a == from then 0.0 else 10.0;
    assert [e][1..] == [];
  }
}
