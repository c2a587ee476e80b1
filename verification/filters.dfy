/** The record predicates of the filter package: one variant per Filter
    class, evaluated by `Satisfies`. */
module Filters {
  import opened JavaString
  import opened Quake

  /** `Location.distanceTo`, whose numerics are not part of this model. */
  type Distance = (Location, Location) -> real

  datatype Filter =
    | MagnitudeFilter(minMag: real, maxMag: real)
    | DepthFilter(minDepth: real, maxDepth: real)
    | DistanceFilter(origin: Location, maxDistance: real)
    | PhraseFilter(typeOfRequest: string, phraseToSearch: string)
    | MatchAllFilter(filters: seq<Filter>)

  /** A MatchAllFilter object, whose state is its list of filters. */
  type MatchAll = f: Filter | f.MatchAllFilter? witness MatchAllFilter([])

  /** The `switch` of PhraseFilter.satisfies on the request kind. */
  predicate PhraseMatches(typeOfRequest: string, phrase: string, title: string) {
    if typeOfRequest == "start" then StartsWith(title, phrase)
    else if typeOfRequest == "end" then EndsWith(title, phrase)
    else if typeOfRequest == "any" then Contains(title, phrase)
    else false
  }

  /** `f.satisfies(qe)`, with `dist(a, b)` standing for `a.distanceTo(b)`. */
  predicate Satisfies(f: Filter, qe: QuakeEntry, dist: Distance)
    decreases f, 1
  {
    match f
    case MagnitudeFilter(minMag, maxMag) =>
      qe.magnitude >= minMag && qe.magnitude <= maxMag
    case DepthFilter(minDepth, maxDepth) =>
      if minDepth == 0.0 || maxDepth == 0.0 then true
      else qe.depth >= minDepth && qe.depth <= maxDepth
    case DistanceFilter(origin, maxDistance) =>
      dist(qe.location, origin) < maxDistance
    case PhraseFilter(typeOfRequest, phrase) =>
      PhraseMatches(typeOfRequest, phrase, qe.title)
    case MatchAllFilter(_) =>
      AllSatisfyFrom(f, 0, qe, dist)
  }

  /** The loop of MatchAllFilter.satisfies from position `k`: false at the
      first filter that rejects, true once the list is exhausted. */
  predicate AllSatisfyFrom(f: Filter, k: nat, qe: QuakeEntry, dist: Distance)
    requires f.MatchAllFilter? && k <= |f.filters|
    decreases f, 0, |f.filters| - k
  {
    if k == |f.filters| then true
    else if !Satisfies(f.filters[k], qe, dist) then false
    else AllSatisfyFrom(f, k + 1, qe, dist)
  }

  /** `new MatchAllFilter()`. */
  function NewMatchAll(): (m: MatchAll)
    ensures |m.filters| == 0
  {
    MatchAllFilter([])
  }

  /** `addFilter(f)`: appends `f`, keeping the earlier filters in order. */
  function AddFilter(m: MatchAll, f: Filter): (r: MatchAll)
    ensures |r.filters| == |m.filters| + 1
    ensures r.filters[..|m.filters|] == m.filters && r.filters[|m.filters|] == f
  {
    MatchAllFilter(m.filters + [f])
  }

  // ---------------------------------------------------------------------
  // MagnitudeFilter

  lemma MagnitudeFilterRange(minMag: real, maxMag: real, qe: QuakeEntry, dist: Distance)
    ensures Satisfies(MagnitudeFilter(minMag, maxMag), qe, dist) <==> minMag <= qe.magnitude <= maxMag
    ensures qe.magnitude == minMag && minMag <= maxMag ==> Satisfies(MagnitudeFilter(minMag, maxMag), qe, dist)
    ensures qe.magnitude == maxMag && minMag <= maxMag ==> Satisfies(MagnitudeFilter(minMag, maxMag), qe, dist)
    ensures minMag > maxMag ==> !Satisfies(MagnitudeFilter(minMag, maxMag), qe, dist)
  {
  }

  lemma MagnitudeFilterReadsMagnitudeOnly(minMag: real, maxMag: real, a: QuakeEntry, b: QuakeEntry, dist: Distance)
    requires a.magnitude == b.magnitude
    ensures Satisfies(MagnitudeFilter(minMag, maxMag), a, dist) == Satisfies(MagnitudeFilter(minMag, maxMag), b, dist)
  {
  }

  // ---------------------------------------------------------------------
  // DepthFilter

  lemma DepthFilterRange(minDepth: real, maxDepth: real, qe: QuakeEntry, dist: Distance)
    ensures minDepth == 0.0 || maxDepth == 0.0 ==> Satisfies(DepthFilter(minDepth, maxDepth), qe, dist)
    ensures minDepth != 0.0 && maxDepth != 0.0 ==>
              (Satisfies(DepthFilter(minDepth, maxDepth), qe, dist) <==> minDepth <= qe.depth <= maxDepth)
  {
  }

  /** Either zero bound switches the filter off: an upper bound of 0 does
      not cap the depth, so a record far below the lower bound passes. */
  lemma DepthFilterZeroUpperBoundAcceptsAll(qe: QuakeEntry, dist: Distance)
    requires qe.depth == -50000.0
    ensures Satisfies(DepthFilter(-10000.0, 0.0), qe, dist)
    ensures qe.depth < -10000.0
  {
  }

  lemma DepthFilterReadsDepthOnly(minDepth: real, maxDepth: real, a: QuakeEntry, b: QuakeEntry, dist: Distance)
    requires a.depth == b.depth
    ensures Satisfies(DepthFilter(minDepth, maxDepth), a, dist) == Satisfies(DepthFilter(minDepth, maxDepth), b, dist)
  {
  }

  // ---------------------------------------------------------------------
  // DistanceFilter

  lemma DistanceFilterStrict(origin: Location, maxDistance: real, qe: QuakeEntry, dist: Distance)
    ensures Satisfies(DistanceFilter(origin, maxDistance), qe, dist) <==> dist(qe.location, origin) < maxDistance
    ensures dist(qe.location, origin) == maxDistance ==> !Satisfies(DistanceFilter(origin, maxDistance), qe, dist)
    ensures dist(qe.location, origin) >= 0.0 && maxDistance <= 0.0 ==> !Satisfies(DistanceFilter(origin, maxDistance), qe, dist)
  {
  }

  lemma DistanceFilterReadsLocationOnly(origin: Location, maxDistance: real, a: QuakeEntry, b: QuakeEntry, dist: Distance)
    requires a.location == b.location
    ensures Satisfies(DistanceFilter(origin, maxDistance), a, dist) == Satisfies(DistanceFilter(origin, maxDistance), b, dist)
  {
  }

  // ---------------------------------------------------------------------
  // PhraseFilter

  lemma PhraseFilterDispatch(typeOfRequest: string, phrase: string, qe: QuakeEntry, dist: Distance)
    ensures typeOfRequest == "start" ==> (Satisfies(PhraseFilter(typeOfRequest, phrase), qe, dist) <==> StartsWith(qe.title, phrase))
    ensures typeOfRequest == "end" ==> (Satisfies(PhraseFilter(typeOfRequest, phrase), qe, dist) <==> EndsWith(qe.title, phrase))
    ensures typeOfRequest == "any" ==> (Satisfies(PhraseFilter(typeOfRequest, phrase), qe, dist) <==> Contains(qe.title, phrase))
    ensures typeOfRequest !in {"start", "end", "any"} ==> !Satisfies(PhraseFilter(typeOfRequest, phrase), qe, dist)
  {
  }

  /** A title that passes "start" or "end" also passes "any" for the same phrase. */
  lemma PhraseAnyIsWeakest(phrase: string, qe: QuakeEntry, dist: Distance)
    ensures Satisfies(PhraseFilter("start", phrase), qe, dist) ==> Satisfies(PhraseFilter("any", phrase), qe, dist)
    ensures Satisfies(PhraseFilter("end", phrase), qe, dist) ==> Satisfies(PhraseFilter("any", phrase), qe, dist)
  {
    if StartsWith(qe.title, phrase) {
      StartsWithImpliesContains(qe.title, phrase);
    }
    if EndsWith(qe.title, phrase) {
      EndsWithImpliesContains(qe.title, phrase);
    }
  }

  lemma PhraseEmptyAcceptsAll(qe: QuakeEntry, dist: Distance)
    ensures Satisfies(PhraseFilter("start", ""), qe, dist)
    ensures Satisfies(PhraseFilter("end", ""), qe, dist)
    ensures Satisfies(PhraseFilter("any", ""), qe, dist)
  {
    EmptyPhraseEverywhere(qe.title);
  }

  lemma PhraseFilterReadsTitleOnly(typeOfRequest: string, phrase: string, a: QuakeEntry, b: QuakeEntry, dist: Distance)
    requires a.title == b.title
    ensures Satisfies(PhraseFilter(typeOfRequest, phrase), a, dist) == Satisfies(PhraseFilter(typeOfRequest, phrase), b, dist)
  {
  }

  // ---------------------------------------------------------------------
  // MatchAllFilter

  /** The loop from position `k` accepts iff every filter from `k` on accepts. */
  lemma {:induction false} AllSatisfyFromIffEvery(f: Filter, k: nat, qe: QuakeEntry, dist: Distance)
    requires f.MatchAllFilter? && k <= |f.filters|
    ensures AllSatisfyFrom(f, k, qe, dist) <==> forall i :: k <= i < |f.filters| ==> Satisfies(f.filters[i], qe, dist)
    decreases |f.filters| - k
  {
    if k < |f.filters| {
      AllSatisfyFromIffEvery(f, k + 1, qe, dist);
    }
  }

  /** A MatchAllFilter accepts iff every filter it holds accepts. */
  lemma MatchAllIffEvery(m: MatchAll, qe: QuakeEntry, dist: Distance)
    ensures Satisfies(m, qe, dist) <==> forall i :: 0 <= i < |m.filters| ==> Satisfies(m.filters[i], qe, dist)
  {
    AllSatisfyFromIffEvery(m, 0, qe, dist);
  }

  lemma NewMatchAllAcceptsAll(qe: QuakeEntry, dist: Distance)
    ensures Satisfies(NewMatchAll(), qe, dist)
  {
  }

  /** Adding a filter conjoins it: the combination can only turn an accept into a reject. */
  lemma AddFilterConjoins(m: MatchAll, f: Filter, qe: QuakeEntry, dist: Distance)
    ensures Satisfies(AddFilter(m, f), qe, dist) <==> Satisfies(m, qe, dist) && Satisfies(f, qe, dist)
    ensures Satisfies(AddFilter(m, f), qe, dist) ==> Satisfies(m, qe, dist)
  {
    var r := AddFilter(m, f);
    MatchAllIffEvery(m, qe, dist);
    MatchAllIffEvery(r, qe, dist);
    assert forall i :: 0 <= i < |m.filters| ==> r.filters[i] == m.filters[i];
  }

  /** The verdict does not depend on the order in which filters were added. */
  lemma MatchAllOrderIrrelevant(fs: seq<Filter>, gs: seq<Filter>, qe: QuakeEntry, dist: Distance)
    requires multiset(fs) == multiset(gs)
    ensures Satisfies(MatchAllFilter(fs), qe, dist) == Satisfies(MatchAllFilter(gs), qe, dist)
  {
    MatchAllIffEvery(MatchAllFilter(fs), qe, dist);
    MatchAllIffEvery(MatchAllFilter(gs), qe, dist);
    forall i | 0 <= i < |gs|
      ensures gs[i] in multiset(fs)
    {
      assert gs[i] in multiset(gs);
    }
    forall i | 0 <= i < |fs|
      ensures fs[i] in multiset(gs)
    {
      assert fs[i] in multiset(fs);
    }
  }
}
