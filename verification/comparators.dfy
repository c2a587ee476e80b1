/** The record comparators of the sorting package, and the contract
    java.util.Comparator asks of them. */
module Comparators {
  import opened JavaString
  import opened Quake

  function Sign(x: int): int {
    if x < 0 then -1 else if x > 0 then 1 else 0
  }

  /** The Comparator contract: the sign flips when the arguments are swapped,
      "greater than" is transitive, and elements comparing as 0 are
      interchangeable on the left. */
  ghost predicate IsComparator<T(!new)>(cmp: (T, T) -> int) {
    && (forall x, y :: Sign(cmp(x, y)) == -Sign(cmp(y, x)))
    && (forall x, y, z :: cmp(x, y) > 0 && cmp(y, z) > 0 ==> cmp(x, z) > 0)
    && (forall x, y, z :: cmp(x, y) == 0 ==> Sign(cmp(x, z)) == Sign(cmp(y, z)))
  }

  /** DepthComparator.compare: ascending depth. */
  function DepthCompare(q1: QuakeEntry, q2: QuakeEntry): (r: int)
    ensures r in {-1, 0, 1}
  {
    if q1.depth < q2.depth then -1
    else if q1.depth > q2.depth then 1
    else 0
  }

  /** TitleComparator.compare: String.compareTo on the titles. */
  function TitleCompare(q1: QuakeEntry, q2: QuakeEntry): int
  {
    CompareStrings(q1.title, q2.title)
  }

  /** TitleAndDepthComparator.compare: titles first, depth to break a tie. */
  function TitleAndDepthCompare(q1: QuakeEntry, q2: QuakeEntry): (r: int)
    ensures r in {-1, 0, 1}
  {
    if CompareStrings(q1.title, q2.title) < 0 then -1
    else if CompareStrings(q1.title, q2.title) > 0 then 1
    else if CompareStrings(q1.title, q2.title) == 0 then
      if q1.depth < q2.depth then -1
      else if q1.depth > q2.depth then 1
      else 0
    else 0
  }

  // ---------------------------------------------------------------------
  // DepthComparator

  lemma DepthCompareOrder(a: QuakeEntry, b: QuakeEntry)
    ensures DepthCompare(a, b) < 0 <==> a.depth < b.depth
    ensures DepthCompare(a, b) > 0 <==> a.depth > b.depth
    ensures DepthCompare(a, b) == 0 <==> a.depth == b.depth
    ensures DepthCompare(a, b) == -DepthCompare(b, a)
  {
  }

  lemma DepthComparatorValid()
    ensures IsComparator(DepthCompare)
  {
  }

  // ---------------------------------------------------------------------
  // TitleComparator

  lemma TitleCompareOrder(a: QuakeEntry, b: QuakeEntry)
    ensures TitleCompare(a, b) < 0 <==> LexLess(a.title, b.title)
    ensures TitleCompare(a, b) == 0 <==> a.title == b.title
    ensures TitleCompare(a, b) == -TitleCompare(b, a)
    ensures |a.title| < |b.title| && a.title == b.title[..|a.title|] ==> TitleCompare(a, b) < 0
  {
    CompareNegativeIffLexLess(a.title, b.title);
    CompareZeroIffEqual(a.title, b.title);
    CompareAntisymmetric(a.title, b.title);
    if |a.title| < |b.title| && a.title == b.title[..|a.title|] {
      assert b.title == a.title + b.title[|a.title|..];
      ComparePrefix(a.title, b.title[|a.title|..]);
    }
  }

  lemma TitleComparatorValid()
    ensures IsComparator(TitleCompare)
  {
    forall x, y
      ensures Sign(TitleCompare(x, y)) == -Sign(TitleCompare(y, x))
    {
      CompareAntisymmetric(x.title, y.title);
    }
    forall x, y, z | TitleCompare(x, y) > 0 && TitleCompare(y, z) > 0
      ensures TitleCompare(x, z) > 0
    {
      CompareAntisymmetric(x.title, y.title);
      CompareAntisymmetric(y.title, z.title);
      CompareAntisymmetric(x.title, z.title);
      CompareTransitive(z.title, y.title, x.title);
    }
    forall x, y, z | TitleCompare(x, y) == 0
      ensures Sign(TitleCompare(x, z)) == Sign(TitleCompare(y, z))
    {
      CompareZeroIffEqual(x.title, y.title);
    }
  }

  // ---------------------------------------------------------------------
  // TitleAndDepthComparator

  lemma TitleAndDepthCompareOrder(a: QuakeEntry, b: QuakeEntry)
    ensures a.title != b.title ==> TitleAndDepthCompare(a, b) == Sign(TitleCompare(a, b)) != 0
    ensures a.title == b.title ==> TitleAndDepthCompare(a, b) == DepthCompare(a, b)
    ensures TitleAndDepthCompare(a, b) == 0 <==> a.title == b.title && a.depth == b.depth
  {
    CompareZeroIffEqual(a.title, b.title);
  }

  lemma TitleAndDepthComparatorValid()
    ensures IsComparator(TitleAndDepthCompare)
  {
    forall x, y
      ensures Sign(TitleAndDepthCompare(x, y)) == -Sign(TitleAndDepthCompare(y, x))
    {
      CompareAntisymmetric(x.title, y.title);
    }
    forall x, y, z | TitleAndDepthCompare(x, y) > 0 && TitleAndDepthCompare(y, z) > 0
      ensures TitleAndDepthCompare(x, z) > 0
    {
      CompareAntisymmetric(x.title, y.title);
      CompareAntisymmetric(y.title, z.title);
      CompareAntisymmetric(x.title, z.title);
      CompareZeroIffEqual(x.title, y.title);
      CompareZeroIffEqual(y.title, z.title);
      CompareZeroIffEqual(x.title, z.title);
      if CompareStrings(x.title, y.title) > 0 && CompareStrings(y.title, z.title) > 0 {
        CompareTransitive(z.title, y.title, x.title);
      }
    }
    forall x, y, z | TitleAndDepthCompare(x, y) == 0
      ensures Sign(TitleAndDepthCompare(x, z)) == Sign(TitleAndDepthCompare(y, z))
    {
      TitleAndDepthCompareOrder(x, y);
    }
  }
}
