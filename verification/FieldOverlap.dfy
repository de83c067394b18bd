/** Detection of fields that are placed on top of each other. Coordinates are exact. */
module FieldOverlap {
  import opened Counting

  datatype Field = Field(
    id: string,
    envelopeItemId: string,
    page: int,
    positionX: real,
    positionY: real,
    width: real,
    height: real)

  datatype Pair = Pair(fieldA: Field, fieldB: Field, overlapRatio: real)

  /** A pair of indices. */
  datatype At = At(i: nat, j: nat)

  const FIELD_OVERLAP_THRESHOLD: real := 0.4

  function Min(a: real, b: real): real {
    if a <= b then a else b
  }

  function Max(a: real, b: real): real {
    if a >= b then a else b
  }

  /** The length that the intervals of the given starts and extents share. */
  function Shared(a: real, aExtent: real, b: real, bExtent: real): real {
    Max(0.0, Min(a + aExtent, b + bExtent) - Max(a, b))
  }

  function OverlapX(a: Field, b: Field): real {
    Shared(a.positionX, a.width, b.positionX, b.width)
  }

  function OverlapY(a: Field, b: Field): real {
    Shared(a.positionY, a.height, b.positionY, b.height)
  }

  function IntersectionArea(a: Field, b: Field): real {
    OverlapX(a, b) * OverlapY(a, b)
  }

  function Area(f: Field): real {
    f.width * f.height
  }

  predicate Comparable(a: Field, b: Field) {
    a.envelopeItemId == b.envelopeItemId && a.page == b.page && Area(a) > 0.0 && Area(b) > 0.0 &&
    IntersectionArea(a, b) > 0.0
  }

  function Ratio(a: Field, b: Field): real
    requires Comparable(a, b)
  {
    IntersectionArea(a, b) / Min(Area(a), Area(b))
  }

  predicate Qualifies(a: Field, b: Field, threshold: real) {
    Comparable(a, b) && Ratio(a, b) >= threshold
  }

  ghost predicate Overlapping(fields: seq<Field>, threshold: real) {
    exists i, j :: 0 <= i < j < |fields| && Qualifies(fields[i], fields[j], threshold)
  }

  // ----- the loop over all pairs -----

  /** The index pairs of the first `i` rows that qualify, row by row. */
  function IndexPairs(fields: seq<Field>, threshold: real, i: nat): seq<At>
    requires i <= |fields|
  {
    if i == 0 then [] else IndexPairs(fields, threshold, i - 1) + RowPairs(fields, threshold, i - 1, |fields|)
  }

  function RowPairs(fields: seq<Field>, threshold: real, i: nat, jEnd: nat): seq<At>
    requires i < |fields| && jEnd <= |fields|
  {
    if jEnd <= i + 1 then []
    else
      RowPairs(fields, threshold, i, jEnd - 1) +
      if Qualifies(fields[i], fields[jEnd - 1], threshold) then [At(i, jEnd - 1)] else []
  }

  /** A reported pair is the pair of fields at these indices, with its ratio. */
  ghost predicate Reports(fields: seq<Field>, pair: Pair, at: At) {
    && at.i < at.j < |fields|
    && Comparable(fields[at.i], fields[at.j])
    && pair == Pair(fields[at.i], fields[at.j], Ratio(fields[at.i], fields[at.j]))
  }

  ghost predicate ReportsAll(fields: seq<Field>, pairs: seq<Pair>, ats: seq<At>) {
    |pairs| == |ats| && forall k :: 0 <= k < |ats| ==> Reports(fields, pairs[k], ats[k])
  }

  lemma NotReported(fields: seq<Field>, threshold: real, i: nat, j: nat)
    requires i < j < |fields| && !Qualifies(fields[i], fields[j], threshold)
    ensures RowPairs(fields, threshold, i, j + 1) == RowPairs(fields, threshold, i, j)
  {
  }

  lemma Reported(fields: seq<Field>, pairs: seq<Pair>, above: seq<At>, threshold: real, i: nat, j: nat)
    requires i < j < |fields| && Qualifies(fields[i], fields[j], threshold)
    requires ReportsAll(fields, pairs, above + RowPairs(fields, threshold, i, j))
    ensures ReportsAll(fields, pairs + [Pair(fields[i], fields[j], Ratio(fields[i], fields[j]))],
                       above + RowPairs(fields, threshold, i, j + 1))
  {
    var row := RowPairs(fields, threshold, i, j);
    assert above + RowPairs(fields, threshold, i, j + 1) == above + row + [At(i, j)];
  }

  method OverlappingFieldPairs(fields: seq<Field>, threshold: real := FIELD_OVERLAP_THRESHOLD)
    returns (pairs: seq<Pair>)
    ensures ReportsAll(fields, pairs, IndexPairs(fields, threshold, |fields|))
    ensures exists ats :: ReportsCovered(fields, pairs, ats, threshold)
  {
    pairs := [];
    for i := 0 to |fields|
      invariant ReportsAll(fields, pairs, IndexPairs(fields, threshold, i))
    {
      ghost var above := IndexPairs(fields, threshold, i);
      for j := i + 1 to |fields|
        invariant ReportsAll(fields, pairs, above + RowPairs(fields, threshold, i, j))
      {
        var fieldA, fieldB := fields[i], fields[j];
        if !Qualifies(fieldA, fieldB, threshold) {
          NotReported(fields, threshold, i, j);
        }
        if fieldA.envelopeItemId != fieldB.envelopeItemId || fieldA.page != fieldB.page {
          continue;
        }
        var fieldAArea, fieldBArea := Area(fieldA), Area(fieldB);
        if fieldAArea <= 0.0 || fieldBArea <= 0.0 {
          continue;
        }
        var intersectionArea := IntersectionArea(fieldA, fieldB);
        if intersectionArea <= 0.0 {
          continue;
        }
        var overlapRatio := intersectionArea / Min(fieldAArea, fieldBArea);
        assert overlapRatio == Ratio(fieldA, fieldB);
        if overlapRatio >= threshold {
          Reported(fields, pairs, above, threshold, i, j);
          pairs := pairs + [Pair(fieldA, fieldB, overlapRatio)];
        }
      }
    }
    ReportedAreCovered(fields, pairs, threshold);
  }

  method HasOverlappingFields(fields: seq<Field>, threshold: real := FIELD_OVERLAP_THRESHOLD) returns (found: bool)
    ensures found <==> Overlapping(fields, threshold)
    ensures found <==> SomeCovered(fields, threshold)
  {
    var pairs := OverlappingFieldPairs(fields, threshold);
    found := |pairs| > 0;
    OverlappingIndices(fields, threshold);
    OverlappingExactly(fields, threshold);
  }

  ghost predicate Before(a: At, b: At) {
    a.i < b.i || (a.i == b.i && a.j < b.j)
  }

  ghost predicate StrictlySorted(ats: seq<At>) {
    forall k, l :: 0 <= k < l < |ats| ==> Before(ats[k], ats[l])
  }

  lemma {:induction false} RowPairsExact(fields: seq<Field>, threshold: real, i: nat, jEnd: nat)
    requires i < |fields| && jEnd <= |fields|
    ensures forall at :: at in RowPairs(fields, threshold, i, jEnd) <==>
              at.i == i < at.j < jEnd && Qualifies(fields[i], fields[at.j], threshold)
    ensures StrictlySorted(RowPairs(fields, threshold, i, jEnd))
  {
    if jEnd > i + 1 {
      RowPairsExact(fields, threshold, i, jEnd - 1);
    }
  }

  lemma {:induction false} IndexPairsExact(fields: seq<Field>, threshold: real, i: nat)
    requires i <= |fields|
    ensures forall at :: at in IndexPairs(fields, threshold, i) <==>
              at.i < i && at.i < at.j < |fields| && Qualifies(fields[at.i], fields[at.j], threshold)
    ensures StrictlySorted(IndexPairs(fields, threshold, i))
  {
    if i > 0 {
      IndexPairsExact(fields, threshold, i - 1);
      RowPairsExact(fields, threshold, i - 1, |fields|);
      var above, row := IndexPairs(fields, threshold, i - 1), RowPairs(fields, threshold, i - 1, |fields|);
      forall k, l | 0 <= k < l < |above + row|
        ensures Before((above + row)[k], (above + row)[l])
      {
        assert k < |above| ==> above[k] in above;
        assert l >= |above| ==> row[l - |above|] in row;
      }
    }
  }

  /** The reported index pairs are exactly the qualifying ones, each once, in lexicographic order. */
  lemma ExactlyTheQualifyingPairs(fields: seq<Field>, threshold: real)
    ensures var ats := IndexPairs(fields, threshold, |fields|);
            && StrictlySorted(ats)
            && forall i: nat, j: nat :: At(i, j) in ats <==>
                 i < j < |fields| && Qualifies(fields[i], fields[j], threshold)
  {
    IndexPairsExact(fields, threshold, |fields|);
  }

  // ----- raising the threshold -----

  ghost predicate Subsequence<T>(a: seq<T>, b: seq<T>) {
    if a == [] then true
    else if b == [] then false
    else if a[|a| - 1] == b[|b| - 1] then Subsequence(a[..|a| - 1], b[..|b| - 1])
    else Subsequence(a, b[..|b| - 1])
  }

  /** A strictly sorted sequence whose elements all occur in another one is a subsequence of it. */
  lemma {:induction false} SortedSubset(a: seq<At>, b: seq<At>)
    requires StrictlySorted(a) && StrictlySorted(b) && forall x :: x in a ==> x in b
    ensures Subsequence(a, b)
  {
    if a != [] {
      var x := a[|a| - 1];
      assert x in a;
      var y := b[|b| - 1];
      assert a == a[..|a| - 1] + [x] && b == b[..|b| - 1] + [y];
      if x == y {
        forall k | 0 <= k < |a| - 1
          ensures a[k] in b[..|b| - 1]
        {
          assert a[k] in b && Before(a[k], x);
        }
        SortedSubset(a[..|a| - 1], b[..|b| - 1]);
      } else {
        forall k | 0 <= k < |a|
          ensures a[k] in b[..|b| - 1]
        {
          assert a[k] in b && (k < |a| - 1 ==> Before(a[k], x));
          assert Before(x, y);
        }
        SortedSubset(a, b[..|b| - 1]);
      }
    }
  }

  /** A higher threshold reports a subsequence of what a lower one does. */
  lemma RaisingTheThreshold(fields: seq<Field>, low: real, high: real)
    requires low <= high
    ensures Subsequence(IndexPairs(fields, high, |fields|), IndexPairs(fields, low, |fields|))
  {
    ExactlyTheQualifyingPairs(fields, low);
    ExactlyTheQualifyingPairs(fields, high);
    forall at | at in IndexPairs(fields, high, |fields|)
      ensures at in IndexPairs(fields, low, |fields|)
    {
      assert At(at.i, at.j) == at;
    }
    SortedSubset(IndexPairs(fields, high, |fields|), IndexPairs(fields, low, |fields|));
  }

  // ----- geometry -----

  /** Intervals that share something both have a positive extent, and share at most the shorter one. */
  lemma SharedBounds(a: real, aExtent: real, b: real, bExtent: real)
    ensures var s := Shared(a, aExtent, b, bExtent);
            s > 0.0 ==> 0.0 < s <= aExtent && s <= bExtent
    ensures var s := Shared(a, aExtent, b, bExtent);
            s > 0.0 ==> (s == aExtent <==> b <= a && a + aExtent <= b + bExtent)
  {
  }

  /** `inner` lies within `outer`, edges included. */
  ghost predicate Within(inner: Field, outer: Field) {
    && outer.positionX <= inner.positionX && inner.positionX + inner.width <= outer.positionX + outer.width
    && outer.positionY <= inner.positionY && inner.positionY + inner.height <= outer.positionY + outer.height
  }

  /** A product of smaller positive factors is smaller, and equal only if both factors are. */
  lemma ProductBound(x: real, y: real, w: real, h: real)
    requires 0.0 < x <= w && 0.0 < y <= h
    ensures 0.0 < x * y <= w * h
    ensures x * y == w * h <==> x == w && y == h
  {
    assert w * h - x * y == (w - x) * h + x * (h - y);
  }

  lemma ProductSign(x: real, y: real)
    requires x >= 0.0 && y >= 0.0 && x * y > 0.0
    ensures x > 0.0 && y > 0.0
  {
  }

  lemma AreaBound(a: Field, b: Field)
    requires IntersectionArea(a, b) > 0.0
    ensures IntersectionArea(a, b) <= Area(a)
    ensures IntersectionArea(a, b) == Area(a) <==> Within(a, b)
  {
    var x, y := OverlapX(a, b), OverlapY(a, b);
    ProductSign(x, y);
    SharedBounds(a.positionX, a.width, b.positionX, b.width);
    SharedBounds(a.positionY, a.height, b.positionY, b.height);
    ProductBound(x, y, a.width, a.height);
  }

  lemma IntersectionSymmetric(a: Field, b: Field)
    ensures IntersectionArea(a, b) == IntersectionArea(b, a)
  {
  }

  lemma QuotientBound(part: real, whole: real)
    requires 0.0 < part <= whole
    ensures 0.0 < part / whole <= 1.0
    ensures part / whole == 1.0 <==> part == whole
  {
    assert part / whole * whole == part;
  }

  /**
   * Whatever the signs of widths and heights, the ratio of a pair that is compared lies in (0, 1], and is 1 exactly
   * when one of the two fields lies within the other.
   */
  lemma RatioInUnitInterval(a: Field, b: Field)
    requires Comparable(a, b)
    ensures 0.0 < Ratio(a, b) <= 1.0
    ensures Ratio(a, b) == 1.0 <==> Within(a, b) || Within(b, a)
    ensures a.width > 0.0 && a.height > 0.0 && b.width > 0.0 && b.height > 0.0
  {
    IntersectionSymmetric(a, b);
    AreaBound(a, b);
    AreaBound(b, a);
    ProductSign(OverlapX(a, b), OverlapY(a, b));
    QuotientBound(IntersectionArea(a, b), Min(Area(a), Area(b)));
  }

  lemma QualifiesSymmetric(a: Field, b: Field, threshold: real)
    ensures Qualifies(a, b, threshold) <==> Qualifies(b, a, threshold)
  {
    IntersectionSymmetric(a, b);
  }

  function Translated(f: Field, dx: real, dy: real): Field {
    f.(positionX := f.positionX + dx, positionY := f.positionY + dy)
  }

  lemma QualifiesTranslated(a: Field, b: Field, dx: real, dy: real, threshold: real)
    ensures Qualifies(Translated(a, dx, dy), Translated(b, dx, dy), threshold) <==> Qualifies(a, b, threshold)
  {
    SharedTranslated(a.positionX, a.width, b.positionX, b.width, dx);
    SharedTranslated(a.positionY, a.height, b.positionY, b.height, dy);
    QualifiesByMeasures(a, b, Translated(a, dx, dy), Translated(b, dx, dy), threshold);
  }

  lemma SharedTranslated(a: real, aExtent: real, b: real, bExtent: real, d: real)
    ensures Shared(a + d, aExtent, b + d, bExtent) == Shared(a, aExtent, b, bExtent)
  {
  }

  lemma QualifiesByMeasures(a: Field, b: Field, c: Field, d: Field, threshold: real)
    requires a.envelopeItemId == c.envelopeItemId && a.page == c.page && Area(a) == Area(c)
    requires b.envelopeItemId == d.envelopeItemId && b.page == d.page && Area(b) == Area(d)
    requires IntersectionArea(a, b) == IntersectionArea(c, d)
    ensures Qualifies(a, b, threshold) <==> Qualifies(c, d, threshold)
  {
  }

  /** `to` rearranges the indices of a list of `n` elements. */
  ghost predicate IsPermutation(to: seq<nat>, n: nat) {
    && |to| == n
    && (forall i :: 0 <= i < n ==> to[i] < n)
    && (forall i, j :: 0 <= i < j < n ==> to[i] != to[j])
  }

  lemma OverlapSurvives(before: seq<Field>, after: seq<Field>, at: seq<nat>, threshold: real)
    requires Overlapping(after, threshold) && |at| == |after| == |before|
    requires IsPermutation(at, |before|)
    requires forall i :: 0 <= i < |after| ==> after[i] == before[at[i]]
    ensures Overlapping(before, threshold)
  {
    var i, j :| 0 <= i < j < |after| && Qualifies(after[i], after[j], threshold);
    QualifiesSymmetric(after[i], after[j], threshold);
    if at[i] < at[j] {
      assert Qualifies(before[at[i]], before[at[j]], threshold);
    } else {
      assert Qualifies(before[at[j]], before[at[i]], threshold);
    }
  }

  /** Whether any fields overlap does not depend on the order of the list or on where the page's origin is. */
  lemma OverlapIgnoresOrderAndOrigin(before: seq<Field>, after: seq<Field>, at: seq<nat>, dx: real, dy: real,
                                     threshold: real)
    requires IsPermutation(at, |before|) && |after| == |before|
    requires forall i :: 0 <= i < |after| ==> after[i] == Translated(before[at[i]], dx, dy)
    ensures Overlapping(after, threshold) <==> Overlapping(before, threshold)
  {
    var moved := seq(|before|, i requires 0 <= i < |before| => Translated(before[i], dx, dy));
    forall i, j | 0 <= i < j < |before|
      ensures Qualifies(moved[i], moved[j], threshold) <==> Qualifies(before[i], before[j], threshold)
    {
      QualifiesTranslated(before[i], before[j], dx, dy, threshold);
    }
    assert Overlapping(moved, threshold) <==> Overlapping(before, threshold) by {
      if i, j :| 0 <= i < j < |before| && Qualifies(before[i], before[j], threshold) {
        assert Qualifies(moved[i], moved[j], threshold);
      }
      if i, j :| 0 <= i < j < |moved| && Qualifies(moved[i], moved[j], threshold) {
        assert Qualifies(before[i], before[j], threshold);
      }
    }
    if Overlapping(after, threshold) {
      OverlapSurvives(moved, after, at, threshold);
    }
    if Overlapping(moved, threshold) {
      var back := Inverse(at);
      OverlapSurvives(after, moved, back, threshold);
    }
  }

  /** The position of each index in a permutation. */
  lemma Inverse(at: seq<nat>) returns (back: seq<nat>)
    requires IsPermutation(at, |at|)
    ensures IsPermutation(back, |at|)
    ensures forall i :: 0 <= i < |at| ==> at[back[i]] == i
  {
    Surjective(at);
    back := seq(|at|, i requires 0 <= i < |at| && i in at => IndexIn(at, i));
    forall i, j | 0 <= i < j < |at|
      ensures back[i] != back[j]
    {
      assert at[back[i]] == i && at[back[j]] == j;
    }
  }

  ghost function IndexIn(at: seq<nat>, x: nat): (k: nat)
    requires x in at
    ensures k < |at| && at[k] == x
  {
    var k :| 0 <= k < |at| && at[k] == x;
    k
  }

  // ----- overlap in plain terms -----

  ghost predicate Between(x: real, low: real, high: real) {
    low < x < high
  }

  /** The point lies in the field, and not on its edge. */
  ghost predicate Inside(f: Field, x: real, y: real) {
    Between(x, f.positionX, f.positionX + f.width) && Between(y, f.positionY, f.positionY + f.height)
  }

  /** The points inside both fields are those inside this rectangle. */
  ghost predicate IsCommonPart(a: Field, b: Field, left: real, top: real, width: real, height: real) {
    && width > 0.0 && height > 0.0
    && forall x, y :: Between(x, left, left + width) && Between(y, top, top + height) <==>
                      Inside(a, x, y) && Inside(b, x, y)
  }

  function SmallerArea(a: Field, b: Field): real {
    if a.width * a.height <= b.width * b.height then a.width * a.height else b.width * b.height
  }

  /** A common part of `part` times the smaller field. */
  ghost predicate IsPart(a: Field, b: Field, part: real, left: real, top: real, width: real, height: real) {
    IsCommonPart(a, b, left, top, width, height) && width * height == part * SmallerArea(a, b)
  }

  /** The fields share a part that is this share of the smaller one. */
  ghost predicate SharePart(a: Field, b: Field, part: real) {
    exists left, top, width, height :: IsPart(a, b, part, left, top, width, height)
  }

  /**
   * The fields are on the same page of the same item, have an area, and share a part that covers at least the
   * threshold of the smaller one.
   */
  ghost predicate CoverEnough(a: Field, b: Field, threshold: real) {
    && a.envelopeItemId == b.envelopeItemId && a.page == b.page
    && a.width * a.height > 0.0 && b.width * b.height > 0.0
    && exists part :: part >= threshold && SharePart(a, b, part)
  }

  lemma SameInterval(l: real, r: real, low: real, high: real)
    requires l < r && forall x :: Between(x, l, r) <==> Between(x, low, high)
    ensures low == l && high == r
  {
    assert Between((l + r) / 2.0, l, r);
    var x, y := (low + l) / 2.0, (high + r) / 2.0;
    assert Between(x, l, r) <==> Between(x, low, high);
    assert Between(y, l, r) <==> Between(y, low, high);
  }

  lemma SharedBetween(x: real, a: real, aExtent: real, b: real, bExtent: real)
    ensures Between(x, a, a + aExtent) && Between(x, b, b + bExtent) <==>
            Between(x, Max(a, b), Min(a + aExtent, b + bExtent))
  {
  }

  /** The common part is as wide and as high as computed. */
  lemma CommonPartIs(a: Field, b: Field, left: real, top: real, width: real, height: real)
    requires IsCommonPart(a, b, left, top, width, height)
    ensures OverlapX(a, b) == width && OverlapY(a, b) == height
  {
    var lowX, highX := Max(a.positionX, b.positionX), Min(a.positionX + a.width, b.positionX + b.width);
    var lowY, highY := Max(a.positionY, b.positionY), Min(a.positionY + a.height, b.positionY + b.height);
    var x0, y0 := left + width / 2.0, top + height / 2.0;
    assert Between(x0, left, left + width) && Between(y0, top, top + height);
    assert Inside(a, x0, y0) && Inside(b, x0, y0);
    forall x
      ensures Between(x, left, left + width) <==> Between(x, lowX, highX)
    {
      SharedBetween(x, a.positionX, a.width, b.positionX, b.width);
      assert Between(x, left, left + width) <==> Inside(a, x, y0) && Inside(b, x, y0);
    }
    SameInterval(left, left + width, lowX, highX);
    forall y
      ensures Between(y, top, top + height) <==> Between(y, lowY, highY)
    {
      SharedBetween(y, a.positionY, a.height, b.positionY, b.height);
      assert Between(y, top, top + height) <==> Inside(a, x0, y) && Inside(b, x0, y);
    }
    SameInterval(top, top + height, lowY, highY);
  }

  lemma SomeCommonPart(a: Field, b: Field)
    requires IntersectionArea(a, b) > 0.0
    ensures IsCommonPart(a, b, Max(a.positionX, b.positionX), Max(a.positionY, b.positionY),
                         OverlapX(a, b), OverlapY(a, b))
  {
    ProductSign(OverlapX(a, b), OverlapY(a, b));
    forall x, y
      ensures Between(x, Max(a.positionX, b.positionX), Max(a.positionX, b.positionX) + OverlapX(a, b)) &&
              Between(y, Max(a.positionY, b.positionY), Max(a.positionY, b.positionY) + OverlapY(a, b)) <==>
              Inside(a, x, y) && Inside(b, x, y)
    {
      SharedBetween(x, a.positionX, a.width, b.positionX, b.width);
      SharedBetween(y, a.positionY, a.height, b.positionY, b.height);
    }
  }

  lemma RatioIsShare(a: Field, b: Field)
    requires Comparable(a, b)
    ensures SharePart(a, b, Ratio(a, b))
  {
    SomeCommonPart(a, b);
    QuotientTimes(IntersectionArea(a, b), SmallerArea(a, b));
    assert IsPart(a, b, Ratio(a, b), Max(a.positionX, b.positionX), Max(a.positionY, b.positionY),
                  OverlapX(a, b), OverlapY(a, b));
  }

  lemma QuotientTimes(part: real, whole: real)
    requires whole > 0.0
    ensures part / whole * whole == part
  {
  }

  /** A share that was multiplied out is the quotient. */
  lemma ShareOf(share: real, part: real, whole: real)
    requires whole > 0.0 && part == share * whole
    ensures share == part / whole
  {
    QuotientTimes(part, whole);
    assert (share - part / whole) * whole == 0.0;
  }

  lemma ShareIsRatio(a: Field, b: Field, part: real)
    requires a.envelopeItemId == b.envelopeItemId && a.page == b.page && Area(a) > 0.0 && Area(b) > 0.0
    requires SharePart(a, b, part)
    ensures Comparable(a, b) && part == Ratio(a, b)
  {
    var left, top, width, height :| IsPart(a, b, part, left, top, width, height);
    CommonPartIs(a, b, left, top, width, height);
    ProductBound(width, height, width, height);
    ShareOf(part, width * height, SmallerArea(a, b));
  }

  lemma QualifiesExactly(a: Field, b: Field, threshold: real)
    ensures Qualifies(a, b, threshold) <==> CoverEnough(a, b, threshold)
  {
    if Qualifies(a, b, threshold) {
      RatioIsShare(a, b);
    }
    if CoverEnough(a, b, threshold) {
      var part :| part >= threshold && SharePart(a, b, part);
      ShareIsRatio(a, b, part);
    }
  }

  lemma OverlappingIndices(fields: seq<Field>, threshold: real)
    ensures Overlapping(fields, threshold) <==> IndexPairs(fields, threshold, |fields|) != []
  {
    ExactlyTheQualifyingPairs(fields, threshold);
    var ats := IndexPairs(fields, threshold, |fields|);
    if ats != [] {
      assert At(ats[0].i, ats[0].j) in ats;
    }
    if i, j :| 0 <= i < j < |fields| && Qualifies(fields[i], fields[j], threshold) {
      assert At(i, j) in ats;
    }
  }

  ghost predicate SomeCovered(fields: seq<Field>, threshold: real) {
    exists i, j :: 0 <= i < j < |fields| && CoverEnough(fields[i], fields[j], threshold)
  }

  lemma OverlappingExactly(fields: seq<Field>, threshold: real)
    ensures Overlapping(fields, threshold) <==> SomeCovered(fields, threshold)
  {
    if i, j :| 0 <= i < j < |fields| && Qualifies(fields[i], fields[j], threshold) {
      QualifiesExactly(fields[i], fields[j], threshold);
    }
    if i, j :| 0 <= i < j < |fields| && CoverEnough(fields[i], fields[j], threshold) {
      QualifiesExactly(fields[i], fields[j], threshold);
    }
  }

  /**
   * The pairs are those of the fields at the indices `ats`, row by row, each with the share that is covered; and
   * these are exactly the indices of fields that cover each other enough.
   */
  ghost predicate ReportsCovered(fields: seq<Field>, pairs: seq<Pair>, ats: seq<At>, threshold: real) {
    && StrictlySorted(ats) && |pairs| == |ats|
    && (forall k :: 0 <= k < |ats| ==>
          && ats[k].i < ats[k].j < |fields|
          && pairs[k].fieldA == fields[ats[k].i] && pairs[k].fieldB == fields[ats[k].j]
          && SharePart(pairs[k].fieldA, pairs[k].fieldB, pairs[k].overlapRatio))
    && forall i: nat, j: nat :: At(i, j) in ats <==>
         i < j < |fields| && CoverEnough(fields[i], fields[j], threshold)
  }

  lemma ReportedAreCovered(fields: seq<Field>, pairs: seq<Pair>, threshold: real)
    requires ReportsAll(fields, pairs, IndexPairs(fields, threshold, |fields|))
    ensures ReportsCovered(fields, pairs, IndexPairs(fields, threshold, |fields|), threshold)
  {
    var ats := IndexPairs(fields, threshold, |fields|);
    ExactlyTheQualifyingPairs(fields, threshold);
    forall k | 0 <= k < |ats|
      ensures SharePart(pairs[k].fieldA, pairs[k].fieldB, pairs[k].overlapRatio)
    {
      assert Reports(fields, pairs[k], ats[k]);
      RatioIsShare(fields[ats[k].i], fields[ats[k].j]);
    }
    forall i: nat, j: nat
      ensures At(i, j) in ats <==> i < j < |fields| && CoverEnough(fields[i], fields[j], threshold)
    {
      if i < j < |fields| {
        QualifiesExactly(fields[i], fields[j], threshold);
      }
    }
  }

  // ----- integer coordinates -----

  datatype Box = Box(x: int, y: int, width: int, height: int)

  ghost function Cells(box: Box): set<(int, int)> {
    Product(Range(box.x, box.x + box.width), Range(box.y, box.y + box.height))
  }

  ghost predicate HasBox(f: Field, box: Box) {
    && f.positionX == box.x as real && f.positionY == box.y as real
    && f.width == box.width as real && f.height == box.height as real
  }

  /** The number of integers in both ranges. */
  function Meeting(a: int, aExtent: int, b: int, bExtent: int): nat {
    var lo := if a >= b then a else b;
    var hi := if a + aExtent <= b + bExtent then a + aExtent else b + bExtent;
    if lo <= hi then hi - lo else 0
  }

  lemma SharedIsMeeting(s: real, sExtent: real, t: real, tExtent: real, a: int, aExtent: int, b: int, bExtent: int)
    requires s == a as real && sExtent == aExtent as real && t == b as real && tExtent == bExtent as real
    ensures Shared(s, sExtent, t, tExtent) == Meeting(a, aExtent, b, bExtent) as real
  {
  }

  lemma MeetingCounts(a: int, aExtent: int, b: int, bExtent: int)
    ensures |Range(a, a + aExtent) * Range(b, b + bExtent)| == Meeting(a, aExtent, b, bExtent)
  {
    var lo := if a >= b then a else b;
    var hi := if a + aExtent <= b + bExtent then a + aExtent else b + bExtent;
    CountRange(lo, hi);
    assert Range(a, a + aExtent) * Range(b, b + bExtent) == Range(lo, hi);
  }

  lemma AreaOfCounts(a: Field, b: Field, m: int, n: int)
    requires OverlapX(a, b) == m as real && OverlapY(a, b) == n as real
    ensures IntersectionArea(a, b) == (m * n) as real
  {
  }

  ghost function Columns(p: Box, q: Box): set<int> {
    Range(p.x, p.x + p.width) * Range(q.x, q.x + q.width)
  }

  ghost function Rows(p: Box, q: Box): set<int> {
    Range(p.y, p.y + p.height) * Range(q.y, q.y + q.height)
  }

  lemma SharedCells(p: Box, q: Box)
    ensures Cells(p) * Cells(q) == Product(Columns(p, q), Rows(p, q))
  {
  }

  lemma OverlapXCounts(a: Field, b: Field, p: Box, q: Box)
    requires HasBox(a, p) && HasBox(b, q)
    ensures OverlapX(a, b) == |Columns(p, q)| as real
  {
    SharedIsMeeting(a.positionX, a.width, b.positionX, b.width, p.x, p.width, q.x, q.width);
    MeetingCounts(p.x, p.width, q.x, q.width);
  }

  lemma OverlapYCounts(a: Field, b: Field, p: Box, q: Box)
    requires HasBox(a, p) && HasBox(b, q)
    ensures OverlapY(a, b) == |Rows(p, q)| as real
  {
    SharedIsMeeting(a.positionY, a.height, b.positionY, b.height, p.y, p.height, q.y, q.height);
    MeetingCounts(p.y, p.height, q.y, q.height);
  }

  /** On integer coordinates the intersection area counts the unit cells that lie in both rectangles. */
  lemma AreaCountsCells(a: Field, b: Field, p: Box, q: Box)
    requires HasBox(a, p) && HasBox(b, q)
    ensures IntersectionArea(a, b) == |Cells(p) * Cells(q)| as real
  {
    var columns, rows := Columns(p, q), Rows(p, q);
    OverlapXCounts(a, b, p, q);
    OverlapYCounts(a, b, p, q);
    AreaOfCounts(a, b, |columns|, |rows|);
    ProductCount(columns, rows);
    SharedCells(p, q);
  }
}
