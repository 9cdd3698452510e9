/**
The median-cut quantiser of mklogo.py over its list of boxes.
*/
module MedianCut {
  import opened Bytes
  import opened PngFilter
  import opened Colours

  type Boxes = seq<Box>

  /** All colours of the boxes, box after box. */
  function Flat(boxes: Boxes): (colours: Box) {
    if boxes == [] then [] else boxes[0] + Flat(boxes[1..])
  }

  lemma {:induction false} FlatAppend(a: Boxes, b: Boxes)
    ensures Flat(a + b) == Flat(a) + Flat(b)
  {
    if a == [] {
      assert a + b == b;
    } else {
      assert (a + b)[0] == a[0] && (a + b)[1..] == a[1..] + b;
      FlatAppend(a[1..], b);
      assert a[0] + (Flat(a[1..]) + Flat(b)) == a[0] + Flat(a[1..]) + Flat(b);
    }
  }

  lemma FlatOne(a: Box)
    ensures Flat([a]) == a
  {
  }

  lemma FlatTwo(a: Box, b: Box)
    ensures Flat([a, b]) == a + b
  {
    var boxes: Boxes := [a, b];
    assert boxes[1..] == [b];
    FlatOne(b);
  }

  /** The boxes are non-empty and hold every colour exactly once between them. */
  ghost predicate Partition(boxes: Boxes, colours: set<Pixel>) {
    && (forall i :: 0 <= i < |boxes| ==> boxes[i] != [])
    && multiset(Flat(boxes)) == multiset(colours)
  }

  // ----- the box to split -----

  /** The comparison of keys (spread, population, -index). */
  predicate KeyGreater(spreadA: int, populationA: int, a: int, spreadB: int, populationB: int, b: int) {
    spreadA > spreadB || (spreadA == spreadB && (populationA > populationB || (populationA == populationB && -a > -b)))
  }

  predicate Better(hist: Histogram, boxes: Boxes, i: nat, j: nat)
    requires i < |boxes| && j < |boxes| && boxes[i] != [] && boxes[j] != []
  {
    KeyGreater(Spread(boxes[i]), Population(hist, boxes[i]), i, Spread(boxes[j]), Population(hist, boxes[j]), j)
  }

  /** Among the first k boxes, i is the one with the greatest key of those that can be split. */
  ghost predicate IsBest(hist: Histogram, boxes: Boxes, k: nat, i: nat) {
    && i < k <= |boxes| && |boxes[i]| >= 2
    && forall j :: 0 <= j < k && j != i && |boxes[j]| >= 2 ==> Better(hist, boxes, i, j)
  }

  /** The box chosen has the greatest range; among those the most pixels; among those it comes first. */
  lemma BestMeans(hist: Histogram, boxes: Boxes, i: nat, j: nat)
    requires IsBest(hist, boxes, |boxes|, i) && j < |boxes| && j != i && |boxes[j]| >= 2
    ensures var spread, other := Spread(boxes[i]), Spread(boxes[j]);
      var pixels, others := Population(hist, boxes[i]), Population(hist, boxes[j]);
      other < spread || (other == spread && (others < pixels || (others == pixels && i < j)))
  {
    hide Spread, Population;
  }

  lemma BestUnique(hist: Histogram, boxes: Boxes, k: nat, i: nat, j: nat)
    requires IsBest(hist, boxes, k, i) && IsBest(hist, boxes, k, j)
    ensures i == j
  {
  }

  /** The loop over the boxes. */
  method FindBest(hist: Histogram, boxes: Boxes) returns (best: Option<nat>)
    requires forall i :: 0 <= i < |boxes| ==> boxes[i] != []
    ensures best.None? <==> forall i :: 0 <= i < |boxes| ==> |boxes[i]| < 2
    ensures best.Some? ==> IsBest(hist, boxes, |boxes|, best.value)
  {
    hide Spread, Population;
    best := None;
    var bestSpread, bestPopulation := 0, 0;
    for i := 0 to |boxes|
      invariant best.None? ==> forall j :: 0 <= j < i ==> |boxes[j]| < 2
      invariant best.Some? ==> IsBest(hist, boxes, i, best.value)
      invariant best.Some? ==>
        bestSpread == Spread(boxes[best.value]) && bestPopulation == Population(hist, boxes[best.value])
    {
      var box := boxes[i];
      if |box| >= 2 {
        var spread, population := Spread(box), Population(hist, box);
        if best.None? || KeyGreater(spread, population, i, bestSpread, bestPopulation, best.value) {
          best, bestSpread, bestPopulation := Some(i), spread, population;
        }
      }
    }
  }

  // ----- one split -----

  /** The two halves of a box: sorted along its widest channel and cut at the population median. */
  ghost predicate Halves(hist: Histogram, box: Box, a: Box, b: Box) {
    && |box| >= 2
    && var s := SortBy(Widest(box), box);
      && a + b == s
      && exists j :: IsMedian(hist, s, j) && |a| == CutAt(j, |box|)
  }

  /** There is only one way to halve a box. */
  lemma HalvesUnique(hist: Histogram, box: Box, a: Box, b: Box, c: Box, d: Box)
    requires Halves(hist, box, a, b) && Halves(hist, box, c, d)
    ensures a == c && b == d
  {
    hide Widest, SortBy, Population;
    var s := SortBy(Widest(box), box);
    var j :| IsMedian(hist, s, j) && |a| == CutAt(j, |box|);
    var k :| IsMedian(hist, s, k) && |c| == CutAt(k, |box|);
    MedianUnique(hist, s, j, k);
    assert a == s[..|a|] && b == s[|a|..] && c == s[..|c|] && d == s[|c|..];
  }

  lemma HalvesKeep(hist: Histogram, box: Box, a: Box, b: Box)
    requires Halves(hist, box, a, b)
    ensures a != [] && b != [] && multiset(a + b) == multiset(box)
  {
    hide Widest, SortBy, IsMedian;
    SortBySorts(Widest(box), box);
  }

  method Split(hist: Histogram, box: Box) returns (a: Box, b: Box)
    requires |box| >= 2
    ensures Halves(hist, box, a, b)
  {
    hide Widest, SortBy, IsMedian;
    var s := SortBy(Widest(box), box);
    SortBySorts(Widest(box), box);
    var cut := FindCut(hist, s);
    a, b := s[..cut], s[cut..];
  }

  /** One turn of the loop: the best box is replaced by its halves, in its place. */
  ghost predicate CutStep(hist: Histogram, boxes: Boxes, after: Boxes) {
    exists i: nat, a, b ::
      && i < |boxes| && IsBest(hist, boxes, |boxes|, i)
      && Halves(hist, boxes[i], a, b)
      && after == boxes[..i] + [a, b] + boxes[i + 1..]
  }

  lemma SameMiddle(before: Box, middle: Box, other: Box, later: Box)
    requires multiset(middle) == multiset(other)
    ensures multiset(before + middle + later) == multiset(before + other + later)
  {
  }

  lemma FlatAround(boxes: Boxes, i: nat, a: Box, b: Box)
    requires i < |boxes| && multiset(a + b) == multiset(boxes[i])
    ensures multiset(Flat(boxes[..i] + [a, b] + boxes[i + 1..])) == multiset(Flat(boxes))
  {
    hide Flat;
    var before, later := boxes[..i], boxes[i + 1..];
    FlatAppend(before + [a, b], later);
    FlatAppend(before, [a, b]);
    FlatTwo(a, b);
    assert boxes == before + [boxes[i]] + later;
    FlatAppend(before + [boxes[i]], later);
    FlatAppend(before, [boxes[i]]);
    FlatOne(boxes[i]);
    SameMiddle(Flat(before), a + b, boxes[i], Flat(later));
  }

  /** A step keeps the boxes a partition and adds exactly one. */
  lemma StepKeepsPartition(hist: Histogram, boxes: Boxes, after: Boxes, colours: set<Pixel>)
    requires Partition(boxes, colours) && CutStep(hist, boxes, after)
    ensures Partition(after, colours) && |after| == |boxes| + 1
  {
    hide Halves, IsMedian, Spread, Population, Flat;
    var i: nat, a, b :| i < |boxes| && IsBest(hist, boxes, |boxes|, i) && Halves(hist, boxes[i], a, b)
      && after == boxes[..i] + [a, b] + boxes[i + 1..];
    HalvesKeep(hist, boxes[i], a, b);
    FlatAround(boxes, i, a, b);
    forall k | 0 <= k < |after|
      ensures after[k] != []
    {
      assert after[k] == if k < i then boxes[k] else if k == i then a else if k == i + 1 then b else boxes[k - 1];
    }
  }

  lemma StepUnique(hist: Histogram, boxes: Boxes, after: Boxes, other: Boxes)
    requires CutStep(hist, boxes, after) && CutStep(hist, boxes, other)
    ensures after == other
  {
    hide Halves, IsMedian, IsBest;
    var i: nat, a, b :| i < |boxes| && IsBest(hist, boxes, |boxes|, i) && Halves(hist, boxes[i], a, b)
      && after == boxes[..i] + [a, b] + boxes[i + 1..];
    var j: nat, c, d :| j < |boxes| && IsBest(hist, boxes, |boxes|, j) && Halves(hist, boxes[j], c, d)
      && other == boxes[..j] + [c, d] + boxes[j + 1..];
    BestUnique(hist, boxes, |boxes|, i, j);
    HalvesUnique(hist, boxes[i], a, b, c, d);
  }

  /** Pigeonhole: with more colours than boxes, some box can be split. */
  lemma {:induction false} SomeBoxSplits(boxes: Boxes)
    requires |Flat(boxes)| > |boxes|
    ensures exists i :: 0 <= i < |boxes| && |boxes[i]| >= 2
  {
    if boxes != [] && |boxes[0]| < 2 {
      SomeBoxSplits(boxes[1..]);
      var i :| 0 <= i < |boxes[1..]| && |boxes[1..][i]| >= 2;
      assert |boxes[i + 1]| >= 2;
    }
  }

  // ----- the whole cut -----

  /** The boxes after some number of steps from the first one. */
  ghost predicate CutTo(hist: Histogram, first: Boxes, boxes: Boxes)
    decreases |boxes|
  {
    boxes == first ||
    exists before :: |before| < |boxes| && CutTo(hist, first, before) && CutStep(hist, before, boxes)
  }

  /** Of each length there is only one list of boxes that can be reached. */
  lemma {:induction false} CutToUnique(hist: Histogram, first: Boxes, a: Boxes, b: Boxes, colours: set<Pixel>)
    requires Partition(first, colours)
    requires CutTo(hist, first, a) && CutTo(hist, first, b) && |a| == |b|
    ensures a == b && Partition(a, colours)
    decreases |a|
  {
    hide CutStep, Partition;
    CutToGrows(hist, first, a, colours);
    CutToGrows(hist, first, b, colours);
    if a != first && b != first {
      var c :| |c| < |a| && CutTo(hist, first, c) && CutStep(hist, c, a);
      var d :| |d| < |b| && CutTo(hist, first, d) && CutStep(hist, d, b);
      CutToGrows(hist, first, c, colours);
      CutToGrows(hist, first, d, colours);
      StepKeepsPartition(hist, c, a, colours);
      StepKeepsPartition(hist, d, b, colours);
      CutToUnique(hist, first, c, d, colours);
      StepUnique(hist, c, a, b);
    }
  }

  lemma {:induction false} CutToGrows(hist: Histogram, first: Boxes, a: Boxes, colours: set<Pixel>)
    requires Partition(first, colours) && CutTo(hist, first, a)
    ensures Partition(a, colours) && |a| >= |first| && (|a| == |first| ==> a == first)
    decreases |a|
  {
    hide CutStep, Partition;
    if a != first {
      var c :| |c| < |a| && CutTo(hist, first, c) && CutStep(hist, c, a);
      CutToGrows(hist, first, c, colours);
      StepKeepsPartition(hist, c, a, colours);
    }
  }

  /**
  The splitting loop. The break is never taken while there are more colours than boxes, so the loop ends
  with exactly the number of boxes asked for.
  */
  method CutBoxes(hist: Histogram, keys: Box, limit: nat, ghost colours: set<Pixel>) returns (boxes: Boxes)
    requires multiset(keys) == multiset(colours) && |colours| > limit
    ensures CutTo(hist, [SortBy(0, keys)], boxes)
    ensures Partition(boxes, colours)
    ensures |boxes| == if limit >= 1 then limit else 1
  {
    hide Halves, IsBest, Flat, SortBy, CutStep;
    boxes := [SortBy(0, keys)];
    ghost var first := boxes;
    FirstBox(keys, colours);
    while |boxes| < limit
      invariant CutTo(hist, first, boxes) && Partition(boxes, colours)
      invariant |boxes| <= limit || |boxes| == 1
      invariant |boxes| >= 1
      decreases limit - |boxes|
    {
      assert |multiset(Flat(boxes))| == |Flat(boxes)| && |multiset(colours)| == |colours|;
      SomeBoxSplits(boxes);
      var best := FindBest(hist, boxes);
      if best.None? {
        break;
      }
      BestIndex(hist, boxes, best.value);
      var a, b := Split(hist, boxes[best.value]);
      ghost var before := boxes;
      boxes := boxes[..best.value] + [a, b] + boxes[best.value + 1..];
      StepTaken(hist, before, best.value, a, b, boxes);
      StepKeepsPartition(hist, before, boxes, colours);
    }
  }

  lemma BestIndex(hist: Histogram, boxes: Boxes, i: nat)
    requires IsBest(hist, boxes, |boxes|, i)
    ensures i < |boxes| && |boxes[i]| >= 2
  {
  }

  lemma StepTaken(hist: Histogram, boxes: Boxes, i: nat, a: Box, b: Box, after: Boxes)
    requires IsBest(hist, boxes, |boxes|, i) && i < |boxes| && Halves(hist, boxes[i], a, b)
    requires after == boxes[..i] + [a, b] + boxes[i + 1..]
    ensures CutStep(hist, boxes, after)
  {
  }

  lemma FirstBox(keys: Box, colours: set<Pixel>)
    requires multiset(keys) == multiset(colours) && colours != {}
    ensures Partition([SortBy(0, keys)], colours)
  {
    hide SortBy;
    SortBySorts(0, keys);
    var s := SortBy(0, keys);
    FlatOne(s);
    assert |multiset(keys)| == |keys| && |multiset(colours)| == |colours|;
  }
}
