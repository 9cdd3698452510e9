/**
Boxes of colours: their order, extents, populations and representatives, as mklogo.py computes them.
*/
module Colours {
  import opened Bytes
  import opened PngFilter

  type Histogram = map<Pixel, nat>

  type Box = seq<Pixel>

  function Count(hist: Histogram, c: Pixel): (n: nat) {
    if c in hist then hist[c] else 0
  }

  function Part(c: Pixel, ch: nat): (v: Byte) {
    if ch == 0 then c.0 else if ch == 1 then c.1 else c.2
  }

  // ----- order -----

  /** Tuples compare from the left. */
  predicate TupleLess(a: Pixel, b: Pixel) {
    a.0 < b.0 || (a.0 == b.0 && (a.1 < b.1 || (a.1 == b.1 && a.2 < b.2)))
  }

  /** The sort key: one channel, then the whole colour. */
  predicate Before(ch: nat, a: Pixel, b: Pixel) {
    a == b || Part(a, ch) < Part(b, ch) || (Part(a, ch) == Part(b, ch) && TupleLess(a, b))
  }

  ghost predicate Sorted(ch: nat, box: Box) {
    forall i, j :: 0 <= i < j < |box| ==> Before(ch, box[i], box[j])
  }

  /** Where one colour comes before another in the plain order of tuples. */
  ghost predicate Lexicographic(a: Pixel, b: Pixel) {
    a == b || a.0 < b.0 || (a.0 == b.0 && (a.1 < b.1 || (a.1 == b.1 && a.2 < b.2)))
  }

  /** The order a box is sorted in: by its red, green or blue, and among equals by the whole colour. */
  lemma SortedMeans(ch: nat, box: Box, i: nat, j: nat)
    requires ch < 3 && i < j < |SortBy(ch, box)|
    ensures var a, b := SortBy(ch, box)[i], SortBy(ch, box)[j];
      && (ch == 0 ==> a.0 < b.0 || (a.0 == b.0 && Lexicographic(a, b)))
      && (ch == 1 ==> a.1 < b.1 || (a.1 == b.1 && Lexicographic(a, b)))
      && (ch == 2 ==> a.2 < b.2 || (a.2 == b.2 && Lexicographic(a, b)))
  {
    SortBySorts(ch, box);
    hide SortBy;
  }

  lemma BeforeOrder(ch: nat, a: Pixel, b: Pixel, c: Pixel)
    ensures Before(ch, a, b) || Before(ch, b, a)
    ensures Before(ch, a, b) && Before(ch, b, a) ==> a == b
    ensures Before(ch, a, b) && Before(ch, b, c) ==> Before(ch, a, c)
  {
  }

  function Insert(ch: nat, c: Pixel, box: Box): (s: Box) {
    if box == [] || Before(ch, c, box[0]) then [c] + box else [box[0]] + Insert(ch, c, box[1..])
  }

  /** sorted(box, key=(c[ch], c)); for channel 0 this is the plain order of tuples. */
  function SortBy(ch: nat, box: Box): (s: Box) {
    if box == [] then [] else Insert(ch, box[0], SortBy(ch, box[1..]))
  }

  lemma {:induction false} InsertSorts(ch: nat, c: Pixel, box: Box)
    requires Sorted(ch, box)
    ensures Sorted(ch, Insert(ch, c, box)) && multiset(Insert(ch, c, box)) == multiset{c} + multiset(box)
  {
    hide Before;
    if box == [] {
    } else if Before(ch, c, box[0]) {
      forall j | 0 <= j < |box|
        ensures Before(ch, c, box[j])
      {
        BeforeOrder(ch, c, box[0], box[j]);
      }
    } else {
      var rest := Insert(ch, c, box[1..]);
      InsertSorts(ch, c, box[1..]);
      assert box == [box[0]] + box[1..];
      forall j | 0 <= j < |rest|
        ensures Before(ch, box[0], rest[j])
      {
        assert rest[j] in multiset(rest);
        BeforeOrder(ch, c, box[0], c);
      }
    }
  }

  lemma SortedEmpty(ch: nat)
    ensures Sorted(ch, [])
  {
  }

  /** Sorting orders a box and neither loses nor invents a colour. */
  lemma {:induction false} SortBySorts(ch: nat, box: Box)
    ensures Sorted(ch, SortBy(ch, box)) && multiset(SortBy(ch, box)) == multiset(box)
    ensures |SortBy(ch, box)| == |box|
  {
    hide Before, Insert, Sorted;
    SortedEmpty(ch);
    if box != [] {
      SortBySorts(ch, box[1..]);
      InsertSorts(ch, box[0], SortBy(ch, box[1..]));
      assert box == [box[0]] + box[1..];
    }
    assert |multiset(SortBy(ch, box))| == |SortBy(ch, box)| && |multiset(box)| == |box|;
  }

  /** The sorted arrangement is unique, so the result does not depend on the order the colours came in. */
  lemma {:induction false} SortedUnique(ch: nat, a: Box, b: Box)
    requires Sorted(ch, a) && Sorted(ch, b) && multiset(a) == multiset(b)
    ensures a == b
  {
    hide Before;
    assert |multiset(a)| == |a| && |multiset(b)| == |b|;
    if a != [] {
      FirstIsLeast(ch, a, b);
      FirstIsLeast(ch, b, a);
      BeforeOrder(ch, a[0], b[0], a[0]);
      TailColours(a);
      TailColours(b);
      SortedUnique(ch, a[1..], b[1..]);
      assert a == [a[0]] + a[1..] && b == [b[0]] + b[1..];
    }
  }

  lemma TailColours(a: Box)
    requires a != []
    ensures multiset(a[1..]) == multiset(a) - multiset{a[0]}
  {
    assert a == [a[0]] + a[1..];
  }

  lemma FirstIsLeast(ch: nat, a: Box, b: Box)
    requires Sorted(ch, a) && multiset(a) == multiset(b) && a != [] && b != []
    ensures Before(ch, a[0], b[0])
  {
    assert b[0] in multiset(a);
    var j :| 0 <= j < |a| && a[j] == b[0];
    BeforeOrder(ch, a[0], a[0], a[0]);
  }

  /** Whatever order the same colours come in, sorting gives the same box. */
  lemma SortByIndependent(ch: nat, a: Box, b: Box)
    requires multiset(a) == multiset(b)
    ensures SortBy(ch, a) == SortBy(ch, b)
  {
    hide Before, SortBy;
    SortBySorts(ch, a);
    SortBySorts(ch, b);
    SortedUnique(ch, SortBy(ch, a), SortBy(ch, b));
  }

  // ----- extents -----

  function Lowest(box: Box, ch: nat): (v: Byte)
    requires box != []
    ensures forall c :: c in box ==> v <= Part(c, ch)
    ensures exists c :: c in box && v == Part(c, ch)
  {
    if |box| == 1 then
      assert box[0] in box;
      Part(box[0], ch)
    else
      var m := Lowest(box[1..], ch);
      assert box[0] in box && forall c :: c in box <==> c == box[0] || c in box[1..];
      if Part(box[0], ch) <= m then Part(box[0], ch) else m
  }

  function Highest(box: Box, ch: nat): (v: Byte)
    requires box != []
    ensures forall c :: c in box ==> Part(c, ch) <= v
    ensures exists c :: c in box && v == Part(c, ch)
  {
    if |box| == 1 then
      assert box[0] in box;
      Part(box[0], ch)
    else
      var m := Highest(box[1..], ch);
      assert box[0] in box && forall c :: c in box <==> c == box[0] || c in box[1..];
      if Part(box[0], ch) >= m then Part(box[0], ch) else m
  }

  function Extent(box: Box, ch: nat): (e: nat)
    requires box != []
  {
    assert box[0] in box;
    Highest(box, ch) - Lowest(box, ch)
  }

  /** The position of the greatest of three; the first one in case of a tie. */
  function ArgMax(e0: int, e1: int, e2: int): (k: nat)
    ensures k < 3
  {
    if e0 >= e1 && e0 >= e2 then 0 else if e1 >= e2 then 1 else 2
  }

  function Widest(box: Box): (ch: nat)
    requires box != []
    ensures ch < 3
  {
    ArgMax(Extent(box, 0), Extent(box, 1), Extent(box, 2))
  }

  /** The channel split has the greatest extent, and among those the lowest number. */
  lemma WidestIsGreatest(box: Box, k: nat)
    requires box != [] && k < 3
    ensures Extent(box, k) <= Extent(box, Widest(box))
    ensures k < Widest(box) ==> Extent(box, k) < Extent(box, Widest(box))
  {
    hide Extent;
  }

  /** The least and the greatest red, green and blue of a box. */
  ghost predicate Ranges(box: Box, low: Pixel, high: Pixel) {
    && (forall c :: c in box ==> low.0 <= c.0 <= high.0 && low.1 <= c.1 <= high.1 && low.2 <= c.2 <= high.2)
    && (exists c :: c in box && c.0 == low.0) && (exists c :: c in box && c.0 == high.0)
    && (exists c :: c in box && c.1 == low.1) && (exists c :: c in box && c.1 == high.1)
    && (exists c :: c in box && c.2 == low.2) && (exists c :: c in box && c.2 == high.2)
  }

  lemma RangesOf(box: Box) returns (low: Pixel, high: Pixel)
    requires box != []
    ensures Ranges(box, low, high)
    ensures low == (Lowest(box, 0), Lowest(box, 1), Lowest(box, 2))
    ensures high == (Highest(box, 0), Highest(box, 1), Highest(box, 2))
  {
    hide Lowest, Highest;
    low, high := (Lowest(box, 0), Lowest(box, 1), Lowest(box, 2)), (Highest(box, 0), Highest(box, 1), Highest(box, 2));
    forall ch | 0 <= ch < 3
      ensures exists c :: c in box && Part(c, ch) == Lowest(box, ch)
      ensures exists c :: c in box && Part(c, ch) == Highest(box, ch)
    {
    }
    var c0 :| c0 in box && Part(c0, 0) == Lowest(box, 0);
    var c1 :| c1 in box && Part(c1, 1) == Lowest(box, 1);
    var c2 :| c2 in box && Part(c2, 2) == Lowest(box, 2);
    var d0 :| d0 in box && Part(d0, 0) == Highest(box, 0);
    var d1 :| d1 in box && Part(d1, 1) == Highest(box, 1);
    var d2 :| d2 in box && Part(d2, 2) == Highest(box, 2);
    forall c | c in box
      ensures low.0 <= c.0 <= high.0 && low.1 <= c.1 <= high.1 && low.2 <= c.2 <= high.2
    {
      assert Part(c, 0) == c.0 && Part(c, 1) == c.1 && Part(c, 2) == c.2;
    }
  }

  lemma RangesUnique(box: Box, low: Pixel, high: Pixel, low': Pixel, high': Pixel)
    requires Ranges(box, low, high) && Ranges(box, low', high')
    ensures low == low' && high == high'
  {
  }

  /** A box is split along its red, green or blue: the one with the greatest range, the first among equals. */
  lemma WidestMeans(box: Box, low: Pixel, high: Pixel)
    requires box != [] && Ranges(box, low, high)
    ensures var r, g, b := high.0 - low.0, high.1 - low.1, high.2 - low.2;
      && Widest(box) == (if r >= g && r >= b then 0 else if g >= b then 1 else 2)
      && Spread(box) == (if r >= g && r >= b then r else if g >= b then g else b)
  {
    hide Lowest, Highest, Ranges;
    var low', high' := RangesOf(box);
    RangesUnique(box, low, high, low', high');
  }

  function Spread(box: Box): (e: nat)
    requires box != []
  {
    Extent(box, Widest(box))
  }

  // ----- populations -----

  function Population(hist: Histogram, box: Box): (n: nat) {
    if box == [] then 0 else Population(hist, box[..|box| - 1]) + Count(hist, box[|box| - 1])
  }

  ghost predicate AllCounted(hist: Histogram, box: Box) {
    forall i :: 0 <= i < |box| ==> Count(hist, box[i]) > 0
  }

  lemma {:induction false} PopulationPositive(hist: Histogram, box: Box)
    requires AllCounted(hist, box)
    ensures Population(hist, box) >= |box|
  {
    if box != [] {
      PopulationPositive(hist, box[..|box| - 1]);
    }
  }

  /** The first position at which the running population reaches half of the total. */
  ghost predicate IsMedian(hist: Histogram, box: Box, j: nat) {
    && j < |box|
    && (j > 0 ==> Population(hist, box[..j]) * 2 < Population(hist, box))
    && Population(hist, box) <= Population(hist, box[..j + 1]) * 2
  }

  lemma {:induction false} PopulationMonotone(hist: Histogram, box: Box, i: nat, j: nat)
    requires i <= j <= |box|
    ensures Population(hist, box[..i]) <= Population(hist, box[..j])
    decreases j
  {
    if i < j {
      assert box[..j][..j - 1] == box[..j - 1];
      PopulationMonotone(hist, box, i, j - 1);
    }
  }

  /** Before it twice the running population stays below the total, from it on no longer. */
  lemma MedianIsFirst(hist: Histogram, box: Box, j: nat, k: nat)
    requires IsMedian(hist, box, j) && k < |box|
    ensures 2 * Population(hist, box[..k + 1]) >= Population(hist, box) <==> k >= j
  {
    if k < j {
      PopulationMonotone(hist, box, k + 1, j);
    } else {
      PopulationMonotone(hist, box, j + 1, k + 1);
    }
  }

  /** The population of a box is the number of pixels in it, colour by colour. */
  lemma {:induction false} PopulationOfConcat(hist: Histogram, a: Box, b: Box)
    ensures Population(hist, a + b) == Population(hist, a) + Population(hist, b)
    ensures |b| == 1 ==> Population(hist, b) == Count(hist, b[0])
    decreases |b|
  {
    assert Population(hist, []) == 0;
    if b == [] {
      assert a + b == a;
    } else {
      PopulationOfConcat(hist, a, b[..|b| - 1]);
      assert (a + b)[..|a + b| - 1] == a + b[..|b| - 1];
    }
  }

  lemma MedianUnique(hist: Histogram, box: Box, i: nat, j: nat)
    requires IsMedian(hist, box, i) && IsMedian(hist, box, j)
    ensures i == j
  {
    if i < j {
      PopulationMonotone(hist, box, i + 1, j);
    } else if j < i {
      PopulationMonotone(hist, box, j + 1, i);
    }
  }

  /** The cut before position j, moved inside the box so that both halves hold a colour. */
  function CutAt(j: nat, length: nat): (cut: nat)
    requires length >= 2
    ensures 1 <= cut <= length - 1
    ensures 1 <= j <= length - 1 ==> cut == j
    ensures j == 0 ==> cut == 1
    ensures j >= length ==> cut == length - 1
  {
    var low := if j >= 1 then j else 1;
    if low <= length - 1 then low else length - 1
  }

  /** The loop that looks for the population median. */
  method FindCut(hist: Histogram, box: Box) returns (cut: nat)
    requires |box| >= 2
    ensures exists j :: IsMedian(hist, box, j) && cut == CutAt(j, |box|)
  {
    assert box[..|box|] == box;
    var total := Population(hist, box);
    var run := 0;
    cut := 1;
    for k := 0 to |box|
      invariant run == Population(hist, box[..k])
      invariant k > 0 ==> run * 2 < total
    {
      assert box[..k + 1][..k] == box[..k];
      run := run + Count(hist, box[k]);
      if run * 2 >= total {
        assert IsMedian(hist, box, k);
        cut := CutAt(k, |box|);
        return;
      }
    }
    assert false;
  }

  // ----- representatives -----

  function WeightedSum(hist: Histogram, box: Box, ch: nat): (n: nat) {
    if box == [] then 0
    else WeightedSum(hist, box[..|box| - 1], ch) + (Part(box[|box| - 1], ch) as nat) * Count(hist, box[|box| - 1])
  }

  lemma {:induction false} WeightedSumBetween(hist: Histogram, box: Box, ch: nat, low: nat, high: nat)
    requires forall c :: c in box ==> low <= Part(c, ch) <= high
    ensures low * Population(hist, box) <= WeightedSum(hist, box, ch) <= high * Population(hist, box)
  {
    if box != [] {
      var init, c := box[..|box| - 1], box[|box| - 1];
      WeightedSumBetween(hist, init, ch, low, high);
      var n, v := Count(hist, c), Part(c, ch);
      assert c in box;
      Between(low, v, high, n, Population(hist, init));
    }
  }

  lemma Between(low: nat, v: nat, high: nat, n: nat, m: nat)
    requires low <= v <= high
    ensures low * n <= v * n <= high * n
    ensures low * (m + n) == low * m + low * n && high * (m + n) == high * m + high * n
  {
  }

  /** The mean of one channel over a box, weighted by population and rounded down, lies within the box. */
  function Mean(hist: Histogram, box: Box, ch: nat): (v: Byte)
    requires box != [] && AllCounted(hist, box)
    ensures Lowest(box, ch) <= v <= Highest(box, ch)
  {
    PopulationPositive(hist, box);
    WeightedSumBetween(hist, box, ch, Lowest(box, ch), Highest(box, ch));
    MeanBounds(WeightedSum(hist, box, ch), Population(hist, box), Lowest(box, ch), Highest(box, ch));
    WeightedSum(hist, box, ch) / Population(hist, box)
  }

  lemma MeanBounds(sum: nat, n: nat, low: nat, high: nat)
    requires n > 0 && low * n <= sum <= high * n
    ensures low <= sum / n <= high
  {
    var q := sum / n;
    assert q * n <= sum < (q + 1) * n;
    assert low * n < (q + 1) * n && q * n <= high * n;
    assert low < q + 1 && q <= high;
  }

  function Representative(hist: Histogram, box: Box): (rep: Pixel)
    requires box != [] && AllCounted(hist, box)
  {
    (Mean(hist, box, 0), Mean(hist, box, 1), Mean(hist, box, 2))
  }

  /** The reds of a box, each as often as it occurs; likewise the greens and the blues. */
  ghost function Reds(hist: Histogram, box: Box): (n: nat) {
    if box == [] then 0 else Reds(hist, box[1..]) + (box[0].0 as nat) * Count(hist, box[0])
  }

  ghost function Greens(hist: Histogram, box: Box): (n: nat) {
    if box == [] then 0 else Greens(hist, box[1..]) + (box[0].1 as nat) * Count(hist, box[0])
  }

  ghost function Blues(hist: Histogram, box: Box): (n: nat) {
    if box == [] then 0 else Blues(hist, box[1..]) + (box[0].2 as nat) * Count(hist, box[0])
  }

  lemma {:induction false} ComponentsAppend(hist: Histogram, box: Box, c: Pixel)
    ensures Reds(hist, box + [c]) == Reds(hist, box) + (c.0 as nat) * Count(hist, c)
    ensures Greens(hist, box + [c]) == Greens(hist, box) + (c.1 as nat) * Count(hist, c)
    ensures Blues(hist, box + [c]) == Blues(hist, box) + (c.2 as nat) * Count(hist, c)
  {
    if box == [] {
      assert [c][1..] == [] && [] + [c] == [c];
    } else {
      ComponentsAppend(hist, box[1..], c);
      assert (box + [c])[1..] == box[1..] + [c];
    }
  }

  lemma {:induction false} WeightedSums(hist: Histogram, box: Box)
    ensures WeightedSum(hist, box, 0) == Reds(hist, box)
    ensures WeightedSum(hist, box, 1) == Greens(hist, box)
    ensures WeightedSum(hist, box, 2) == Blues(hist, box)
  {
    if box != [] {
      var init := box[..|box| - 1];
      WeightedSums(hist, init);
      ComponentsAppend(hist, init, box[|box| - 1]);
      assert init + [box[|box| - 1]] == box;
    }
  }

  /** The representative is the mean red, green and blue over the pixels of the box, each rounded down. */
  lemma RepresentativeMeans(hist: Histogram, box: Box)
    requires box != [] && AllCounted(hist, box)
    ensures var n, rep := Population(hist, box), Representative(hist, box);
      && n > 0
      && rep.0 == Reds(hist, box) / n && rep.1 == Greens(hist, box) / n && rep.2 == Blues(hist, box) / n
  {
    PopulationPositive(hist, box);
    WeightedSums(hist, box);
    hide WeightedSum, Population, Reds, Greens, Blues;
  }
}
