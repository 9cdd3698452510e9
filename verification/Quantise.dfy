/**
quantise of mklogo.py: the histogram, the median cut, and the remapping of every pixel.
*/
module Quantise {
  import opened PngFilter
  import opened Colours
  import opened MedianCut

  type Rows = seq<seq<Pixel>>

  ghost function ColoursOf(rows: Rows): (s: set<Pixel>) {
    set c | c in Flat(rows)
  }

  /** The histogram counts exactly these pixels. */
  ghost predicate Counts(hist: Histogram, pixels: Box) {
    forall c :: (c in hist <==> c in pixels) && Count(hist, c) == multiset(pixels)[c]
  }

  /** The loops that fill the histogram. */
  method BuildHistogram(rows: Rows) returns (hist: Histogram)
    ensures Counts(hist, Flat(rows)) && hist.Keys == ColoursOf(rows)
  {
    hide Flat, Counts;
    hist := map[];
    CountNone();
    for y := 0 to |rows|
      invariant Counts(hist, Flat(rows[..y]))
    {
      var row := rows[y];
      ghost var before := Flat(rows[..y]);
      assert before + row[..0] == before;
      for x := 0 to |row|
        invariant Counts(hist, before + row[..x])
      {
        assert before + row[..x + 1] == (before + row[..x]) + [row[x]];
        CountOne(hist, before + row[..x], row[x]);
        hist := hist[row[x] := Count(hist, row[x]) + 1];
      }
      assert row[..|row|] == row;
      FlatAppend(rows[..y], [row]);
      FlatOne(row);
      assert rows[..y + 1] == rows[..y] + [row];
    }
    assert rows[..|rows|] == rows;
    CountedColours(rows, hist);
  }

  lemma CountNone()
    ensures Counts(map[], Flat([]))
  {
  }

  lemma CountedColours(rows: Rows, hist: Histogram)
    requires Counts(hist, Flat(rows))
    ensures hist.Keys == ColoursOf(rows)
  {
  }

  lemma CountOne(hist: Histogram, pixels: Box, c: Pixel)
    requires Counts(hist, pixels)
    ensures Counts(hist[c := Count(hist, c) + 1], pixels + [c])
  {
  }

  /** An arrangement of a set of colours; which one does not matter. */
  ghost predicate Lists(keys: Box, colours: set<Pixel>) {
    multiset(keys) == multiset(colours)
  }

  method ListKeys(colours: set<Pixel>) returns (keys: Box)
    ensures Lists(keys, colours)
  {
    keys := [];
    var left := colours;
    while left != {}
      invariant left <= colours && multiset(keys) + multiset(left) == multiset(colours)
      decreases left
    {
      var c :| c in left;
      left := left - {c};
      keys := keys + [c];
    }
  }

  lemma {:induction false} FlatMember(boxes: Boxes, i: nat, c: Pixel)
    requires i < |boxes| && c in boxes[i]
    ensures c in Flat(boxes)
  {
    if i > 0 {
      FlatMember(boxes[1..], i - 1, c);
    }
  }

  lemma {:induction false} FlatOwner(boxes: Boxes, c: Pixel) returns (i: nat)
    requires c in Flat(boxes)
    ensures i < |boxes| && c in boxes[i]
  {
    if c in boxes[0] {
      i := 0;
    } else {
      i := FlatOwner(boxes[1..], c);
      i := i + 1;
    }
  }

  /** No colour is in two boxes of a partition. */
  lemma {:induction false} OwnerUnique(boxes: Boxes, i: nat, j: nat, c: Pixel)
    requires i < j < |boxes| && c in boxes[i] && c in boxes[j]
    ensures multiset(Flat(boxes))[c] >= 2
  {
    assert multiset(Flat(boxes)) == multiset(boxes[0]) + multiset(Flat(boxes[1..]));
    if i == 0 {
      FlatMember(boxes[1..], j - 1, c);
    } else {
      OwnerUnique(boxes[1..], i - 1, j - 1, c);
    }
  }

  ghost predicate AllBoxesCounted(hist: Histogram, boxes: Boxes) {
    forall i :: 0 <= i < |boxes| ==> boxes[i] != [] && AllCounted(hist, boxes[i])
  }

  lemma PartitionCounted(hist: Histogram, boxes: Boxes, pixels: Box)
    requires Counts(hist, pixels) && Partition(boxes, hist.Keys)
    ensures AllBoxesCounted(hist, boxes)
  {
    forall i, k | 0 <= i < |boxes| && 0 <= k < |boxes[i]|
      ensures Count(hist, boxes[i][k]) > 0
    {
      FlatMember(boxes, i, boxes[i][k]);
      assert boxes[i][k] in multiset(Flat(boxes));
    }
  }

  /** The second colour is the representative of a box that holds the first. */
  ghost predicate Replaced(c: Pixel, rep: Pixel, hist: Histogram, boxes: Boxes)
    requires AllBoxesCounted(hist, boxes)
  {
    exists i :: 0 <= i < |boxes| && c in boxes[i] && rep == Representative(hist, boxes[i])
  }

  /** Every colour is mapped to the representative of its box. */
  ghost predicate Maps(mapping: map<Pixel, Pixel>, hist: Histogram, boxes: Boxes)
    requires AllBoxesCounted(hist, boxes)
  {
    && mapping.Keys == (set c | c in Flat(boxes))
    && forall c :: c in mapping ==> Replaced(c, mapping[c], hist, boxes)
  }

  /** The loop over the boxes that computes the representatives. */
  method MapBoxes(hist: Histogram, boxes: Boxes) returns (mapping: map<Pixel, Pixel>)
    requires AllBoxesCounted(hist, boxes)
    ensures Maps(mapping, hist, boxes)
  {
    hide Representative, AllCounted;
    mapping := map[];
    for i := 0 to |boxes|
      invariant Maps(mapping, hist, boxes[..i])
    {
      var rep := Representative(hist, boxes[i]);
      ghost var before := mapping;
      mapping := mapping + map c | c in boxes[i] :: rep;
      assert boxes[..i + 1] == boxes[..i] + [boxes[i]];
      MapsMore(before, mapping, hist, boxes[..i], boxes[i], rep);
    }
    assert boxes[..|boxes|] == boxes;
  }

  lemma MapsMore(before: map<Pixel, Pixel>, mapping: map<Pixel, Pixel>, hist: Histogram,
                 boxes: Boxes, box: Box, rep: Pixel)
    requires AllBoxesCounted(hist, boxes) && box != [] && AllCounted(hist, box)
    requires Maps(before, hist, boxes) && rep == Representative(hist, box)
    requires mapping == before + map c | c in box :: rep
    ensures AllBoxesCounted(hist, boxes + [box]) && Maps(mapping, hist, boxes + [box])
  {
    hide Representative, AllCounted;
    var more := boxes + [box];
    FlatAppend(boxes, [box]);
    FlatOne(box);
    forall c | c in mapping
      ensures Replaced(c, mapping[c], hist, more)
    {
      if c in box {
        assert more[|boxes|] == box;
      } else {
        var i :| 0 <= i < |boxes| && c in boxes[i] && before[c] == Representative(hist, boxes[i]);
        assert more[i] == boxes[i];
      }
    }
  }

  /** Every pixel becomes the representative of the box its colour is in. */
  ghost predicate Remapped(rows: Rows, out: Rows, hist: Histogram, boxes: Boxes) {
    && AllBoxesCounted(hist, boxes)
    && |out| == |rows|
    && (forall y :: 0 <= y < |rows| ==> |out[y]| == |rows[y]|)
    && forall y, x :: 0 <= y < |rows| && 0 <= x < |rows[y]| ==> Replaced(rows[y][x], out[y][x], hist, boxes)
  }

  /** The red, green and blue of a colour each lie in the range of a box. */
  ghost predicate Within(box: Box, c: Pixel) {
    exists low: Pixel, high: Pixel :: Ranges(box, low, high) &&
      low.0 <= c.0 <= high.0 && low.1 <= c.1 <= high.1 && low.2 <= c.2 <= high.2
  }

  lemma RepresentativeWithin(hist: Histogram, box: Box)
    requires box != [] && AllCounted(hist, box)
    ensures Within(box, Representative(hist, box))
  {
    hide AllCounted, Mean, Lowest, Highest, Ranges;
    var low, high := RangesOf(box);
    var rep := Representative(hist, box);
    assert rep == (Mean(hist, box, 0), Mean(hist, box, 1), Mean(hist, box, 2));
  }

  /** Some box holds the first colour and has the second in its range. */
  ghost predicate Near(c: Pixel, rep: Pixel, boxes: Boxes) {
    exists i :: 0 <= i < |boxes| && c in boxes[i] && Within(boxes[i], rep)
  }

  /** No channel of any remapped pixel leaves the range of a box that holds the pixel's own colour. */
  lemma RemappedInRange(rows: Rows, out: Rows, hist: Histogram, boxes: Boxes)
    requires Remapped(rows, out, hist, boxes)
    ensures forall y, x :: 0 <= y < |rows| && 0 <= x < |rows[y]| ==> Near(rows[y][x], out[y][x], boxes)
  {
    hide AllCounted, Representative, Within;
    forall y, x | 0 <= y < |rows| && 0 <= x < |rows[y]|
      ensures Near(rows[y][x], out[y][x], boxes)
    {
      var i :| 0 <= i < |boxes| && rows[y][x] in boxes[i] && out[y][x] == Representative(hist, boxes[i]);
      RepresentativeWithin(hist, boxes[i]);
    }
  }

  /** Some box holds the first colour, and the second is its mean red, green and blue, rounded down. */
  ghost predicate IsMean(c: Pixel, rep: Pixel, hist: Histogram, boxes: Boxes) {
    exists i :: 0 <= i < |boxes| && c in boxes[i] && MeanOf(hist, boxes[i], rep)
  }

  ghost predicate MeanOf(hist: Histogram, box: Box, rep: Pixel) {
    && Population(hist, box) > 0
    && rep.0 == Reds(hist, box) / Population(hist, box)
    && rep.1 == Greens(hist, box) / Population(hist, box)
    && rep.2 == Blues(hist, box) / Population(hist, box)
  }

  /** Every remapped pixel is the mean colour of a box that holds the pixel's own colour. */
  lemma RemappedMeans(rows: Rows, out: Rows, hist: Histogram, boxes: Boxes)
    requires Remapped(rows, out, hist, boxes)
    ensures forall y, x :: 0 <= y < |rows| && 0 <= x < |rows[y]| ==> IsMean(rows[y][x], out[y][x], hist, boxes)
  {
    hide AllCounted, Representative, MeanOf;
    forall y, x | 0 <= y < |rows| && 0 <= x < |rows[y]|
      ensures IsMean(rows[y][x], out[y][x], hist, boxes)
    {
      var i :| 0 <= i < |boxes| && rows[y][x] in boxes[i] && out[y][x] == Representative(hist, boxes[i]);
      MeanOfRepresentative(hist, boxes[i]);
    }
  }

  lemma MeanOfRepresentative(hist: Histogram, box: Box)
    requires box != [] && AllCounted(hist, box)
    ensures MeanOf(hist, box, Representative(hist, box))
  {
    hide Representative, AllCounted;
    RepresentativeMeans(hist, box);
  }

  lemma PixelInRows(rows: Rows, y: nat, x: nat)
    requires y < |rows| && x < |rows[y]|
    ensures rows[y][x] in Flat(rows)
  {
    FlatMember(rows, y, rows[y][x]);
  }

  function Representatives(hist: Histogram, boxes: Boxes): (reps: Box)
    requires forall i :: 0 <= i < |boxes| ==> boxes[i] != [] && AllCounted(hist, boxes[i])
  {
    seq(|boxes|, i requires 0 <= i < |boxes| => Representative(hist, boxes[i]))
  }

  lemma {:induction false} SetOfSeq(s: Box)
    ensures |set c | c in s| <= |s|
  {
    if s != [] {
      SetOfSeq(s[1..]);
      assert (set c | c in s) == {s[0]} + set c | c in s[1..];
    }
  }

  /** A remapped image has at most as many colours as there are boxes. */
  lemma FewColours(rows: Rows, out: Rows, hist: Histogram, boxes: Boxes)
    requires Remapped(rows, out, hist, boxes)
    ensures |ColoursOf(out)| <= |boxes|
  {
    hide Representative, AllCounted;
    var reps := Representatives(hist, boxes);
    var palette := set c | c in reps;
    forall c | c in ColoursOf(out)
      ensures c in palette
    {
      var y := FlatOwner(out, c);
      var x :| 0 <= x < |out[y]| && out[y][x] == c;
      var i :| 0 <= i < |boxes| && rows[y][x] in boxes[i] && out[y][x] == Representative(hist, boxes[i]);
      assert reps[i] == c;
    }
    SetOfSeq(reps);
    SubsetSize(ColoursOf(out), palette);
  }

  lemma {:induction false} SubsetSize(a: set<Pixel>, b: set<Pixel>)
    requires a <= b
    ensures |a| <= |b|
  {
    if a != {} {
      var c :| c in a;
      SubsetSize(a - {c}, b - {c});
    }
  }

  predicate InMapping(row: Box, mapping: map<Pixel, Pixel>) {
    forall x :: 0 <= x < |row| ==> row[x] in mapping
  }

  function RemapRow(row: Box, mapping: map<Pixel, Pixel>): (r: Box)
    requires InMapping(row, mapping)
    ensures |r| == |row| && forall x :: 0 <= x < |row| ==> r[x] == mapping[row[x]]
  {
    seq(|row|, x requires 0 <= x < |row| => mapping[row[x]])
  }

  /** The comprehension that builds the result. */
  method Remap(rows: Rows, mapping: map<Pixel, Pixel>, ghost hist: Histogram, ghost boxes: Boxes) returns (out: Rows)
    requires AllBoxesCounted(hist, boxes) && Maps(mapping, hist, boxes) && mapping.Keys == ColoursOf(rows)
    ensures Remapped(rows, out, hist, boxes)
  {
    hide Flat, Replaced, AllBoxesCounted;
    forall y, x | 0 <= y < |rows| && 0 <= x < |rows[y]|
      ensures rows[y][x] in mapping
    {
      PixelInRows(rows, y, x);
    }
    out := seq(|rows|, y requires 0 <= y < |rows| && InMapping(rows[y], mapping) => RemapRow(rows[y], mapping));
    forall y, x | 0 <= y < |rows| && 0 <= x < |rows[y]|
      ensures Replaced(rows[y][x], out[y][x], hist, boxes)
    {
      assert out[y][x] == mapping[rows[y][x]];
    }
  }

  /** The boxes the quantiser ends with: those the splitting loop reaches from the sorted colours. */
  ghost predicate FinalBoxes(rows: Rows, limit: nat, hist: Histogram, keys: Box, boxes: Boxes) {
    && Counts(hist, Flat(rows)) && Lists(keys, ColoursOf(rows))
    && CutTo(hist, [SortBy(0, keys)], boxes)
    && Partition(boxes, ColoursOf(rows))
    && |boxes| == if limit >= 1 then limit else 1
  }

  /**
  quantise. Few enough colours are left alone; otherwise the colours are cut into exactly limit boxes and
  every pixel becomes the representative of its box, so the result has at most limit colours.
  */
  method QuantiseRows(rows: Rows, limit: nat) returns (out: Rows)
    ensures |ColoursOf(rows)| <= limit ==> out == rows
    ensures |ColoursOf(rows)| > limit ==>
      exists hist, keys, boxes :: FinalBoxes(rows, limit, hist, keys, boxes) && Remapped(rows, out, hist, boxes)
    ensures |ColoursOf(out)| <= if limit >= 1 then limit else 1
  {
    hide Flat, SortBy, Representative, Counts, Remapped, CutTo, Maps, AllBoxesCounted;
    var hist := BuildHistogram(rows);
    if |hist| <= limit {
      return rows;
    }
    var keys := ListKeys(hist.Keys);
    var boxes := CutBoxes(hist, keys, limit, hist.Keys);
    PartitionCounted(hist, boxes, Flat(rows));
    var mapping := MapBoxes(hist, boxes);
    MappedKeys(mapping, hist, boxes, hist.Keys);
    out := Remap(rows, mapping, hist, boxes);
    FewColours(rows, out, hist, boxes);
    assert FinalBoxes(rows, limit, hist, keys, boxes);
  }

  lemma MappedKeys(mapping: map<Pixel, Pixel>, hist: Histogram, boxes: Boxes, colours: set<Pixel>)
    requires AllBoxesCounted(hist, boxes) && Maps(mapping, hist, boxes) && Partition(boxes, colours)
    ensures mapping.Keys == colours
  {
    forall c
      ensures c in mapping <==> c in colours
    {
      assert c in Flat(boxes) <==> c in multiset(Flat(boxes));
      assert c in multiset(colours) <==> c in colours;
    }
  }

  /**
  The result is a function of the picture alone: whatever order the colours are listed in, the boxes and
  the remapped picture are the same.
  */
  lemma QuantiseDetermined(rows: Rows, limit: nat, hist: Histogram, keys: Box, boxes: Boxes, out: Rows,
                           hist': Histogram, keys': Box, boxes': Boxes, out': Rows)
    requires FinalBoxes(rows, limit, hist, keys, boxes) && Remapped(rows, out, hist, boxes)
    requires FinalBoxes(rows, limit, hist', keys', boxes') && Remapped(rows, out', hist', boxes')
    requires ColoursOf(rows) != {}
    ensures boxes == boxes' && out == out'
  {
    hide SortBy, CutTo, Partition, Representative, AllBoxesCounted;
    assert hist == hist' by {
      assert forall c :: c in hist <==> c in hist';
      forall c | c in hist
        ensures hist[c] == hist'[c]
      {
        assert Count(hist, c) == Count(hist', c);
      }
    }
    SortByIndependent(0, keys, keys');
    FirstBox(keys, ColoursOf(rows));
    CutToUnique(hist, [SortBy(0, keys)], boxes, boxes', ColoursOf(rows));
    RemapUnique(rows, out, out', hist, boxes, ColoursOf(rows));
  }

  lemma RemapUnique(rows: Rows, out: Rows, other: Rows, hist: Histogram, boxes: Boxes, colours: set<Pixel>)
    requires Partition(boxes, colours)
    requires Remapped(rows, out, hist, boxes) && Remapped(rows, other, hist, boxes)
    ensures out == other
  {
    hide Representative, AllCounted, Flat;
    forall y, x | 0 <= y < |rows| && 0 <= x < |rows[y]|
      ensures out[y][x] == other[y][x]
    {
      var c := rows[y][x];
      var i :| 0 <= i < |boxes| && c in boxes[i] && out[y][x] == Representative(hist, boxes[i]);
      var j :| 0 <= j < |boxes| && c in boxes[j] && other[y][x] == Representative(hist, boxes[j]);
      if i < j {
        OwnerUnique(boxes, i, j, c);
      } else if j < i {
        OwnerUnique(boxes, j, i, c);
      }
      assert multiset(colours)[c] <= 1;
    }
    forall y | 0 <= y < |rows|
      ensures out[y] == other[y]
    {
    }
  }
}
