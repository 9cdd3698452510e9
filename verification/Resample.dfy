/**
The exact area average of mklogo.py: integer weights that partition both the source and the destination.
*/
module Resample {
  import opened Bytes
  import opened Sums
  import opened PngFilter

  function Min(a: int, b: int): (m: int) {
    if a <= b then a else b
  }

  function Max(a: int, b: int): (m: int) {
    if a >= b then a else b
  }

  /**
  The overlap of destination cell d of dn with source cell s of sn, both laid over the same line: in units
  of which a destination cell has sn and a source cell dn.
  */
  function Overlap(d: int, s: int, dn: int, sn: int): (w: int)
    ensures w >= 0
  {
    Max(0, Min((d + 1) * sn, (s + 1) * dn) - Max(d * sn, s * dn))
  }

  /** How many of the units from a up to b lie in the interval from c up to d. */
  ghost function Shared(a: int, b: int, c: int, d: int): (n: nat)
    decreases b - a
  {
    if b <= a then 0 else Shared(a, b - 1, c, d) + if c <= b - 1 < d then 1 else 0
  }

  lemma {:induction false} SharedIs(a: int, b: int, c: int, d: int)
    requires c <= d
    ensures Shared(a, b, c, d) == Max(0, Min(b, d) - Max(a, c))
    decreases b - a
  {
    if a < b {
      SharedIs(a, b - 1, c, d);
    }
  }

  /** The line is dn * sn units long; the overlap is the number of units that lie in both cells. */
  lemma OverlapCounts(d: int, s: int, dn: nat, sn: nat)
    ensures Overlap(d, s, dn, sn) == Shared(d * sn, (d + 1) * sn, s * dn, (s + 1) * dn)
  {
    assert s * dn <= (s + 1) * dn by { assert (s + 1) * dn == s * dn + dn; }
    SharedIs(d * sn, (d + 1) * sn, s * dn, (s + 1) * dn);
  }

  /** It is symmetric in the two grids. */
  lemma OverlapSymmetric(d: int, s: int, dn: int, sn: int)
    ensures Overlap(d, s, dn, sn) == Overlap(s, d, sn, dn)
  {
  }

  function Clamp(t: int, low: int, high: int): (c: int) {
    if t <= low then low else if t >= high then high else t
  }

  /** The part of destination cell d that lies before position s * dn. */
  function Reach(d: int, dn: int, sn: int): (f: int -> int) {
    s => Clamp(s * dn, d * sn, (d + 1) * sn)
  }

  lemma OverlapIsDifference(d: int, s: int, dn: nat, sn: nat)
    requires dn > 0 && sn > 0
    ensures Overlap(d, s, dn, sn) == Reach(d, dn, sn)(s + 1) - Reach(d, dn, sn)(s)
  {
  }

  /** The weights of one destination cell, and of one source cell. */
  function Weights(d: int, dn: int, sn: int): (f: int -> int) {
    s => Overlap(d, s, dn, sn)
  }

  /** The weights of each destination cell sum to exactly the number of source cells. */
  lemma WeightsPartition(d: int, dn: nat, sn: nat)
    requires sn > 0 && 0 <= d < dn
    ensures Sum(Weights(d, dn, sn), sn) == sn
  {
    forall s | 0 <= s < sn
      ensures Weights(d, dn, sn)(s) == Reach(d, dn, sn)(s + 1) - Reach(d, dn, sn)(s)
    {
      OverlapIsDifference(d, s, dn, sn);
    }
    SumTelescopes(Reach(d, dn, sn), Weights(d, dn, sn), sn);
    ReachEnds(d, dn, sn);
  }

  /** Multiplying an inequality. */
  lemma Times(a: int, b: int, c: nat)
    requires a <= b
    ensures a * c <= b * c
  {
  }

  lemma ReachEnds(d: int, dn: nat, sn: nat)
    requires sn > 0 && 0 <= d < dn
    ensures Reach(d, dn, sn)(sn) - Reach(d, dn, sn)(0) == sn
  {
  }

  /** The cells the loop visits: from the floor of the start to the ceiling of the end. */
  function VisitFrom(d: nat, dn: nat, sn: nat): (s: nat)
    requires dn > 0
  {
    d * sn / dn
  }

  function VisitTo(d: nat, dn: nat, sn: nat): (s: nat)
    requires dn > 0
  {
    ((d + 1) * sn + dn - 1) / dn
  }

  lemma FloorBelow(a: nat, b: nat, s: int)
    requires b > 0
    ensures s >= a / b <==> (s + 1) * b > a
  {
    var q := a / b;
    assert q * b <= a < (q + 1) * b;
    if s >= q {
      assert (s + 1) * b >= (q + 1) * b;
    } else {
      assert (s + 1) * b <= q * b;
    }
  }

  lemma CeilingAbove(a: nat, b: nat, s: int)
    requires b > 0
    ensures s < (a + b - 1) / b <==> s * b < a
  {
    FloorBelow(a + b - 1, b, s);
    assert (s + 1) * b == s * b + b;
  }

  /** Two non-empty intervals overlap exactly when each starts before the other ends. */
  lemma OverlapPositive(d: int, s: int, dn: nat, sn: nat)
    requires dn > 0 && sn > 0
    ensures Overlap(d, s, dn, sn) > 0 <==> (s + 1) * dn > d * sn && s * dn < (d + 1) * sn
  {
  }

  /** The loop visits exactly the cells with a positive overlap ... */
  lemma VisitedIffPositive(d: nat, dn: nat, sn: nat, s: int)
    requires sn > 0 && d < dn
    ensures VisitFrom(d, dn, sn) <= s < VisitTo(d, dn, sn) <==> Overlap(d, s, dn, sn) > 0
  {
    hide Overlap, VisitFrom, VisitTo;
    OverlapPositive(d, s, dn, sn);
    VisitBounds(d, dn, sn, s);
  }

  lemma VisitBounds(d: nat, dn: nat, sn: nat, s: int)
    requires dn > 0
    ensures VisitFrom(d, dn, sn) <= s <==> (s + 1) * dn > d * sn
    ensures s < VisitTo(d, dn, sn) <==> s * dn < (d + 1) * sn
  {
    FloorBelow(d * sn, dn, s);
    CeilingAbove((d + 1) * sn, dn, s);
  }

  /** ... of which there is at least one, and all of them lie in the source. */
  lemma VisitedInSource(d: nat, dn: nat, sn: nat)
    requires sn > 0 && d < dn
    ensures VisitFrom(d, dn, sn) < VisitTo(d, dn, sn) <= sn
  {
    var first := VisitFrom(d, dn, sn);
    assert first * dn <= d * sn;
    assert (d + 1) * sn == d * sn + sn;
    Times(d + 1, dn, sn);
    assert sn * dn == dn * sn;
    hide VisitFrom, VisitTo;
    VisitBounds(d, dn, sn, first);
    VisitBounds(d, dn, sn, sn);
  }

  // ----- one line -----

  /** A line redistributed over a destination line. */
  function Share(g: int -> int, dn: int, sn: int): (f: (int, int) -> int) {
    (d, s) => g(s) * Overlap(d, s, dn, sn)
  }

  /** Conservation on a line: over all destination cells, every source value counts exactly dn times. */
  lemma LineConserved(g: int -> int, dn: nat, sn: nat)
    requires dn > 0 && sn > 0
    ensures Sum(RowSums(Share(g, dn, sn), sn), dn) == dn * Sum(g, sn)
  {
    var f := Share(g, dn, sn);
    SumSwap(f, dn, sn);
    forall s | 0 <= s < sn
      ensures ColumnSums(f, dn)(s) == dn * g(s)
    {
      forall d | 0 <= d < dn
        ensures f(d, s) == g(s) * Weights(s, sn, dn)(d)
      {
        OverlapSymmetric(d, s, dn, sn);
      }
      SumScale(Weights(s, sn, dn), d => f(d, s), g(s), dn);
      WeightsPartition(s, sn, dn);
      assert g(s) * dn == dn * g(s);
    }
    SumScale(g, ColumnSums(f, dn), dn, sn);
  }

  /** A weighted sum lies between the extremes of the cells that count, times the total weight. */
  lemma LineBetween(g: int -> int, d: nat, dn: nat, sn: nat, low: int, high: int)
    requires sn > 0 && d < dn
    requires forall s :: 0 <= s < sn && Overlap(d, s, dn, sn) > 0 ==> low <= g(s) <= high
    ensures low * sn <= RowSums(Share(g, dn, sn), sn)(d) <= high * sn
  {
    hide Overlap;
    var share, weights := Share(g, dn, sn), Weights(d, dn, sn);
    var f := (s: int) => share(d, s);
    var lows, highs := (s: int) => low * weights(s), (s: int) => high * weights(s);
    forall s | 0 <= s < sn
      ensures lows(s) <= f(s) <= highs(s)
    {
      var w := Overlap(d, s, dn, sn);
      assert lows(s) == low * w && f(s) == g(s) * w && highs(s) == high * w;
      if w > 0 {
        Times(low, g(s), w);
        Times(g(s), high, w);
      } else {
        assert w == 0;
      }
    }
    SumAtMost(lows, f, sn);
    SumAtMost(f, highs, sn);
    SumScale(weights, lows, low, sn);
    SumScale(weights, highs, high, sn);
    WeightsPartition(d, dn, sn);
    SumEqual(f, s => share(d, s), sn);
  }

  // ----- the image -----

  function Channel(p: Pixel, c: nat): (v: Byte) {
    if c == 0 then p.0 else if c == 1 then p.1 else p.2
  }

  predicate IsImage(src: seq<seq<Pixel>>, width: nat, height: nat) {
    |src| == height && forall y :: 0 <= y < height ==> |src[y]| == width
  }

  /** One channel of the source as a function of the position. */
  function At(src: seq<seq<Pixel>>, c: nat, y: int): (f: int -> int) {
    x => if 0 <= y < |src| && 0 <= x < |src[y]| then Channel(src[y][x], c) else 0
  }

  /** A source row weighted for destination column dx. */
  function RowShare(src: seq<seq<Pixel>>, c: nat, dx: int, dw: nat, sw: nat): (f: int -> int) {
    y => RowSums(Share(At(src, c, y), dw, sw), sw)(dx)
  }

  /** The unrounded accumulator of a destination pixel, summed over the whole source. */
  function Accumulated(src: seq<seq<Pixel>>, c: nat, dy: int, dx: int, sw: nat, sh: nat, dw: nat, dh: nat): (a: int) {
    RowSums(Share(RowShare(src, c, dx, dw, sw), dh, sh), sh)(dy)
  }

  /** The destination pixel: the accumulator over the area, rounded to nearest. */
  function Average(acc: int, area: int): (v: int)
    requires area > 0
    ensures -area < 2 * (v * area - acc) <= area
  {
    (acc + area / 2) / area
  }

  /** The accumulators of one destination row, then of all rows. */
  function AccumulatedTable(src: seq<seq<Pixel>>, c: nat, sw: nat, sh: nat, dw: nat, dh: nat): (f: (int, int) -> int) {
    (dy, dx) => Accumulated(src, c, dy, dx, sw, sh, dw, dh)
  }

  function SourceTable(src: seq<seq<Pixel>>, c: nat): (f: (int, int) -> int) {
    (y, x) => At(src, c, y)(x)
  }

  /**
  Conservation: the unrounded accumulators of all destination pixels sum to dw * dh times the sum of the
  source, for every channel and all sizes.
  */
  lemma ImageConserved(src: seq<seq<Pixel>>, c: nat, sw: nat, sh: nat, dw: nat, dh: nat)
    requires sw > 0 && sh > 0 && dw > 0 && dh > 0
    ensures Sum(RowSums(AccumulatedTable(src, c, sw, sh, dw, dh), dw), dh)
         == dh * (dw * Sum(RowSums(SourceTable(src, c), sw), sh))
  {
    hide Overlap, At;
    var g := (y: int) => dw * RowSums(SourceTable(src, c), sw)(y);
    forall dy | 0 <= dy < dh
      ensures RowSums(AccumulatedTable(src, c, sw, sh, dw, dh), dw)(dy) == RowSums(Share(g, dh, sh), sh)(dy)
    {
      RowConserved(src, c, dy, sw, sh, dw, dh, g);
    }
    SumEqual(RowSums(AccumulatedTable(src, c, sw, sh, dw, dh), dw), RowSums(Share(g, dh, sh), sh), dh);
    LineConserved(g, dh, sh);
    SumScale(RowSums(SourceTable(src, c), sw), g, dw, sh);
  }

  /** One destination row, summed over its columns, is the source's row sums redistributed over the rows. */
  lemma RowConserved(src: seq<seq<Pixel>>, c: nat, dy: int, sw: nat, sh: nat, dw: nat, dh: nat, g: int -> int)
    requires sw > 0 && dw > 0
    requires forall y :: 0 <= y < sh ==> g(y) == dw * RowSums(SourceTable(src, c), sw)(y)
    ensures RowSums(AccumulatedTable(src, c, sw, sh, dw, dh), dw)(dy) == RowSums(Share(g, dh, sh), sh)(dy)
  {
    hide Overlap, At;
    var t := (dx: int, y: int) => RowShare(src, c, dx, dw, sw)(y) * Overlap(dy, y, dh, sh);
    var table, share := AccumulatedTable(src, c, sw, sh, dw, dh), Share(g, dh, sh);
    forall dx | 0 <= dx < dw
      ensures RowSums(t, sh)(dx) == table(dy, dx)
    {
      var column := RowShare(src, c, dx, dw, sw);
      var spread := Share(column, dh, sh);
      SumEqual(y => t(dx, y), s => spread(dy, s), sh);
    }
    SumEqual(RowSums(t, sh), dx => table(dy, dx), dw);
    SumSwap(t, dw, sh);
    forall y | 0 <= y < sh
      ensures ColumnSums(t, dw)(y) == share(dy, y)
    {
      ColumnOfRow(src, c, dy, y, sw, sh, dw, dh, t);
    }
    SumEqual(ColumnSums(t, dw), y => share(dy, y), sh);
  }

  lemma ColumnOfRow(src: seq<seq<Pixel>>, c: nat, dy: int, y: int, sw: nat, sh: nat, dw: nat, dh: nat,
                    t: (int, int) -> int)
    requires sw > 0 && dw > 0
    requires forall dx :: 0 <= dx < dw ==> t(dx, y) == RowShare(src, c, dx, dw, sw)(y) * Overlap(dy, y, dh, sh)
    ensures ColumnSums(t, dw)(y) == dw * RowSums(SourceTable(src, c), sw)(y) * Overlap(dy, y, dh, sh)
  {
    hide Overlap, At;
    var line, table := At(src, c, y), SourceTable(src, c);
    var column := (dx: int) => t(dx, y);
    SumScale(RowSums(Share(line, dw, sw), sw), column, Overlap(dy, y, dh, sh), dw);
    LineConserved(line, dw, sw);
    SumEqual(line, x => table(y, x), sw);
    SumEqual(column, dx => t(dx, y), dw);
    Commutes(Overlap(dy, y, dh, sh), dw * Sum(line, sw));
  }

  lemma Commutes(a: int, b: int)
    ensures a * b == b * a
  {
  }

  lemma QuotientAtLeast(a: int, b: nat, k: int)
    requires b > 0 && k * b <= a
    ensures k <= a / b
  {
    if a / b < k {
      Times(a / b + 1, k, b);
    }
  }

  lemma QuotientAtMost(a: int, b: nat, k: int)
    requires b > 0 && a < (k + 1) * b
    ensures a / b <= k
  {
    if k < a / b {
      Times(k + 1, a / b, b);
    }
  }

  lemma AverageBetween(acc: int, area: int, low: int, high: int)
    requires area > 0 && low * area <= acc <= high * area
    ensures low <= Average(acc, area) <= high
  {
    QuotientAtLeast(acc + area / 2, area, low);
    assert (high + 1) * area == high * area + area;
    QuotientAtMost(acc + area / 2, area, high);
  }

  /**
  Every channel of a destination pixel lies between the least and the greatest value of the source pixels
  it overlaps.
  */
  lemma PixelBetween(src: seq<seq<Pixel>>, c: nat, dy: nat, dx: nat, sw: nat, sh: nat, dw: nat, dh: nat,
                     low: int, high: int)
    requires sw > 0 && sh > 0 && dy < dh && dx < dw
    requires forall y, x ::
      0 <= y < sh && 0 <= x < sw && Overlap(dy, y, dh, sh) > 0 && Overlap(dx, x, dw, sw) > 0 ==>
      low <= At(src, c, y)(x) <= high
    ensures sw * sh > 0
    ensures low <= Average(Accumulated(src, c, dy, dx, sw, sh, dw, dh), sw * sh) <= high
  {
    hide Overlap, At, Average;
    var column := RowShare(src, c, dx, dw, sw);
    forall y | 0 <= y < sh && Overlap(dy, y, dh, sh) > 0
      ensures low * sw <= column(y) <= high * sw
    {
      LineBetween(At(src, c, y), dx, dw, sw, low, high);
    }
    LineBetween(column, dy, dh, sh, low * sw, high * sw);
    assert low * sw * sh == low * (sw * sh) && high * sw * sh == high * (sw * sh);
    AverageBetween(Accumulated(src, c, dy, dx, sw, sh, dw, dh), sw * sh, low, high);
  }

  lemma Distributes(a: int, b: int, n: int)
    ensures (a + b) * n == a * n + b * n
  {
  }

  lemma CellsInOrder(a: int, b: int, n: nat)
    ensures (a + 1) * n == a * n + n
    ensures a < b ==> a * n + n <= b * n
  {
    Distributes(a, 1, n);
    Distributes(a + 1, b - a - 1, n);
    if a < b {
      var k: nat := b - a - 1;
      assert k * n >= 0;
    }
  }

  /** Between grids of the same size, each cell overlaps only itself. */
  lemma OverlapSame(d: int, s: int, n: nat)
    requires n > 0
    ensures Overlap(d, s, n, n) > 0 <==> d == s
  {
    CellsInOrder(d, s, n);
    CellsInOrder(s, d, n);
  }

  /** Equal sizes give the identity. */
  lemma SameSizeIdentity(src: seq<seq<Pixel>>, c: nat, y: nat, x: nat, w: nat, h: nat)
    requires y < h && x < w
    ensures w * h > 0
    ensures Average(Accumulated(src, c, y, x, w, h, w, h), w * h) == At(src, c, y)(x)
  {
    hide Overlap, At, Average;
    forall r, s | 0 <= r < h && 0 <= s < w && Overlap(y, r, h, h) > 0 && Overlap(x, s, w, w) > 0
      ensures At(src, c, r)(s) == At(src, c, y)(x)
    {
      OverlapSame(y, r, h);
      OverlapSame(x, s, w);
    }
    var v := At(src, c, y)(x);
    PixelBetween(src, c, y, x, w, h, w, h, v, v);
  }

  // ----- pixels -----

  /** These bounds hold for the red of every source pixel a destination pixel overlaps, and so on. */
  ghost predicate RedsWithin(src: seq<seq<Pixel>>, dy: int, dx: int, dw: int, dh: int, sw: nat, sh: nat,
                             low: int, high: int)
    requires IsImage(src, sw, sh)
  {
    forall y, x :: 0 <= y < sh && 0 <= x < sw && Overlap(dy, y, dh, sh) > 0 && Overlap(dx, x, dw, sw) > 0 ==>
      low <= src[y][x].0 <= high
  }

  ghost predicate GreensWithin(src: seq<seq<Pixel>>, dy: int, dx: int, dw: int, dh: int, sw: nat, sh: nat,
                               low: int, high: int)
    requires IsImage(src, sw, sh)
  {
    forall y, x :: 0 <= y < sh && 0 <= x < sw && Overlap(dy, y, dh, sh) > 0 && Overlap(dx, x, dw, sw) > 0 ==>
      low <= src[y][x].1 <= high
  }

  ghost predicate BluesWithin(src: seq<seq<Pixel>>, dy: int, dx: int, dw: int, dh: int, sw: nat, sh: nat,
                              low: int, high: int)
    requires IsImage(src, sw, sh)
  {
    forall y, x :: 0 <= y < sh && 0 <= x < sw && Overlap(dy, y, dh, sh) > 0 && Overlap(dx, x, dw, sw) > 0 ==>
      low <= src[y][x].2 <= high
  }

  /** Whatever bounds the red of the source pixels overlapped bounds the red of this one; so for green and blue. */
  ghost predicate Blends(src: seq<seq<Pixel>>, px: Pixel, dy: int, dx: int, dw: int, dh: int, sw: nat, sh: nat)
    requires IsImage(src, sw, sh)
  {
    && (forall low, high :: RedsWithin(src, dy, dx, dw, dh, sw, sh, low, high) ==> low <= px.0 <= high)
    && (forall low, high :: GreensWithin(src, dy, dx, dw, dh, sw, sh, low, high) ==> low <= px.1 <= high)
    && (forall low, high :: BluesWithin(src, dy, dx, dw, dh, sw, sh, low, high) ==> low <= px.2 <= high)
  }

  /** A pixel of averages blends the source pixels it overlaps. */
  lemma AveragesBlend(src: seq<seq<Pixel>>, px: Pixel, dy: nat, dx: nat, dw: nat, dh: nat, sw: nat, sh: nat)
    requires IsImage(src, sw, sh) && sw > 0 && sh > 0 && dy < dh && dx < dw && sw * sh > 0
    requires forall c :: 0 <= c < 3 ==>
      Channel(px, c) == Average(Accumulated(src, c, dy, dx, sw, sh, dw, dh), sw * sh)
    ensures Blends(src, px, dy, dx, dw, dh, sw, sh)
  {
    hide Overlap, Average, Accumulated;
    forall low, high | RedsWithin(src, dy, dx, dw, dh, sw, sh, low, high)
      ensures low <= px.0 <= high
    {
      PixelBetween(src, 0, dy, dx, sw, sh, dw, dh, low, high);
      assert Channel(px, 0) == px.0;
    }
    forall low, high | GreensWithin(src, dy, dx, dw, dh, sw, sh, low, high)
      ensures low <= px.1 <= high
    {
      PixelBetween(src, 1, dy, dx, sw, sh, dw, dh, low, high);
      assert Channel(px, 1) == px.1;
    }
    forall low, high | BluesWithin(src, dy, dx, dw, dh, sw, sh, low, high)
      ensures low <= px.2 <= high
    {
      PixelBetween(src, 2, dy, dx, sw, sh, dw, dh, low, high);
      assert Channel(px, 2) == px.2;
    }
  }

  /** Between grids of the same size, only the pixel itself blends the one pixel it overlaps. */
  lemma BlendsSame(src: seq<seq<Pixel>>, px: Pixel, y: nat, x: nat, w: nat, h: nat)
    requires IsImage(src, w, h) && y < h && x < w && Blends(src, px, y, x, w, h, w, h)
    ensures px == src[y][x]
  {
    hide Overlap;
    forall r, s | 0 <= r < h && 0 <= s < w && Overlap(y, r, h, h) > 0 && Overlap(x, s, w, w) > 0
      ensures r == y && s == x
    {
      OverlapSame(y, r, h);
      OverlapSame(x, s, w);
    }
    var p := src[y][x];
    assert RedsWithin(src, y, x, w, h, w, h, p.0, p.0);
    assert GreensWithin(src, y, x, w, h, w, h, p.1, p.1);
    assert BluesWithin(src, y, x, w, h, w, h, p.2, p.2);
  }

  /** A picture each of whose pixels blends the ones it overlaps, of the same size as its source, is the source. */
  lemma SameSizeSame(src: seq<seq<Pixel>>, rows: seq<seq<Pixel>>, w: nat, h: nat)
    requires IsImage(src, w, h) && IsImage(rows, w, h)
    requires forall y, x :: 0 <= y < h && 0 <= x < w ==> Blends(src, rows[y][x], y, x, w, h, w, h)
    ensures rows == src
  {
    hide Blends;
    forall y | 0 <= y < h
      ensures rows[y] == src[y]
    {
      forall x | 0 <= x < w
        ensures rows[y][x] == src[y][x]
      {
        BlendsSame(src, rows[y][x], y, x, w, h);
      }
    }
  }

  // ----- the loops -----

  /** The terms the inner loop adds up along a source row, and the outer loop down the rows. */
  function RowTerm(src: seq<seq<Pixel>>, c: nat, y: int, dx: int, dw: nat, sw: nat): (f: int -> int) {
    var line := At(src, c, y);
    x => line(x) * Overlap(dx, x, dw, sw)
  }

  function ColumnTerm(src: seq<seq<Pixel>>, c: nat, dy: int, dx: int, sw: nat, sh: nat, dw: nat, dh: nat)
    : (f: int -> int)
  {
    var column := RowShare(src, c, dx, dw, sw);
    y => column(y) * Overlap(dy, y, dh, sh)
  }

  lemma RowTermSum(src: seq<seq<Pixel>>, c: nat, y: int, dx: int, dw: nat, sw: nat)
    ensures Sum(RowTerm(src, c, y, dx, dw, sw), sw) == RowShare(src, c, dx, dw, sw)(y)
  {
    hide Overlap, At;
    var line := At(src, c, y);
    var share := Share(line, dw, sw);
    var whole := RowSums(share, sw);
    SumEqual(RowTerm(src, c, y, dx, dw, sw), s => share(dx, s), sw);
    assert whole(dx) == RowShare(src, c, dx, dw, sw)(y);
  }

  lemma ColumnTermSum(src: seq<seq<Pixel>>, c: nat, dy: int, dx: int, sw: nat, sh: nat, dw: nat, dh: nat)
    ensures Sum(ColumnTerm(src, c, dy, dx, sw, sh, dw, dh), sh) == Accumulated(src, c, dy, dx, sw, sh, dw, dh)
  {
    hide Overlap, At;
    var column := RowShare(src, c, dx, dw, sw);
    var share := Share(column, dh, sh);
    SumEqual(ColumnTerm(src, c, dy, dx, sw, sh, dw, dh), s => share(dy, s), sh);
  }

  /** The visited cells carry all of a sum whose terms vanish where the overlap does. */
  lemma VisitedSum(f: int -> int, d: nat, dn: nat, sn: nat)
    requires sn > 0 && d < dn
    requires forall s :: 0 <= s < sn && Overlap(d, s, dn, sn) == 0 ==> f(s) == 0
    ensures VisitFrom(d, dn, sn) < VisitTo(d, dn, sn) <= sn
    ensures Sum(f, VisitFrom(d, dn, sn)) == 0
    ensures Sum(f, VisitTo(d, dn, sn)) == Sum(f, sn)
  {
    hide VisitFrom, VisitTo;
    VisitedInSource(d, dn, sn);
    forall s | 0 <= s < sn && !(VisitFrom(d, dn, sn) <= s < VisitTo(d, dn, sn))
      ensures f(s) == 0
    {
      VisitedIffPositive(d, dn, sn, s);
    }
    SumZeroTail(f, 0, VisitFrom(d, dn, sn));
    SumZeroTail(f, VisitTo(d, dn, sn), sn);
  }

  datatype Totals = Totals(r: int, g: int, b: int, area: int)

  /** One visited cell of a row adds its channel times the area of the overlap. */
  lemma RowTermStep(src: seq<seq<Pixel>>, c: nat, y: nat, dx: nat, dw: nat, sw: nat, x: nat, wy: int)
    requires y < |src| && x < |src[y]|
    ensures wy * Sum(RowTerm(src, c, y, dx, dw, sw), x + 1)
         == wy * Sum(RowTerm(src, c, y, dx, dw, sw), x) + Channel(src[y][x], c) * (Overlap(dx, x, dw, sw) * wy)
  {
    hide Overlap;
    var f := RowTerm(src, c, y, dx, dw, sw);
    assert f(x) == Channel(src[y][x], c) * Overlap(dx, x, dw, sw);
    assert wy * Sum(f, x + 1) == wy * (Sum(f, x) + f(x)) == wy * Sum(f, x) + wy * f(x);
    Regroup(Channel(src[y][x], c), Overlap(dx, x, dw, sw), wy);
  }

  lemma WeightStep(d: nat, dn: nat, sn: nat, s: nat, c: int)
    ensures c * Sum(Weights(d, dn, sn), s + 1) == c * Sum(Weights(d, dn, sn), s) + Overlap(d, s, dn, sn) * c
  {
    hide Overlap;
    var f := Weights(d, dn, sn);
    assert c * Sum(f, s + 1) == c * (Sum(f, s) + f(s)) == c * Sum(f, s) + c * f(s);
  }

  lemma Regroup(v: int, wx: int, wy: int)
    ensures v * (wx * wy) == wy * (v * wx)
  {
  }

  /** What the visited part of a row's terms, and of its weights, adds up to. */
  lemma RowEnds(src: seq<seq<Pixel>>, c: nat, y: int, dx: nat, dw: nat, sw: nat)
    requires sw > 0 && dx < dw
    ensures VisitFrom(dx, dw, sw) < VisitTo(dx, dw, sw) <= sw
    ensures Sum(RowTerm(src, c, y, dx, dw, sw), VisitFrom(dx, dw, sw)) == 0
    ensures Sum(RowTerm(src, c, y, dx, dw, sw), VisitTo(dx, dw, sw)) == RowShare(src, c, dx, dw, sw)(y)
  {
    hide Overlap, VisitFrom, VisitTo, At;
    VisitedSum(RowTerm(src, c, y, dx, dw, sw), dx, dw, sw);
    RowTermSum(src, c, y, dx, dw, sw);
  }

  lemma WeightEnds(d: nat, dn: nat, sn: nat)
    requires sn > 0 && d < dn
    ensures Sum(Weights(d, dn, sn), VisitFrom(d, dn, sn)) == 0
    ensures Sum(Weights(d, dn, sn), VisitTo(d, dn, sn)) == sn
  {
    hide Overlap, VisitFrom, VisitTo;
    VisitedSum(Weights(d, dn, sn), d, dn, sn);
    WeightsPartition(d, dn, sn);
  }

  /** The loop over one source row. */
  method AddRow(src: seq<seq<Pixel>>, sy: nat, wy: nat, dx: nat, sw: nat, sh: nat, dw: nat, before: Totals)
    returns (t: Totals)
    requires IsImage(src, sw, sh) && sw > 0 && sy < sh && dx < dw
    ensures t.r == before.r + wy * RowShare(src, 0, dx, dw, sw)(sy)
    ensures t.g == before.g + wy * RowShare(src, 1, dx, dw, sw)(sy)
    ensures t.b == before.b + wy * RowShare(src, 2, dx, dw, sw)(sy)
    ensures t.area == before.area + wy * sw
  {
    hide RowShare, VisitFrom, VisitTo, Sum, RowTerm, Weights;
    var x0n, x1n := dx * sw, (dx + 1) * sw;
    ghost var r, g := RowTerm(src, 0, sy, dx, dw, sw), RowTerm(src, 1, sy, dx, dw, sw);
    ghost var b := RowTerm(src, 2, sy, dx, dw, sw);
    ghost var w := Weights(dx, dw, sw);
    RowEnds(src, 0, sy, dx, dw, sw);
    RowEnds(src, 1, sy, dx, dw, sw);
    RowEnds(src, 2, sy, dx, dw, sw);
    WeightEnds(dx, dw, sw);
    t := before;
    var srow := src[sy];
    for sx := VisitFrom(dx, dw, sw) to VisitTo(dx, dw, sw)
      invariant t.r == before.r + wy * Sum(r, sx)
      invariant t.g == before.g + wy * Sum(g, sx)
      invariant t.b == before.b + wy * Sum(b, sx)
      invariant t.area == before.area + wy * Sum(w, sx)
    {
      var wx := Min(x1n, (sx + 1) * dw) - Max(x0n, sx * dw);
      RowTermStep(src, 0, sy, dx, dw, sw, sx, wy);
      RowTermStep(src, 1, sy, dx, dw, sw, sx, wy);
      RowTermStep(src, 2, sy, dx, dw, sw, sx, wy);
      WeightStep(dx, dw, sw, sx, wy);
      assert Overlap(dx, sx, dw, sw) == Max(0, wx);
      if wx > 0 {
        var px := srow[sx];
        var a := wx * wy;
        t := Totals(t.r + px.0 * a, t.g + px.1 * a, t.b + px.2 * a, t.area + a);
      }
    }
  }

  /** One visited row adds its share times its overlap. */
  lemma ColumnTermStep(src: seq<seq<Pixel>>, c: nat, dy: nat, dx: int, sw: nat, sh: nat, dw: nat, dh: nat, y: nat)
    ensures Sum(ColumnTerm(src, c, dy, dx, sw, sh, dw, dh), y + 1)
         == Sum(ColumnTerm(src, c, dy, dx, sw, sh, dw, dh), y)
            + Overlap(dy, y, dh, sh) * RowShare(src, c, dx, dw, sw)(y)
  {
    hide Overlap, RowShare;
    var f := ColumnTerm(src, c, dy, dx, sw, sh, dw, dh);
    assert Sum(f, y + 1) == Sum(f, y) + f(y);
  }

  lemma ColumnEnds(src: seq<seq<Pixel>>, c: nat, dy: nat, dx: nat, sw: nat, sh: nat, dw: nat, dh: nat)
    requires sh > 0 && dy < dh
    ensures VisitFrom(dy, dh, sh) < VisitTo(dy, dh, sh) <= sh
    ensures Sum(ColumnTerm(src, c, dy, dx, sw, sh, dw, dh), VisitFrom(dy, dh, sh)) == 0
    ensures Sum(ColumnTerm(src, c, dy, dx, sw, sh, dw, dh), VisitTo(dy, dh, sh))
         == Accumulated(src, c, dy, dx, sw, sh, dw, dh)
  {
    hide Overlap, VisitFrom, VisitTo, RowShare;
    VisitedSum(ColumnTerm(src, c, dy, dx, sw, sh, dw, dh), dy, dh, sh);
    ColumnTermSum(src, c, dy, dx, sw, sh, dw, dh);
  }

  /** The loops for one destination pixel: the three accumulators and the area. */
  method AccumulatePixel(src: seq<seq<Pixel>>, dy: nat, dx: nat, sw: nat, sh: nat, dw: nat, dh: nat) returns (t: Totals)
    requires IsImage(src, sw, sh) && sw > 0 && sh > 0 && dy < dh && dx < dw
    ensures t.r == Accumulated(src, 0, dy, dx, sw, sh, dw, dh)
    ensures t.g == Accumulated(src, 1, dy, dx, sw, sh, dw, dh)
    ensures t.b == Accumulated(src, 2, dy, dx, sw, sh, dw, dh)
    ensures t.area == sw * sh
  {
    hide RowShare, VisitFrom, VisitTo, Accumulated, Sum, ColumnTerm, Weights;
    var y0n, y1n := dy * sh, (dy + 1) * sh;
    ghost var r := ColumnTerm(src, 0, dy, dx, sw, sh, dw, dh);
    ghost var g := ColumnTerm(src, 1, dy, dx, sw, sh, dw, dh);
    ghost var b := ColumnTerm(src, 2, dy, dx, sw, sh, dw, dh);
    ghost var w := Weights(dy, dh, sh);
    ColumnEnds(src, 0, dy, dx, sw, sh, dw, dh);
    ColumnEnds(src, 1, dy, dx, sw, sh, dw, dh);
    ColumnEnds(src, 2, dy, dx, sw, sh, dw, dh);
    WeightEnds(dy, dh, sh);
    t := Totals(0, 0, 0, 0);
    for sy := VisitFrom(dy, dh, sh) to VisitTo(dy, dh, sh)
      invariant t.r == Sum(r, sy) && t.g == Sum(g, sy) && t.b == Sum(b, sy)
      invariant t.area == sw * Sum(w, sy)
    {
      var wy := Min(y1n, (sy + 1) * dh) - Max(y0n, sy * dh);
      ColumnTermStep(src, 0, dy, dx, sw, sh, dw, dh, sy);
      ColumnTermStep(src, 1, dy, dx, sw, sh, dw, dh, sy);
      ColumnTermStep(src, 2, dy, dx, sw, sh, dw, dh, sy);
      WeightStep(dy, dh, sh, sy, sw);
      assert Overlap(dy, sy, dh, sh) == Max(0, wy);
      if wy > 0 {
        t := AddRow(src, sy, wy, dx, sw, sh, dw, t);
      }
    }
  }

  /** One destination pixel. */
  method ResamplePixel(src: seq<seq<Pixel>>, dy: nat, dx: nat, sw: nat, sh: nat, dw: nat, dh: nat) returns (px: Pixel)
    requires IsImage(src, sw, sh) && sw > 0 && sh > 0 && dy < dh && dx < dw
    ensures sw * sh > 0
    ensures forall c :: 0 <= c < 3 ==>
      Channel(px, c) == Average(Accumulated(src, c, dy, dx, sw, sh, dw, dh), sw * sh)
  {
    hide Average, Accumulated;
    var t := AccumulatePixel(src, dy, dx, sw, sh, dw, dh);
    InByteRange(src, 0, dy, dx, sw, sh, dw, dh);
    InByteRange(src, 1, dy, dx, sw, sh, dw, dh);
    InByteRange(src, 2, dy, dx, sw, sh, dw, dh);
    px := (Average(t.r, t.area), Average(t.g, t.area), Average(t.b, t.area));
  }

  lemma InByteRange(src: seq<seq<Pixel>>, c: nat, dy: nat, dx: nat, sw: nat, sh: nat, dw: nat, dh: nat)
    requires sw > 0 && sh > 0 && dy < dh && dx < dw
    ensures sw * sh > 0
    ensures 0 <= Average(Accumulated(src, c, dy, dx, sw, sh, dw, dh), sw * sh) < 256
  {
    hide Overlap, Average, Accumulated;
    PixelBetween(src, c, dy, dx, sw, sh, dw, dh, 0, 255);
  }

  /** resample: every destination pixel is the exact area average of the source, rounded to nearest. */
  method ResampleImage(src: seq<seq<Pixel>>, sw: nat, sh: nat, dw: nat, dh: nat) returns (rows: seq<seq<Pixel>>)
    requires IsImage(src, sw, sh) && sw > 0 && sh > 0
    ensures sw * sh > 0 && IsImage(rows, dw, dh)
    ensures forall y, x, c :: 0 <= y < dh && 0 <= x < dw && 0 <= c < 3 ==>
      At(rows, c, y)(x) == Average(Accumulated(src, c, y, x, sw, sh, dw, dh), sw * sh)
    ensures forall y, x :: 0 <= y < dh && 0 <= x < dw ==> Blends(src, rows[y][x], y, x, dw, dh, sw, sh)
    ensures dw == sw && dh == sh ==> rows == src
  {
    hide Average, Accumulated, Blends;
    assert sw * sh > 0;
    rows := [];
    for dy := 0 to dh
      invariant |rows| == dy
      invariant forall y :: 0 <= y < dy ==> |rows[y]| == dw
      invariant forall y, x, c :: 0 <= y < dy && 0 <= x < dw && 0 <= c < 3 ==>
        Channel(rows[y][x], c) == Average(Accumulated(src, c, y, x, sw, sh, dw, dh), sw * sh)
    {
      var row: seq<Pixel> := [];
      for dx := 0 to dw
        invariant |row| == dx
        invariant forall x, c :: 0 <= x < dx && 0 <= c < 3 ==>
          Channel(row[x], c) == Average(Accumulated(src, c, dy, x, sw, sh, dw, dh), sw * sh)
      {
        var px := ResamplePixel(src, dy, dx, sw, sh, dw, dh);
        row := row + [px];
      }
      rows := rows + [row];
    }
    forall y, x | 0 <= y < dh && 0 <= x < dw
      ensures Blends(src, rows[y][x], y, x, dw, dh, sw, sh)
    {
      AveragesBlend(src, rows[y][x], y, x, dw, dh, sw, sh);
    }
    if dw == sw && dh == sh {
      SameSizeSame(src, rows, sw, sh);
    }
  }
}
