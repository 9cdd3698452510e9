/**
The row filters of section 6 of RFC 2083 and the loop of mklogo.py that undoes them in place.
*/
module PngFilter {
  import opened Bytes

  function Distance(p: int, x: int): (d: nat)
    ensures d == p - x || d == x - p
  {
    if p >= x then p - x else x - p
  }

  /** PaethPredictor of section 6.6, with the order of tests mklogo.py uses. */
  function Paeth(a: Byte, b: Byte, c: Byte): (r: Byte) {
    var p := (a as int) + (b as int) - (c as int);
    var pa, pb, pc := Distance(p, a), Distance(p, b), Distance(p, c);
    if pa <= pb && pa <= pc then a else if pb <= pc then b else c
  }

  /** It picks the neighbour nearest to a + b - c, in case of a tie left before above before upper left. */
  lemma PaethIsNearest(a: Byte, b: Byte, c: Byte)
    ensures var p, r := (a as int) + (b as int) - (c as int), Paeth(a, b, c);
      && (r == a || r == b || r == c)
      && (forall x :: x in [a, b, c] ==> Distance(p, r) <= Distance(p, x))
      && (r != a ==> Distance(p, r) < Distance(p, a))
      && (r != a && r != b ==> Distance(p, r) < Distance(p, b))
  {
  }

  /** The predicted byte, from the bytes to the left, above, and above to the left. */
  function Predictor(kind: Byte, a: Byte, b: Byte, c: Byte): (r: Byte) {
    if kind == 1 then a
    else if kind == 2 then b
    else if kind == 3 then ((a as int) + (b as int)) / 2
    else if kind == 4 then Paeth(a, b, c)
    else 0
  }

  function Left(line: seq<Byte>, i: nat, bpp: nat): (r: Byte)
    requires i <= |line| && bpp >= 1
  {
    if i >= bpp then line[i - bpp] else 0
  }

  /** Addition and subtraction of bytes, modulo 256. */
  function Add(x: Byte, y: Byte): (r: Byte) {
    ((x as int) + (y as int)) % 256
  }

  function Subtract(x: Byte, y: Byte): (r: Byte) {
    ((x as int) - (y as int)) % 256
  }

  lemma AddSubtract(x: Byte, y: Byte)
    ensures Add(Subtract(x, y), y) == x && Subtract(Add(x, y), y) == x
  {
    assert Subtract(x, y) == if x >= y then x - y else (x as int) - y + 256;
    assert Add(x, y) == if (x as int) + y < 256 then (x as int) + y else (x as int) + y - 256;
  }

  /** The byte the standard's filter writes for position i of a row. */
  function FilterByte(kind: Byte, row: seq<Byte>, prev: seq<Byte>, bpp: nat, i: nat): (r: Byte)
    requires i < |row| == |prev| && bpp >= 1
  {
    Subtract(row[i], Predictor(kind, Left(row, i, bpp), prev[i], Left(prev, i, bpp)))
  }

  function Filter(kind: Byte, row: seq<Byte>, prev: seq<Byte>, bpp: nat): (s: seq<Byte>)
    requires |row| == |prev| && bpp >= 1
    ensures |s| == |row|
  {
    seq<Byte>(|row|, i requires 0 <= i < |row| => FilterByte(kind, row, prev, bpp, i))
  }

  /** The first k bytes of a row, recovered from left to right. */
  function Unfiltered(kind: Byte, data: seq<Byte>, prev: seq<Byte>, bpp: nat, k: nat): (row: seq<Byte>)
    requires k <= |data| == |prev| && bpp >= 1
    ensures |row| == k
  {
    if k == 0 then []
    else
      var row := Unfiltered(kind, data, prev, bpp, k - 1);
      var i := k - 1;
      row + [Add(data[i], Predictor(kind, Left(row, i, bpp), prev[i], Left(prev, i, bpp)))]
  }

  /** Unfiltering inverts filtering, for every filter type, row, previous row and pixel size ... */
  lemma {:induction false} UnfilterInverts(kind: Byte, row: seq<Byte>, prev: seq<Byte>, bpp: nat, k: nat)
    requires k <= |row| == |prev| && bpp >= 1
    ensures Unfiltered(kind, Filter(kind, row, prev, bpp), prev, bpp, k) == row[..k]
    decreases k
  {
    hide Predictor, Add, Subtract;
    if k > 0 {
      var i := k - 1;
      UnfilterInverts(kind, row, prev, bpp, i);
      assert Left(row[..i], i, bpp) == Left(row, i, bpp);
      AddSubtract(row[i], Predictor(kind, Left(row, i, bpp), prev[i], Left(prev, i, bpp)));
      assert row[..k] == row[..k - 1] + [row[k - 1]];
    }
  }

  /** ... and filtering inverts unfiltering. */
  lemma FilterInverts(kind: Byte, data: seq<Byte>, prev: seq<Byte>, bpp: nat)
    requires |data| == |prev| && bpp >= 1
    ensures Filter(kind, Unfiltered(kind, data, prev, bpp, |data|), prev, bpp) == data
  {
    hide Predictor, Add, Subtract;
    var row := Unfiltered(kind, data, prev, bpp, |data|);
    forall i | 0 <= i < |data|
      ensures FilterByte(kind, row, prev, bpp, i) == data[i]
    {
      UnfilteredPrefix(kind, data, prev, bpp, i + 1, |data|);
      UnfilteredPrefix(kind, data, prev, bpp, i, |data|);
      assert row[..i + 1][i] == row[i];
      assert Left(row[..i], i, bpp) == Left(row, i, bpp);
      AddSubtract(data[i], Predictor(kind, Left(row, i, bpp), prev[i], Left(prev, i, bpp)));
    }
  }

  lemma {:induction false} UnfilteredPrefix(kind: Byte, data: seq<Byte>, prev: seq<Byte>, bpp: nat, j: nat, k: nat)
    requires j <= k <= |data| == |prev| && bpp >= 1
    ensures Unfiltered(kind, data, prev, bpp, k)[..j] == Unfiltered(kind, data, prev, bpp, j)
    decreases k
  {
    if j < k {
      UnfilteredPrefix(kind, data, prev, bpp, j, k - 1);
      assert Unfiltered(kind, data, prev, bpp, k)[..j] == Unfiltered(kind, data, prev, bpp, k - 1)[..j];
    }
  }

  /** The bytes to the left, above, and above to the left of a position, 0 where there are none. */
  ghost predicate Neighbours(row: seq<Byte>, prev: seq<Byte>, bpp: nat, i: nat, a: int, b: int, c: int)
    requires i < |row| == |prev|
  {
    && b == prev[i]
    && (if i < bpp then a == 0 && c == 0 else a == row[i - bpp] && c == prev[i - bpp])
  }

  /**
  The equations of section 6 of RFC 2083 for one recovered byte x and the data byte d it came from: nothing,
  left, above, the floor of their mean, or the neighbour nearest to a + b - c is added, modulo 256.
  */
  ghost predicate Recovers(kind: Byte, x: int, d: int, a: int, b: int, c: int) {
    && (kind == 0 ==> x == d)
    && (kind == 1 ==> x == (d + a) % 256)
    && (kind == 2 ==> x == (d + b) % 256)
    && (kind == 3 ==> x == (d + (a + b) / 2) % 256)
    && (kind == 4 ==>
      var pa, pb, pc := Distance(a + b - c, a), Distance(a + b - c, b), Distance(a + b - c, c);
      x == (d + if pa <= pb && pa <= pc then a else if pb <= pc then b else c) % 256)
  }

  /** Every byte of an unfiltered row satisfies its equation with the bytes already recovered. */
  lemma RowEquations(kind: Byte, data: seq<Byte>, prev: seq<Byte>, bpp: nat, i: nat, a: int, b: int, c: int)
    requires i < |data| == |prev| && bpp >= 1
    requires Neighbours(Unfiltered(kind, data, prev, bpp, |data|), prev, bpp, i, a, b, c)
    ensures Recovers(kind, Unfiltered(kind, data, prev, bpp, |data|)[i], data[i], a, b, c)
  {
    hide Recovers;
    var row := Unfiltered(kind, data, prev, bpp, |data|);
    UnfilteredPrefix(kind, data, prev, bpp, i + 1, |data|);
    UnfilteredPrefix(kind, data, prev, bpp, i, |data|);
    ByteRecovered(kind, data, prev, bpp, i);
    assert row[i] == row[..i + 1][i];
    assert i >= bpp ==> row[..i][i - bpp] == row[i - bpp];
  }

  lemma ByteRecovered(kind: Byte, data: seq<Byte>, prev: seq<Byte>, bpp: nat, i: nat)
    requires i < |data| == |prev| && bpp >= 1
    ensures var done := Unfiltered(kind, data, prev, bpp, i);
      var a, c := if i < bpp then 0 else done[i - bpp], if i < bpp then 0 else prev[i - bpp];
      Recovers(kind, Unfiltered(kind, data, prev, bpp, i + 1)[i], data[i], a, prev[i], c)
  {
    hide Recovers, Predictor, Add;
    var done := Unfiltered(kind, data, prev, bpp, i);
    PredictorMeans(kind, Left(done, i, bpp), prev[i], Left(prev, i, bpp), data[i]);
  }

  lemma PredictorMeans(kind: Byte, a: Byte, b: Byte, c: Byte, d: Byte)
    ensures Recovers(kind, Add(d, Predictor(kind, a, b, c)), d, a, b, c)
  {
    hide Distance;
  }

  /** Types 0 and 1 leave the first pixel of a row as it is. */
  lemma {:induction false} FirstPixel(kind: Byte, data: seq<Byte>, prev: seq<Byte>, bpp: nat, k: nat)
    requires k <= |data| == |prev| && bpp >= 1
    requires kind == 0 || (kind == 1 && k <= bpp)
    ensures Unfiltered(kind, data, prev, bpp, k) == data[..k]
    decreases k
  {
    if k > 0 {
      FirstPixel(kind, data, prev, bpp, k - 1);
      assert data[..k] == data[..k - 1] + [data[k - 1]];
    }
  }

  /** A row of which the first i bytes are recovered and the others are still as they came. */
  ghost predicate PartWay(kind: Byte, line: seq<Byte>, data: seq<Byte>, prev: seq<Byte>, bpp: nat, i: nat) {
    && i <= |line| == |data| == |prev| && bpp >= 1
    && line[..i] == Unfiltered(kind, data, prev, bpp, i) && line[i..] == data[i..]
  }

  /** One more byte recovered in place. */
  lemma OneMore(kind: Byte, line: seq<Byte>, data: seq<Byte>, prev: seq<Byte>, bpp: nat, i: nat)
    requires PartWay(kind, line, data, prev, bpp, i) && i < |line|
    ensures var byte := Add(line[i], Predictor(kind, Left(line, i, bpp), prev[i], Left(prev, i, bpp)));
      PartWay(kind, line[i := byte], data, prev, bpp, i + 1)
  {
  }

  lemma Started(kind: Byte, data: seq<Byte>, prev: seq<Byte>, bpp: nat, i: nat)
    requires i <= |data| == |prev| && bpp >= 1
    requires i == 0 || kind == 0 || (kind == 1 && i <= bpp)
    ensures PartWay(kind, data, data, prev, bpp, i)
  {
    if i > 0 {
      FirstPixel(kind, data, prev, bpp, i);
    }
  }

  /** Type 1: the loop starts after the first pixel. */
  method UnfilterSub(line: array<Byte>, prev: seq<Byte>, bpp: nat)
    requires |prev| == line.Length && bpp >= 1
    modifies line
    ensures line[..] == Unfiltered(1, old(line[..]), prev, bpp, line.Length)
  {
    hide Unfiltered;
    var stride := line.Length;
    var i := if bpp <= stride then bpp else stride;
    Started(1, line[..], prev, bpp, i);
    while i < stride
      invariant i <= stride && (i < stride ==> bpp <= i)
      invariant PartWay(1, line[..], old(line[..]), prev, bpp, i)
    {
      OneMore(1, line[..], old(line[..]), prev, bpp, i);
      ghost var before := line[..];
      line[i] := Add(line[i], line[i - bpp]);
      assert line[..] == before[i := line[i]];
      i := i + 1;
    }
    assert line[..stride] == line[..];
  }

  /** Type 2. */
  method UnfilterUp(line: array<Byte>, prev: seq<Byte>, bpp: nat)
    requires |prev| == line.Length && bpp >= 1
    modifies line
    ensures line[..] == Unfiltered(2, old(line[..]), prev, bpp, line.Length)
  {
    hide Unfiltered;
    Started(2, line[..], prev, bpp, 0);
    for i := 0 to line.Length
      invariant PartWay(2, line[..], old(line[..]), prev, bpp, i)
    {
      OneMore(2, line[..], old(line[..]), prev, bpp, i);
      ghost var before := line[..];
      line[i] := Add(line[i], prev[i]);
      assert line[..] == before[i := line[i]];
    }
    assert line[..line.Length] == line[..];
  }

  /** Type 3. */
  method UnfilterAverage(line: array<Byte>, prev: seq<Byte>, bpp: nat)
    requires |prev| == line.Length && bpp >= 1
    modifies line
    ensures line[..] == Unfiltered(3, old(line[..]), prev, bpp, line.Length)
  {
    hide Unfiltered;
    Started(3, line[..], prev, bpp, 0);
    for i := 0 to line.Length
      invariant PartWay(3, line[..], old(line[..]), prev, bpp, i)
    {
      OneMore(3, line[..], old(line[..]), prev, bpp, i);
      ghost var before := line[..];
      var left := if i >= bpp then line[i - bpp] else 0;
      line[i] := Add(line[i], ((left as int) + (prev[i] as int)) / 2);
      assert line[..] == before[i := line[i]];
    }
    assert line[..line.Length] == line[..];
  }

  /** Type 4. */
  method UnfilterPaeth(line: array<Byte>, prev: seq<Byte>, bpp: nat)
    requires |prev| == line.Length && bpp >= 1
    modifies line
    ensures line[..] == Unfiltered(4, old(line[..]), prev, bpp, line.Length)
  {
    hide Unfiltered, Paeth;
    Started(4, line[..], prev, bpp, 0);
    for i := 0 to line.Length
      invariant PartWay(4, line[..], old(line[..]), prev, bpp, i)
    {
      OneMore(4, line[..], old(line[..]), prev, bpp, i);
      ghost var before := line[..];
      var a := if i >= bpp then line[i - bpp] else 0;
      var b := prev[i];
      var c := if i >= bpp then prev[i - bpp] else 0;
      line[i] := Add(line[i], Paeth(a, b, c));
      assert line[..] == before[i := line[i]];
    }
    assert line[..line.Length] == line[..];
  }

  /**
  The filter branch of read_png: the row is rewritten byte by byte, from bytes already rewritten.
  An unknown type is refused.
  */
  method Unfilter(kind: Byte, line: array<Byte>, prev: seq<Byte>, bpp: nat) returns (ok: bool)
    requires |prev| == line.Length && bpp >= 1
    modifies line
    ensures ok <==> kind <= 4
    ensures ok ==> line[..] == Unfiltered(kind, old(line[..]), prev, bpp, line.Length)
    ensures !ok ==> line[..] == old(line[..])
  {
    hide Unfiltered;
    ok := true;
    if kind == 1 {
      UnfilterSub(line, prev, bpp);
    } else if kind == 2 {
      UnfilterUp(line, prev, bpp);
    } else if kind == 3 {
      UnfilterAverage(line, prev, bpp);
    } else if kind == 4 {
      UnfilterPaeth(line, prev, bpp);
    } else if kind != 0 {
      ok := false;
    } else {
      Started(0, line[..], prev, bpp, line.Length);
      assert line[..][..line.Length] == line[..];
    }
  }

  // ----- whole images -----

  type Pixel = (Byte, Byte, Byte)

  /** The filtered rows of an image, each behind its filter type, each against the row before. */
  function FilterImage(kinds: seq<Byte>, rows: seq<seq<Byte>>, prev: seq<Byte>, bpp: nat): (raw: seq<Byte>)
    requires |kinds| == |rows| && bpp >= 1 && forall i :: 0 <= i < |rows| ==> |rows[i]| == |prev|
    decreases |rows|
  {
    if rows == [] then []
    else [kinds[0]] + Filter(kinds[0], rows[0], prev, bpp) + FilterImage(kinds[1..], rows[1..], rows[0], bpp)
  }

  /** The rows recovered one after the other; the first unknown filter type ends it all. */
  function UnfilterImage(raw: seq<Byte>, prev: seq<Byte>, height: nat, bpp: nat): (rows: Option<seq<seq<Byte>>>)
    requires |raw| >= height * (|prev| + 1) && bpp >= 1
    ensures rows.Some? ==> |rows.value| == height && forall i :: 0 <= i < height ==> |rows.value[i]| == |prev|
    decreases height
  {
    if height == 0 then Some([])
    else
      var stride := |prev|;
      RowsLeft(|raw|, height, stride);
      if raw[0] > 4 then None
      else
        var row := Unfiltered(raw[0], raw[1..1 + stride], prev, bpp, stride);
        var rest := UnfilterImage(raw[1 + stride..], row, height - 1, bpp);
        if rest.None? then None else Some([row] + rest.value)
  }

  lemma RowsLeft(length: nat, height: nat, stride: nat)
    requires height > 0 && length >= height * (stride + 1)
    ensures length >= stride + 1 && length - (stride + 1) >= (height - 1) * (stride + 1)
  {
  }

  /** Where row y of an image starts, when each row has w bytes. */
  function Offset(y: nat, w: nat): (off: nat) {
    y * w
  }

  lemma OffsetNext(y: nat, w: nat)
    ensures Offset(0, w) == 0 && Offset(y + 1, w) == Offset(y, w) + w
  {
  }

  /** The row whose type byte is at off, unfiltered against the row before. */
  ghost predicate RowFrom(raw: seq<Byte>, prev: seq<Byte>, line: seq<Byte>, off: nat, bpp: nat) {
    && off + 1 + |prev| <= |raw| && bpp >= 1
    && raw[off] <= 4
    && line == Unfiltered(raw[off], raw[off + 1..off + 1 + |prev|], prev, bpp, |prev|)
  }

  /** Where every row of an image comes from: its type byte, its data behind it, and the row before. */
  ghost predicate RowsFrom(raw: seq<Byte>, prev: seq<Byte>, lines: seq<seq<Byte>>, bpp: nat) {
    forall y :: 0 <= y < |lines| ==>
      RowFrom(raw, if y == 0 then prev else lines[y - 1], lines[y], Offset(y, |prev| + 1), bpp)
  }

  /** Row y starts with an unknown type. */
  ghost predicate BadType(raw: seq<Byte>, w: nat, y: nat) {
    Offset(y, w) < |raw| && raw[Offset(y, w)] > 4
  }

  ghost predicate SomeBadType(raw: seq<Byte>, w: nat, height: nat) {
    exists y :: 0 <= y < height && BadType(raw, w, y)
  }

  /** An image is refused if and only if some row has an unknown type; otherwise each row is the one described. */
  lemma {:induction false} RowsOfImage(raw: seq<Byte>, prev: seq<Byte>, height: nat, bpp: nat)
    requires |raw| >= height * (|prev| + 1) && bpp >= 1
    ensures var lines := UnfilterImage(raw, prev, height, bpp);
      && (lines.None? <==> SomeBadType(raw, |prev| + 1, height))
      && (lines.Some? ==> |lines.value| == height && RowsFrom(raw, prev, lines.value, bpp))
    decreases height
  {
    hide Unfiltered, Offset, BadType, RowsFrom;
    if height == 0 {
      NoRows(raw, prev, bpp);
    } else {
      var w := |prev| + 1;
      RowsLeft(|raw|, height, |prev|);
      FirstType(raw, w);
      if raw[0] <= 4 {
        var row := Unfiltered(raw[0], raw[1..w], prev, bpp, |prev|);
        RowsOfImage(raw[w..], row, height - 1, bpp);
        LaterTypes(raw, w, height);
        var rest := UnfilterImage(raw[w..], row, height - 1, bpp);
        if rest.Some? {
          LaterRows(raw, prev, row, rest.value, bpp);
        }
      }
    }
  }

  lemma NoRows(raw: seq<Byte>, prev: seq<Byte>, bpp: nat)
    ensures RowsFrom(raw, prev, [], bpp)
  {
  }

  lemma FirstType(raw: seq<Byte>, w: nat)
    requires raw != []
    ensures BadType(raw, w, 0) <==> raw[0] > 4
  {
    OffsetNext(0, w);
  }

  lemma LaterTypes(raw: seq<Byte>, w: nat, height: nat)
    requires height > 0 && 0 < w <= |raw| && raw[0] <= 4
    ensures SomeBadType(raw, w, height) <==> SomeBadType(raw[w..], w, height - 1)
  {
    hide BadType;
    FirstType(raw, w);
    if SomeBadType(raw, w, height) {
      var y :| 0 <= y < height && BadType(raw, w, y);
      TypeShift(raw, w, y - 1);
    }
    if SomeBadType(raw[w..], w, height - 1) {
      var y :| 0 <= y < height - 1 && BadType(raw[w..], w, y);
      TypeShift(raw, w, y);
    }
  }

  lemma TypeShift(raw: seq<Byte>, w: nat, y: nat)
    requires w <= |raw|
    ensures BadType(raw, w, y + 1) <==> BadType(raw[w..], w, y)
  {
    hide Offset;
    OffsetNext(y, w);
  }

  lemma LaterRows(raw: seq<Byte>, prev: seq<Byte>, row: seq<Byte>, rest: seq<seq<Byte>>, bpp: nat)
    requires |row| == |prev| < |raw| && RowFrom(raw, prev, row, 0, bpp)
    requires RowsFrom(raw[|prev| + 1..], row, rest, bpp)
    ensures RowsFrom(raw, prev, [row] + rest, bpp)
  {
    hide Unfiltered, Offset;
    var w, lines := |prev| + 1, [row] + rest;
    OffsetNext(0, w);
    forall y | 0 <= y < |lines|
      ensures RowFrom(raw, if y == 0 then prev else lines[y - 1], lines[y], Offset(y, w), bpp)
    {
      if y > 0 {
        OffsetNext(y - 1, w);
        assert lines[y] == rest[y - 1] && (y > 1 ==> lines[y - 1] == rest[y - 2]);
        assert RowFrom(raw[w..], if y - 1 == 0 then row else rest[y - 1 - 1], rest[y - 1],
                       Offset(y - 1, |row| + 1), bpp);
        RowShift(raw, if y == 1 then row else rest[y - 2], rest[y - 1], Offset(y - 1, w), bpp, w);
      }
    }
  }

  lemma RowShift(raw: seq<Byte>, prev: seq<Byte>, line: seq<Byte>, off: nat, bpp: nat, w: nat)
    requires w <= |raw| && RowFrom(raw[w..], prev, line, off, bpp)
    ensures RowFrom(raw, prev, line, off + w, bpp)
  {
    hide Unfiltered;
    assert raw[w..][off + 1..off + 1 + |prev|] == raw[off + w + 1..off + w + 1 + |prev|];
  }

  /** Unfiltering recovers every image from its filtered rows, whatever filter each row was written with. */
  lemma {:induction false} ImageRecovered(kinds: seq<Byte>, rows: seq<seq<Byte>>, prev: seq<Byte>, bpp: nat)
    requires |kinds| == |rows| && bpp >= 1 && forall i :: 0 <= i < |rows| ==> |rows[i]| == |prev|
    requires forall i :: 0 <= i < |kinds| ==> kinds[i] <= 4
    ensures |FilterImage(kinds, rows, prev, bpp)| == |rows| * (|prev| + 1)
    ensures UnfilterImage(FilterImage(kinds, rows, prev, bpp), prev, |rows|, bpp) == Some(rows)
    decreases |rows|
  {
    hide Filter, Unfiltered;
    if rows != [] {
      var stride := |prev|;
      var raw := FilterImage(kinds, rows, prev, bpp);
      var later := FilterImage(kinds[1..], rows[1..], rows[0], bpp);
      ImageRecovered(kinds[1..], rows[1..], rows[0], bpp);
      assert |rows| * (stride + 1) == (|rows| - 1) * (stride + 1) + (stride + 1);
      assert raw[1..1 + stride] == Filter(kinds[0], rows[0], prev, bpp) && raw[1 + stride..] == later;
      UnfilterInverts(kinds[0], rows[0], prev, bpp, stride);
      assert rows[0][..stride] == rows[0];
      assert [rows[0]] + rows[1..] == rows;
    }
  }

  /** A row's pixels; of a 16-bit channel the high byte. */
  function Pixels(line: seq<Byte>, width: nat, deep: bool): (row: seq<Pixel>)
    requires |line| == if deep then width * 6 else width * 3
  {
    if deep then seq(width, x requires 0 <= x < width => (line[6 * x], line[6 * x + 2], line[6 * x + 4]))
    else seq(width, x requires 0 <= x < width => (line[3 * x], line[3 * x + 1], line[3 * x + 2]))
  }

  function PixelRows(lines: seq<seq<Byte>>, width: nat, deep: bool): (rows: seq<seq<Pixel>>)
    requires forall i :: 0 <= i < |lines| ==> |lines[i]| == if deep then width * 6 else width * 3
  {
    seq(|lines|, i requires 0 <= i < |lines| => Pixels(lines[i], width, deep))
  }

  /** Red, green and blue in this order, of a 16-bit channel the first byte. */
  ghost predicate PixelsOf(rows: seq<seq<Pixel>>, lines: seq<seq<Byte>>, width: nat, deep: bool) {
    && |rows| == |lines|
    && forall y :: 0 <= y < |rows| ==>
      && |rows[y]| == width && |lines[y]| == (if deep then width * 6 else width * 3)
      && forall x :: 0 <= x < width ==>
        rows[y][x] ==
          if deep then (lines[y][6 * x], lines[y][6 * x + 2], lines[y][6 * x + 4])
          else (lines[y][3 * x], lines[y][3 * x + 1], lines[y][3 * x + 2])
  }

  /** In the middle of an image: these rows are recovered, this data and this many rows are left. */
  ghost predicate Reading(whole: Option<seq<seq<Byte>>>, lines: seq<seq<Byte>>, raw: seq<Byte>, prev: seq<Byte>,
                          left: nat, bpp: nat) {
    && bpp >= 1 && |raw| >= left * (|prev| + 1)
    && (forall i :: 0 <= i < |lines| ==> |lines[i]| == |prev|)
    && var rest := UnfilterImage(raw, prev, left, bpp);
      whole == if rest.None? then None else Some(lines + rest.value)
  }

  lemma ReadingTurn(whole: Option<seq<seq<Byte>>>, lines: seq<seq<Byte>>, raw: seq<Byte>, prev: seq<Byte>,
                    left: nat, bpp: nat)
    requires Reading(whole, lines, raw, prev, left, bpp)
    ensures left == 0 ==> whole == Some(lines)
    ensures left > 0 ==>
      var stride := |prev|;
      && |raw| >= stride + 1
      && if raw[0] > 4 then whole == None
         else
           var row := Unfiltered(raw[0], raw[1..1 + stride], prev, bpp, stride);
           Reading(whole, lines + [row], raw[1 + stride..], row, left - 1, bpp)
  {
    hide Unfiltered;
    if left == 0 {
      assert lines + [] == lines;
    } else {
      var stride := |prev|;
      RowsLeft(|raw|, left, stride);
      if raw[0] <= 4 {
        var row := Unfiltered(raw[0], raw[1..1 + stride], prev, bpp, stride);
        var rest := UnfilterImage(raw[1 + stride..], row, left - 1, bpp);
        assert rest.Some? ==> lines + ([row] + rest.value) == lines + [row] + rest.value;
      }
    }
  }

  /** One row: its bytes are copied out of the data and rewritten. */
  method ReadLine(raw: seq<Byte>, off: nat, prev: seq<Byte>, bpp: nat) returns (row: Option<seq<Byte>>)
    requires off + 1 + |prev| <= |raw| && bpp >= 1
    ensures row == if raw[off] > 4 then None
      else Some(Unfiltered(raw[off], raw[off + 1..off + 1 + |prev|], prev, bpp, |prev|))
  {
    hide Unfiltered;
    var data := raw[off + 1..off + 1 + |prev|];
    var line := new Byte[|data|](i requires 0 <= i < |data| => data[i]);
    assert line[..] == data;
    var ok := Unfilter(raw[off], line, prev, bpp);
    row := if ok then Some(line[..]) else None;
  }

  /** The row loop of read_png over the decompressed data. */
  method ReadRows(raw: seq<Byte>, width: nat, height: nat, deep: bool) returns (rows: Option<seq<seq<Pixel>>>)
    requires |raw| >= height * ((if deep then width * 6 else width * 3) + 1)
    ensures var stride := if deep then width * 6 else width * 3;
      var lines := UnfilterImage(raw, Zeros(stride), height, if deep then 6 else 3);
      rows == if lines.None? then None else Some(PixelRows(lines.value, width, deep))
    ensures var stride := if deep then width * 6 else width * 3;
      var lines := UnfilterImage(raw, Zeros(stride), height, if deep then 6 else 3);
      rows.Some? ==> lines.Some? && PixelsOf(rows.value, lines.value, width, deep)
  {
    hide Unfiltered, Pixels, UnfilterImage, PixelsOf, PixelRows;
    NoPixels(width, deep);
    var bpp := if deep then 6 else 3;
    var stride := if deep then width * 6 else width * 3;
    ghost var whole := UnfilterImage(raw, Zeros(stride), height, bpp);
    ghost var lines: seq<seq<Byte>> := [];
    var out: seq<seq<Pixel>> := [];
    var prev := Zeros(stride);
    var off := 0;
    assert raw[0..] == raw;
    assert whole.Some? ==> [] + whole.value == whole.value;
    for y := 0 to height
      invariant |prev| == stride && off == y * (stride + 1) <= |raw|
      invariant Reading(whole, lines, raw[off..], prev, height - y, bpp)
      invariant out == PixelRows(lines, width, deep)
    {
      ReadingTurn(whole, lines, raw[off..], prev, height - y, bpp);
      assert raw[off..][1..1 + stride] == raw[off + 1..off + 1 + stride];
      assert raw[off..][1 + stride..] == raw[off + 1 + stride..];
      var row := ReadLine(raw, off, prev, bpp);
      if row.None? {
        return None;
      }
      prev := row.value;
      RowAppended(lines, prev, width, deep);
      out := out + [Pixels(prev, width, deep)];
      lines := lines + [prev];
      off := off + 1 + stride;
      assert (y + 1) * (stride + 1) == y * (stride + 1) + (stride + 1);
    }
    ReadingTurn(whole, lines, raw[off..], prev, 0, bpp);
    rows := Some(out);
    PixelsAre(lines, width, deep);
  }

  lemma PixelsAre(lines: seq<seq<Byte>>, width: nat, deep: bool)
    requires forall i :: 0 <= i < |lines| ==> |lines[i]| == if deep then width * 6 else width * 3
    ensures PixelsOf(PixelRows(lines, width, deep), lines, width, deep)
  {
  }

  lemma NoPixels(width: nat, deep: bool)
    ensures PixelRows([], width, deep) == []
  {
  }

  lemma RowAppended(lines: seq<seq<Byte>>, line: seq<Byte>, width: nat, deep: bool)
    requires forall i :: 0 <= i < |lines| ==> |lines[i]| == if deep then width * 6 else width * 3
    requires |line| == if deep then width * 6 else width * 3
    ensures PixelRows(lines + [line], width, deep) == PixelRows(lines, width, deep) + [Pixels(line, width, deep)]
  {
  }
}
