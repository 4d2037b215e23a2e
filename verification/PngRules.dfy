/** Scanlines and interlacing in the numbers of the PNG specification, second edition. */
module PngRules {
  import opened Wrappers
  import opened Bits
  import opened Buffers
  import opened Filter
  import opened ImageRows
  import opened Adam7

  // ---------------------------------------------------------------- section 7.2: scanlines

  /** A line has as many bytes as its pixels need, and no more. */
  lemma LineIsLeast(w: nat, bpp: nat)
    ensures w * bpp <= 8 * LineBytes(w, bpp) < w * bpp + 8
  {}

  /** The rows a reading gives obey the filter rules: row `y` is made from the bytes behind its type byte, which is
      one of five, and from the row above it. */
  lemma {:induction false} RowsByRule(data: seq<byte>, rows: seq<byte>, width: nat, bytewidth: nat, n: nat, y: nat)
    requires bytewidth > 0 && Area(width + 1, n) <= |data|
    requires UnfilteredImage(data, width, bytewidth, n) == Some(rows) && y < n
    ensures y * (width + 1) + 1 + width <= |data| && y * width + width <= |rows|
    ensures y > 0 ==> y * width - width >= 0
    ensures var at, row := y * (width + 1), y * width;
            && data[at] <= 4
            && ByRule(rows[row..row + width], data[at + 1..at + 1 + width],
                      if y == 0 then None else Some(rows[row - width..row]), bytewidth, data[at])
    decreases n
  {
    hide ByRule, Reconstructed;
    AreaNext(width, n - 1);
    AreaNext(width + 1, n - 1);
    var at := Area(width + 1, n - 1);
    var front := UnfilteredImage(data, width, bytewidth, n - 1).value;
    hide UnfilteredImage;
    Places(width, y, n);
    if y < n - 1 {
      RowsByRule(data, front, width, bytewidth, n - 1, y);
      SameRow(front, rows, width, y, n - 1);
    } else {
      LastRow(data, front, rows, width, bytewidth, y);
    }
  }

  lemma Places(width: nat, y: nat, n: nat)
    requires y < n
    ensures Area(width, y) == y * width && Area(width + 1, y) == y * (width + 1)
    ensures y * width + width <= Area(width, n) && y * (width + 1) + width + 1 <= Area(width + 1, n)
    ensures y > 0 ==> y * width >= width
  {
    MulLe(y + 1, n, width);
    MulLe(y + 1, n, width + 1);
    if y > 0 { MulLe(1, y, width); }
  }

  lemma SameRow(front: seq<byte>, rows: seq<byte>, width: nat, y: nat, n: nat)
    requires y < n && front <= rows && |front| == Area(width, n)
    ensures 0 <= y * width && y * width + width <= |front|
    ensures front[y * width..y * width + width] == rows[y * width..y * width + width]
    ensures y > 0 ==> y * width >= width && front[y * width - width..y * width] == rows[y * width - width..y * width]
  {
    Places(width, y, n);
  }

  lemma LastRow(data: seq<byte>, front: seq<byte>, rows: seq<byte>, width: nat, bytewidth: nat, y: nat)
    requires bytewidth > 0 && |front| == Area(width, y) == y * width && (y > 0 ==> y * width >= width)
    requires y * (width + 1) + 1 + width <= |data| && data[y * (width + 1)] <= 4
    requires var at := y * (width + 1);
             rows == front + Reconstructed(data[at + 1..at + 1 + width], Previous(front, width, y), bytewidth, data[at])
    ensures var at, row := y * (width + 1), y * width;
            && row + width <= |rows|
            && ByRule(rows[row..row + width], data[at + 1..at + 1 + width],
                      if y == 0 then None else Some(rows[row - width..row]), bytewidth, data[at])
  {
    hide ByRule, Reconstructed, IsReconstructed;
    var at, row := y * (width + 1), y * width;
    var line, prev := data[at + 1..at + 1 + width], Previous(front, width, y);
    var r := Reconstructed(line, prev, bytewidth, data[at]);
    assert prev == if y == 0 then None else Some(rows[row - width..row]) by { AboveLast(front, rows, width, y); }
    hide Previous;
    ReconstructedIs(line, prev, bytewidth, data[at]);
    ReconstructedRule(r, line, prev, bytewidth, data[at]);
    assert rows[row..row + width] == r;
  }

  lemma AboveLast(front: seq<byte>, rows: seq<byte>, width: nat, y: nat)
    requires |front| == Area(width, y) == y * width && front <= rows && (y > 0 ==> y * width >= width)
    ensures Previous(front, width, y) == if y == 0 then None else Some(rows[y * width - width..y * width])
  {
    if y > 0 {
      AreaNext(width, y - 1);
      var a := y * width - width;
      assert Area(width, y - 1) == a;
      assert front[a..a + width] == rows[a..a + width];
    }
  }

  /** There is no reading exactly when some row has a type that is not one of the five. */
  lemma {:induction false} NoRows(data: seq<byte>, width: nat, bytewidth: nat, n: nat)
    requires bytewidth > 0 && Area(width + 1, n) <= |data|
    ensures UnfilteredImage(data, width, bytewidth, n).None? <==>
              exists y: nat :: y < n && UnknownType(data, width, y)
    decreases n
  {
    hide *;
    if n > 0 {
      OneRowMore(data, width, bytewidth, n);
      NoRows(data, width, bytewidth, n - 1);
    } else {
      NoRowAtAll(data, width, bytewidth);
    }
  }

  lemma NoRowAtAll(data: seq<byte>, width: nat, bytewidth: nat)
    requires bytewidth > 0 && Area(width + 1, 0) <= |data|
    ensures UnfilteredImage(data, width, bytewidth, 0).Some?
  {}

  lemma OneRowMore(data: seq<byte>, width: nat, bytewidth: nat, n: nat)
    requires bytewidth > 0 && Area(width + 1, n) <= |data| && n > 0
    ensures Area(width + 1, n - 1) <= |data|
    ensures UnfilteredImage(data, width, bytewidth, n).None? <==>
              UnfilteredImage(data, width, bytewidth, n - 1).None? || UnknownType(data, width, n - 1)
  {
    hide Reconstructed;
    AreaNext(width + 1, n - 1);
    AreaNext(width, n - 1);
    Places(width, n - 1, n);
  }

  /** The type byte of row `y` is not one of the five. */
  predicate UnknownType(data: seq<byte>, width: nat, y: nat) {
    y * (width + 1) < |data| && data[y * (width + 1)] > 4
  }

  // ---------------------------------------------------------------- section 8.2: interlacing

  /** The pass of each pixel of a block of eight by eight, counted from one as the specification draws it. */
  lemma Adam7Pattern(x: nat, y: nat)
    ensures PassOf(x, y) + 1
         == [[1, 6, 4, 6, 2, 6, 4, 6],
             [7, 7, 7, 7, 7, 7, 7, 7],
             [5, 6, 5, 6, 5, 6, 5, 6],
             [7, 7, 7, 7, 7, 7, 7, 7],
             [3, 6, 4, 6, 3, 6, 4, 6],
             [7, 7, 7, 7, 7, 7, 7, 7],
             [5, 6, 5, 6, 5, 6, 5, 6],
             [7, 7, 7, 7, 7, 7, 7, 7]][y % 8][x % 8]
  {
    hide PassOf;
    EightByEight(x, y);
    Block(x % 8, y % 8);
  }

  lemma EightByEight(x: nat, y: nat)
    ensures PassOf(x, y) == PassOf(x % 8, y % 8)
  {
    Remainders(x);
    Remainders(y);
  }

  lemma Remainders(x: nat)
    ensures x % 8 % 2 == x % 2 && x % 8 % 4 == x % 4 && x % 8 % 8 == x % 8
  {}

  lemma Block(c: nat, r: nat)
    requires c < 8 && r < 8
    ensures PassOf(c, r) + 1
         == [[1, 6, 4, 6, 2, 6, 4, 6],
             [7, 7, 7, 7, 7, 7, 7, 7],
             [5, 6, 5, 6, 5, 6, 5, 6],
             [7, 7, 7, 7, 7, 7, 7, 7],
             [3, 6, 4, 6, 3, 6, 4, 6],
             [7, 7, 7, 7, 7, 7, 7, 7],
             [5, 6, 5, 6, 5, 6, 5, 6],
             [7, 7, 7, 7, 7, 7, 7, 7]][r][c]
  {}
}
