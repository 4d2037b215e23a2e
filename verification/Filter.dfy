/** The five scanline filters of PNG (sections 9.2 to 9.4 of the PNG specification, second edition).

    A row is filtered by subtracting a prediction from every byte, made from the byte one pixel to
    the left, the byte above and the byte above-left; bytes outside the image count as zero. */
module Filter {
  import opened Wrappers
  import opened Bits

  /** `LODEPNG_ABS` in `short` arithmetic. */
  function Distance(x: int): nat {
    if x < 0 then -x else x
  }

  /** The predictor of filter type 4, with the tie-breaking order a, b, c. */
  function Paeth(a: byte, b: byte, c: byte): (r: byte)
    ensures r == a || r == b || r == c
  {
    var p := a as int + b as int - c as int;
    var pa, pb, pc := Distance(p - a as int), Distance(p - b as int), Distance(p - c as int);
    if pa <= pb && pa <= pc then a else if pb <= pc then b else c
  }

  /** Byte addition, modulo 256. */
  function Plus(a: byte, b: byte): byte {
    (a as int + b as int) % 256
  }

  function Minus(a: byte, b: byte): byte {
    (a as int - b as int) % 256
  }

  lemma PlusMinus(a: byte, b: byte)
    ensures Plus(Minus(a, b), b) == a
  {}

  function Mean(a: byte, b: byte): byte {
    (a as int + b as int) / 2
  }

  function Predict(filter: nat, a: byte, b: byte, c: byte): byte
    requires filter <= 4
  {
    if filter == 0 then 0
    else if filter == 1 then a
    else if filter == 2 then b
    else if filter == 3 then Mean(a, b)
    else Paeth(a, b, c)
  }

  /** The byte `k` places back, zero before the start of the row. */
  function Back(row: seq<byte>, i: nat, k: nat): byte
    requires i < |row| + k && k > 0
  {
    if i >= k then row[i - k] else 0
  }

  function Above(prev: Option<seq<byte>>, i: nat): byte
    requires prev.Some? ==> i < |prev.value|
  {
    if prev.Some? then prev.value[i] else 0
  }

  function AboveBack(prev: Option<seq<byte>>, i: nat, k: nat): byte
    requires k > 0 && (prev.Some? ==> i < |prev.value|)
  {
    if prev.Some? then Back(prev.value, i, k) else 0
  }

  /** The prediction for place `i` of a row whose bytes before `i` are known. */
  function PredictAt(row: seq<byte>, prev: Option<seq<byte>>, bytewidth: nat, filter: nat, i: nat): byte
    requires filter <= 4 && bytewidth > 0 && i <= |row| && (prev.Some? ==> i < |prev.value|)
  {
    Predict(filter, Back(row, i, bytewidth), Above(prev, i), AboveBack(prev, i, bytewidth))
  }

  ghost function Filtered(row: seq<byte>, prev: Option<seq<byte>>, bytewidth: nat, filter: nat): (r: seq<byte>)
    requires filter <= 4 && bytewidth > 0 && (prev.Some? ==> |prev.value| == |row|)
    ensures |r| == |row|
  {
    seq(|row|, i requires 0 <= i < |row| => Minus(row[i], PredictAt(row, prev, bytewidth, filter, i)))
  }

  /** The reconstruction, one byte after the other. */
  ghost function Reconstructed(line: seq<byte>, prev: Option<seq<byte>>, bytewidth: nat, filter: nat): (r: seq<byte>)
    requires filter <= 4 && bytewidth > 0 && (prev.Some? ==> |prev.value| >= |line|)
    ensures |r| == |line|
  {
    if line == [] then []
    else
      var n := |line| - 1;
      var front := Reconstructed(line[..n], prev, bytewidth, filter);
      front + [Plus(line[n], PredictAt(front, prev, bytewidth, filter, n))]
  }

  /** A prediction depends on earlier bytes only. */
  lemma PredictPrefix(row: seq<byte>, prev: Option<seq<byte>>, bytewidth: nat, filter: nat, i: nat)
    requires filter <= 4 && bytewidth > 0 && i <= |row| && (prev.Some? ==> i < |prev.value|)
    ensures PredictAt(row[..i], prev, bytewidth, filter, i) == PredictAt(row, prev, bytewidth, filter, i)
  {
    hide Predict;
    assert Back(row[..i], i, bytewidth) == Back(row, i, bytewidth);
  }

  /** Reconstruction undoes filtering, for every filter type, with or without a row above. */
  lemma {:induction false} FilterRoundTrip(row: seq<byte>, prev: Option<seq<byte>>, bytewidth: nat, filter: nat, n: nat)
    requires filter <= 4 && bytewidth > 0 && (prev.Some? ==> |prev.value| == |row|) && n <= |row|
    ensures Reconstructed(Filtered(row, prev, bytewidth, filter)[..n], prev, bytewidth, filter) == row[..n]
  {
    if n > 0 {
      hide PredictAt, Plus, Minus;
      FilterRoundTrip(row, prev, bytewidth, filter, n - 1);
      var line := Filtered(row, prev, bytewidth, filter);
      assert line[..n][..n - 1] == line[..n - 1];
      PredictPrefix(row, prev, bytewidth, filter, n - 1);
      PlusMinus(row[n - 1], PredictAt(row, prev, bytewidth, filter, n - 1));
      assert row[..n] == row[..n - 1] + [row[n - 1]];
    }
  }

  // ---------------------------------------------------------------- the shortcuts

  /** The source's predictor: `b` replaces `a` only when it is strictly closer, then `c` only when strictly closer
      still. */
  method PaethPredictor(a: byte, b: byte, c: byte) returns (r: byte)
    ensures r == Paeth(a, b, c)
  {
    var best := a;
    var pa := Distance(b as int - c as int);
    var pb := Distance(a as int - c as int);
    var pc := Distance(a as int + b as int - c as int - c as int);
    if pb < pa {
      best := b;
      pa := pb;
    }
    r := if pc < pa then c else best;
  }

  /** The recurrence, read off the reconstruction itself. */
  lemma {:induction false} ReconstructedAt(line: seq<byte>, prev: Option<seq<byte>>, bytewidth: nat, filter: nat,
                                           i: nat)
    requires filter <= 4 && bytewidth > 0 && (prev.Some? ==> |prev.value| >= |line|) && i < |line|
    ensures Reconstructed(line, prev, bytewidth, filter)[i]
         == Plus(line[i], PredictAt(Reconstructed(line, prev, bytewidth, filter), prev, bytewidth, filter, i))
    decreases |line|
  {
    hide Predict;
    var n := |line| - 1;
    if i < n {
      ReconstructedAt(line[..n], prev, bytewidth, filter, i);
      var front := Reconstructed(line[..n], prev, bytewidth, filter);
      assert Back(front, i, bytewidth) == Back(Reconstructed(line, prev, bytewidth, filter), i, bytewidth);
    } else {
      var front := Reconstructed(line[..n], prev, bytewidth, filter);
      assert Back(front, i, bytewidth) == Back(Reconstructed(line, prev, bytewidth, filter), i, bytewidth);
    }
  }

  // ---------------------------------------------------------------- the types on plain numbers

  function Gap(x: int, y: int): nat {
    if x < y then y - x else x - y
  }

  /** What sections 9.2 to 9.4 of the specification demand of a prediction: nothing, the byte to the left, the byte
      above, half their sum without the remainder, or the one of the three that is nearest to left + up - corner; of
      equally near ones the left before the upper before the corner. */
  lemma PredictionIs(row: seq<byte>, prev: Option<seq<byte>>, bytewidth: nat, filter: nat, i: nat)
    requires filter <= 4 && bytewidth > 0 && i <= |row| && (prev.Some? ==> i < |prev.value|)
    ensures var left := if i >= bytewidth then row[i - bytewidth] as int else 0;
            var up := if prev.Some? then prev.value[i] as int else 0;
            var corner := if prev.Some? && i >= bytewidth then prev.value[i - bytewidth] as int else 0;
            var p, m := left + up - corner, PredictAt(row, prev, bytewidth, filter, i) as int;
            && (filter == 0 ==> m == 0) && (filter == 1 ==> m == left) && (filter == 2 ==> m == up)
            && (filter == 3 ==> 2 * m <= left + up < 2 * m + 2)
            && (filter == 4 ==>
                  && m in {left, up, corner}
                  && Gap(m, p) <= Gap(left, p) && Gap(m, p) <= Gap(up, p) && Gap(m, p) <= Gap(corner, p)
                  && (m != left ==> Gap(m, p) < Gap(left, p)) && (m !in {left, up} ==> Gap(m, p) < Gap(up, p)))
  {}

  /** Byte `i` of a row and of its filtered form differ by such a prediction. */
  ghost predicate ByteByRule(row: seq<byte>, line: seq<byte>, prev: Option<seq<byte>>, bytewidth: nat, filter: nat,
                             i: nat)
    requires bytewidth > 0 && i < |row| == |line| && (prev.Some? ==> i < |prev.value|)
  {
    var left := if i >= bytewidth then row[i - bytewidth] as int else 0;
    var up := if prev.Some? then prev.value[i] as int else 0;
    var corner := if prev.Some? && i >= bytewidth then prev.value[i - bytewidth] as int else 0;
    var p, m := left + up - corner, (row[i] as int - line[i] as int) % 256;
    && (filter == 0 ==> m == 0) && (filter == 1 ==> m == left) && (filter == 2 ==> m == up)
    && (filter == 3 ==> 2 * m <= left + up < 2 * m + 2)
    && (filter == 4 ==>
          && m in {left, up, corner}
          && Gap(m, p) <= Gap(left, p) && Gap(m, p) <= Gap(up, p) && Gap(m, p) <= Gap(corner, p)
          && (m != left ==> Gap(m, p) < Gap(left, p)) && (m !in {left, up} ==> Gap(m, p) < Gap(up, p)))
  }

  ghost predicate ByRule(row: seq<byte>, line: seq<byte>, prev: Option<seq<byte>>, bytewidth: nat, filter: nat) {
    && |row| == |line| && (prev.Some? ==> |prev.value| == |row|) && bytewidth > 0
    && forall i | 0 <= i < |row| :: ByteByRule(row, line, prev, bytewidth, filter, i)
  }

  lemma DifferenceIs(row: seq<byte>, line: seq<byte>, prev: Option<seq<byte>>, bytewidth: nat, filter: nat, i: nat)
    requires bytewidth > 0 && i < |row| == |line| && (prev.Some? ==> i < |prev.value|) && filter <= 4
    requires (row[i] as int - line[i] as int) % 256 == PredictAt(row, prev, bytewidth, filter, i) as int
    ensures ByteByRule(row, line, prev, bytewidth, filter, i)
  {
    hide PredictAt, Gap;
    PredictionIs(row, prev, bytewidth, filter, i);
  }

  lemma Difference(a: byte, b: byte)
    ensures (Plus(a, b) as int - a as int) % 256 == b as int
    ensures (a as int - Minus(a, b) as int) % 256 == b as int
  {}

  lemma FilteredRule(f: seq<byte>, row: seq<byte>, prev: Option<seq<byte>>, bytewidth: nat, filter: nat)
    requires filter <= 4 && bytewidth > 0 && IsFiltered(f, row, prev, bytewidth, filter)
    ensures ByRule(row, f, prev, bytewidth, filter)
  {
    hide PredictAt, Minus, ByteByRule;
    forall i | 0 <= i < |row| ensures ByteByRule(row, f, prev, bytewidth, filter, i) {
      Difference(row[i], PredictAt(row, prev, bytewidth, filter, i));
      DifferenceIs(row, f, prev, bytewidth, filter, i);
    }
  }

  lemma ReconstructedRule(row: seq<byte>, line: seq<byte>, prev: Option<seq<byte>>, bytewidth: nat, filter: nat)
    requires filter <= 4 && bytewidth > 0 && IsReconstructed(row, line, prev, bytewidth, filter)
    ensures ByRule(row, line, prev, bytewidth, filter)
  {
    hide PredictAt, Plus, ByteByRule;
    forall i | 0 <= i < |row| ensures ByteByRule(row, line, prev, bytewidth, filter, i) {
      Difference(line[i], PredictAt(row, prev, bytewidth, filter, i));
      DifferenceIs(row, line, prev, bytewidth, filter, i);
    }
  }

  /** The rule leaves no choice: it holds of no other row and line. */
  lemma {:induction false} RuleDecides(row: seq<byte>, row': seq<byte>, line: seq<byte>, line': seq<byte>,
                                       prev: Option<seq<byte>>, bytewidth: nat, filter: nat, n: nat)
    requires filter <= 4 && ByRule(row, line, prev, bytewidth, filter) && ByRule(row', line', prev, bytewidth, filter)
    requires n <= |row| == |row'|
    ensures row == row' ==> line[..n] == line'[..n]
    ensures line == line' ==> row[..n] == row'[..n]
  {
    hide ByteByRule;
    if n > 0 {
      var k := n - 1;
      RuleDecides(row, row', line, line', prev, bytewidth, filter, k);
      assert row[..n] == row[..k] + [row[k]] && row'[..n] == row'[..k] + [row'[k]];
      assert line[..n] == line[..k] + [line[k]] && line'[..n] == line'[..k] + [line'[k]];
      assert ByteByRule(row, line, prev, bytewidth, filter, k) && ByteByRule(row', line', prev, bytewidth, filter, k);
      if row[..k] == row'[..k] { SameByte(row, row', line, line', prev, bytewidth, filter, k); }
    }
  }

  lemma SameByte(row: seq<byte>, row': seq<byte>, line: seq<byte>, line': seq<byte>, prev: Option<seq<byte>>,
                 bytewidth: nat, filter: nat, k: nat)
    requires bytewidth > 0 && k < |row| == |line| == |row'| == |line'| && (prev.Some? ==> k < |prev.value|)
    requires filter <= 4 && row[..k] == row'[..k]
    requires ByteByRule(row, line, prev, bytewidth, filter, k) && ByteByRule(row', line', prev, bytewidth, filter, k)
    ensures row[k] == row'[k] <==> line[k] == line'[k]
  {
    if k >= bytewidth { assert row[..k][k - bytewidth] == row'[..k][k - bytewidth]; }
    assert (row[k] as int - line[k] as int) % 256 == (row'[k] as int - line'[k] as int) % 256;
    hide ByteByRule;
  }

  // ---------------------------------------------------------------- rows in buffers

  /** `buf` has `r[..n]` from `at` on and is otherwise as it was. */
  ghost predicate Written(buf: array<byte>, was: seq<byte>, at: nat, r: seq<byte>, n: nat)
    reads buf
  {
    && n <= |r| && at + |r| <= buf.Length == |was|
    && (forall k | 0 <= k < n :: buf[at + k] == r[k])
    && (forall j | 0 <= j < buf.Length && !(at <= j < at + n) :: buf[j] == was[j])
  }

  ghost function RowAbove(buf: array<byte>, above: Option<nat>, length: nat): (r: Option<seq<byte>>)
    reads buf
    requires above.Some? ==> above.value + length <= buf.Length
    ensures r.Some? == above.Some? && (r.Some? ==> |r.value| == length)
  {
    match above
    case None => None
    case Some(p) => Some(buf[p..p + length])
  }

  /** `row` and `prev` are what stands in `buf` at `from` and at `above`. */
  ghost predicate Lines(buf: array<byte>, from: nat, above: Option<nat>, row: seq<byte>, prev: Option<seq<byte>>)
    reads buf
  {
    && from + |row| <= buf.Length && (forall k | 0 <= k < |row| :: row[k] == buf[from + k])
    && (above.Some? <==> prev.Some?)
    && (above.Some? ==> above.value + |row| <= buf.Length && |prev.value| == |row|
                        && forall k | 0 <= k < |row| :: prev.value[k] == buf[above.value + k])
  }

  /** One filtered row; `out` and `image` are different buffers, and `above` is where the row above starts. */
  method FilterScanline(out: array<byte>, at: nat, image: array<byte>, from: nat, above: Option<nat>, length: nat,
                        bytewidth: nat, filter: nat)
    requires out != image && at + length <= out.Length && from + length <= image.Length && filter <= 4
    requires 0 < bytewidth <= length
    requires above.Some? ==> above.value + length <= image.Length
    modifies out
    ensures Written(out, old(out[..]), at, Filtered(image[from..from + length], RowAbove(image, above, length),
                                                    bytewidth, filter), length)
    ensures ByRule(image[from..from + length], out[at..at + length], RowAbove(image, above, length), bytewidth, filter)
  {
    ghost var row, prev := image[from..from + length], RowAbove(image, above, length);
    ghost var f := Filtered(row, prev, bytewidth, filter);
    FilteredShape(row, prev, bytewidth, filter);
    FilteredIs(image, from, above, length, bytewidth, filter);
    hide Filtered, Written, Lines, IsFiltered, RowAbove, ByRule;
    if filter == 0 || (filter == 2 && above.None?) {
      FilterCopy(out, at, image, from, above, length, bytewidth, filter, row, prev, f);
    } else if filter == 1 {
      FilterSub(out, at, image, from, above, length, bytewidth, row, prev, f);
    } else if filter == 2 {
      FilterUp(out, at, image, from, above.value, length, bytewidth, row, prev, f);
    } else if filter == 3 {
      FilterAverage(out, at, image, from, above, length, bytewidth, row, prev, f);
    } else {
      FilterPaeth(out, at, image, from, above, length, bytewidth, row, prev, f);
    }
    FilteredRule(f, row, prev, bytewidth, filter);
    WrittenRow(out, old(out[..]), at, f);
    SameRows(image, from, above, row, prev);
  }

  lemma FilteredShape(row: seq<byte>, prev: Option<seq<byte>>, bytewidth: nat, filter: nat)
    requires filter <= 4 && bytewidth > 0 && (prev.Some? ==> |prev.value| == |row|)
    ensures |Filtered(row, prev, bytewidth, filter)| == |row|
  {}

  lemma WrittenRow(buf: array<byte>, was: seq<byte>, at: nat, r: seq<byte>)
    requires Written(buf, was, at, r, |r|)
    ensures at + |r| <= buf.Length && buf[at..at + |r|] == r
  {}

  lemma SameRows(buf: array<byte>, from: nat, above: Option<nat>, row: seq<byte>, prev: Option<seq<byte>>)
    requires Lines(buf, from, above, row, prev)
    ensures from + |row| <= buf.Length && buf[from..from + |row|] == row
    ensures above.Some? ==> above.value + |row| <= buf.Length
    ensures RowAbove(buf, above, |row|) == prev
  {
    if above.Some? { assert buf[above.value..above.value + |row|] == prev.value; }
  }

  /** `f` is the filtered form of `row`, byte by byte. */
  ghost predicate IsFiltered(f: seq<byte>, row: seq<byte>, prev: Option<seq<byte>>, bytewidth: nat, filter: nat)
    requires filter <= 4 && bytewidth > 0
  {
    && |f| == |row| && (prev.Some? ==> |prev.value| == |row|)
    && forall i | 0 <= i < |f| :: f[i] == Minus(row[i], PredictAt(row, prev, bytewidth, filter, i))
  }

  method FilterCopy(out: array<byte>, at: nat, image: array<byte>, from: nat, above: Option<nat>, length: nat,
                    bytewidth: nat, filter: nat, ghost row: seq<byte>, ghost prev: Option<seq<byte>>,
                    ghost f: seq<byte>)
    requires out != image && at + length <= out.Length && |row| == length && Lines(image, from, above, row, prev)
    requires bytewidth > 0 && (filter == 0 || (filter == 2 && above.None?))
    requires IsFiltered(f, row, prev, bytewidth, filter)
    modifies out
    ensures Written(out, old(out[..]), at, f, length)
  {
    for i := 0 to length
      invariant Written(out, old(out[..]), at, f, i)
    {
      out[at + i] := image[from + i];
    }
  }

  method FilterSub(out: array<byte>, at: nat, image: array<byte>, from: nat, above: Option<nat>, length: nat,
                   bytewidth: nat, ghost row: seq<byte>, ghost prev: Option<seq<byte>>, ghost f: seq<byte>)
    requires out != image && at + length <= out.Length && |row| == length && Lines(image, from, above, row, prev)
    requires 0 < bytewidth <= length && IsFiltered(f, row, prev, bytewidth, 1)
    modifies out
    ensures Written(out, old(out[..]), at, f, length)
  {
    hide PredictAt, Mean;
    for i := 0 to bytewidth
      invariant Written(out, old(out[..]), at, f, i)
    {
      SubAt(row, prev, bytewidth, i);
      out[at + i] := image[from + i];
    }
    for i := bytewidth to length
      invariant Written(out, old(out[..]), at, f, i)
    {
      SubAt(row, prev, bytewidth, i);
      out[at + i] := Minus(image[from + i], image[from + i - bytewidth]);
    }
  }

  method FilterUp(out: array<byte>, at: nat, image: array<byte>, from: nat, above: nat, length: nat, bytewidth: nat,
                  ghost row: seq<byte>, ghost prev: Option<seq<byte>>, ghost f: seq<byte>)
    requires out != image && at + length <= out.Length && |row| == length && Lines(image, from, Some(above), row, prev)
    requires bytewidth > 0 && IsFiltered(f, row, prev, bytewidth, 2)
    modifies out
    ensures Written(out, old(out[..]), at, f, length)
  {
    for i := 0 to length
      invariant Written(out, old(out[..]), at, f, i)
    {
      out[at + i] := Minus(image[from + i], image[above + i]);
    }
  }

  method FilterAverage(out: array<byte>, at: nat, image: array<byte>, from: nat, above: Option<nat>, length: nat,
                       bytewidth: nat, ghost row: seq<byte>, ghost prev: Option<seq<byte>>, ghost f: seq<byte>)
    requires out != image && at + length <= out.Length && |row| == length && Lines(image, from, above, row, prev)
    requires 0 < bytewidth <= length && IsFiltered(f, row, prev, bytewidth, 3)
    modifies out
    ensures Written(out, old(out[..]), at, f, length)
  {
    hide PredictAt, Mean;
    for i := 0 to bytewidth
      invariant Written(out, old(out[..]), at, f, i)
    {
      AverageAt(row, prev, bytewidth, i);
      out[at + i] := if above.Some? then Minus(image[from + i], Mean(0, image[above.value + i])) else image[from + i];
    }
    for i := bytewidth to length
      invariant Written(out, old(out[..]), at, f, i)
    {
      var left := image[from + i - bytewidth];
      var average := if above.Some? then Mean(left, image[above.value + i]) else Mean(left, 0);
      AverageAt(row, prev, bytewidth, i);
      out[at + i] := Minus(image[from + i], average);
    }
  }

  /** Type 3 with a neighbour missing. */
  lemma AverageAt(row: seq<byte>, prev: Option<seq<byte>>, bytewidth: nat, i: nat)
    requires bytewidth > 0 && i < |row| && (prev.Some? ==> |prev.value| == |row|)
    ensures PredictAt(row, prev, bytewidth, 3, i)
         == if prev.None? then (if i < bytewidth then 0 else Mean(row[i - bytewidth], 0))
            else if i < bytewidth then Mean(0, prev.value[i])
            else Mean(row[i - bytewidth], prev.value[i])
  {}

  method FilterPaeth(out: array<byte>, at: nat, image: array<byte>, from: nat, above: Option<nat>, length: nat,
                     bytewidth: nat, ghost row: seq<byte>, ghost prev: Option<seq<byte>>, ghost f: seq<byte>)
    requires out != image && at + length <= out.Length && |row| == length && Lines(image, from, above, row, prev)
    requires 0 < bytewidth <= length && IsFiltered(f, row, prev, bytewidth, 4)
    modifies out
    ensures Written(out, old(out[..]), at, f, length)
  {
    hide PredictAt, Mean;
    for i := 0 to bytewidth
      invariant Written(out, old(out[..]), at, f, i)
    {
      PaethAt(row, prev, bytewidth, i);
      out[at + i] := if above.Some? then Minus(image[from + i], image[above.value + i]) else image[from + i];
    }
    for i := bytewidth to length
      invariant Written(out, old(out[..]), at, f, i)
    {
      var predicted := image[from + i - bytewidth];
      if above.Some? {
        predicted := PaethPredictor(image[from + i - bytewidth], image[above.value + i],
                                    image[above.value + i - bytewidth]);
      }
      assert predicted == PredictAt(row, prev, bytewidth, 4, i) by { PaethAt(row, prev, bytewidth, i); }
      out[at + i] := Minus(image[from + i], predicted);
    }
  }

  /** Type 4 with a neighbour missing. */
  lemma PaethAt(row: seq<byte>, prev: Option<seq<byte>>, bytewidth: nat, i: nat)
    requires bytewidth > 0 && i < |row| && (prev.Some? ==> |prev.value| == |row|)
    ensures PredictAt(row, prev, bytewidth, 4, i)
         == if prev.None? then (if i < bytewidth then 0 else row[i - bytewidth])
            else if i < bytewidth then prev.value[i]
            else Paeth(row[i - bytewidth], prev.value[i], prev.value[i - bytewidth])
  {}

  lemma SubAt(row: seq<byte>, prev: Option<seq<byte>>, bytewidth: nat, i: nat)
    requires bytewidth > 0 && i < |row| && (prev.Some? ==> |prev.value| == |row|)
    ensures PredictAt(row, prev, bytewidth, 1, i) == if i < bytewidth then 0 else row[i - bytewidth]
  {}

  lemma FilteredIs(image: array<byte>, from: nat, above: Option<nat>, length: nat, bytewidth: nat, filter: nat)
    requires from + length <= image.Length && (above.Some? ==> above.value + length <= image.Length) && filter <= 4
    requires bytewidth > 0
    ensures Lines(image, from, above, image[from..from + length], RowAbove(image, above, length))
    ensures var row, prev := image[from..from + length], RowAbove(image, above, length);
            IsFiltered(Filtered(row, prev, bytewidth, filter), row, prev, bytewidth, filter)
  {}

  // ---------------------------------------------------------------- unfiltering

  ghost predicate IsReconstructed(r: seq<byte>, line: seq<byte>, prev: Option<seq<byte>>, bytewidth: nat, filter: nat)
    requires filter <= 4 && bytewidth > 0
  {
    && |r| == |line| && (prev.Some? ==> |prev.value| == |line|)
    && forall i | 0 <= i < |r| :: r[i] == Plus(line[i], PredictAt(r, prev, bytewidth, filter, i))
  }

  /** Where a line and the row above come from: `was` and `scan` are what stood in the two buffers before any writing.
      They may be one buffer as long as the line is not written behind its own start; the row above lies before both. */
  ghost predicate Source(same: bool, at: nat, scan: seq<byte>, from: nat, above: Option<nat>, line: seq<byte>,
                         prev: Option<seq<byte>>, was: seq<byte>)
  {
    && at + |line| <= |was| && from + |line| <= |scan| && line == scan[from..from + |line|]
    && (same ==> at <= from && scan == was)
    && (above.Some? <==> prev.Some?)
    && (above.Some? ==> above.value + |line| <= at && prev.value == was[above.value..above.value + |line|])
  }

  /** Whatever is still to be read has not been overwritten. */
  lemma Readable(recon: array<byte>, at: nat, scanline: array<byte>, from: nat, above: Option<nat>, line: seq<byte>,
                 prev: Option<seq<byte>>, was: seq<byte>, scan: seq<byte>, r: seq<byte>, n: nat)
    requires Source(recon == scanline, at, scan, from, above, line, prev, was)
    requires (recon != scanline ==> scanline[..] == scan)
    requires Written(recon, was, at, r, n) && |r| == |line|
    ensures from + |line| <= scanline.Length && at + |line| <= recon.Length
    ensures forall k | n <= k < |line| :: scanline[from + k] == line[k]
    ensures forall k | 0 <= k < n :: recon[at + k] == r[k]
    ensures above.Some? <==> prev.Some?
    ensures above.Some? ==> |prev.value| == |line| && above.value + |line| <= at
                            && forall k | 0 <= k < |line| :: recon[above.value + k] == prev.value[k]
  {
    forall k | n <= k < |line| ensures scanline[from + k] == line[k] {
      assert line[k] == scan[from + k];
      if recon != scanline { assert scanline[..][from + k] == scan[from + k]; }
    }
  }

  lemma SourceStart(recon: array<byte>, at: nat, scanline: array<byte>, from: nat, above: Option<nat>, line: seq<byte>,
                    prev: Option<seq<byte>>, r: seq<byte>)
    requires Source(recon == scanline, at, scanline[..], from, above, line, prev, recon[..]) && |r| == |line|
    ensures Written(recon, recon[..], at, r, 0)
  {}

  // What each type reconstructs.

  lemma CopyAt(r: seq<byte>, line: seq<byte>, prev: Option<seq<byte>>, bytewidth: nat, filter: nat, i: nat)
    requires (filter == 0 || (filter == 2 && prev.None?)) && bytewidth > 0
    requires IsReconstructed(r, line, prev, bytewidth, filter) && i < |r|
    ensures r[i] == line[i]
  {}

  lemma LeftAt(r: seq<byte>, line: seq<byte>, prev: Option<seq<byte>>, bytewidth: nat, filter: nat, i: nat)
    requires (filter == 1 || (filter == 4 && prev.None?)) && bytewidth > 0
    requires IsReconstructed(r, line, prev, bytewidth, filter) && i < |r|
    ensures r[i] == if i < bytewidth then line[i] else Plus(line[i], r[i - bytewidth])
  {}

  lemma UpAt(r: seq<byte>, line: seq<byte>, prev: Option<seq<byte>>, bytewidth: nat, i: nat)
    requires prev.Some? && bytewidth > 0 && IsReconstructed(r, line, prev, bytewidth, 2) && i < |r|
    ensures r[i] == Plus(line[i], prev.value[i])
  {}

  lemma MeanAt(r: seq<byte>, line: seq<byte>, prev: Option<seq<byte>>, bytewidth: nat, i: nat)
    requires bytewidth > 0 && IsReconstructed(r, line, prev, bytewidth, 3) && i < |r|
    ensures prev.None? ==> r[i] == if i < bytewidth then line[i] else Plus(line[i], Mean(r[i - bytewidth], 0))
    ensures prev.Some? ==> r[i] == if i < bytewidth then Plus(line[i], Mean(0, prev.value[i]))
                                   else Plus(line[i], Mean(r[i - bytewidth], prev.value[i]))
  {}

  lemma NearestAt(r: seq<byte>, line: seq<byte>, prev: Option<seq<byte>>, bytewidth: nat, i: nat)
    requires prev.Some? && bytewidth > 0 && IsReconstructed(r, line, prev, bytewidth, 4) && i < |r|
    ensures r[i] == if i < bytewidth then Plus(line[i], prev.value[i])
                    else Plus(line[i], Paeth(r[i - bytewidth], prev.value[i], prev.value[i - bytewidth]))
  {
    PaethAt(r, prev, bytewidth, i);
    hide Paeth, PredictAt;
  }

  /** Writes the next byte of `r`. */
  method Put(recon: array<byte>, at: nat, i: nat, v: byte, ghost was: seq<byte>, ghost r: seq<byte>)
    requires Written(recon, was, at, r, i) && i < |r| && v == r[i]
    modifies recon
    ensures Written(recon, was, at, r, i + 1)
  {
    recon[at + i] := v;
  }

  method UnfilterCopy(recon: array<byte>, at: nat, scanline: array<byte>, from: nat, above: Option<nat>, bytewidth: nat,
                      length: nat, ghost filter: nat, ghost line: seq<byte>, ghost prev: Option<seq<byte>>,
                      ghost r: seq<byte>)
    requires Source(recon == scanline, at, scanline[..], from, above, line, prev, recon[..]) && |line| == |r| == length
    requires 0 < bytewidth <= length && (filter == 0 || (filter == 2 && above.None?))
    requires IsReconstructed(r, line, prev, bytewidth, filter)
    modifies recon
    ensures Written(recon, old(recon[..]), at, r, length)
  {
    ghost var was, scan := recon[..], scanline[..];
    SourceStart(recon, at, scanline, from, above, line, prev, r);
    hide PredictAt, Source, Paeth, Plus, Mean, IsReconstructed, Written;
    for i := 0 to length
      invariant Written(recon, was, at, r, i)
    {
      Readable(recon, at, scanline, from, above, line, prev, was, scan, r, i);
      CopyAt(r, line, prev, bytewidth, filter, i);
      Put(recon, at, i, scanline[from + i], was, r);
    }
  }

  method UnfilterSub(recon: array<byte>, at: nat, scanline: array<byte>, from: nat, above: Option<nat>, bytewidth: nat,
                     length: nat, ghost filter: nat, ghost line: seq<byte>, ghost prev: Option<seq<byte>>,
                     ghost r: seq<byte>)
    requires Source(recon == scanline, at, scanline[..], from, above, line, prev, recon[..]) && |line| == |r| == length
    requires 0 < bytewidth <= length && (filter == 1 || (filter == 4 && above.None?))
    requires IsReconstructed(r, line, prev, bytewidth, filter)
    modifies recon
    ensures Written(recon, old(recon[..]), at, r, length)
  {
    ghost var was, scan := recon[..], scanline[..];
    SourceStart(recon, at, scanline, from, above, line, prev, r);
    hide PredictAt, Source, Paeth, Plus, Mean, IsReconstructed, Written;
    for i := 0 to bytewidth
      invariant Written(recon, was, at, r, i)
    {
      Readable(recon, at, scanline, from, above, line, prev, was, scan, r, i);
      LeftAt(r, line, prev, bytewidth, filter, i);
      Put(recon, at, i, scanline[from + i], was, r);
    }
    for i := bytewidth to length
      invariant Written(recon, was, at, r, i)
    {
      Readable(recon, at, scanline, from, above, line, prev, was, scan, r, i);
      LeftAt(r, line, prev, bytewidth, filter, i);
      Put(recon, at, i, Plus(scanline[from + i], recon[at + i - bytewidth]), was, r);
    }
  }

  method UnfilterUp(recon: array<byte>, at: nat, scanline: array<byte>, from: nat, above: Option<nat>, bytewidth: nat,
                    length: nat, ghost line: seq<byte>, ghost prev: Option<seq<byte>>, ghost r: seq<byte>)
    requires Source(recon == scanline, at, scanline[..], from, above, line, prev, recon[..]) && |line| == |r| == length
    requires 0 < bytewidth <= length && above.Some? && IsReconstructed(r, line, prev, bytewidth, 2)
    modifies recon
    ensures Written(recon, old(recon[..]), at, r, length)
  {
    ghost var was, scan := recon[..], scanline[..];
    SourceStart(recon, at, scanline, from, above, line, prev, r);
    hide PredictAt, Source, Paeth, Plus, Mean, IsReconstructed, Written;
    for i := 0 to length
      invariant Written(recon, was, at, r, i)
    {
      Readable(recon, at, scanline, from, above, line, prev, was, scan, r, i);
      UpAt(r, line, prev, bytewidth, i);
      Put(recon, at, i, Plus(scanline[from + i], recon[above.value + i]), was, r);
    }
  }

  method UnfilterAverageFirst(recon: array<byte>, at: nat, scanline: array<byte>, from: nat, above: Option<nat>,
                              bytewidth: nat, length: nat, ghost line: seq<byte>, ghost prev: Option<seq<byte>>,
                              ghost r: seq<byte>)
    requires Source(recon == scanline, at, scanline[..], from, above, line, prev, recon[..]) && |line| == |r| == length
    requires 0 < bytewidth <= length && above.None? && IsReconstructed(r, line, prev, bytewidth, 3)
    modifies recon
    ensures Written(recon, old(recon[..]), at, r, length)
  {
    ghost var was, scan := recon[..], scanline[..];
    SourceStart(recon, at, scanline, from, above, line, prev, r);
    hide PredictAt, Source, Paeth, Plus, Mean, IsReconstructed, Written;
    for i := 0 to bytewidth
      invariant Written(recon, was, at, r, i)
    {
      Readable(recon, at, scanline, from, above, line, prev, was, scan, r, i);
      MeanAt(r, line, prev, bytewidth, i);
      Put(recon, at, i, scanline[from + i], was, r);
    }
    for i := bytewidth to length
      invariant Written(recon, was, at, r, i)
    {
      Readable(recon, at, scanline, from, above, line, prev, was, scan, r, i);
      MeanAt(r, line, prev, bytewidth, i);
      Put(recon, at, i, Plus(scanline[from + i], Mean(recon[at + i - bytewidth], 0)), was, r);
    }
  }

  /** Four independent bytes at a time, as far as they fill up. */
  method UnfilterAverage4(recon: array<byte>, at: nat, scanline: array<byte>, from: nat, above: nat, bytewidth: nat,
                          length: nat, ghost line: seq<byte>, ghost prev: Option<seq<byte>>, ghost r: seq<byte>,
                          ghost was: seq<byte>, ghost scan: seq<byte>)
    returns (i: nat)
    requires Source(recon == scanline, at, scan, from, Some(above), line, prev, was)
    requires (recon != scanline ==> scanline[..] == scan) && recon.Length == |was| && scanline.Length == |scan|
    requires |r| == length && |line| == length
    requires 4 <= bytewidth <= length && IsReconstructed(r, line, prev, bytewidth, 3)
    requires Written(recon, was, at, r, bytewidth)
    modifies recon
    ensures bytewidth <= i <= length && Written(recon, was, at, r, i)
  {
    hide PredictAt, Source, Paeth, Plus, Mean, IsReconstructed, Written;
    i := bytewidth;
    var j := 0;
    while i + 3 < length
      invariant bytewidth <= i <= length && j == i - bytewidth && Written(recon, was, at, r, i)
    {
      Readable(recon, at, scanline, from, Some(above), line, prev, was, scan, r, i);
      MeanAt(r, line, prev, bytewidth, i + 0); MeanAt(r, line, prev, bytewidth, i + 1);
      MeanAt(r, line, prev, bytewidth, i + 2); MeanAt(r, line, prev, bytewidth, i + 3);
      var s0, s1, s2, s3 := scanline[from + i + 0], scanline[from + i + 1], scanline[from + i + 2],
          scanline[from + i + 3];
      var r0, r1, r2, r3 := recon[at + j + 0], recon[at + j + 1], recon[at + j + 2], recon[at + j + 3];
      var p0, p1, p2, p3 := recon[above + i + 0], recon[above + i + 1], recon[above + i + 2], recon[above + i + 3];
      Put(recon, at, i + 0, Plus(s0, Mean(r0, p0)), was, r);
      Put(recon, at, i + 1, Plus(s1, Mean(r1, p1)), was, r);
      Put(recon, at, i + 2, Plus(s2, Mean(r2, p2)), was, r);
      Put(recon, at, i + 3, Plus(s3, Mean(r3, p3)), was, r);
      i, j := i + 4, j + 4;
    }
  }

  /** Three independent bytes at a time, as far as they fill up. */
  method UnfilterAverage3(recon: array<byte>, at: nat, scanline: array<byte>, from: nat, above: nat, bytewidth: nat,
                          length: nat, ghost line: seq<byte>, ghost prev: Option<seq<byte>>, ghost r: seq<byte>,
                          ghost was: seq<byte>, ghost scan: seq<byte>)
    returns (i: nat)
    requires Source(recon == scanline, at, scan, from, Some(above), line, prev, was)
    requires (recon != scanline ==> scanline[..] == scan) && recon.Length == |was| && scanline.Length == |scan|
    requires |r| == length && |line| == length
    requires 3 <= bytewidth <= length && IsReconstructed(r, line, prev, bytewidth, 3)
    requires Written(recon, was, at, r, bytewidth)
    modifies recon
    ensures bytewidth <= i <= length && Written(recon, was, at, r, i)
  {
    hide PredictAt, Source, Paeth, Plus, Mean, IsReconstructed, Written;
    i := bytewidth;
    var j := 0;
    while i + 2 < length
      invariant bytewidth <= i <= length && j == i - bytewidth && Written(recon, was, at, r, i)
    {
      Readable(recon, at, scanline, from, Some(above), line, prev, was, scan, r, i);
      MeanAt(r, line, prev, bytewidth, i + 0); MeanAt(r, line, prev, bytewidth, i + 1);
      MeanAt(r, line, prev, bytewidth, i + 2);
      var s0, s1, s2 := scanline[from + i + 0], scanline[from + i + 1], scanline[from + i + 2];
      var r0, r1, r2 := recon[at + j + 0], recon[at + j + 1], recon[at + j + 2];
      var p0, p1, p2 := recon[above + i + 0], recon[above + i + 1], recon[above + i + 2];
      Put(recon, at, i + 0, Plus(s0, Mean(r0, p0)), was, r);
      Put(recon, at, i + 1, Plus(s1, Mean(r1, p1)), was, r);
      Put(recon, at, i + 2, Plus(s2, Mean(r2, p2)), was, r);
      i, j := i + 3, j + 3;
    }
  }

  /** Two independent bytes at a time, as far as they fill up. */
  method UnfilterAverage2(recon: array<byte>, at: nat, scanline: array<byte>, from: nat, above: nat, bytewidth: nat,
                          length: nat, ghost line: seq<byte>, ghost prev: Option<seq<byte>>, ghost r: seq<byte>,
                          ghost was: seq<byte>, ghost scan: seq<byte>)
    returns (i: nat)
    requires Source(recon == scanline, at, scan, from, Some(above), line, prev, was)
    requires (recon != scanline ==> scanline[..] == scan) && recon.Length == |was| && scanline.Length == |scan|
    requires |r| == length && |line| == length
    requires 2 <= bytewidth <= length && IsReconstructed(r, line, prev, bytewidth, 3)
    requires Written(recon, was, at, r, bytewidth)
    modifies recon
    ensures bytewidth <= i <= length && Written(recon, was, at, r, i)
  {
    hide PredictAt, Source, Paeth, Plus, Mean, IsReconstructed, Written;
    i := bytewidth;
    var j := 0;
    while i + 1 < length
      invariant bytewidth <= i <= length && j == i - bytewidth && Written(recon, was, at, r, i)
    {
      Readable(recon, at, scanline, from, Some(above), line, prev, was, scan, r, i);
      MeanAt(r, line, prev, bytewidth, i + 0); MeanAt(r, line, prev, bytewidth, i + 1);
      var s0, s1 := scanline[from + i + 0], scanline[from + i + 1];
      var r0, r1 := recon[at + j + 0], recon[at + j + 1];
      var p0, p1 := recon[above + i + 0], recon[above + i + 1];
      Put(recon, at, i + 0, Plus(s0, Mean(r0, p0)), was, r);
      Put(recon, at, i + 1, Plus(s1, Mean(r1, p1)), was, r);
      i, j := i + 2, j + 2;
    }
  }

  /** What is left after the unrolled part, byte by byte. */
  method UnfilterAverageRest(recon: array<byte>, at: nat, scanline: array<byte>, from: nat, above: nat, bytewidth: nat,
                             length: nat, ghost line: seq<byte>, ghost prev: Option<seq<byte>>, ghost r: seq<byte>,
                             ghost was: seq<byte>, ghost scan: seq<byte>, i0: nat)
    requires Source(recon == scanline, at, scan, from, Some(above), line, prev, was)
    requires (recon != scanline ==> scanline[..] == scan)
    requires recon.Length == |was| && scanline.Length == |scan| && |line| == |r| == length
    requires 0 < bytewidth <= i0 <= length && IsReconstructed(r, line, prev, bytewidth, 3)
    requires Written(recon, was, at, r, i0)
    modifies recon
    ensures Written(recon, was, at, r, length)
  {
    hide PredictAt, Source, Paeth, Plus, Mean, IsReconstructed, Written;
    var i := i0;
    var j := i - bytewidth;
    while i != length
      invariant bytewidth <= i <= length && j == i - bytewidth && Written(recon, was, at, r, i)
      decreases length - i
    {
      Readable(recon, at, scanline, from, Some(above), line, prev, was, scan, r, i);
      MeanAt(r, line, prev, bytewidth, i);
      Put(recon, at, i, Plus(scanline[from + i], Mean(recon[at + j], recon[above + i])), was, r);
      i, j := i + 1, j + 1;
    }
  }

  method UnfilterAverage(recon: array<byte>, at: nat, scanline: array<byte>, from: nat, above: nat, bytewidth: nat,
                         length: nat, ghost line: seq<byte>, ghost prev: Option<seq<byte>>, ghost r: seq<byte>)
    requires Source(recon == scanline, at, scanline[..], from, Some(above), line, prev, recon[..])
    requires |line| == |r| == length
    requires 0 < bytewidth <= length && IsReconstructed(r, line, prev, bytewidth, 3)
    modifies recon
    ensures Written(recon, old(recon[..]), at, r, length)
  {
    ghost var was, scan := recon[..], scanline[..];
    SourceStart(recon, at, scanline, from, Some(above), line, prev, r);
    hide PredictAt, Source, Paeth, Plus, Mean, IsReconstructed, Written;
    for k := 0 to bytewidth
      invariant Written(recon, was, at, r, k)
    {
      Readable(recon, at, scanline, from, Some(above), line, prev, was, scan, r, k);
      MeanAt(r, line, prev, bytewidth, k);
      Put(recon, at, k, Plus(scanline[from + k], Mean(0, recon[above + k])), was, r);
    }
    var i := bytewidth;
    if bytewidth >= 4 {
      i := UnfilterAverage4(recon, at, scanline, from, above, bytewidth, length, line, prev, r, was, scan);
    } else if bytewidth >= 3 {
      i := UnfilterAverage3(recon, at, scanline, from, above, bytewidth, length, line, prev, r, was, scan);
    } else if bytewidth >= 2 {
      i := UnfilterAverage2(recon, at, scanline, from, above, bytewidth, length, line, prev, r, was, scan);
    }
    UnfilterAverageRest(recon, at, scanline, from, above, bytewidth, length, line, prev, r, was, scan, i);
  }

  /** Four independent bytes at a time, as far as they fill up. */
  method UnfilterPaeth4(recon: array<byte>, at: nat, scanline: array<byte>, from: nat, above: nat, bytewidth: nat,
                        length: nat, ghost line: seq<byte>, ghost prev: Option<seq<byte>>, ghost r: seq<byte>,
                        ghost was: seq<byte>, ghost scan: seq<byte>)
    returns (i: nat)
    requires Source(recon == scanline, at, scan, from, Some(above), line, prev, was)
    requires (recon != scanline ==> scanline[..] == scan) && recon.Length == |was| && scanline.Length == |scan|
    requires |r| == length && |line| == length
    requires 4 <= bytewidth <= length && IsReconstructed(r, line, prev, bytewidth, 4)
    requires Written(recon, was, at, r, bytewidth)
    modifies recon
    ensures bytewidth <= i <= length && Written(recon, was, at, r, i)
  {
    hide PredictAt, Source, Paeth, Plus, Mean, IsReconstructed, Written;
    i := bytewidth;
    var j := 0;
    while i + 3 < length
      invariant bytewidth <= i <= length && j == i - bytewidth && Written(recon, was, at, r, i)
    {
      Readable(recon, at, scanline, from, Some(above), line, prev, was, scan, r, i);
      NearestAt(r, line, prev, bytewidth, i + 0); NearestAt(r, line, prev, bytewidth, i + 1);
      NearestAt(r, line, prev, bytewidth, i + 2); NearestAt(r, line, prev, bytewidth, i + 3);
      var s0, s1, s2, s3 := scanline[from + i + 0], scanline[from + i + 1], scanline[from + i + 2],
          scanline[from + i + 3];
      var r0, r1, r2, r3 := recon[at + j + 0], recon[at + j + 1], recon[at + j + 2], recon[at + j + 3];
      var p0, p1, p2, p3 := recon[above + i + 0], recon[above + i + 1], recon[above + i + 2], recon[above + i + 3];
      var q0, q1, q2, q3 := recon[above + j + 0], recon[above + j + 1], recon[above + j + 2], recon[above + j + 3];
      var t0 := PaethPredictor(r0, p0, q0);
      var t1 := PaethPredictor(r1, p1, q1);
      var t2 := PaethPredictor(r2, p2, q2);
      var t3 := PaethPredictor(r3, p3, q3);
      Put(recon, at, i + 0, Plus(s0, t0), was, r);
      Put(recon, at, i + 1, Plus(s1, t1), was, r);
      Put(recon, at, i + 2, Plus(s2, t2), was, r);
      Put(recon, at, i + 3, Plus(s3, t3), was, r);
      i, j := i + 4, j + 4;
    }
  }

  /** Three independent bytes at a time, as far as they fill up. */
  method UnfilterPaeth3(recon: array<byte>, at: nat, scanline: array<byte>, from: nat, above: nat, bytewidth: nat,
                        length: nat, ghost line: seq<byte>, ghost prev: Option<seq<byte>>, ghost r: seq<byte>,
                        ghost was: seq<byte>, ghost scan: seq<byte>)
    returns (i: nat)
    requires Source(recon == scanline, at, scan, from, Some(above), line, prev, was)
    requires (recon != scanline ==> scanline[..] == scan) && recon.Length == |was| && scanline.Length == |scan|
    requires |r| == length && |line| == length
    requires 3 <= bytewidth <= length && IsReconstructed(r, line, prev, bytewidth, 4)
    requires Written(recon, was, at, r, bytewidth)
    modifies recon
    ensures bytewidth <= i <= length && Written(recon, was, at, r, i)
  {
    hide PredictAt, Source, Paeth, Plus, Mean, IsReconstructed, Written;
    i := bytewidth;
    var j := 0;
    while i + 2 < length
      invariant bytewidth <= i <= length && j == i - bytewidth && Written(recon, was, at, r, i)
    {
      Readable(recon, at, scanline, from, Some(above), line, prev, was, scan, r, i);
      NearestAt(r, line, prev, bytewidth, i + 0); NearestAt(r, line, prev, bytewidth, i + 1);
      NearestAt(r, line, prev, bytewidth, i + 2);
      var s0, s1, s2 := scanline[from + i + 0], scanline[from + i + 1], scanline[from + i + 2];
      var r0, r1, r2 := recon[at + j + 0], recon[at + j + 1], recon[at + j + 2];
      var p0, p1, p2 := recon[above + i + 0], recon[above + i + 1], recon[above + i + 2];
      var q0, q1, q2 := recon[above + j + 0], recon[above + j + 1], recon[above + j + 2];
      var t0 := PaethPredictor(r0, p0, q0);
      var t1 := PaethPredictor(r1, p1, q1);
      var t2 := PaethPredictor(r2, p2, q2);
      Put(recon, at, i + 0, Plus(s0, t0), was, r);
      Put(recon, at, i + 1, Plus(s1, t1), was, r);
      Put(recon, at, i + 2, Plus(s2, t2), was, r);
      i, j := i + 3, j + 3;
    }
  }

  /** Two independent bytes at a time, as far as they fill up. */
  method UnfilterPaeth2(recon: array<byte>, at: nat, scanline: array<byte>, from: nat, above: nat, bytewidth: nat,
                        length: nat, ghost line: seq<byte>, ghost prev: Option<seq<byte>>, ghost r: seq<byte>,
                        ghost was: seq<byte>, ghost scan: seq<byte>)
    returns (i: nat)
    requires Source(recon == scanline, at, scan, from, Some(above), line, prev, was)
    requires (recon != scanline ==> scanline[..] == scan) && recon.Length == |was| && scanline.Length == |scan|
    requires |r| == length && |line| == length
    requires 2 <= bytewidth <= length && IsReconstructed(r, line, prev, bytewidth, 4)
    requires Written(recon, was, at, r, bytewidth)
    modifies recon
    ensures bytewidth <= i <= length && Written(recon, was, at, r, i)
  {
    hide PredictAt, Source, Paeth, Plus, Mean, IsReconstructed, Written;
    i := bytewidth;
    var j := 0;
    while i + 1 < length
      invariant bytewidth <= i <= length && j == i - bytewidth && Written(recon, was, at, r, i)
    {
      Readable(recon, at, scanline, from, Some(above), line, prev, was, scan, r, i);
      NearestAt(r, line, prev, bytewidth, i + 0); NearestAt(r, line, prev, bytewidth, i + 1);
      var s0, s1 := scanline[from + i + 0], scanline[from + i + 1];
      var r0, r1 := recon[at + j + 0], recon[at + j + 1];
      var p0, p1 := recon[above + i + 0], recon[above + i + 1];
      var q0, q1 := recon[above + j + 0], recon[above + j + 1];
      var t0 := PaethPredictor(r0, p0, q0);
      var t1 := PaethPredictor(r1, p1, q1);
      Put(recon, at, i + 0, Plus(s0, t0), was, r);
      Put(recon, at, i + 1, Plus(s1, t1), was, r);
      i, j := i + 2, j + 2;
    }
  }

  /** What is left after the unrolled part, byte by byte. */
  method UnfilterPaethRest(recon: array<byte>, at: nat, scanline: array<byte>, from: nat, above: nat, bytewidth: nat,
                           length: nat, ghost line: seq<byte>, ghost prev: Option<seq<byte>>, ghost r: seq<byte>,
                           ghost was: seq<byte>, ghost scan: seq<byte>, i0: nat)
    requires Source(recon == scanline, at, scan, from, Some(above), line, prev, was)
    requires (recon != scanline ==> scanline[..] == scan)
    requires recon.Length == |was| && scanline.Length == |scan| && |line| == |r| == length
    requires 0 < bytewidth <= i0 <= length && IsReconstructed(r, line, prev, bytewidth, 4)
    requires Written(recon, was, at, r, i0)
    modifies recon
    ensures Written(recon, was, at, r, length)
  {
    hide PredictAt, Source, Paeth, Plus, Mean, IsReconstructed, Written;
    var i := i0;
    var j := i - bytewidth;
    while i != length
      invariant bytewidth <= i <= length && j == i - bytewidth && Written(recon, was, at, r, i)
      decreases length - i
    {
      Readable(recon, at, scanline, from, Some(above), line, prev, was, scan, r, i);
      NearestAt(r, line, prev, bytewidth, i);
      var t := PaethPredictor(recon[at + i - bytewidth], recon[above + i], recon[above + j]);
      Put(recon, at, i, Plus(scanline[from + i], t), was, r);
      i, j := i + 1, j + 1;
    }
  }

  method UnfilterPaeth(recon: array<byte>, at: nat, scanline: array<byte>, from: nat, above: nat, bytewidth: nat,
                       length: nat, ghost line: seq<byte>, ghost prev: Option<seq<byte>>, ghost r: seq<byte>)
    requires Source(recon == scanline, at, scanline[..], from, Some(above), line, prev, recon[..])
    requires |line| == |r| == length
    requires 0 < bytewidth <= length && IsReconstructed(r, line, prev, bytewidth, 4)
    modifies recon
    ensures Written(recon, old(recon[..]), at, r, length)
  {
    ghost var was, scan := recon[..], scanline[..];
    SourceStart(recon, at, scanline, from, Some(above), line, prev, r);
    hide PredictAt, Source, Paeth, Plus, Mean, IsReconstructed, Written;
    for k := 0 to bytewidth
      invariant Written(recon, was, at, r, k)
    {
      Readable(recon, at, scanline, from, Some(above), line, prev, was, scan, r, k);
      NearestAt(r, line, prev, bytewidth, k);
      Put(recon, at, k, Plus(scanline[from + k], recon[above + k]), was, r);
    }
    var i := bytewidth;
    if bytewidth >= 4 {
      i := UnfilterPaeth4(recon, at, scanline, from, above, bytewidth, length, line, prev, r, was, scan);
    } else if bytewidth >= 3 {
      i := UnfilterPaeth3(recon, at, scanline, from, above, bytewidth, length, line, prev, r, was, scan);
    } else if bytewidth >= 2 {
      i := UnfilterPaeth2(recon, at, scanline, from, above, bytewidth, length, line, prev, r, was, scan);
    }
    UnfilterPaethRest(recon, at, scanline, from, above, bytewidth, length, line, prev, r, was, scan, i);
  }

  /** One row, in place or into another buffer; `above` is where the row above was put in `recon`. */
  method UnfilterScanline(recon: array<byte>, at: nat, scanline: array<byte>, from: nat, above: Option<nat>,
                          bytewidth: nat, filter: nat, length: nat)
    returns (error: nat)
    requires at + length <= recon.Length && from + length <= scanline.Length && 0 < bytewidth <= length
    requires (recon == scanline ==> at <= from) && (above.Some? ==> above.value + length <= at)
    modifies recon
    ensures error == if filter <= 4 then 0 else 36
    ensures error != 0 ==> recon[..] == old(recon[..])
    ensures error == 0 ==> Written(recon, old(recon[..]), at,
                                   Reconstructed(old(scanline[from..from + length]),
                                                 old(RowAbove(recon, above, length)), bytewidth, filter), length)
    ensures error == 0 ==> ByRule(recon[at..at + length], old(scanline[from..from + length]),
                                  old(RowAbove(recon, above, length)), bytewidth, filter)
  {
    ghost var line, prev := scanline[from..from + length], RowAbove(recon, above, length);
    if filter > 4 { return 36; }
    ghost var r := Reconstructed(line, prev, bytewidth, filter);
    ReconstructedIs(line, prev, bytewidth, filter);
    assert Source(recon == scanline, at, scanline[..], from, above, line, prev, recon[..]);
    hide Reconstructed, Source, IsReconstructed, Written, ByRule;
    if filter == 0 {
      UnfilterCopy(recon, at, scanline, from, above, bytewidth, length, filter, line, prev, r);
    } else if filter == 1 {
      UnfilterSub(recon, at, scanline, from, above, bytewidth, length, filter, line, prev, r);
    } else if filter == 2 {
      if above.Some? {
        UnfilterUp(recon, at, scanline, from, above, bytewidth, length, line, prev, r);
      } else {
        UnfilterCopy(recon, at, scanline, from, above, bytewidth, length, filter, line, prev, r);
      }
    } else if filter == 3 {
      if above.Some? {
        UnfilterAverage(recon, at, scanline, from, above.value, bytewidth, length, line, prev, r);
      } else {
        UnfilterAverageFirst(recon, at, scanline, from, above, bytewidth, length, line, prev, r);
      }
    } else {
      if above.Some? {
        UnfilterPaeth(recon, at, scanline, from, above.value, bytewidth, length, line, prev, r);
      } else {
        UnfilterSub(recon, at, scanline, from, above, bytewidth, length, filter, line, prev, r);
      }
    }
    error := 0;
    ReconstructedRule(r, line, prev, bytewidth, filter);
    WrittenRow(recon, old(recon[..]), at, r);
  }

  lemma ReconstructedIs(line: seq<byte>, prev: Option<seq<byte>>, bytewidth: nat, filter: nat)
    requires filter <= 4 && bytewidth > 0 && (prev.Some? ==> |prev.value| == |line|)
    ensures IsReconstructed(Reconstructed(line, prev, bytewidth, filter), line, prev, bytewidth, filter)
  {
    var r := Reconstructed(line, prev, bytewidth, filter);
    forall i | 0 <= i < |r| ensures r[i] == Plus(line[i], PredictAt(r, prev, bytewidth, filter, i)) {
      ReconstructedAt(line, prev, bytewidth, filter, i);
    }
  }
}
