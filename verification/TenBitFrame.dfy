/** Unpacking a frame of 10-bit samples, four to every five bytes, into 16-bit words: a luma
    plane, a chroma plane behind it, and an output that interleaves the two.
    Line numbers refer to the file `YUV`. */
module TenBitFrame {

  // ---- one group of five bytes ----

  // The shift-and-mask expression of the loop (lines 843-850).
  function Extract(hi: bv8, lo: bv8, q: nat): (word: bv16)
    requires q < 4
  {
    var pair: bv32 := ((hi as bv32) << 8) | (lo as bv32);
    var shifted: bv32 := if q == 0 then pair else if q == 1 then pair << 2 else if q == 2 then pair << 4 else pair << 6;
    ((shifted & 0xFFC0) >> 6) as bv16
  }

  // Five bytes as one big-endian number of 40 bits.
  function Group(b0: bv8, b1: bv8, b2: bv8, b3: bv8, b4: bv8): bv40 {
    ((b0 as bv40) << 32) | ((b1 as bv40) << 24) | ((b2 as bv40) << 16) | ((b3 as bv40) << 8) | (b4 as bv40)
  }

  // The q-th ten bits of a group, counted from the most significant bit.
  function Sample(g: bv40, q: nat): bv16
    requires q < 4
  {
    var moved: bv40 := if q == 0 then g >> 30 else if q == 1 then g >> 20 else if q == 2 then g >> 10 else g;
    (moved & 0x3FF) as bv16
  }

  function Pack(s0: bv16, s1: bv16, s2: bv16, s3: bv16): bv40 {
    (((s0 & 0x3FF) as bv40) << 30) | (((s1 & 0x3FF) as bv40) << 20)
    | (((s2 & 0x3FF) as bv40) << 10) | ((s3 & 0x3FF) as bv40)
  }

  // Each expression of the loop reads the next ten bits.
  lemma ExtractIsSample(b0: bv8, b1: bv8, b2: bv8, b3: bv8, b4: bv8)
    ensures var g := Group(b0, b1, b2, b3, b4);
            && Extract(b0, b1, 0) == Sample(g, 0) && Extract(b1, b2, 1) == Sample(g, 1)
            && Extract(b2, b3, 2) == Sample(g, 2) && Extract(b3, b4, 3) == Sample(g, 3)
  {
  }

  // Packing the four samples gives the group back.
  lemma PackSamples(g: bv40)
    ensures Pack(Sample(g, 0), Sample(g, 1), Sample(g, 2), Sample(g, 3)) == g
  {
  }

  lemma SamplesOfPack(s0: bv16, s1: bv16, s2: bv16, s3: bv16)
    requires s0 < 1024 && s1 < 1024 && s2 < 1024 && s3 < 1024
    ensures var g := Pack(s0, s1, s2, s3);
            Sample(g, 0) == s0 && Sample(g, 1) == s1 && Sample(g, 2) == s2 && Sample(g, 3) == s3
  {
  }

  lemma GroupDeterminesBytes(a0: bv8, a1: bv8, a2: bv8, a3: bv8, a4: bv8, b0: bv8, b1: bv8, b2: bv8, b3: bv8, b4: bv8)
    requires Group(a0, a1, a2, a3, a4) == Group(b0, b1, b2, b3, b4)
    ensures a0 == b0 && a1 == b1 && a2 == b2 && a3 == b3 && a4 == b4
  {
  }

  // ---- a plane ----

  // Sample k of the packed data that starts at byte `base`.
  function Field(input: seq<bv8>, base: nat, k: nat): bv16
    requires base + 5 * (k / 4) + 5 <= |input|
  {
    Sample(GroupAt(input, base + 5 * (k / 4)), k % 4)
  }

  function GroupAt(input: seq<bv8>, at: nat): bv40
    requires at + 5 <= |input|
  {
    Group(input[at], input[at + 1], input[at + 2], input[at + 3], input[at + 4])
  }

  // Bytes of a packed row of w samples.
  function RowBytes(w: nat): nat {
    5 * (w / 4)
  }

  // Where the loop really reads the luma of row r: the rebase at line 858 always starts from the
  // first row, so every row after the first reads row one.
  function LumaBase(w: nat, r: nat): nat {
    if r == 0 then 0 else RowBytes(w)
  }

  function ChromaBase(w: nat, uv: nat, r: nat): nat {
    uv + r * RowBytes(w)
  }

  ghost predicate Fits(size: int, w: nat, h: nat, uv: nat) {
    && w % 4 == 0
    && uv + h * RowBytes(w) <= size
    && (h >= 1 ==> LumaBase(w, h - 1) + RowBytes(w) <= size)
  }

  // The eight words that group t of the frame fills.
  ghost predicate GroupDone(out: seq<bv16>, input: seq<bv8>, luma: nat, chroma: nat, t: nat)
    requires luma + 5 <= |input| && chroma + 5 <= |input| && 8 * t + 8 <= |out|
  {
    var y, c := GroupAt(input, luma), GroupAt(input, chroma);
    && out[8 * t] == Sample(c, 0) && out[8 * t + 1] == Sample(y, 0)
    && out[8 * t + 2] == Sample(c, 1) && out[8 * t + 3] == Sample(y, 1)
    && out[8 * t + 4] == Sample(c, 2) && out[8 * t + 5] == Sample(y, 2)
    && out[8 * t + 6] == Sample(c, 3) && out[8 * t + 7] == Sample(y, 3)
  }

  // Group c of row r, seen from the groups of the rows before it.
  ghost predicate CellDone(out: seq<bv16>, input: seq<bv8>, w: nat, h: nat, uv: nat, r: nat, c: nat)
    requires Fits(|input|, w, h, uv) && r < h && c < w / 4 && 8 * (h * (w / 4)) <= |out|
  {
    CellInRange(|input|, w, h, uv, r, c);
    GroupDone(out, input, LumaBase(w, r) + 5 * c, ChromaBase(w, uv, r) + 5 * c, r * (w / 4) + c)
  }

  lemma CellInRange(size: int, w: nat, h: nat, uv: nat, r: nat, c: nat)
    requires Fits(size, w, h, uv) && r < h && c < w / 4
    ensures LumaBase(w, r) + 5 * c + 5 <= size && ChromaBase(w, uv, r) + 5 * c + 5 <= size
    ensures r * (w / 4) + c + 1 <= (r + 1) * (w / 4) <= h * (w / 4)
    ensures ChromaBase(w, uv, r) == uv + 5 * (r * (w / 4))
  {
    RowsBefore(r, h, w / 4);
    RowScale(r, w / 4);
    RowScale(h, w / 4);
  }

  lemma RowScale(r: nat, g: nat)
    ensures r * (5 * g) == 5 * (r * g)
  {
  }

  lemma RowsBefore(r: nat, h: nat, g: nat)
    requires r < h
    ensures r * g + g == (r + 1) * g <= h * g
  {
    assert h * g == (r + 1) * g + (h - r - 1) * g;
  }

  ghost predicate RowsDone(out: seq<bv16>, input: seq<bv8>, w: nat, h: nat, uv: nat, rows: nat)
    requires Fits(|input|, w, h, uv) && rows <= h && 8 * (h * (w / 4)) <= |out|
  {
    forall r: nat, c: nat | r < rows && c < w / 4 :: CellDone(out, input, w, h, uv, r, c)
  }

  ghost predicate RowPartDone(out: seq<bv16>, input: seq<bv8>, w: nat, h: nat, uv: nat, r: nat, cells: nat)
    requires Fits(|input|, w, h, uv) && r < h && cells <= w / 4 && 8 * (h * (w / 4)) <= |out|
  {
    forall c: nat | c < cells :: CellDone(out, input, w, h, uv, r, c)
  }

  // Writing words from index `from` on leaves the cells below it alone.
  lemma CellKept(a: seq<bv16>, b: seq<bv16>, input: seq<bv8>, w: nat, h: nat, uv: nat, r: nat, c: nat)
    requires Fits(|input|, w, h, uv) && r < h && c < w / 4 && 8 * (h * (w / 4)) <= |a| == |b|
    requires CellDone(a, input, w, h, uv, r, c)
    requires 8 * (r * (w / 4) + c) + 8 <= |a|
    requires forall i | 0 <= i < 8 * (r * (w / 4) + c) + 8 :: a[i] == b[i]
    ensures CellDone(b, input, w, h, uv, r, c)
  {
  }

  // One iteration of the inner loop (lines 843-850).
  method UnpackGroup(input: array<bv8>, buffer: array<bv16>, luma: nat, chroma: nat, i: nat, ghost t: nat)
    requires luma + 5 <= input.Length && chroma + 5 <= input.Length && i == 8 * t && i + 8 <= buffer.Length
    modifies buffer
    ensures GroupDone(buffer[..], input[..], luma, chroma, t)
    ensures forall j | 0 <= j < buffer.Length && !(i <= j < i + 8) :: buffer[j] == old(buffer[j])
  {
    ExtractIsSample(input[chroma], input[chroma + 1], input[chroma + 2], input[chroma + 3], input[chroma + 4]);
    ExtractIsSample(input[luma], input[luma + 1], input[luma + 2], input[luma + 3], input[luma + 4]);
    buffer[i] := Extract(input[chroma], input[chroma + 1], 0);
    buffer[i + 1] := Extract(input[luma], input[luma + 1], 0);
    buffer[i + 2] := Extract(input[chroma + 1], input[chroma + 2], 1);
    buffer[i + 3] := Extract(input[luma + 1], input[luma + 2], 1);
    buffer[i + 4] := Extract(input[chroma + 2], input[chroma + 3], 2);
    buffer[i + 5] := Extract(input[luma + 2], input[luma + 3], 2);
    buffer[i + 6] := Extract(input[chroma + 3], input[chroma + 4], 3);
    buffer[i + 7] := Extract(input[luma + 3], input[luma + 4], 3);
  }

  lemma CellsBelow(w: nat, r: nat, c: nat, r': nat, c': nat)
    requires c < w / 4 && c' < w / 4 && (r' < r || (r' == r && c' < c))
    ensures r' * (w / 4) + c' + 1 <= r * (w / 4) + c
  {
    if r' < r {
      RowsBefore(r', r, w / 4);
    }
  }

  // Filling one more cell of row r.
  lemma CellAdded(a: seq<bv16>, b: seq<bv16>, input: seq<bv8>, w: nat, h: nat, uv: nat, r: nat, c: nat)
    requires Fits(|input|, w, h, uv) && r < h && c < w / 4 && 8 * (h * (w / 4)) <= |a| == |b|
    requires RowsDone(a, input, w, h, uv, r) && RowPartDone(a, input, w, h, uv, r, c)
    requires 8 * (r * (w / 4) + c) <= |a| && forall i | 0 <= i < 8 * (r * (w / 4) + c) :: a[i] == b[i]
    requires CellDone(b, input, w, h, uv, r, c)
    ensures RowsDone(b, input, w, h, uv, r) && RowPartDone(b, input, w, h, uv, r, c + 1)
  {
    forall r': nat, c': nat | c' < w / 4 && (r' < r || (r' == r && c' < c))
      ensures CellDone(b, input, w, h, uv, r', c')
    {
      CellsBelow(w, r, c, r', c');
      CellInRange(|input|, w, h, uv, r', c');
      assert CellDone(a, input, w, h, uv, r', c');
      CellKept(a, b, input, w, h, uv, r', c');
    }
  }

  // The indices below n, in increasing order.
  function UpTo(n: nat): seq<int> {
    if n == 0 then [] else UpTo(n - 1) + [n - 1]
  }

  function EightFrom(n: nat): seq<int> {
    [n, n + 1, n + 2, n + 3, n + 4, n + 5, n + 6, n + 7]
  }

  // Where the three pointers stand before cell c of row r; after the last cell they are rebased.
  ghost predicate PointersAt(w: nat, uv: nat, r: nat, c: nat, output: nat, output1: nat, input1: nat) {
    if c < w / 4 then
      output == LumaBase(w, r) + 5 * c && output1 == ChromaBase(w, uv, r) + 5 * c && input1 == ChromaBase(w, uv, r)
    else
      output == LumaBase(w, r + 1) && output1 == input1 == ChromaBase(w, uv, r + 1)
  }

  lemma NextRow(w: nat, uv: nat, r: nat)
    ensures ChromaBase(w, uv, r + 1) == ChromaBase(w, uv, r) + RowBytes(w)
    ensures (r + 1) * (w / 4) == r * (w / 4) + w / 4
  {
    assert (r + 1) * RowBytes(w) == r * RowBytes(w) + RowBytes(w);
  }

  // The inner loop (lines 841-864). The pointers are byte positions; input0 is position 0, and
  // `frame` is where the variable input points.
  method UnpackRow(input: array<bv8>, buffer: array<bv16>, w: nat, h: nat, uv: nat, ghost r: nat,
                   output: nat, output1: nat, input1: nat, index: nat, frame: nat)
    returns (output': nat, output1': nat, input1': nat, index': nat, frame': nat, ghost written: seq<int>)
    requires Fits(input.Length, w, h, uv) && r < h && buffer.Length == 8 * (h * (w / 4))
    requires output == LumaBase(w, r) && output1 == input1 == ChromaBase(w, uv, r) && index == 8 * (r * (w / 4))
    requires RowsDone(buffer[..], input[..], w, h, uv, r)
    modifies buffer
    ensures output' == LumaBase(w, r + 1) && output1' == input1' == ChromaBase(w, uv, r + 1)
    ensures index' == 8 * ((r + 1) * (w / 4))
    ensures RowsDone(buffer[..], input[..], w, h, uv, r + 1)
    ensures UpTo(index) + written == UpTo(index')
    ensures forall j | 0 <= j < buffer.Length && !(index <= j < index') :: buffer[j] == old(buffer[j])
    ensures frame' == if w == 0 then frame else RowBytes(w)
  {
    output', output1', input1', index', frame' := output, output1, input1, index, frame;
    written := [];
    ghost var c := 0;
    var rowIndex := 0;
    NextRow(w, uv, r);
    while rowIndex < RowBytes(w)
      invariant rowIndex == 5 * c && c <= w / 4 && index' == 8 * (r * (w / 4) + c)
      invariant PointersAt(w, uv, r, c, output', output1', input1')
      invariant RowsDone(buffer[..], input[..], w, h, uv, r) && RowPartDone(buffer[..], input[..], w, h, uv, r, c)
      invariant UpTo(index) + written == UpTo(index')
      invariant forall j | 0 <= j < buffer.Length && !(index <= j < index') :: buffer[j] == old(buffer[j])
      invariant frame' == if 0 < c == w / 4 then RowBytes(w) else frame
      decreases RowBytes(w) - rowIndex
    {
      UnpackCell(input, buffer, w, h, uv, r, c, output', output1', index');
      UpToEight(index');
      written := written + EightFrom(index');
      rowIndex, index' := rowIndex + 5, index' + 8;
      output', output1' := output' + 5, output1' + 5;
      c := c + 1;
      if rowIndex == RowBytes(w) {
        output' := RowBytes(w);
        frame' := RowBytes(w);
        output1' := input1' + RowBytes(w);
        input1' := input1' + RowBytes(w);
      }
    }
  }

  // One iteration, seen as one more cell of row r.
  method UnpackCell(input: array<bv8>, buffer: array<bv16>, w: nat, h: nat, uv: nat, ghost r: nat, ghost c: nat,
                    luma: nat, chroma: nat, i: nat)
    requires Fits(input.Length, w, h, uv) && r < h && c < w / 4 && buffer.Length == 8 * (h * (w / 4))
    requires luma == LumaBase(w, r) + 5 * c && chroma == ChromaBase(w, uv, r) + 5 * c && i == 8 * (r * (w / 4) + c)
    requires RowsDone(buffer[..], input[..], w, h, uv, r) && RowPartDone(buffer[..], input[..], w, h, uv, r, c)
    modifies buffer
    ensures RowsDone(buffer[..], input[..], w, h, uv, r) && RowPartDone(buffer[..], input[..], w, h, uv, r, c + 1)
    ensures forall j | 0 <= j < buffer.Length && !(i <= j < i + 8) :: buffer[j] == old(buffer[j])
  {
    ghost var before := buffer[..];
    CellInRange(input.Length, w, h, uv, r, c);
    UnpackGroup(input, buffer, luma, chroma, i, r * (w / 4) + c);
    CellAdded(before, buffer[..], input[..], w, h, uv, r, c);
  }

  lemma UpToEight(n: nat)
    ensures UpTo(n + 8) == UpTo(n) + EightFrom(n)
  {
    assert UpTo(n + 4) == UpTo(n) + [n, n + 1, n + 2, n + 3] by {
      assert UpTo(n + 2) == UpTo(n) + [n, n + 1];
    }
    assert UpTo(n + 6) == UpTo(n + 4) + [n + 4, n + 5];
  }

  // Word 2*(r*w+k) is chroma sample k of row r, and the next one is the luma sample at the same
  // place of the row that the loop reads.
  ghost predicate PixelDone(out: seq<bv16>, input: seq<bv8>, w: nat, h: nat, uv: nat, r: nat, k: nat)
    requires Fits(|input|, w, h, uv) && r < h && k < w && |out| == 2 * (w * h)
  {
    PixelInRange(|input|, w, h, uv, r, k);
    && out[2 * (r * w + k)] == Field(input, ChromaBase(w, uv, r), k)
    && out[2 * (r * w + k) + 1] == Field(input, LumaBase(w, r), k)
  }

  lemma PixelInRange(size: int, w: nat, h: nat, uv: nat, r: nat, k: nat)
    requires Fits(size, w, h, uv) && r < h && k < w
    ensures k / 4 < w / 4 && w == 4 * (w / 4) && w * h == 4 * (h * (w / 4)) && r * w == 4 * (r * (w / 4))
    ensures ChromaBase(w, uv, r) + 5 * (k / 4) + 5 <= size && LumaBase(w, r) + 5 * (k / 4) + 5 <= size
    ensures 0 <= 2 * (r * w + k) && 2 * (r * w + k) + 2 <= 2 * (w * h)
  {
    CellInRange(size, w, h, uv, r, k / 4);
    var g := w / 4;
    assert w == 4 * g;
    assert w * h == 4 * (h * g) && r * w == 4 * (r * g);
  }

  lemma PixelFromCell(out: seq<bv16>, input: seq<bv8>, w: nat, h: nat, uv: nat, r: nat, k: nat)
    requires Fits(|input|, w, h, uv) && r < h && k < w && |out| == 2 * (w * h) == 8 * (h * (w / 4))
    requires RowsDone(out, input, w, h, uv, h)
    ensures PixelDone(out, input, w, h, uv, r, k)
  {
    PixelInRange(|input|, w, h, uv, r, k);
    CellInRange(|input|, w, h, uv, r, k / 4);
    assert CellDone(out, input, w, h, uv, r, k / 4);
    var t, q := r * (w / 4) + k / 4, k % 4;
    assert 2 * (r * w + k) == 8 * t + 2 * q;
  }

  // The whole loop (lines 831-866): every word of the output is written exactly once, in order,
  // and holds the sample that belongs there. `freed` is the position that line 868 hands to free;
  // only position 0 was allocated.
  method Unpack(input: array<bv8>, w: nat, h: nat, uv: nat)
    returns (buffer: array<bv16>, freed: nat, ghost written: seq<int>)
    requires Fits(input.Length, w, h, uv)
    ensures fresh(buffer) && buffer.Length == 2 * (w * h) && written == UpTo(buffer.Length)
    ensures forall r: nat, k: nat | r < h && k < w :: PixelDone(buffer[..], input[..], w, h, uv, r, k)
    ensures freed == 0 <==> w == 0 || h == 0
  {
    assert 2 * (w * h) == 8 * (h * (w / 4)) by { assert w == 4 * (w / 4); assert w * h == 4 * (h * (w / 4)); }
    buffer := new bv16[2 * (w * h)];
    written := [];
    freed := 0;
    var output, output1, input1, index, row := 0, uv, uv, 0, 0;
    while row < h
      invariant row <= h && index == 8 * (row * (w / 4))
      invariant output == LumaBase(w, row) && output1 == input1 == ChromaBase(w, uv, row)
      invariant RowsDone(buffer[..], input[..], w, h, uv, row)
      invariant written == UpTo(index) && freed == if w == 0 || row == 0 then 0 else RowBytes(w)
    {
      ghost var more;
      output, output1, input1, index, freed, more :=
        UnpackRow(input, buffer, w, h, uv, row, output, output1, input1, index, freed);
      written := written + more;
      row := row + 1;
    }
    forall r: nat, k: nat | r < h && k < w
      ensures PixelDone(buffer[..], input[..], w, h, uv, r, k)
    {
      PixelFromCell(buffer[..], input[..], w, h, uv, r, k);
    }
  }

  // Words of the output that come from one group of five bytes.
  lemma GroupWords(out: seq<bv16>, input: seq<bv8>, w: nat, h: nat, uv: nat, r: nat, c: nat, q: nat, i: int)
    requires Fits(|input|, w, h, uv) && r < h && c < w / 4 && q < 4 && |out| == 2 * (w * h) && i == 2 * (r * w + 4 * c)
    requires 4 * c + q < w && PixelDone(out, input, w, h, uv, r, 4 * c + q)
    ensures 0 <= i && i + 2 * q + 1 < |out|
    ensures ChromaBase(w, uv, r) + 5 * c + 5 <= |input| && LumaBase(w, r) + 5 * c + 5 <= |input|
    ensures out[i + 2 * q] == Sample(GroupAt(input, ChromaBase(w, uv, r) + 5 * c), q)
    ensures out[i + 2 * q + 1] == Sample(GroupAt(input, LumaBase(w, r) + 5 * c), q)
  {
    var k := 4 * c + q;
    PixelInRange(|input|, w, h, uv, r, k);
    assert k / 4 == c && k % 4 == q && i + 2 * q == 2 * (r * w + k);
  }

  // No chroma bit is lost: packing four neighbouring chroma words gives back their five bytes. Four
  // neighbouring luma words give back the five bytes of the row that was read, which is row 1 for
  // every row after it.
  lemma WordsRoundTrip(out: seq<bv16>, input: seq<bv8>, w: nat, h: nat, uv: nat, r: nat, c: nat)
    requires Fits(|input|, w, h, uv) && r < h && c < w / 4 && |out| == 2 * (w * h)
    requires forall k: nat | k < w :: PixelDone(out, input, w, h, uv, r, k)
    ensures var i := 2 * (r * w + 4 * c);
            var chroma, luma := ChromaBase(w, uv, r) + 5 * c, LumaBase(w, r) + 5 * c;
            && 0 <= i && i + 7 < |out| && chroma + 5 <= |input| && luma + 5 <= |input|
            && Pack(out[i], out[i + 2], out[i + 4], out[i + 6]) == GroupAt(input, chroma)
            && Pack(out[i + 1], out[i + 3], out[i + 5], out[i + 7]) == GroupAt(input, luma)
  {
    var i := 2 * (r * w + 4 * c);
    GroupWords(out, input, w, h, uv, r, c, 0, i);
    GroupWords(out, input, w, h, uv, r, c, 1, i);
    GroupWords(out, input, w, h, uv, r, c, 2, i);
    GroupWords(out, input, w, h, uv, r, c, 3, i);
    PackFour(out[i], out[i + 2], out[i + 4], out[i + 6], GroupAt(input, ChromaBase(w, uv, r) + 5 * c));
    PackFour(out[i + 1], out[i + 3], out[i + 5], out[i + 7], GroupAt(input, LumaBase(w, r) + 5 * c));
  }

  lemma PackFour(s0: bv16, s1: bv16, s2: bv16, s3: bv16, g: bv40)
    requires s0 == Sample(g, 0) && s1 == Sample(g, 1) && s2 == Sample(g, 2) && s3 == Sample(g, 3)
    ensures Pack(s0, s1, s2, s3) == g
  {
    PackSamples(g);
  }

  // ---- what the rebase costs ----

  ghost predicate WholeFrame(input: seq<bv8>, w: nat, h: nat) {
    w % 4 == 0 && h * RowBytes(w) <= |input|
  }

  lemma GroupInRow(size: int, w: nat, h: nat, r: nat, c: nat)
    requires r < h && c < w / 4 && h * RowBytes(w) <= size
    ensures r * RowBytes(w) + 5 * c + 5 <= size && LumaBase(w, r) + 5 * c + 5 <= size
  {
    RowsBefore(r, h, RowBytes(w));
    if r > 0 {
      RowsBefore(1, h, RowBytes(w));
    }
  }

  // Sample k of row r is the one a frame reader expects.
  ghost predicate LumaAsIntended(input: seq<bv8>, w: nat, h: nat, r: nat, k: nat)
    requires WholeFrame(input, w, h) && r < h && k < w
  {
    GroupInRow(|input|, w, h, r, k / 4);
    Field(input, LumaBase(w, r), k) == Field(input, r * RowBytes(w), k)
  }

  ghost predicate SameByte(input: seq<bv8>, w: nat, h: nat, r: nat, i: nat)
    requires WholeFrame(input, w, h) && 1 <= r < h && i < RowBytes(w)
  {
    GroupInRow(|input|, w, h, r, i / 5);
    input[r * RowBytes(w) + i] == input[RowBytes(w) + i]
  }

  lemma SameFieldsSameBytes(input: seq<bv8>, a: nat, b: nat)
    requires a + 5 <= |input| && b + 5 <= |input|
    requires forall q: nat | q < 4 :: Sample(GroupAt(input, a), q) == Sample(GroupAt(input, b), q)
    ensures input[a..a + 5] == input[b..b + 5]
  {
    PackSamples(GroupAt(input, a));
    PackSamples(GroupAt(input, b));
    assert Sample(GroupAt(input, a), 0) == Sample(GroupAt(input, b), 0);
    assert Sample(GroupAt(input, a), 1) == Sample(GroupAt(input, b), 1);
    assert Sample(GroupAt(input, a), 2) == Sample(GroupAt(input, b), 2);
    assert Sample(GroupAt(input, a), 3) == Sample(GroupAt(input, b), 3);
    GroupDeterminesBytes(input[a], input[a + 1], input[a + 2], input[a + 3], input[a + 4],
                         input[b], input[b + 1], input[b + 2], input[b + 3], input[b + 4]);
  }

  // A row from the third on is unpacked as intended exactly when it repeats the second row.
  lemma RowAsIntendedIff(input: seq<bv8>, w: nat, h: nat, r: nat)
    requires WholeFrame(input, w, h) && 2 <= r < h
    ensures (forall k: nat | k < w :: LumaAsIntended(input, w, h, r, k)) <==>
            (forall i: nat | i < RowBytes(w) :: SameByte(input, w, h, r, i))
  {
    if forall k: nat | k < w :: LumaAsIntended(input, w, h, r, k) {
      forall i: nat | i < RowBytes(w)
        ensures SameByte(input, w, h, r, i)
      {
        IntendedGivesBytes(input, w, h, r, i);
      }
    }
    if forall i: nat | i < RowBytes(w) :: SameByte(input, w, h, r, i) {
      forall k: nat | k < w
        ensures LumaAsIntended(input, w, h, r, k)
      {
        BytesGiveIntended(input, w, h, r, k);
      }
    }
  }

  lemma IntendedGivesBytes(input: seq<bv8>, w: nat, h: nat, r: nat, i: nat)
    requires WholeFrame(input, w, h) && 2 <= r < h && i < RowBytes(w)
    requires forall k: nat | k < w :: LumaAsIntended(input, w, h, r, k)
    ensures SameByte(input, w, h, r, i)
  {
    var c := i / 5;
    GroupInRow(|input|, w, h, r, c);
    var a, b := LumaBase(w, r) + 5 * c, r * RowBytes(w) + 5 * c;
    forall q: nat | q < 4
      ensures Sample(GroupAt(input, a), q) == Sample(GroupAt(input, b), q)
    {
      var k := 4 * c + q;
      assert k / 4 == c && k % 4 == q && LumaAsIntended(input, w, h, r, k);
    }
    SameFieldsSameBytes(input, a, b);
    assert input[a + i % 5] == input[a..a + 5][i % 5] && input[b + i % 5] == input[b..b + 5][i % 5];
  }

  lemma BytesGiveIntended(input: seq<bv8>, w: nat, h: nat, r: nat, k: nat)
    requires WholeFrame(input, w, h) && 2 <= r < h && k < w
    requires forall i: nat | i < RowBytes(w) :: SameByte(input, w, h, r, i)
    ensures LumaAsIntended(input, w, h, r, k)
  {
    var c := k / 4;
    GroupInRow(|input|, w, h, r, c);
    assert SameByte(input, w, h, r, 5 * c) && SameByte(input, w, h, r, 5 * c + 1) && SameByte(input, w, h, r, 5 * c + 2)
        && SameByte(input, w, h, r, 5 * c + 3) && SameByte(input, w, h, r, 5 * c + 4);
  }

  // The first two rows always are.
  lemma FirstRowsAsIntended(input: seq<bv8>, w: nat, h: nat, r: nat, k: nat)
    requires WholeFrame(input, w, h) && r < h && r <= 1 && k < w
    ensures LumaAsIntended(input, w, h, r, k)
  {
  }

  // Three rows of four samples whose third row differs.
  lemma ThirdRowIsLost()
    ensures var input: seq<bv8> := seq(15, i => if i < 10 then 0 else 255);
            WholeFrame(input, 4, 3) && !forall k: nat | k < 4 :: LumaAsIntended(input, 4, 3, 2, k)
  {
    var input: seq<bv8> := seq(15, i => if i < 10 then 0 else 255);
    RowAsIntendedIff(input, 4, 3, 2);
    assert !SameByte(input, 4, 3, 2, 0);
  }
}
