/** BGRA frames converted to NV12 planes (BT.601, limited range), and the planes copied for the encoder. */
module Nv12 {
  import opened Arith
  import opened Bytes

  datatype Planes = Planes(y: seq<byte>, yStride: nat, uv: seq<byte>, uvStride: nat)

  function EvenDown(n: nat): (r: nat)
    ensures r % 2 == 0 && r <= n <= r + 1
  {
    n - n % 2
  }

  /** Shifting a signed value right rounds toward minus infinity, as `/` does here. */
  function LumaOf(r: int, g: int, b: int): int {
    (66 * r + 129 * g + 25 * b + 128) / 256 + 16
  }

  function BlueDiff(r: int, g: int, b: int): int {
    (-38 * r - 74 * g + 112 * b + 128) / 256 + 128
  }

  function RedDiff(r: int, g: int, b: int): int {
    (112 * r - 94 * g - 18 * b + 128) / 256 + 128
  }

  function ClampU8(v: int): byte {
    if v < 0 then 0 else if v > 255 then 255 else v
  }

  // ----- the source frame -----

  /** A frame of `h` rows of `stride` octets, of which `w` pixels of four octets are visible. */
  datatype Frame = Frame(src: seq<byte>, w: nat, h: nat, stride: nat)

  /** Every red octet of a visible pixel is there; the last alpha octet and padding may be missing. */
  predicate Covered(f: Frame) {
    f.w > 0 && f.h > 0 ==> (f.h - 1) * f.stride + 4 * f.w - 1 <= |f.src|
  }

  predicate Visible(f: Frame, row: nat, col: nat) {
    row < f.h && col < f.w
  }

  lemma MulMonotone(a: nat, b: nat, k: nat)
    requires a <= b
    ensures a * k <= b * k
  {
  }

  /** `Covered` is exactly what keeps the conversion in bounds. */
  lemma CoveredExact(f: Frame)
    ensures Covered(f) <==> forall row: nat, col: nat :: Visible(f, row, col) ==> row * f.stride + col * 4 + 2 < |f.src|
  {
    if Covered(f) {
      forall row: nat, col: nat | Visible(f, row, col) ensures row * f.stride + col * 4 + 2 < |f.src| {
        MulMonotone(row, f.h - 1, f.stride);
      }
    } else {
      assert Visible(f, f.h - 1, f.w - 1);
    }
  }

  /** Channel 0, 1 or 2 (blue, green, red) of a visible pixel. */
  function Channel(f: Frame, row: nat, col: nat, c: nat): (x: int)
    requires Covered(f) && Visible(f, row, col) && c < 3
    ensures 0 <= x < 256
  {
    CoveredExact(f);
    At(f.src, row * f.stride + col * 4 + c)
  }

  function YAt(f: Frame, row: nat, col: nat): byte
    requires Covered(f) && Visible(f, row, col)
  {
    ClampU8(LumaOf(Channel(f, row, col, 2), Channel(f, row, col, 1), Channel(f, row, col, 0)))
  }

  /** The truncated mean of one channel over a two-by-two block. */
  function BlockMean(f: Frame, br: nat, bc: nat, c: nat): (x: int)
    requires Covered(f) && Visible(f, 2 * br + 1, 2 * bc + 1) && c < 3
    ensures 0 <= x < 256
  {
    (Channel(f, 2 * br, 2 * bc, c) + Channel(f, 2 * br, 2 * bc + 1, c)
     + Channel(f, 2 * br + 1, 2 * bc, c) + Channel(f, 2 * br + 1, 2 * bc + 1, c)) / 4
  }

  function UAt(f: Frame, br: nat, bc: nat): byte
    requires Covered(f) && Visible(f, 2 * br + 1, 2 * bc + 1)
  {
    ClampU8(BlueDiff(BlockMean(f, br, bc, 2), BlockMean(f, br, bc, 1), BlockMean(f, br, bc, 0)))
  }

  function VAt(f: Frame, br: nat, bc: nat): byte
    requires Covered(f) && Visible(f, 2 * br + 1, 2 * bc + 1)
  {
    ClampU8(RedDiff(BlockMean(f, br, bc, 2), BlockMean(f, br, bc, 1), BlockMean(f, br, bc, 0)))
  }

  // ----- planes by index -----

  /** The octets of a plane, and the place of one of them. */
  function Size(w: nat, rows: nat): nat {
    w * rows
  }

  function Index(w: nat, row: nat, col: nat): nat {
    row * w + col
  }

  function RowOf(w: nat, rows: nat, k: nat): (row: nat)
    requires k < Size(w, rows)
    ensures row < rows
  {
    IndexSplit(w, rows, k);
    k / w
  }

  function ColOf(w: nat, rows: nat, k: nat): (col: nat)
    requires k < Size(w, rows)
    ensures col < w
  {
    IndexSplit(w, rows, k);
    k % w
  }

  lemma IndexSplit(w: nat, rows: nat, k: nat)
    requires k < w * rows
    ensures w > 0 && k / w < rows && k % w < w
  {
  }

  lemma {:induction false} IndexJoin(w: nat, rows: nat, row: nat, col: nat)
    requires row < rows && col < w
    ensures Index(w, row, col) < Size(w, rows)
    ensures RowOf(w, rows, Index(w, row, col)) == row && ColOf(w, rows, Index(w, row, col)) == col
  {
    MulMonotone(row + 1, rows, w);
    DivModUnique(row * w + col, w, row, col);
  }

  lemma IndexSteps(w: nat, rows: nat, row: nat)
    requires row <= rows
    ensures Index(w, 0, 0) == 0 && Index(w, rows, 0) == Size(w, rows) && Index(w, row, 0) <= Size(w, rows)
    ensures row < rows ==> Index(w, row, w) == Index(w, row + 1, 0) <= Size(w, rows)
    ensures forall col: nat :: Index(w, row, col) == Index(w, row, 0) + col
  {
  }

  function YIndexed(f: Frame, k: nat): byte
    requires Covered(f) && k < Size(f.w, f.h)
  {
    YAt(f, RowOf(f.w, f.h, k), ColOf(f.w, f.h, k))
  }

  /** A frame cut down to even sides: every two-by-two block is fully visible. */
  predicate Even(f: Frame) {
    f.w % 2 == 0 && f.h % 2 == 0
  }

  lemma BlockVisible(f: Frame, br: nat, col: nat)
    requires Even(f) && br < f.h / 2 && col < f.w
    ensures Visible(f, 2 * br + 1, 2 * (col / 2) + 1)
  {
  }

  /** Interleaved chroma: blue difference at even columns, red difference at odd ones. */
  function UvAt(f: Frame, br: nat, col: nat): byte
    requires Covered(f) && Even(f) && br < f.h / 2 && col < f.w
  {
    BlockVisible(f, br, col);
    if col % 2 == 0 then UAt(f, br, col / 2) else VAt(f, br, col / 2)
  }

  function UvIndexed(f: Frame, k: nat): byte
    requires Covered(f) && Even(f) && k < Size(f.w, f.h / 2)
  {
    UvAt(f, RowOf(f.w, f.h / 2, k), ColOf(f.w, f.h / 2, k))
  }

  function VisibleFrame(src: seq<byte>, width: u32, height: u32, stride: u32): Frame {
    Frame(src, EvenDown(width), EvenDown(height), stride)
  }

  /** The converted planes, octet by octet. */
  ghost predicate Converted(f: Frame, p: Planes)
    requires Covered(f) && Even(f)
  {
    && |p.y| == Size(f.w, f.h) && |p.uv| == Size(f.w, f.h / 2) && p.yStride == f.w && p.uvStride == f.w
    && (forall k :: 0 <= k < |p.y| ==> p.y[k] == YIndexed(f, k))
    && forall k :: 0 <= k < |p.uv| ==> p.uv[k] == UvIndexed(f, k)
  }

  method ReadPixel(f: Frame, row: nat, col: nat) returns (b: int, g: int, r: int)
    requires Covered(f) && Visible(f, row, col)
    ensures b == Channel(f, row, col, 0) && g == Channel(f, row, col, 1) && r == Channel(f, row, col, 2)
  {
    CoveredExact(f);
    var i := row * f.stride + col * 4;
    b, g, r := At(f.src, i), At(f.src, i + 1), At(f.src, i + 2);
  }

  method FillLuma(f: Frame, plane: array<byte>)
    requires Covered(f) && plane.Length == Size(f.w, f.h)
    modifies plane
    ensures forall k :: 0 <= k < plane.Length ==> plane[k] == YIndexed(f, k)
  {
    hide Channel, LumaOf, ClampU8, Index, Size, RowOf, ColOf;
    IndexSteps(f.w, f.h, 0);
    for row := 0 to f.h
      invariant Index(f.w, row, 0) <= plane.Length
      invariant forall k :: 0 <= k < Index(f.w, row, 0) ==> plane[k] == YIndexed(f, k)
    {
      IndexSteps(f.w, f.h, row);
      for col := 0 to f.w
        invariant forall k :: 0 <= k < Index(f.w, row, 0) + col ==> plane[k] == YIndexed(f, k)
      {
        IndexJoin(f.w, f.h, row, col);
        var b, g, r := ReadPixel(f, row, col);
        plane[Index(f.w, row, col)] := ClampU8(LumaOf(r, g, b));
      }
    }
  }

  /** One two-by-two block, its channels summed pixel by pixel. */
  method ChromaBlock(f: Frame, br: nat, bc: nat) returns (u: byte, v: byte)
    requires Covered(f) && Visible(f, 2 * br + 1, 2 * bc + 1)
    ensures u == UAt(f, br, bc) && v == VAt(f, br, bc)
  {
    hide Channel, ClampU8, BlueDiff, RedDiff;
    var rs, gs, bs := 0, 0, 0;
    for dy := 0 to 2
      invariant rs == BlockSum(f, br, bc, 2, 2 * dy)
      invariant gs == BlockSum(f, br, bc, 1, 2 * dy)
      invariant bs == BlockSum(f, br, bc, 0, 2 * dy)
    {
      for dx := 0 to 2
        invariant rs == BlockSum(f, br, bc, 2, 2 * dy + dx)
        invariant gs == BlockSum(f, br, bc, 1, 2 * dy + dx)
        invariant bs == BlockSum(f, br, bc, 0, 2 * dy + dx)
      {
        var b, g, r := ReadPixel(f, br * 2 + dy, bc * 2 + dx);
        bs, gs, rs := bs + b, gs + g, rs + r;
      }
    }
    var r, g, b := rs / 4, gs / 4, bs / 4;
    u := ClampU8(BlueDiff(r, g, b));
    v := ClampU8(RedDiff(r, g, b));
  }

  /** The sum over the first `n` pixels of a block, top row first. */
  ghost function BlockSum(f: Frame, br: nat, bc: nat, c: nat, n: nat): int
    requires Covered(f) && Visible(f, 2 * br + 1, 2 * bc + 1) && c < 3 && n <= 4
  {
    (if n >= 1 then Channel(f, 2 * br, 2 * bc, c) else 0)
    + (if n >= 2 then Channel(f, 2 * br, 2 * bc + 1, c) else 0)
    + (if n >= 3 then Channel(f, 2 * br + 1, 2 * bc, c) else 0)
    + (if n >= 4 then Channel(f, 2 * br + 1, 2 * bc + 1, c) else 0)
  }

  lemma {:induction false} ChromaAt(f: Frame, br: nat, bc: nat)
    requires Covered(f) && Even(f) && br < f.h / 2 && bc < f.w / 2
    ensures Visible(f, 2 * br + 1, 2 * bc + 1)
    ensures Index(f.w, br, 2 * bc) + 1 == Index(f.w, br, 2 * bc + 1) < Size(f.w, f.h / 2)
    ensures UvIndexed(f, Index(f.w, br, 2 * bc)) == UAt(f, br, bc)
    ensures UvIndexed(f, Index(f.w, br, 2 * bc) + 1) == VAt(f, br, bc)
  {
    hide UAt, VAt, RowOf, ColOf;
    IndexJoin(f.w, f.h / 2, br, 2 * bc);
    IndexJoin(f.w, f.h / 2, br, 2 * bc + 1);
  }

  method FillChroma(f: Frame, plane: array<byte>)
    requires Covered(f) && Even(f) && plane.Length == Size(f.w, f.h / 2)
    modifies plane
    ensures forall k :: 0 <= k < plane.Length ==> plane[k] == UvIndexed(f, k)
  {
    hide UAt, VAt, UvIndexed, Channel, Index, Size, Covered;
    IndexSteps(f.w, f.h / 2, 0);
    for br := 0 to f.h / 2
      invariant Index(f.w, br, 0) <= plane.Length
      invariant forall k :: 0 <= k < Index(f.w, br, 0) ==> plane[k] == UvIndexed(f, k)
    {
      IndexSteps(f.w, f.h / 2, br);
      for bc := 0 to f.w / 2
        invariant forall k :: 0 <= k < Index(f.w, br, 0) + 2 * bc ==> plane[k] == UvIndexed(f, k)
      {
        ChromaAt(f, br, bc);
        var u, v := ChromaBlock(f, br, bc);
        var o := Index(f.w, br, 2 * bc);
        plane[o] := u;
        plane[o + 1] := v;
      }
    }
  }

  /** The whole conversion: in bounds for every covered frame, every output octet written. */
  method BgraToNv12(src: seq<byte>, width: u32, height: u32, stride: u32) returns (p: Planes)
    requires Covered(VisibleFrame(src, width, height, stride))
    ensures Converted(VisibleFrame(src, width, height, stride), p)
  {
    hide YIndexed, UvIndexed, Size, Covered;
    var f := VisibleFrame(src, width, height, stride);
    var y := new byte[Size(f.w, f.h)](_ => 0);
    var uv := new byte[Size(f.w, f.h / 2)](_ => 0);
    FillLuma(f, y);
    FillChroma(f, uv);
    p := Planes(y[..], f.w, uv[..], f.w);
  }

  // ----- what the planes mean -----

  /** The luma plane pixel by pixel. */
  lemma {:induction false} LumaValue(f: Frame, p: Planes, row: nat, col: nat)
    requires Covered(f) && Even(f) && Converted(f, p) && Visible(f, row, col)
    ensures Index(f.w, row, col) < |p.y|
    ensures p.y[Index(f.w, row, col)] == YAt(f, row, col)
  {
    hide YAt, UvIndexed, Index, Size, RowOf, ColOf;
    IndexJoin(f.w, f.h, row, col);
  }

  /** The chroma plane block by block. */
  lemma {:induction false} ChromaValue(f: Frame, p: Planes, br: nat, bc: nat)
    requires Covered(f) && Even(f) && Converted(f, p) && br < f.h / 2 && bc < f.w / 2
    ensures Visible(f, 2 * br + 1, 2 * bc + 1)
    ensures Index(f.w, br, 2 * bc) + 1 < |p.uv|
    ensures p.uv[Index(f.w, br, 2 * bc)] == UAt(f, br, bc)
    ensures p.uv[Index(f.w, br, 2 * bc) + 1] == VAt(f, br, bc)
  {
    hide UAt, VAt, YIndexed, UvIndexed, Index, Size;
    ChromaAt(f, br, bc);
  }

  /** Clamping never changes a value: all results are in the BT.601 limited range. */
  lemma LimitedRange(r: int, g: int, b: int)
    requires 0 <= r < 256 && 0 <= g < 256 && 0 <= b < 256
    ensures 16 <= LumaOf(r, g, b) <= 235 && ClampU8(LumaOf(r, g, b)) == LumaOf(r, g, b)
    ensures 16 <= BlueDiff(r, g, b) <= 240 && ClampU8(BlueDiff(r, g, b)) == BlueDiff(r, g, b)
    ensures 16 <= RedDiff(r, g, b) <= 240 && ClampU8(RedDiff(r, g, b)) == RedDiff(r, g, b)
  {
  }

  lemma PlanesInRange(f: Frame, p: Planes)
    requires Covered(f) && Even(f) && Converted(f, p)
    ensures forall k :: 0 <= k < |p.y| ==> 16 <= p.y[k] <= 235
    ensures forall k :: 0 <= k < |p.uv| ==> 16 <= p.uv[k] <= 240
  {
  }

  predicate GreyPixel(f: Frame, row: nat, col: nat)
    requires Covered(f) && Visible(f, row, col)
  {
    Channel(f, row, col, 0) == Channel(f, row, col, 1) == Channel(f, row, col, 2)
  }

  /** A block of grey pixels, whatever their brightness, has exactly neutral chroma. */
  lemma GreyIsNeutral(f: Frame, br: nat, bc: nat)
    requires Covered(f) && Visible(f, 2 * br + 1, 2 * bc + 1)
    requires GreyPixel(f, 2 * br, 2 * bc) && GreyPixel(f, 2 * br, 2 * bc + 1)
    requires GreyPixel(f, 2 * br + 1, 2 * bc) && GreyPixel(f, 2 * br + 1, 2 * bc + 1)
    ensures UAt(f, br, bc) == 128 && VAt(f, br, bc) == 128
  {
    hide Channel;
    NeutralMean(BlockMean(f, br, bc, 0));
  }

  lemma NeutralMean(x: int)
    ensures BlueDiff(x, x, x) == 128 && RedDiff(x, x, x) == 128
  {
  }

  ghost predicate SameColours(f: Frame, e: Frame)
    requires Covered(f) && Covered(e)
  {
    f.w == e.w && f.h == e.h
    && forall row: nat, col: nat, c: nat :: Visible(f, row, col) && c < 3 ==>
         Channel(f, row, col, c) == Channel(e, row, col, c)
  }

  lemma SameLuma(f: Frame, e: Frame, k: nat)
    requires Covered(f) && Covered(e) && SameColours(f, e) && k < Size(f.w, f.h)
    ensures YIndexed(f, k) == YIndexed(e, k)
  {
  }

  lemma {:induction false} SameChroma(f: Frame, e: Frame, k: nat)
    requires Covered(f) && Covered(e) && SameColours(f, e) && Even(f) && k < Size(f.w, f.h / 2)
    ensures UvIndexed(f, k) == UvIndexed(e, k)
  {
    hide Channel, ClampU8, BlueDiff, RedDiff, RowOf, ColOf, Size;
    var br, col := RowOf(f.w, f.h / 2, k), ColOf(f.w, f.h / 2, k);
    var bc := col / 2;
    BlockVisible(f, br, col);
    assert forall c: nat :: c < 3 ==> BlockMean(f, br, bc, c) == BlockMean(e, br, bc, c);
  }

  /** Only the blue, green and red octets of visible pixels matter: not the alpha, the padding or
      the stride. */
  lemma {:induction false} OnlyVisibleColoursMatter(f: Frame, e: Frame, p: Planes, q: Planes)
    requires Covered(f) && Even(f) && Converted(f, p)
    requires Covered(e) && Even(e) && Converted(e, q)
    requires SameColours(f, e)
    ensures p == q
  {
    hide YIndexed, UvIndexed;
    forall k | 0 <= k < |p.y| ensures p.y[k] == q.y[k] {
      SameLuma(f, e, k);
    }
    forall k | 0 <= k < |p.uv| ensures p.uv[k] == q.uv[k] {
      SameChroma(f, e, k);
    }
    assert p.y == q.y && p.uv == q.uv;
  }

  // ----- the copy made for the encoder -----

  ghost predicate HasRows(plane: seq<byte>, stride: nat, width: nat, rows: nat) {
    forall k: nat :: k < rows ==> Index(stride, k, width) <= |plane|
  }

  /** The first `rows` rows of a plane without their padding. */
  ghost function Tightened(plane: seq<byte>, stride: nat, width: nat, rows: nat): (r: seq<byte>)
    requires HasRows(plane, stride, width, rows)
    ensures |r| == Size(width, rows)
  {
    if rows == 0 then []
    else
      assert Index(stride, rows - 1, width) <= |plane|;
      Tightened(plane, stride, width, rows - 1) + plane[Index(stride, rows - 1, 0)..Index(stride, rows - 1, width)]
  }

  lemma TightenedNone(plane: seq<byte>, stride: nat, width: nat, rows: nat)
    requires HasRows(plane, stride, width, rows)
    ensures HasRows(plane, stride, width, 0) && Tightened(plane, stride, width, 0) == []
  {
  }

  lemma TightenedStep(plane: seq<byte>, stride: nat, width: nat, rows: nat, r: nat)
    requires r < rows && HasRows(plane, stride, width, rows)
    ensures HasRows(plane, stride, width, r) && HasRows(plane, stride, width, r + 1)
    ensures Index(stride, r, width) == Index(stride, r, 0) + width <= |plane|
    ensures Tightened(plane, stride, width, r + 1)
            == Tightened(plane, stride, width, r) + plane[Index(stride, r, 0)..Index(stride, r, width)]
  {
  }

  /** Copies the rows of one plane behind what the buffer already holds. */
  method CopyPlane(dst: array<byte>, start: nat, plane: seq<byte>, stride: nat, width: nat, rows: nat)
      returns (o: nat)
    requires HasRows(plane, stride, width, rows) && start + Size(width, rows) <= dst.Length
    modifies dst
    ensures o == start + Size(width, rows)
    ensures dst[..o] == old(dst[..start]) + Tightened(plane, stride, width, rows)
  {
    hide Size, Tightened, HasRows, Index;
    ghost var kept := dst[..start];
    SizeSteps(width, rows, 0);
    TightenedNone(plane, stride, width, rows);
    o := start;
    for r := 0 to rows
      invariant o == start + Size(width, r) && o <= dst.Length
      invariant HasRows(plane, stride, width, r) && dst[..o] == kept + Tightened(plane, stride, width, r)
    {
      SizeSteps(width, rows, r);
      TightenedStep(plane, stride, width, rows, r);
      var s := Index(stride, r, 0);
      ghost var before := dst[..o];
      forall k | 0 <= k < width {
        dst[o + k] := plane[s + k];
      }
      assert dst[..o + width] == before + plane[s..s + width];
      o := o + width;
    }
  }

  lemma SizeSteps(w: nat, rows: nat, r: nat)
    requires r <= rows
    ensures Size(w, 0) == 0 && (r < rows ==> Size(w, r + 1) == Size(w, r) + w <= Size(w, rows))
  {
  }

  /** The encoder's input buffer: luma rows, then half as many chroma rows, padding removed. */
  method CopyPlanes(p: Planes, width: nat, height: nat) returns (dst: array<byte>)
    requires HasRows(p.y, p.yStride, width, height) && HasRows(p.uv, p.uvStride, width, height / 2)
    ensures dst[..] == Tightened(p.y, p.yStride, width, height) + Tightened(p.uv, p.uvStride, width, height / 2)
  {
    hide Size, Tightened, HasRows;
    var total := Size(width, height) + Size(width, height / 2);
    dst := new byte[total](_ => 0);
    var o := CopyPlane(dst, 0, p.y, p.yStride, width, height);
    o := CopyPlane(dst, o, p.uv, p.uvStride, width, height / 2);
    assert dst[..o] == dst[..];
  }

  lemma {:induction false} RowsOf(plane: seq<byte>, width: nat, rows: nat)
    requires |plane| == Size(width, rows)
    ensures HasRows(plane, width, width, rows)
  {
    forall k: nat | k < rows ensures Index(width, k, width) <= |plane| {
      IndexSteps(width, rows, k);
    }
  }

  lemma {:induction false} TightenedPrefix(plane: seq<byte>, width: nat, rows: nat)
    requires HasRows(plane, width, width, rows)
    ensures Size(width, rows) <= |plane| && Tightened(plane, width, width, rows) == plane[..Size(width, rows)]
  {
    hide HasRows, Tightened, Index, Size;
    SizeSteps(width, rows, 0);
    if rows == 0 {
      TightenedNone(plane, width, width, rows);
    } else {
      TightenedStep(plane, width, width, rows, rows - 1);
      TightenedPrefix(plane, width, rows - 1);
      IndexSteps(width, rows - 1, rows - 1);
      SizeSteps(width, rows, rows - 1);
      var before, after := Size(width, rows - 1), Size(width, rows);
      assert plane[..after] == plane[..before] + plane[before..after];
    }
  }

  /** A plane without padding is copied as it is. */
  lemma {:induction false} TightenedWhole(plane: seq<byte>, width: nat, rows: nat)
    requires |plane| == Size(width, rows)
    ensures HasRows(plane, width, width, rows) && Tightened(plane, width, width, rows) == plane
  {
    RowsOf(plane, width, rows);
    TightenedPrefix(plane, width, rows);
  }

  /** The planes of a conversion reach the encoder as luma followed by chroma, octet for octet. */
  lemma {:induction false} EncoderInput(f: Frame, p: Planes)
    requires Covered(f) && Even(f) && Converted(f, p)
    ensures HasRows(p.y, p.yStride, f.w, f.h) && HasRows(p.uv, p.uvStride, f.w, f.h / 2)
    ensures Tightened(p.y, p.yStride, f.w, f.h) + Tightened(p.uv, p.uvStride, f.w, f.h / 2) == p.y + p.uv
  {
    hide Covered, HasRows, Tightened, YIndexed, UvIndexed;
    TightenedWhole(p.y, f.w, f.h);
    TightenedWhole(p.uv, f.w, f.h / 2);
  }
}
