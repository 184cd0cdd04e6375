/** What the converted octets mean: they are near the exact BT.601 limited-range conversion of the red,
    green and blue octets of the source. */
module Colour {
  import opened Bytes
  import opened Nv12

  /** An octet of a plane, zero where there is none. */
  function Octet(s: seq<byte>, i: int): int {
    if 0 <= i < |s| then s[i] else 0
  }

  predicate Within(x: int, bound: int) {
    -bound < x < bound
  }

  /** 255000 times the exact luma above black: the weights 0.299, 0.587 and 0.114 of BT.601 over 219 steps. */
  function ExactLuma(r: int, g: int, b: int): int {
    65_481 * r + 128_553 * g + 24_966 * b
  }

  /** 255000 times the exact colour differences: 224 steps over (B - Y) / 1.772 and (R - Y) / 1.402. */
  function ExactBlueDiff(r: int, g: int, b: int): int {
    -37_797 * r - 74_203 * g + 112_000 * b
  }

  function ExactRedDiff(r: int, g: int, b: int): int {
    112_000 * r - 93_786 * g - 18_214 * b
  }

  lemma {:induction false} NearLuma(r: int, g: int, b: int)
    requires 0 <= r < 256 && 0 <= g < 256 && 0 <= b < 256
    ensures Within(255_000 * (ClampU8(LumaOf(r, g, b)) - 16) - ExactLuma(r, g, b), 255_000)
  {
    LimitedRange(r, g, b);
  }

  lemma {:induction false} NearBlueDiff(r: int, g: int, b: int)
    requires 0 <= r < 256 && 0 <= g < 256 && 0 <= b < 256
    ensures Within(255_000 * (ClampU8(BlueDiff(r, g, b)) - 128) - ExactBlueDiff(r, g, b), 260_000)
  {
    LimitedRange(r, g, b);
  }

  lemma {:induction false} NearRedDiff(r: int, g: int, b: int)
    requires 0 <= r < 256 && 0 <= g < 256 && 0 <= b < 256
    ensures Within(255_000 * (ClampU8(RedDiff(r, g, b)) - 128) - ExactRedDiff(r, g, b), 260_000)
  {
    LimitedRange(r, g, b);
  }

  /** An octet of a pixel of the source: blue at 0, green at 1, red at 2. */
  function Sample(f: Frame, row: nat, col: nat, c: nat): int {
    Octet(f.src, row * f.stride + 4 * col + c)
  }

  lemma {:induction false} SampleIsChannel(f: Frame, row: nat, col: nat, c: nat)
    requires Covered(f) && Visible(f, row, col) && c < 3
    ensures row * f.stride + 4 * col + c < |f.src|
    ensures Channel(f, row, col, c) == Sample(f, row, col, c)
  {
    CoveredExact(f);
  }

  /** The luma octet of a pixel is less than one step from the exact luma of its red, green and blue. */
  lemma {:induction false} LumaExact(f: Frame, p: Planes, row: nat, col: nat)
    requires Covered(f) && Even(f) && Converted(f, p) && Visible(f, row, col)
    ensures row * f.w + col < |p.y|
    ensures Within(255_000 * (Octet(p.y, row * f.w + col) - 16)
                   - ExactLuma(Sample(f, row, col, 2), Sample(f, row, col, 1), Sample(f, row, col, 0)), 255_000)
  {
    hide LumaOf, ClampU8, ExactLuma, Covered, Converted, YIndexed, Size, Channel, Sample;
    LumaValue(f, p, row, col);
    SampleIsChannel(f, row, col, 2);
    SampleIsChannel(f, row, col, 1);
    SampleIsChannel(f, row, col, 0);
    NearLuma(Channel(f, row, col, 2), Channel(f, row, col, 1), Channel(f, row, col, 0));
  }

  /** The sum of one channel over a two-by-two block. */
  function BlockTotal(f: Frame, br: nat, bc: nat, c: nat): int {
    Sample(f, 2 * br, 2 * bc, c) + Sample(f, 2 * br, 2 * bc + 1, c)
    + Sample(f, 2 * br + 1, 2 * bc, c) + Sample(f, 2 * br + 1, 2 * bc + 1, c)
  }

  lemma {:induction false} MeanOfTotal(f: Frame, br: nat, bc: nat, c: nat)
    requires Covered(f) && Visible(f, 2 * br + 1, 2 * bc + 1) && c < 3
    ensures 0 <= BlockTotal(f, br, bc, c) - 4 * BlockMean(f, br, bc, c) <= 3
  {
    hide Covered, Sample, Channel;
    SampleIsChannel(f, 2 * br, 2 * bc, c);
    SampleIsChannel(f, 2 * br, 2 * bc + 1, c);
    SampleIsChannel(f, 2 * br + 1, 2 * bc, c);
    SampleIsChannel(f, 2 * br + 1, 2 * bc + 1, c);
  }

  /** From the truncated means to the sums of four pixels. */
  lemma {:induction false} FromMeans(r: int, g: int, b: int, x: int, y: int, z: int, u: int, v: int)
    requires 0 <= x - 4 * r <= 3 && 0 <= y - 4 * g <= 3 && 0 <= z - 4 * b <= 3
    requires Within(255_000 * u - ExactBlueDiff(r, g, b), 260_000)
    requires Within(255_000 * v - ExactRedDiff(r, g, b), 260_000)
    ensures Within(1_020_000 * u - ExactBlueDiff(x, y, z), 1_380_000)
    ensures Within(1_020_000 * v - ExactRedDiff(x, y, z), 1_380_000)
  {
  }

  /** The chroma octets of a block are less than 1.36 steps from the exact blue and red difference of the
      mean of its four pixels, blue difference first. */
  lemma {:induction false} ChromaExact(f: Frame, p: Planes, br: nat, bc: nat)
    requires Covered(f) && Even(f) && Converted(f, p) && br < f.h / 2 && bc < f.w / 2
    ensures br * f.w + 2 * bc + 1 < |p.uv|
    ensures var x, y, z := BlockTotal(f, br, bc, 2), BlockTotal(f, br, bc, 1), BlockTotal(f, br, bc, 0);
            var o := br * f.w + 2 * bc;
            Within(1_020_000 * (Octet(p.uv, o) - 128) - ExactBlueDiff(x, y, z), 1_380_000)
            && Within(1_020_000 * (Octet(p.uv, o + 1) - 128) - ExactRedDiff(x, y, z), 1_380_000)
  {
    hide BlueDiff, RedDiff, ClampU8, ExactBlueDiff, ExactRedDiff, Covered, Converted, UvIndexed, Size;
    ChromaValue(f, p, br, bc);
    hide BlockTotal, BlockMean;
    var r, g, b := BlockMean(f, br, bc, 2), BlockMean(f, br, bc, 1), BlockMean(f, br, bc, 0);
    NearBlueDiff(r, g, b);
    NearRedDiff(r, g, b);
    MeanOfTotal(f, br, bc, 2);
    MeanOfTotal(f, br, bc, 1);
    MeanOfTotal(f, br, bc, 0);
    FromMeans(r, g, b, BlockTotal(f, br, bc, 2), BlockTotal(f, br, bc, 1), BlockTotal(f, br, bc, 0),
              Octet(p.uv, br * f.w + 2 * bc) - 128, Octet(p.uv, br * f.w + 2 * bc + 1) - 128);
  }
}
