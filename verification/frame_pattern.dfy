/** The test pattern of AEncodeAllKeyFrameTest. A frame of `w` x `h` pixels
    in YUV 4:2:0 is split into eight rectangles of (w/4) x (h/2) pixels,
    numbered
        0 1 2 3
        7 6 5 4
    and frame `n` paints rectangle `n % 8` in the test colour over a
    zero-filled buffer. The luma plane is w*h bytes; the chroma follows,
    either as two quarter-size planes (planar) or as interleaved U/V pairs
    (semi-planar). `checkFrame` samples one pixel per rectangle. */
module FramePattern {
  import opened Common
  import opened CodecSelection

  newtype Byte = b: int | 0 <= b < 256

  const TEST_Y: Byte := 120
  const TEST_U: Byte := 160
  const TEST_V: Byte := 200

  /** The buffer the caller allocates: w*h luma bytes plus half as many chroma bytes. */
  function FrameSize(w: nat, h: nat): (n: nat)
    ensures n == w * h + w * h / 2
  {
    w * h * 3 / 2
  }

  /** The rectangle of frame `frameIndex`: its top-left corner. */
  function StartX(w: nat, frameIndex: nat): nat {
    var n := frameIndex % 8;
    if n < 4 then n * (w / 4) else (7 - n) * (w / 4)
  }

  function StartY(h: nat, frameIndex: nat): nat {
    if frameIndex % 8 < 4 then 0 else h / 2
  }

  /** Pixel (x, y) lies in the rectangle frame `frameIndex` paints. */
  predicate InRect(w: nat, h: nat, frameIndex: nat, x: int, y: int) {
    && StartX(w, frameIndex) <= x < StartX(w, frameIndex) + w / 4
    && StartY(h, frameIndex) <= y < StartY(h, frameIndex) + h / 2
  }

  /** The rectangle always lies inside the frame. */
  lemma RectInsideFrame(w: nat, h: nat, frameIndex: nat, x: int, y: int)
    requires InRect(w, h, frameIndex, x, y)
    ensures 0 <= x < 4 * (w / 4) <= w && 0 <= y < 2 * (h / 2) <= h
  {
  }

  /** The eight rectangles are pairwise disjoint: a pixel belongs to the
      rectangle of at most one residue of the frame index. */
  lemma RectsDisjoint(w: nat, h: nat, i: nat, j: nat, x: int, y: int)
    requires InRect(w, h, i, x, y) && InRect(w, h, j, x, y)
    ensures i % 8 == j % 8
  {
    var q := w / 4;
    var a, b := i % 8, j % 8;
    var ca := if a < 4 then a else 7 - a;
    var cb := if b < 4 then b else 7 - b;
    assert (a < 4) == (b < 4);
    ColumnOfX(q, ca, x);
    ColumnOfX(q, cb, x);
  }

  /** x lies in column band `c` of width `q` only for one `c`. */
  lemma ColumnOfX(q: nat, c: nat, x: int)
    requires c < 4 && c * q <= x < c * q + q
    ensures x / q == c
  {
    assert q > 0;
    if c == 0 {
    } else if c == 1 {
    } else if c == 2 {
      assert 2 * q <= x < 3 * q;
    } else {
      assert 3 * q <= x < 4 * q;
    }
  }

  /** The byte holding the luma of pixel (x, y): rows of `w` bytes. */
  function LumaIndex(w: nat, h: nat, x: int, y: int): (k: nat)
    requires 0 <= x < w && 0 <= y < h
    ensures k < w * h
  {
    MulLe(y + 1, h, w);
    y * w + x
  }

  /** Distinct pixels of the frame have distinct luma bytes. */
  lemma LumaIndexInjective(w: nat, h: nat, x: int, y: int, x': int, y': int)
    requires 0 <= x < w && 0 <= x' < w && 0 <= y < h && 0 <= y' < h
    requires (x, y) != (x', y')
    ensures LumaIndex(w, h, x, y) != LumaIndex(w, h, x', y')
  {
    if y < y' {
      MulLe(y + 1, y', w);
    } else if y' < y {
      MulLe(y' + 1, y, w);
    }
  }

  lemma MulLe(a: int, b: int, c: nat)
    requires a <= b
    ensures a * c <= b * c
  {
  }

  /** Bounds of the chroma writes, as linear facts about the products
      involved: A = w*h, HW = (h/2)*(w/2), yW = y*(w/2). */
  lemma SemiPlanarBound(A: int, HW: int, yW: int, W: int, x: int)
    requires 0 <= x && x + 1 <= 2 * W - 1 && 0 <= yW <= 2 * HW - 2 * W && 4 * HW <= A
    ensures A <= A + yW + x && A + yW + x + 1 < A + A / 2
  {
  }

  lemma PlanarBound(A: int, HW: int, yW: int, W: int, x: int)
    requires 0 <= x <= W - 1 && 0 <= yW <= HW - W && 4 * HW <= A
    ensures A <= A + yW + x && A + HW + yW + x < A + A / 2
  {
  }

  /** Each chroma plane of the planar layout covers a quarter of the luma plane at most. */
  lemma QuarterArea(w: nat, h: nat)
    ensures 0 <= 4 * ((h / 2) * (w / 2)) <= w * h
  {
    var W, H := w / 2, h / 2;
    MulLe(2 * W, w, 2 * H);
    MulLe(2 * H, h, w);
    assert 4 * (H * W) == (2 * W) * (2 * H);
    MulLe(0, H, W);
  }

  /** The chroma bytes written for an even pixel of the rectangle lie in
      the chroma part of the buffer, for both layouts. */
  lemma ChromaIndexInBounds(w: nat, h: nat, frameIndex: nat, semiPlanar: bool, x: int, y: int)
    requires InRect(w, h, frameIndex, x, y) && x % 2 == 0 && y % 2 == 0
    ensures w * h <= ChromaU(w, h, semiPlanar, x, y) < FrameSize(w, h)
    ensures w * h <= ChromaV(w, h, semiPlanar, x, y) < FrameSize(w, h)
  {
    RectInsideFrame(w, h, frameIndex, x, y);
    QuarterArea(w, h);
    assert x <= 2 * (w / 2) - 2 by {
      assert 2 * (w / 4) <= w / 2;
      assert x <= 4 * (w / 4) - 2;
    }
    SemiPlanarIndex(w, h, x, y);
    PlanarIndex(w, h, x, y);
  }

  lemma SemiPlanarIndex(w: nat, h: nat, x: int, y: int)
    requires 0 <= x <= 2 * (w / 2) - 2 && 0 <= y < 2 * (h / 2) && y % 2 == 0
    requires 4 * ((h / 2) * (w / 2)) <= w * h
    ensures w * h <= w * h + y * (w / 2) + x
    ensures w * h + y * (w / 2) + x + 1 < w * h + w * h / 2
  {
    var W, H := w / 2, h / 2;
    assert y <= 2 * H - 2;
    var yW := y * W;
    assert 0 <= yW <= 2 * (H * W) - 2 * W by {
      MulLe(0, y, W);
      MulLe(y, 2 * H - 2, W);
      assert (2 * H - 2) * W == 2 * (H * W) - 2 * W;
    }
    SemiPlanarBound(w * h, H * W, yW, W, x);
  }

  lemma PlanarIndex(w: nat, h: nat, x: int, y: int)
    requires 0 <= x < 2 * (w / 2) && 0 <= y < 2 * (h / 2)
    requires 4 * ((h / 2) * (w / 2)) <= w * h
    ensures w * h <= w * h + (y / 2) * (w / 2) + x / 2
    ensures w * h + (w / 2) * (h / 2) + (y / 2) * (w / 2) + x / 2 < w * h + w * h / 2
  {
    var W, H := w / 2, h / 2;
    var hW := (y / 2) * W;
    assert 0 <= hW <= H * W - W by {
      MulLe(0, y / 2, W);
      MulLe(y / 2, H - 1, W);
      assert (H - 1) * W == H * W - W;
    }
    PlanarBound(w * h, H * W, hW, W, x / 2);
  }

  /** Pixel (x, y) of the rectangle is painted once the loops, which run
      bottom-up and right-to-left, have passed row `row` below column `col`. */
  predicate Painted(w: nat, h: nat, frameIndex: nat, row: int, col: int, x: int, y: int) {
    InRect(w, h, frameIndex, x, y) && (y > row || (y == row && x > col))
  }

  function LumaPartial(w: nat, h: nat, frameIndex: nat, row: int, col: int, x: int, y: int): Byte {
    if Painted(w, h, frameIndex, row, col, x, y) then TEST_Y else 0
  }

  /** The finished luma plane: the test colour exactly inside the rectangle. */
  function Luma(w: nat, h: nat, frameIndex: nat, x: int, y: int): Byte {
    if InRect(w, h, frameIndex, x, y) then TEST_Y else 0
  }

  /** The luma plane of `frame` is as painted up to (row, col). */
  predicate LumaUpTo(w: nat, h: nat, frameIndex: nat, frame: seq<Byte>, row: int, col: int)
    requires |frame| == FrameSize(w, h)
  {
    forall x, y :: 0 <= x < w && 0 <= y < h ==>
      frame[LumaIndex(w, h, x, y)] == LumaPartial(w, h, frameIndex, row, col, x, y)
  }

  /** Frames whose chroma layout is exact: both dimensions even. */
  predicate EvenFrame(w: nat, h: nat) {
    w % 2 == 0 && h % 2 == 0
  }

  /** A pixel that carries chroma: both coordinates even. */
  predicate EvenPixel(w: nat, h: nat, x: int, y: int) {
    0 <= x < w && 0 <= y < h && x % 2 == 0 && y % 2 == 0
  }

  /** Where `generateFrame` writes the U sample of pixel (x, y):
      interleaved after the luma plane (semi-planar), or in the first
      quarter-size plane (planar). */
  function ChromaU(w: nat, h: nat, semiPlanar: bool, x: int, y: int): int {
    if semiPlanar then w * h + y * (w / 2) + x else w * h + (y / 2) * (w / 2) + x / 2
  }

  /** Where it writes the V sample: next to U, or in the second plane. */
  function ChromaV(w: nat, h: nat, semiPlanar: bool, x: int, y: int): int {
    if semiPlanar then w * h + y * (w / 2) + x + 1 else w * h + (w / 2) * (h / 2) + (y / 2) * (w / 2) + x / 2
  }

  /** For an even pixel of an even frame, the U byte lies in the chroma part. */
  function UIndex(w: nat, h: nat, semiPlanar: bool, x: int, y: int): (k: nat)
    requires EvenFrame(w, h) && EvenPixel(w, h, x, y)
    ensures w * h <= k < FrameSize(w, h)
  {
    QuarterArea(w, h);
    SemiPlanarIndex(w, h, x, y);
    PlanarIndex(w, h, x, y);
    ChromaU(w, h, semiPlanar, x, y)
  }

  function VIndex(w: nat, h: nat, semiPlanar: bool, x: int, y: int): (k: nat)
    requires EvenFrame(w, h) && EvenPixel(w, h, x, y)
    ensures w * h <= k < FrameSize(w, h)
  {
    QuarterArea(w, h);
    SemiPlanarIndex(w, h, x, y);
    PlanarIndex(w, h, x, y);
    ChromaV(w, h, semiPlanar, x, y)
  }

  /** Distinct chroma samples live in distinct bytes. */
  lemma ChromaIndicesDistinct(w: nat, h: nat, semiPlanar: bool, x: int, y: int, x': int, y': int)
    requires EvenFrame(w, h) && EvenPixel(w, h, x, y) && EvenPixel(w, h, x', y')
    ensures UIndex(w, h, semiPlanar, x, y) != VIndex(w, h, semiPlanar, x', y')
    ensures (x, y) != (x', y') ==> UIndex(w, h, semiPlanar, x, y) != UIndex(w, h, semiPlanar, x', y')
    ensures (x, y) != (x', y') ==> VIndex(w, h, semiPlanar, x, y) != VIndex(w, h, semiPlanar, x', y')
  {
    if semiPlanar {
      SemiRow(w, y);
      SemiRow(w, y');
      InterleavedDistinct(w, y / 2, x, y' / 2, x');
    } else {
      PlanarDistinct(w / 2, h / 2, x / 2, y / 2, x' / 2, y' / 2);
    }
  }

  /** In the semi-planar layout, even row `y` starts chroma row y/2 of `w` bytes. */
  lemma SemiRow(w: nat, y: int)
    requires w % 2 == 0 && y % 2 == 0
    ensures y * (w / 2) == (y / 2) * w
  {
    assert y == 2 * (y / 2);
    assert w == 2 * (w / 2);
  }

  lemma EvenProduct(a: int, b: int)
    ensures (a * (2 * b)) % 2 == 0
  {
    assert a * (2 * b) == 2 * (a * b);
  }

  /** Rows of `w` bytes holding U at even and V at odd columns. */
  lemma InterleavedDistinct(w: nat, a: int, x: int, a': int, x': int)
    requires w % 2 == 0 && 0 <= a && 0 <= a' && 0 <= x < w && 0 <= x' < w && x % 2 == 0 && x' % 2 == 0
    ensures a * w + x != a' * w + x' + 1
    ensures (a, x) != (a', x') ==> a * w + x != a' * w + x'
  {
    EvenProduct(a, w / 2);
    EvenProduct(a', w / 2);
    assert w == 2 * (w / 2);
    if (a, x) != (a', x') {
      LumaIndexInjective(w, a + a' + 1, x, a, x', a');
    }
  }

  /** Two quarter-size planes of W x H bytes, V after U. */
  lemma PlanarDistinct(W: nat, H: nat, cx: int, cy: int, cx': int, cy': int)
    requires 0 <= cx < W && 0 <= cx' < W && 0 <= cy < H && 0 <= cy' < H
    ensures cy * W + cx != W * H + cy' * W + cx'
    ensures (cx, cy) != (cx', cy') ==> cy * W + cx != cy' * W + cx'
  {
    MulLe(cy + 1, H, W);
    MulLe(0, cy', W);
    if (cx, cy) != (cx', cy') {
      LumaIndexInjective(W, H, cx, cy, cx', cy');
    }
  }

  /** The chroma of `frame` is as painted up to (row, col). */
  ghost predicate ChromaUpTo(w: nat, h: nat, frameIndex: nat, semiPlanar: bool, frame: seq<Byte>, row: int, col: int)
    requires |frame| == FrameSize(w, h) && EvenFrame(w, h)
  {
    forall x, y :: EvenPixel(w, h, x, y) ==>
      && frame[UIndex(w, h, semiPlanar, x, y)] == (if Painted(w, h, frameIndex, row, col, x, y) then TEST_U else 0)
      && frame[VIndex(w, h, semiPlanar, x, y)] == (if Painted(w, h, frameIndex, row, col, x, y) then TEST_V else 0)
  }

  /** The finished chroma: the test colour exactly at the rectangle's even pixels. */
  function Chroma(w: nat, h: nat, frameIndex: nat, x: int, y: int, test: Byte): Byte {
    if InRect(w, h, frameIndex, x, y) then test else 0
  }

  predicate ChromaValue(b: Byte) {
    b == 0 || b == TEST_U || b == TEST_V
  }

  /** The frame `generateFrame` promises: FrameSize(w, h) bytes whose luma
      is the test colour exactly inside the rectangle of frameIndex % 8 and,
      for even dimensions, whose U and V samples are the test colour
      exactly at the rectangle's even pixels, zero elsewhere. */
  ghost predicate Pattern(w: nat, h: nat, semiPlanar: bool, frameIndex: nat, frame: seq<Byte>) {
    && |frame| == FrameSize(w, h)
    && (forall x, y :: 0 <= x < w && 0 <= y < h ==> frame[LumaIndex(w, h, x, y)] == Luma(w, h, frameIndex, x, y))
    && (EvenFrame(w, h) ==>
          forall x, y :: EvenPixel(w, h, x, y) ==>
            && frame[UIndex(w, h, semiPlanar, x, y)] == Chroma(w, h, frameIndex, x, y, TEST_U)
            && frame[VIndex(w, h, semiPlanar, x, y)] == Chroma(w, h, frameIndex, x, y, TEST_V))
  }

  /** `generateFrame` on a freshly allocated buffer of FrameSize(w, h)
      bytes. An unrecognised colour format throws before the buffer is
      touched. */
  method GenerateFrame(w: nat, h: nat, colorFormat: int, frameIndex: nat) returns (r: Result<seq<Byte>>)
    ensures r.Fail? <==> !IsRecognizedFormat(colorFormat)
    ensures r.Fail? ==> r.error == UnknownColorFormat(colorFormat)
    ensures r.Ok? ==> Pattern(w, h, IsSemiPlanarYUV(colorFormat).value, frameIndex, r.value)
    // every chroma byte is the zero fill, TEST_U or TEST_V, whatever the dimensions
    ensures r.Ok? ==> forall k :: w * h <= k < |r.value| ==> ChromaValue(r.value[k])
  {
    var layout := IsSemiPlanarYUV(colorFormat);
    if layout.Fail? {
      return Fail(layout.error);
    }
    var semiPlanar := layout.value;
    var size := FrameSize(w, h);
    var frame: seq<Byte> := seq(size, _ => 0);
    var sx, sy := StartX(w, frameIndex), StartY(h, frameIndex);
    var top := sx + w / 4 - 1;
    var y: int := sy + h / 2 - 1;
    while y >= sy
      invariant sy - 1 <= y <= sy + h / 2 - 1
      invariant |frame| == size
      invariant LumaUpTo(w, h, frameIndex, frame, y, top)
      invariant forall k :: w * h <= k < size ==> ChromaValue(frame[k])
      invariant EvenFrame(w, h) ==> ChromaUpTo(w, h, frameIndex, semiPlanar, frame, y, top)
    {
      var x: int := top;
      while x >= sx
        invariant sx - 1 <= x <= top
        invariant |frame| == size
        invariant LumaUpTo(w, h, frameIndex, frame, y, x)
        invariant forall k :: w * h <= k < size ==> ChromaValue(frame[k])
        invariant EvenFrame(w, h) ==> ChromaUpTo(w, h, frameIndex, semiPlanar, frame, y, x)
      {
        frame := PaintPixel(w, h, frameIndex, semiPlanar, frame, x, y);
        x := x - 1;
      }
      y := y - 1;
    }
    return Ok(frame);
  }

  /** The writes of one pixel of the rectangle: its luma byte, and for an
      even pixel its U and V bytes. */
  function PaintPixel(w: nat, h: nat, frameIndex: nat, semiPlanar: bool, frame: seq<Byte>, x: int, y: int): (f: seq<Byte>)
    requires |frame| == FrameSize(w, h) && InRect(w, h, frameIndex, x, y)
    requires LumaUpTo(w, h, frameIndex, frame, y, x)
    requires forall k :: w * h <= k < |frame| ==> ChromaValue(frame[k])
    requires EvenFrame(w, h) ==> ChromaUpTo(w, h, frameIndex, semiPlanar, frame, y, x)
    ensures |f| == |frame|
    ensures LumaUpTo(w, h, frameIndex, f, y, x - 1)
    ensures forall k :: w * h <= k < |f| ==> ChromaValue(f[k])
    ensures EvenFrame(w, h) ==> ChromaUpTo(w, h, frameIndex, semiPlanar, f, y, x - 1)
  {
    RectInsideFrame(w, h, frameIndex, x, y);
    var luma := frame[LumaIndex(w, h, x, y) := TEST_Y];
    assert LumaUpTo(w, h, frameIndex, luma, y, x - 1) by {
      forall px, py | 0 <= px < w && 0 <= py < h
        ensures luma[LumaIndex(w, h, px, py)] == LumaPartial(w, h, frameIndex, y, x - 1, px, py)
      {
        if (px, py) != (x, y) {
          LumaIndexInjective(w, h, px, py, x, y);
        }
      }
    }
    LumaWriteKeepsChroma(w, h, frameIndex, semiPlanar, frame, luma, y, x);
    if x % 2 == 0 && y % 2 == 0 then
      ChromaIndexInBounds(w, h, frameIndex, semiPlanar, x, y);
      assert forall k :: w * h <= k < |luma| ==> ChromaValue(luma[k]);
      var f := WriteChroma(luma, w * h, ChromaU(w, h, semiPlanar, x, y), ChromaV(w, h, semiPlanar, x, y));
      ChromaWritesKeepLuma(w, h, frameIndex, luma, f, y, x - 1);
      ChromaPaintStep(w, h, frameIndex, semiPlanar, luma, f, x, y);
      f
    else
      OddPixelStep(w, h, frameIndex, semiPlanar, luma, x, y);
      luma
  }

  /** The luma write leaves the chroma as it was. */
  lemma LumaWriteKeepsChroma(w: nat, h: nat, frameIndex: nat, semiPlanar: bool, frame: seq<Byte>, f: seq<Byte>, row: int, col: int)
    requires |frame| == |f| == FrameSize(w, h)
    requires forall k :: w * h <= k < |frame| ==> f[k] == frame[k]
    requires EvenFrame(w, h) ==> ChromaUpTo(w, h, frameIndex, semiPlanar, frame, row, col)
    ensures EvenFrame(w, h) ==> ChromaUpTo(w, h, frameIndex, semiPlanar, f, row, col)
  {
  }

  /** A pixel with an odd coordinate has no chroma of its own. */
  lemma OddPixelStep(w: nat, h: nat, frameIndex: nat, semiPlanar: bool, frame: seq<Byte>, x: int, y: int)
    requires |frame| == FrameSize(w, h) && !(x % 2 == 0 && y % 2 == 0)
    requires EvenFrame(w, h) ==> ChromaUpTo(w, h, frameIndex, semiPlanar, frame, y, x)
    ensures EvenFrame(w, h) ==> ChromaUpTo(w, h, frameIndex, semiPlanar, frame, y, x - 1)
  {
  }

  /** Painting the U and V bytes of an even pixel of the rectangle. */
  lemma ChromaPaintStep(w: nat, h: nat, frameIndex: nat, semiPlanar: bool, frame: seq<Byte>, f: seq<Byte>, x: int, y: int)
    requires |frame| == FrameSize(w, h) && InRect(w, h, frameIndex, x, y) && x % 2 == 0 && y % 2 == 0
    requires EvenFrame(w, h) ==> ChromaUpTo(w, h, frameIndex, semiPlanar, frame, y, x)
    requires w * h <= ChromaU(w, h, semiPlanar, x, y) < |frame| && w * h <= ChromaV(w, h, semiPlanar, x, y) < |frame|
    requires f == frame[ChromaU(w, h, semiPlanar, x, y) := TEST_U][ChromaV(w, h, semiPlanar, x, y) := TEST_V]
    ensures EvenFrame(w, h) ==> |f| == |frame| && ChromaUpTo(w, h, frameIndex, semiPlanar, f, y, x - 1)
  {
    if EvenFrame(w, h) {
      RectInsideFrame(w, h, frameIndex, x, y);
      var u, v := UIndex(w, h, semiPlanar, x, y), VIndex(w, h, semiPlanar, x, y);
      assert f == frame[u := TEST_U][v := TEST_V];
      forall px, py | EvenPixel(w, h, px, py)
        ensures f[UIndex(w, h, semiPlanar, px, py)] == (if Painted(w, h, frameIndex, y, x - 1, px, py) then TEST_U else 0)
        ensures f[VIndex(w, h, semiPlanar, px, py)] == (if Painted(w, h, frameIndex, y, x - 1, px, py) then TEST_V else 0)
      {
        var pu, pv := UIndex(w, h, semiPlanar, px, py), VIndex(w, h, semiPlanar, px, py);
        ChromaIndicesDistinct(w, h, semiPlanar, px, py, x, y);
        ChromaIndicesDistinct(w, h, semiPlanar, x, y, px, py);
        if (px, py) == (x, y) {
          assert f[pu] == TEST_U && f[pv] == TEST_V;
        } else {
          assert pu != u && pu != v && pv != u && pv != v;
          assert f[pu] == frame[pu] && f[pv] == frame[pv];
          assert Painted(w, h, frameIndex, y, x - 1, px, py) == Painted(w, h, frameIndex, y, x, px, py);
        }
      }
    }
  }

  /** The U and V writes of one pixel, both at or beyond index `lo`. */
  function WriteChroma(frame: seq<Byte>, lo: nat, u: int, v: int): (f: seq<Byte>)
    requires lo <= u < |frame| && lo <= v < |frame|
    requires forall k :: lo <= k < |frame| ==> ChromaValue(frame[k])
    ensures |f| == |frame|
    ensures forall k :: 0 <= k < lo ==> f[k] == frame[k]
    ensures forall k :: lo <= k < |f| ==> ChromaValue(f[k])
  {
    frame[u := TEST_U][v := TEST_V]
  }

  /** Writes beyond the luma plane leave the luma plane as it was. */
  lemma ChromaWritesKeepLuma(w: nat, h: nat, frameIndex: nat, frame: seq<Byte>, f: seq<Byte>, row: int, col: int)
    requires |frame| == |f| == FrameSize(w, h)
    requires forall k :: 0 <= k < w * h ==> f[k] == frame[k]
    requires LumaUpTo(w, h, frameIndex, frame, row, col)
    ensures LumaUpTo(w, h, frameIndex, f, row, col)
  {
    forall x, y | 0 <= x < w && 0 <= y < h
      ensures f[LumaIndex(w, h, x, y)] == LumaPartial(w, h, frameIndex, row, col, x, y)
    {
      assert f[LumaIndex(w, h, x, y)] == frame[LumaIndex(w, h, x, y)];
    }
  }

  // ---------------------------------------------------------------------
  // checkFrame: one sample pixel from the middle of each rectangle

  const MAX_DELTA: int := 8

  function Abs(d: int): nat {
    if d < 0 then -d else d
  }

  function Max(a: int, b: int): int {
    if a >= b then a else b
  }

  /** A channel value within MAX_DELTA of what was expected. */
  predicate Close(actual: int, expected: int) {
    Abs(actual - expected) <= MAX_DELTA
  }

  datatype Closeness = Closeness(close: bool, largest: int)

  /** `isColorClose`: the verdict for one channel, and the running
      `mLargestColorDelta` raised to this channel's delta if that is larger. */
  function IsColorClose(actual: int, expected: int, largest: int): (r: Closeness)
    ensures r.close <==> Close(actual, expected)
    ensures r.largest >= largest && r.largest >= Abs(actual - expected)
    ensures r.largest == largest || r.largest == Abs(actual - expected)
  {
    var delta := Abs(actual - expected);
    Closeness(delta <= MAX_DELTA, if delta > largest then delta else largest)
  }

  /** The entries of the decoder's output format that `checkFrame` reads. */
  datatype VideoFormat = VideoFormat(colorFormat: int, width: nat, height: nat,
                                     cropLeft: nat, cropRight: int, cropTop: nat, cropBottom: int)

  /** The sample pixel of rectangle `i` in a frame of mWidth x mHeight pixels. */
  function SampleX(mWidth: nat, i: nat): nat
    requires i < 8
  {
    (if i < 4 then i else 7 - i) * (mWidth / 4) + mWidth / 8
  }

  function SampleY(mHeight: nat, i: nat): nat
    requires i < 8
  {
    if i < 4 then mHeight / 4 else (mHeight * 3) / 4
  }

  /** Byte offsets of the Y, U and V values `checkFrame` reads for pixel
      (x, y) of a decoded buffer whose rows are `width` bytes. */
  datatype Offsets = Offsets(y: nat, u: nat, v: nat)

  function SampleOffsets(fmt: VideoFormat, semiPlanar: bool, x: nat, y: nat): Offsets {
    Offsets(LumaOffset(fmt, x, y), UOffset(fmt, semiPlanar, x, y), VOffset(fmt, semiPlanar, x, y))
  }

  function LumaOffset(fmt: VideoFormat, x: nat, y: nat): nat {
    y * fmt.width + x
  }

  function UOffset(fmt: VideoFormat, semiPlanar: bool, x: nat, y: nat): nat {
    var area: nat := fmt.width * fmt.height;
    var row: nat := (y / 2) * (fmt.width / 2);
    if semiPlanar then area + 2 * row + 2 * (x / 2) else area + row + x / 2
  }

  function VOffset(fmt: VideoFormat, semiPlanar: bool, x: nat, y: nat): nat {
    var area: nat := fmt.width * fmt.height;
    var row: nat := (y / 2) * (fmt.width / 2);
    var plane: nat := (fmt.width / 2) * (fmt.height / 2);
    if semiPlanar then area + 2 * row + 2 * (x / 2) + 1 else area + plane + row + x / 2
  }

  /** The offsets of sample `i`, shifted by the crop origin. */
  function OffsetsOf(fmt: VideoFormat, semiPlanar: bool, mWidth: nat, mHeight: nat, i: nat): Offsets
    requires i < 8
  {
    SampleOffsets(fmt, semiPlanar, SampleX(mWidth, i) + fmt.cropLeft, SampleY(mHeight, i) + fmt.cropTop)
  }

  /** `ByteBuffer.get(k)`: an index outside the buffer throws. */
  function Get(frame: seq<Byte>, k: nat): (r: Result<Byte>)
    ensures r.Ok? <==> k < |frame|
    ensures r.Ok? ==> r.value == frame[k]
    ensures r.Fail? ==> r.error == IndexOutOfBounds(k)
  {
    if k < |frame| then Ok(frame[k]) else Fail(IndexOutOfBounds(k))
  }

  /** What sample `i` of frame `frameIndex` should hold: the test colour in
      the painted rectangle, the zero fill elsewhere. */
  function Expected(frameIndex: nat, i: nat, test: Byte): Byte {
    if i == frameIndex % 8 then test else 0
  }

  /** All three reads of sample `i` stay inside the buffer. */
  predicate InBuffer(frame: seq<Byte>, fmt: VideoFormat, semiPlanar: bool, mWidth: nat, mHeight: nat, i: nat)
    requires i < 8
  {
    var o := OffsetsOf(fmt, semiPlanar, mWidth, mHeight, i);
    o.y < |frame| && o.u < |frame| && o.v < |frame|
  }

  /** Sample `i` is readable and each of its channels is close to the expected value. */
  predicate SampleLooksRight(frame: seq<Byte>, fmt: VideoFormat, semiPlanar: bool, mWidth: nat, mHeight: nat, frameIndex: nat, i: nat)
    requires i < 8
  {
    var o := OffsetsOf(fmt, semiPlanar, mWidth, mHeight, i);
    && InBuffer(frame, fmt, semiPlanar, mWidth, mHeight, i)
    && Close(frame[o.y] as int, Expected(frameIndex, i, TEST_Y) as int)
    && Close(frame[o.u] as int, Expected(frameIndex, i, TEST_U) as int)
    && Close(frame[o.v] as int, Expected(frameIndex, i, TEST_V) as int)
  }

  /** Sample `i` is readable and holds exactly the expected values. */
  predicate SampleExact(frame: seq<Byte>, fmt: VideoFormat, semiPlanar: bool, mWidth: nat, mHeight: nat, frameIndex: nat, i: nat)
    requires i < 8
  {
    var o := OffsetsOf(fmt, semiPlanar, mWidth, mHeight, i);
    && InBuffer(frame, fmt, semiPlanar, mWidth, mHeight, i)
    && frame[o.y] == Expected(frameIndex, i, TEST_Y)
    && frame[o.u] == Expected(frameIndex, i, TEST_U)
    && frame[o.v] == Expected(frameIndex, i, TEST_V)
  }

  /** The loop state of `checkFrame`: `frameFailed` and `mLargestColorDelta`. */
  datatype Check = Check(failed: bool, largest: int)

  /** One iteration of the sampling loop: read Y, U and V, then compare
      them in that order, stopping at the first channel that is not close
      (later channels then do not touch the largest delta). */
  function CheckSample(frame: seq<Byte>, fmt: VideoFormat, semiPlanar: bool, mWidth: nat, mHeight: nat,
                       frameIndex: nat, i: nat, st: Check): (r: Result<Check>)
    requires i < 8
    ensures r.Ok? <==> InBuffer(frame, fmt, semiPlanar, mWidth, mHeight, i)
    ensures r.Fail? ==> r.error.IndexOutOfBounds?
    ensures r.Ok? ==> (r.value.failed <==> st.failed || !SampleLooksRight(frame, fmt, semiPlanar, mWidth, mHeight, frameIndex, i))
    ensures r.Ok? ==> r.value.largest >= st.largest
    ensures r.Ok? && SampleLooksRight(frame, fmt, semiPlanar, mWidth, mHeight, frameIndex, i) ==>
              r.value.largest <= Max(st.largest, MAX_DELTA)
    ensures r.Ok? && !SampleLooksRight(frame, fmt, semiPlanar, mWidth, mHeight, frameIndex, i) ==>
              r.value.largest > MAX_DELTA
    ensures SampleExact(frame, fmt, semiPlanar, mWidth, mHeight, frameIndex, i) ==>
              r == Ok(Check(st.failed, Max(st.largest, 0)))
  {
    var o := OffsetsOf(fmt, semiPlanar, mWidth, mHeight, i);
    var ry := Get(frame, o.y);
    if ry.Fail? then Fail(ry.error) else
    var ru := Get(frame, o.u);
    if ru.Fail? then Fail(ru.error) else
    var rv := Get(frame, o.v);
    if rv.Fail? then Fail(rv.error) else
    var cy := IsColorClose(ry.value as int, Expected(frameIndex, i, TEST_Y) as int, st.largest);
    if !cy.close then Ok(Check(true, cy.largest)) else
    var cu := IsColorClose(ru.value as int, Expected(frameIndex, i, TEST_U) as int, cy.largest);
    if !cu.close then Ok(Check(true, cu.largest)) else
    var cv := IsColorClose(rv.value as int, Expected(frameIndex, i, TEST_V) as int, cu.largest);
    Ok(Check(st.failed || !cv.close, cv.largest))
  }

  /** The sampling loop from rectangle `i` on; an exception ends it. */
  function CheckFrom(frame: seq<Byte>, fmt: VideoFormat, semiPlanar: bool, mWidth: nat, mHeight: nat,
                     frameIndex: nat, i: nat, st: Check): (r: Result<Check>)
    requires i <= 8
    ensures r.Ok? <==> forall j :: i <= j < 8 ==> InBuffer(frame, fmt, semiPlanar, mWidth, mHeight, j)
    ensures r.Fail? ==> r.error.IndexOutOfBounds?
    ensures r.Ok? ==> (!r.value.failed <==>
                         !st.failed && forall j :: i <= j < 8 ==> SampleLooksRight(frame, fmt, semiPlanar, mWidth, mHeight, frameIndex, j))
    ensures r.Ok? ==> r.value.largest >= st.largest
    ensures r.Ok? && !st.failed && st.largest <= MAX_DELTA ==> (r.value.failed <==> r.value.largest > MAX_DELTA)
    decreases 8 - i
  {
    if i == 8 then Ok(st)
    else
      var r := CheckSample(frame, fmt, semiPlanar, mWidth, mHeight, frameIndex, i, st);
      if r.Fail? then r else CheckFrom(frame, fmt, semiPlanar, mWidth, mHeight, frameIndex, i + 1, r.value)
  }

  /** The verdict of `checkFrame` and the largest colour delta seen so far. */
  datatype Verdict = Verdict(pass: bool, largest: int)

  /** The crop rectangle of the decoded format does not have the encoded size. */
  predicate CropMismatched(fmt: VideoFormat, mWidth: nat, mHeight: nat) {
    fmt.cropRight - fmt.cropLeft + 1 != mWidth || fmt.cropBottom - fmt.cropTop + 1 != mHeight
  }

  /** `checkFrame` on a decoded buffer of an mWidth x mHeight stream.
      Unrecognised colour formats pass unchecked; a crop rectangle of the
      wrong size fails the test; otherwise the frame passes exactly when
      every sample is close to what frame `frameIndex` should hold. */
  function CheckFrame(frame: seq<Byte>, fmt: VideoFormat, mWidth: nat, mHeight: nat,
                      frameIndex: nat, largest: int): (r: Result<Verdict>)
    ensures !IsRecognizedFormat(fmt.colorFormat) ==> r == Ok(Verdict(true, largest))
    ensures IsRecognizedFormat(fmt.colorFormat) ==> (r == Fail(CropMismatch) <==> CropMismatched(fmt, mWidth, mHeight))
    ensures IsRecognizedFormat(fmt.colorFormat) && !CropMismatched(fmt, mWidth, mHeight) ==>
              (r.Ok? <==> forall i :: 0 <= i < 8 ==>
                 InBuffer(frame, fmt, IsSemiPlanarYUV(fmt.colorFormat).value, mWidth, mHeight, i))
    ensures IsRecognizedFormat(fmt.colorFormat) && r.Ok? ==>
              (r.value.pass <==> forall i :: 0 <= i < 8 ==>
                 SampleLooksRight(frame, fmt, IsSemiPlanarYUV(fmt.colorFormat).value, mWidth, mHeight, frameIndex, i))
    ensures r.Ok? ==> r.value.largest >= largest
    ensures r.Ok? && largest <= MAX_DELTA ==> (r.value.pass <==> r.value.largest <= MAX_DELTA)
  {
    if !IsRecognizedFormat(fmt.colorFormat) then Ok(Verdict(true, largest))
    else if CropMismatched(fmt, mWidth, mHeight) then Fail(CropMismatch)
    else
      var r := CheckFrom(frame, fmt, IsSemiPlanarYUV(fmt.colorFormat).value, mWidth, mHeight, frameIndex, 0, Check(false, largest));
      if r.Fail? then Fail(r.error) else Ok(Verdict(!r.value.failed, r.value.largest))
  }

  /** When every remaining sample is exact, the loop passes on the state
      with the largest delta raised to at least 0. */
  lemma {:induction false} ExactSamplesFrom(frame: seq<Byte>, fmt: VideoFormat, semiPlanar: bool, mWidth: nat, mHeight: nat,
                                            frameIndex: nat, i: nat, st: Check)
    requires i < 8
    requires forall j :: i <= j < 8 ==> SampleExact(frame, fmt, semiPlanar, mWidth, mHeight, frameIndex, j)
    ensures CheckFrom(frame, fmt, semiPlanar, mWidth, mHeight, frameIndex, i, st) == Ok(Check(st.failed, Max(st.largest, 0)))
    decreases 8 - i
  {
    var st' := Check(st.failed, Max(st.largest, 0));
    assert CheckSample(frame, fmt, semiPlanar, mWidth, mHeight, frameIndex, i, st) == Ok(st');
    if i < 7 {
      ExactSamplesFrom(frame, fmt, semiPlanar, mWidth, mHeight, frameIndex, i + 1, st');
    }
  }

  /** The sample pixels lie in the frame, and the sample of rectangle `i`
      (and the even pixel carrying its chroma) lies in the rectangle that
      frame `frameIndex` paints exactly when i == frameIndex % 8. */
  lemma SampleGeometry(w: nat, h: nat, frameIndex: nat, i: nat)
    requires i < 8 && w >= 8 && h >= 4 && EvenFrame(w, h)
    ensures SampleX(w, i) < w && SampleY(h, i) < h
    ensures InRect(w, h, frameIndex, SampleX(w, i), SampleY(h, i)) <==> i == frameIndex % 8
    ensures InRect(w, h, frameIndex, 2 * (SampleX(w, i) / 2), 2 * (SampleY(h, i) / 2)) <==> i == frameIndex % 8
  {
    var x, y := SampleX(w, i), SampleY(h, i);
    var ex, ey := 2 * (x / 2), 2 * (y / 2);
    var c := if i < 4 then i else 7 - i;
    MulLe(c, 3, w / 4);
    assert StartX(w, i) == c * (w / 4);
    assert InRect(w, h, i, x, y);
    assert InRect(w, h, i, ex, ey);
    if InRect(w, h, frameIndex, x, y) {
      RectsDisjoint(w, h, i, frameIndex, x, y);
    }
    if InRect(w, h, frameIndex, ex, ey) {
      RectsDisjoint(w, h, i, frameIndex, ex, ey);
    }
    RectInsideFrame(w, h, i, x, y);
  }

  /** The crop rectangle of a decoder that reports the frame as encoded. */
  function UncroppedFormat(colorFormat: int, w: nat, h: nat): VideoFormat {
    VideoFormat(colorFormat, w, h, 0, w - 1, 0, h - 1)
  }

  /** The chroma bytes `checkFrame` reads for pixel (x, y) of an uncropped
      buffer are those `generateFrame` writes for the even pixel at or
      before it. */
  lemma ChromaOffsetsMatch(w: nat, h: nat, colorFormat: int, semiPlanar: bool, x: nat, y: nat)
    ensures UOffset(UncroppedFormat(colorFormat, w, h), semiPlanar, x, y) == ChromaU(w, h, semiPlanar, 2 * (x / 2), 2 * (y / 2))
    ensures VOffset(UncroppedFormat(colorFormat, w, h), semiPlanar, x, y) == ChromaV(w, h, semiPlanar, 2 * (x / 2), 2 * (y / 2))
  {
    var a, b, half := y / 2, x / 2, w / 2;
    assert (2 * a) / 2 == a && (2 * b) / 2 == b;
    assert (2 * a) * half == 2 * (a * half);
  }

  /** In an uncropped buffer, the bytes `checkFrame` reads for pixel
      (x, y) are its luma byte and the chroma bytes of the even pixel at
      or before it, as `generateFrame` lays them out. */
  lemma OffsetsMatch(w: nat, h: nat, colorFormat: int, semiPlanar: bool, x: nat, y: nat)
    requires x < w && y < h && EvenFrame(w, h)
    ensures EvenPixel(w, h, 2 * (x / 2), 2 * (y / 2))
    ensures SampleOffsets(UncroppedFormat(colorFormat, w, h), semiPlanar, x, y)
            == Offsets(LumaIndex(w, h, x, y),
                       UIndex(w, h, semiPlanar, 2 * (x / 2), 2 * (y / 2)),
                       VIndex(w, h, semiPlanar, 2 * (x / 2), 2 * (y / 2)))
  {
    ChromaOffsetsMatch(w, h, colorFormat, semiPlanar, x, y);
  }

  /** Checking a test-pattern frame of frame `painted` as frame
      `frameIndex`: sample `i` reads the test colour exactly when
      i == painted % 8 and the zero fill otherwise. */
  lemma PatternSample(w: nat, h: nat, colorFormat: int, painted: nat, frame: seq<Byte>, i: nat)
    requires i < 8 && w >= 8 && h >= 4 && EvenFrame(w, h) && IsRecognizedFormat(colorFormat)
    requires Pattern(w, h, IsSemiPlanarYUV(colorFormat).value, painted, frame)
    ensures InBuffer(frame, UncroppedFormat(colorFormat, w, h), IsSemiPlanarYUV(colorFormat).value, w, h, i)
    ensures SampleExact(frame, UncroppedFormat(colorFormat, w, h), IsSemiPlanarYUV(colorFormat).value, w, h, painted, i)
  {
    var semi := IsSemiPlanarYUV(colorFormat).value;
    var x, y := SampleX(w, i), SampleY(h, i);
    var ex, ey := 2 * (x / 2), 2 * (y / 2);
    SampleGeometry(w, h, painted, i);
    OffsetsMatch(w, h, colorFormat, semi, x, y);
    assert OffsetsOf(UncroppedFormat(colorFormat, w, h), semi, w, h, i) == SampleOffsets(UncroppedFormat(colorFormat, w, h), semi, x, y);
    assert frame[LumaIndex(w, h, x, y)] == Luma(w, h, painted, x, y);
    assert frame[UIndex(w, h, semi, ex, ey)] == Chroma(w, h, painted, ex, ey, TEST_U);
    assert frame[VIndex(w, h, semi, ex, ey)] == Chroma(w, h, painted, ex, ey, TEST_V);
  }

  /** A frame generated for `frameIndex` and decoded without change passes
      `checkFrame`, and every delta it reports is 0. */
  lemma GeneratedFramePasses(w: nat, h: nat, colorFormat: int, frameIndex: nat, frame: seq<Byte>, largest: int)
    requires w >= 8 && h >= 4 && EvenFrame(w, h) && IsRecognizedFormat(colorFormat)
    requires Pattern(w, h, IsSemiPlanarYUV(colorFormat).value, frameIndex, frame)
    ensures CheckFrame(frame, UncroppedFormat(colorFormat, w, h), w, h, frameIndex, largest) == Ok(Verdict(true, Max(largest, 0)))
  {
    var semi := IsSemiPlanarYUV(colorFormat).value;
    var fmt := UncroppedFormat(colorFormat, w, h);
    forall j | 0 <= j < 8
      ensures SampleExact(frame, fmt, semi, w, h, frameIndex, j)
    {
      PatternSample(w, h, colorFormat, frameIndex, frame, j);
    }
    ExactSamplesFrom(frame, fmt, semi, w, h, frameIndex, 0, Check(false, largest));
  }

  /** A frame of the test pattern painted for another rectangle fails the
      check: the sample of the expected rectangle reads luma 0, not TEST_Y. */
  lemma WrongFrameFails(w: nat, h: nat, colorFormat: int, painted: nat, frameIndex: nat, frame: seq<Byte>, largest: int)
    requires w >= 8 && h >= 4 && EvenFrame(w, h) && IsRecognizedFormat(colorFormat)
    requires Pattern(w, h, IsSemiPlanarYUV(colorFormat).value, painted, frame)
    requires painted % 8 != frameIndex % 8
    ensures CheckFrame(frame, UncroppedFormat(colorFormat, w, h), w, h, frameIndex, largest).Ok?
    ensures !CheckFrame(frame, UncroppedFormat(colorFormat, w, h), w, h, frameIndex, largest).value.pass
  {
    var semi := IsSemiPlanarYUV(colorFormat).value;
    var fmt := UncroppedFormat(colorFormat, w, h);
    forall j | 0 <= j < 8
      ensures InBuffer(frame, fmt, semi, w, h, j)
    {
      PatternSample(w, h, colorFormat, painted, frame, j);
    }
    var i := frameIndex % 8;
    PatternSample(w, h, colorFormat, painted, frame, i);
    assert !SampleLooksRight(frame, fmt, semi, w, h, frameIndex, i);
  }
}
