/**
 * YUYV 4:2:2 to RGB24 conversion (the whole-frame converter).
 *
 * Each 4-byte group Y0 U Y1 V of the packed input yields two RGB pixels
 * that share the chroma pair.  The channels use the BT.601 studio-range
 * equations scaled by 256 with a +128 rounding term, an arithmetic shift
 * right by 8, and a clamp to [0, 255].
 */
module ImageEncoder {
  import opened Base

  /** Largest `unsigned int` plus one. */
  const UINT_LIMIT: int := 0x1_0000_0000

  function Dist(a: int, b: int): nat { if a <= b then b - a else a - b }

  /** CLIP: clamp `x` into the byte range. */
  function Clip(x: int): byte
  {
    if x < 0 then 0 else if x > 255 then 255 else x
  }

  /** CLIP gives the byte value nearest to `x`; in particular it keeps bytes as they are. */
  lemma ClipIsNearest(x: int)
    ensures forall z :: 0 <= z <= 255 ==> Dist(Clip(x), x) <= Dist(z, x)
    ensures 0 <= x <= 255 ==> Clip(x) == x
  {
  }

  /**
   * CLIP(x >> k) for a signed `x`: the arithmetic shift is taken one bit
   * at a time, each bit a halving rounded towards minus infinity, and the
   * clamp is applied to what is left.
   */
  function ClipShift(x: int, k: nat): byte
    decreases k, x
  {
    if k == 0 then Clip(x) else ClipShift(x / 2, k - 1)
  }

  function Pow2(k: nat): (p: nat)
    ensures p >= 1
  {
    if k == 0 then 1 else 2 * Pow2(k - 1)
  }

  lemma MulAtLeast(m: int, k: int)
    requires m > 0 && k >= 1
    ensures m * k >= m
  {
  }

  /** Floor division is determined by quotient and remainder. */
  lemma DivUnique(x: int, m: int, t: int, rem: int)
    requires m > 0 && x == m * t + rem && 0 <= rem < m
    ensures x / m == t
  {
    var t', r' := x / m, x % m;
    assert x == m * t' + r';
    var k := t' - t;
    assert m * t' == m * t + m * k;
    if k >= 1 {
      MulAtLeast(m, k);
    } else if k <= -1 {
      MulAtLeast(m, -k);
    }
  }

  lemma HalveThenDivide(x: int, p: nat)
    requires p >= 1
    ensures (x / 2) / p == x / (2 * p)
  {
    var q, r := x / 2, x % 2;
    var t, s := q / p, q % p;
    assert q == p * t + s;
    assert x == (2 * p) * t + (2 * s + r);
    DivUnique(x, 2 * p, t, 2 * s + r);
  }

  /** Shifting right by k bits is floor division by 2^k, so CLIP(x >> 8) is CLIP(floor(x / 256)). */
  lemma {:induction false} ClipShiftIsFloorDivision(x: int, k: nat)
    ensures ClipShift(x, k) == Clip(x / Pow2(k))
    decreases k
  {
    if k > 0 {
      ClipShiftIsFloorDivision(x / 2, k - 1);
      HalveThenDivide(x, Pow2(k - 1));
    }
  }

  /** Red channel from the luma offset c = Y - 16 and red chroma offset e = V - 128. */
  function Red(c: int, e: int): byte { ClipShift(298 * c + 409 * e + 128, 8) }

  /** Green channel from c = Y - 16, d = U - 128 and e = V - 128. */
  function Green(c: int, d: int, e: int): byte { ClipShift(298 * c - 100 * d - 208 * e + 128, 8) }

  /** Blue channel from c = Y - 16 and blue chroma offset d = U - 128. */
  function Blue(c: int, d: int): byte { ClipShift(298 * c + 516 * d + 128, 8) }

  /** The three bytes R, G, B of one output pixel with luma `y` and chroma pair `u`, `v`. */
  function Rgb(y: byte, u: byte, v: byte): seq<byte>
  {
    var c, d, e := y - 16, u - 128, v - 128;
    [Red(c, e), Green(c, d, e), Blue(c, d)]
  }

  /** The six bytes of one input group Y0 U Y1 V: two pixels sharing the chroma pair. */
  function PairRgb(y0: byte, u: byte, y1: byte, v: byte): seq<byte>
  {
    var c0, c1, d, e := y0 - 16, y1 - 16, u - 128, v - 128;
    [Red(c0, e), Green(c0, d, e), Blue(c0, d), Red(c1, e), Green(c1, d, e), Blue(c1, d)]
  }

  /** The output of group `g`, which occupies input bytes 4g .. 4g+3. */
  function Group(src: seq<byte>, g: nat): seq<byte>
    requires 4 * g + 4 <= |src|
  {
    PairRgb(src[4 * g], src[4 * g + 1], src[4 * g + 2], src[4 * g + 3])
  }

  /** The RGB24 image of the first `groups` groups (2 * groups pixels) of `src`. */
  function Converted(src: seq<byte>, groups: nat): seq<byte>
    requires 4 * groups <= |src|
  {
    if groups == 0 then [] else PairRgb(src[0], src[1], src[2], src[3]) + Converted(src[4..], groups - 1)
  }

  /**
   * Each channel is the BT.601 formula, shifted right by 8 with the
   * rounding term 128 and clamped: CLIP((298c + 409e + 128) >> 8) and so on.
   */
  lemma {:induction false} ChannelFormulas(y: byte, u: byte, v: byte)
    ensures var c, d, e := y - 16, u - 128, v - 128;
            Rgb(y, u, v) == [Clip((298 * c + 409 * e + 128) / 256),
                             Clip((298 * c - 100 * d - 208 * e + 128) / 256),
                             Clip((298 * c + 516 * d + 128) / 256)]
  {
    var c, d, e := y - 16, u - 128, v - 128;
    assert Pow2(8) == 256;
    ClipShiftIsFloorDivision(298 * c + 409 * e + 128, 8);
    ClipShiftIsFloorDivision(298 * c - 100 * d - 208 * e + 128, 8);
    ClipShiftIsFloorDivision(298 * c + 516 * d + 128, 8);
  }

  /** A group is the pixel of Y0 followed by the pixel of Y1, both with the group's U and V. */
  lemma PairIsTwoPixels(y0: byte, u: byte, y1: byte, v: byte)
    ensures PairRgb(y0, u, y1, v) == Rgb(y0, u, v) + Rgb(y1, u, v)
  {
  }

  /** A packed YUYV frame; `data` holds at least width * height * 2 bytes. */
  datatype YuyvFrame = YuyvFrame(data: seq<byte>, width: nat, height: nat)

  /**
   * What the converter needs of its input: an even width, a complete frame,
   * and a byte count width * height * 3 that fits the `unsigned int` it is
   * computed in.
   */
  predicate WellFormed(f: YuyvFrame)
  {
    && f.width % 2 == 0
    && 2 * (f.width * f.height) <= |f.data|
    && f.width * f.height * 3 < UINT_LIMIT
  }

  /** Number of 4-byte groups in a frame of even width. */
  function FrameGroups(f: YuyvFrame): (n: nat)
    requires WellFormed(f)
    ensures 2 * n == f.width * f.height && 4 * n <= |f.data|
  {
    FrameGroupsArith(f.width, f.height);
    f.width / 2 * f.height
  }

  lemma FrameGroupsArith(w: nat, h: nat)
    requires w % 2 == 0
    ensures 2 * (w / 2 * h) == w * h
  {
    var hw := w / 2;
    assert w == 2 * hw;
    assert w * h == 2 * hw * h;
  }

  /** An RGB24 frame; `data` is NULL until a converter allocates it. */
  class RgbFrame {
    var data: array?<byte>
    var width: nat
    var height: nat
    var size: nat

    /** A zero-initialised frame. */
    constructor ()
      ensures data == null && width == 0 && height == 0 && size == 0
    {
      data, width, height, size := null, 0, 0, 0;
    }
  }

  /**
   * Fill `rgb` from `yuyv`.  A NULL argument gives -1 and touches nothing;
   * otherwise the dimensions and size are set first, and an allocation
   * failure (`allocates` false) then gives -1 with `data` NULL.  On success
   * `data` is a fresh buffer holding the converted frame.
   */
  method ConvertYuyvToRgb(yuyv: Option<YuyvFrame>, rgb: RgbFrame?, allocates: bool) returns (status: int)
    requires yuyv.Some? ==> WellFormed(yuyv.value)
    modifies rgb
    ensures yuyv.None? || rgb == null ==> status == -1 && (rgb != null ==> unchanged(rgb))
    ensures yuyv.Some? && rgb != null ==>
      && rgb.width == yuyv.value.width && rgb.height == yuyv.value.height
      && rgb.size == yuyv.value.width * yuyv.value.height * 3
      && (status == 0 <==> allocates)
      && (!allocates ==> status == -1 && rgb.data == null)
      && (allocates ==> rgb.data != null && fresh(rgb.data) && rgb.data.Length == rgb.size
                        && rgb.data[..] == Converted(yuyv.value.data, FrameGroups(yuyv.value)))
  {
    if yuyv.None? || rgb == null {
      return -1;
    }
    var frame := yuyv.value;
    var w, h := frame.width, frame.height;
    rgb.width := w;
    rgb.height := h;
    rgb.size := w * h * 3;
    if !allocates {
      rgb.data := null;
      return -1;
    }
    var dst := new byte[rgb.size];
    rgb.data := dst;
    ghost var n := FrameGroups(frame);
    FrameArith(w, h, n);
    ConvertRows(frame.data, dst, w, h, w / 2, n);
    status := 0;
  }

  /**
   * Number of groups in `rows` rows of `hw` groups each, counted as a sum
   * so that the loop invariants below stay in linear arithmetic.
   */
  ghost function RowGroups(rows: nat, hw: nat): nat
  {
    if rows == 0 then 0 else RowGroups(rows - 1, hw) + hw
  }

  lemma {:induction false} RowGroupsIsProduct(rows: nat, hw: nat)
    ensures RowGroups(rows, hw) == rows * hw
  {
    if rows > 0 {
      RowGroupsIsProduct(rows - 1, hw);
    }
  }

  /** Facts about the frame's dimensions, kept out of the loops. */
  lemma FrameArith(w: nat, h: nat, n: nat)
    requires w % 2 == 0 && 2 * n == w * h
    ensures w * h * 3 == 6 * n && RowGroups(h, w / 2) == n
  {
    var hw := w / 2;
    assert w * h == 2 * (hw * h);
    RowGroupsIsProduct(h, hw);
  }

  /**
   * The outer loop of the converter: `h` rows of `w` pixels, the `src` and
   * `dst` cursors running on from one row to the next.
   */
  method ConvertRows(src: seq<byte>, dst: array<byte>, w: nat, h: nat, ghost hw: nat, ghost n: nat)
    requires w == 2 * hw && RowGroups(h, hw) == n
    requires 4 * n <= |src| && dst.Length == 6 * n
    modifies dst
    ensures dst[..] == Converted(src, n)
  {
    ghost var g := 0;  // groups converted so far
    var si, di := 0, 0;  // the positions of the `src` and `dst` cursors
    var y := 0;
    while y < h
      invariant 0 <= y <= h
      invariant g + RowGroups(h - y, hw) == n
      invariant si == 4 * g && di == 6 * g
      invariant dst[..di] == Converted(src, g)
    {
      si, di := ConvertRow(src, dst, w, hw, si, di, g);
      g := g + hw;
      y := y + 1;
    }
    assert dst[..] == dst[..di];
  }

  /** The inner loop of the converter: one row of `w` pixels, two per step. */
  method ConvertRow(src: seq<byte>, dst: array<byte>, w: nat, ghost hw: nat, si0: nat, di0: nat, ghost g0: nat)
    returns (si: nat, di: nat)
    requires w == 2 * hw && si0 == 4 * g0 && di0 == 6 * g0
    requires 4 * (g0 + hw) <= |src| && 6 * (g0 + hw) <= dst.Length
    requires dst[..di0] == Converted(src, g0)
    modifies dst
    ensures si == 4 * (g0 + hw) && di == 6 * (g0 + hw)
    ensures dst[..di] == Converted(src, g0 + hw)
  {
    ghost var g := g0;
    si, di := si0, di0;
    var x := 0;
    while x < w
      invariant 0 <= x <= w
      invariant x == 2 * (g - g0) && si == 4 * g && di == 6 * g
      invariant dst[..di] == Converted(src, g)
    {
      var y0, u, y1, v := src[si], src[si + 1], src[si + 2], src[si + 3];
      si := si + 4;
      StorePair(dst, di, y0, u, y1, v);
      ConvertedStep(src, g);
      assert dst[..di + 6] == dst[..di] + dst[di..di + 6];
      di := di + 6;
      x := x + 2;
      g := g + 1;
    }
  }

  /**
   * The six stores of one group: R, G, B of the pixel of `y0` and then of
   * the pixel of `y1`, both with chroma `u`, `v`, from `dst[di]` on.
   */
  method StorePair(dst: array<byte>, di: nat, y0: byte, u: byte, y1: byte, v: byte)
    requires di + 6 <= dst.Length
    modifies dst
    ensures dst[..di] == old(dst[..di])
    ensures dst[di + 6..] == old(dst[di + 6..])
    ensures dst[di..di + 6] == PairRgb(y0, u, y1, v)
  {
    var d: int, e: int := u - 128, v - 128;
    var c: int := y0 - 16;
    dst[di] := Red(c, e);
    dst[di + 1] := Green(c, d, e);
    dst[di + 2] := Blue(c, d);
    c := y1 - 16;
    dst[di + 3] := Red(c, e);
    dst[di + 4] := Green(c, d, e);
    dst[di + 5] := Blue(c, d);
    assert dst[di..di + 6] == [dst[di], dst[di + 1], dst[di + 2], dst[di + 3], dst[di + 4], dst[di + 5]];
  }

  /** One more group extends the image by that group's six bytes. */
  lemma ConvertedStep(src: seq<byte>, g: nat)
    requires 4 * g + 4 <= |src|
    ensures Converted(src, g + 1) == Converted(src, g) + Group(src, g)
  {
    ConvertedSplit(src, g, 1);
    var rest := src[4 * g..];
    assert rest[0] == src[4 * g] && rest[1] == src[4 * g + 1] && rest[2] == src[4 * g + 2] && rest[3] == src[4 * g + 3];
    assert Converted(rest, 1) == PairRgb(rest[0], rest[1], rest[2], rest[3]);
  }

  lemma {:induction false} ConvertedLength(src: seq<byte>, n: nat)
    requires 4 * n <= |src|
    ensures |Converted(src, n)| == 6 * n
  {
    if n > 0 {
      ConvertedLength(src[4..], n - 1);
    }
  }

  /**
   * The k-th input group Y0 U Y1 V becomes output bytes 6k .. 6k+5: the
   * pixel of Y0 and then the pixel of Y1, both with the group's U and V.
   */
  lemma GroupOutput(src: seq<byte>, n: nat, k: nat)
    requires 4 * n <= |src| && k < n
    ensures |Converted(src, n)| == 6 * n
    ensures Converted(src, n)[6 * k .. 6 * k + 6]
         == Rgb(src[4 * k], src[4 * k + 1], src[4 * k + 3]) + Rgb(src[4 * k + 2], src[4 * k + 1], src[4 * k + 3])
  {
    ConvertedLength(src, n);
    ConvertedLength(src, k);
    ConvertedSplit(src, k, n - k);
    var rest := src[4 * k..];
    assert Converted(src, n)[6 * k .. 6 * k + 6] == Converted(rest, n - k)[..6];
    assert Converted(rest, n - k)[..6] == PairRgb(rest[0], rest[1], rest[2], rest[3]);
    PairIsTwoPixels(rest[0], rest[1], rest[2], rest[3]);
  }

  /** The converter reads exactly the first 4n input bytes: nothing after them matters. */
  lemma {:induction false} ConvertReadsPrefix(src: seq<byte>, src': seq<byte>, n: nat)
    requires 4 * n <= |src| && 4 * n <= |src'| && src[..4 * n] == src'[..4 * n]
    ensures Converted(src, n) == Converted(src', n)
  {
    if n > 0 {
      assert src[0] == src[..4 * n][0] && src[1] == src[..4 * n][1];
      assert src[2] == src[..4 * n][2] && src[3] == src[..4 * n][3];
      assert src[4..][..4 * (n - 1)] == src[..4 * n][4..];
      assert src'[4..][..4 * (n - 1)] == src'[..4 * n][4..];
      ConvertReadsPrefix(src[4..], src'[4..], n - 1);
    }
  }

  /**
   * Converting a + b groups is converting the first a groups and then the
   * b groups that follow them: the output of a run of groups depends only
   * on those groups, and groups are laid out in input order.
   */
  lemma {:induction false} ConvertedSplit(src: seq<byte>, a: nat, b: nat)
    requires 4 * (a + b) <= |src|
    ensures Converted(src, a + b) == Converted(src, a) + Converted(src[4 * a..], b)
  {
    if a > 0 {
      ConvertedSplit(src[4..], a - 1, b);
      assert src[4..][4 * (a - 1)..] == src[4 * a..];
    } else {
      assert src[4 * a..] == src;
    }
  }

  /** Studio black (Y = 16) with neutral chroma is RGB black. */
  lemma StudioBlack()
    ensures Rgb(16, 128, 128) == [0, 0, 0]
  {
  }

  /** Studio white (Y = 235) with neutral chroma is RGB white. */
  lemma StudioWhite()
    ensures Rgb(235, 128, 128) == [255, 255, 255]
  {
  }

  /** Mid-range luma (Y = 128) with neutral chroma is the grey (130, 130, 130). */
  lemma MidGrey()
    ensures Rgb(128, 128, 128) == [130, 130, 130]
  {
  }
}
