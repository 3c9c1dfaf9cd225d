/**
 * Drawing detection boxes onto an interleaved RGB frame, in place.
 *
 * Pixel (x, y) occupies the three bytes R, G, B starting at
 * y * stride + 3 * x; rows are `stride` bytes apart, and only the first
 * 3 * width bytes of a row belong to pixels.  Writes to coordinates
 * outside the frame are dropped, so a box that sticks out of the frame is
 * drawn only where it overlaps it.
 */
module ObjectDetection {
  import opened Base
  import opened ImageEncoder

  /** A C `int`. */
  type int32 = x: int | -0x8000_0000 <= x < 0x8000_0000

  datatype Colour = Colour(r: byte, g: byte, b: byte)

  /** Byte k (0 = red, 1 = green, 2 = blue) of a colour. */
  function Channel(col: Colour, k: int): byte
    requires 0 <= k < 3
  {
    if k == 0 then col.r else if k == 1 then col.g else col.b
  }

  /** The colour detections are drawn in. */
  const BOX_COLOUR: Colour := Colour(255, 0, 0)

  /** Index of the first byte of row y: y rows of `stride` bytes come before it. */
  function RowStart(stride: nat, y: nat): nat
  {
    if y == 0 then 0 else RowStart(stride, y - 1) + stride
  }

  /** Rows further down start at least one stride further on. */
  lemma {:induction false} RowStartGrows(stride: nat, y: nat, y': nat)
    requires y < y'
    ensures RowStart(stride, y) + stride <= RowStart(stride, y')
    decreases y'
  {
    if y + 1 < y' {
      RowStartGrows(stride, y, y' - 1);
    }
  }

  /** The row start is the product the code computes. */
  lemma {:induction false} RowStartIsProduct(stride: nat, y: nat)
    ensures RowStart(stride, y) == y * stride
  {
    if y > 0 {
      RowStartIsProduct(stride, y - 1);
    }
  }

  /** A buffer of `len` bytes holds `h` rows of `stride` bytes, each with room for `w` pixels. */
  predicate Layout(len: int, stride: nat, w: int, h: int)
  {
    0 <= w && 0 <= h && 3 * w <= stride && RowStart(stride, h) <= len
  }

  predicate InFrame(w: int, h: int, x: int, y: int)
  {
    0 <= x < w && 0 <= y < h
  }

  /** Index of the first byte of pixel (x, y). */
  function Offset(stride: nat, x: int, y: nat): int
  {
    RowStart(stride, y) + 3 * x
  }

  /** Byte `i` belongs to a pixel of one of the first h rows (and is not row padding). */
  predicate PixelByte(i: int, stride: nat, w: int, h: nat)
  {
    h > 0 && ((RowStart(stride, h - 1) <= i < RowStart(stride, h - 1) + 3 * w) || PixelByte(i, stride, w, h - 1))
  }

  lemma {:induction false} PixelByteIntro(i: int, stride: nat, w: int, h: nat, y: nat)
    requires y < h && RowStart(stride, y) <= i < RowStart(stride, y) + 3 * w
    ensures PixelByte(i, stride, w, h)
  {
    if y < h - 1 {
      PixelByteIntro(i, stride, w, h - 1, y);
    }
  }

  lemma PixelInBuffer(len: int, stride: nat, w: int, h: int, x: int, y: int)
    requires Layout(len, stride, w, h) && InFrame(w, h, x, y)
    ensures 0 <= Offset(stride, x, y) && Offset(stride, x, y) + 3 <= len
  {
    RowStartGrows(stride, y, h);
  }

  /** Byte c of pixel (x, y) is a pixel byte of the frame. */
  lemma PixelByteAt(stride: nat, w: int, h: int, x: int, y: int, c: int)
    requires 3 * w <= stride && InFrame(w, h, x, y) && 0 <= c < 3
    ensures PixelByte(Offset(stride, x, y) + c, stride, w, h)
  {
    PixelByteIntro(Offset(stride, x, y) + c, stride, w, h, y);
  }

  /** Distinct pixels, or distinct channels of a pixel, never share a byte. */
  lemma PixelsDisjoint(stride: nat, w: int, h: int, x: int, y: int, c: int, x': int, y': int, c': int)
    requires 3 * w <= stride && InFrame(w, h, x, y) && InFrame(w, h, x', y') && 0 <= c < 3 && 0 <= c' < 3
    ensures Offset(stride, x, y) + c == Offset(stride, x', y') + c' ==> x == x' && y == y' && c == c'
  {
    if y < y' {
      RowStartGrows(stride, y, y');
    } else if y' < y {
      RowStartGrows(stride, y', y);
    }
  }

  /** Byte `j` of `buf` after the three bytes from `o` on are set to `col`. */
  function PaintedByte(buf: seq<byte>, o: int, col: Colour, j: int): byte
    requires 0 <= j < |buf|
  {
    if o <= j < o + 3 then Channel(col, j - o) else buf[j]
  }

  /** The buffer after setting pixel (x, y) to `col`; unchanged if (x, y) is outside the frame. */
  function PaintPixel(buf: seq<byte>, stride: nat, w: int, h: int, x: int, y: int, col: Colour): (r: seq<byte>)
    requires Layout(|buf|, stride, w, h)
    ensures |r| == |buf|
  {
    if InFrame(w, h, x, y) then
      var o := Offset(stride, x, y);
      seq(|buf|, j requires 0 <= j < |buf| => PaintedByte(buf, o, col, j))
    else buf
  }

  /** Painting (x, y) changes exactly that pixel, if it is in the frame, to `col`. */
  lemma PaintPixelEffect(buf: seq<byte>, stride: nat, w: int, h: int, x: int, y: int, col: Colour,
                         px: int, py: int, c: int)
    requires Layout(|buf|, stride, w, h) && InFrame(w, h, px, py) && 0 <= c < 3
    ensures var i := Offset(stride, px, py) + c;
            0 <= i < |buf| && (PaintPixel(buf, stride, w, h, x, y, col)[i] == if x == px && y == py then Channel(col, c) else buf[i])
  {
    PixelInBuffer(|buf|, stride, w, h, px, py);
    var i := Offset(stride, px, py) + c;
    if InFrame(w, h, x, y) {
      var o := Offset(stride, x, y);
      PixelInBuffer(|buf|, stride, w, h, x, y);
      PixelsDisjoint(stride, w, h, x, y, 0, px, py, c);
      PixelsDisjoint(stride, w, h, x, y, 1, px, py, c);
      PixelsDisjoint(stride, w, h, x, y, 2, px, py, c);
    }
  }

  /** Painting a pixel never touches row padding or anything past the last row. */
  lemma PaintPixelKeepsOthers(buf: seq<byte>, stride: nat, w: int, h: int, x: int, y: int, col: Colour, i: int)
    requires Layout(|buf|, stride, w, h) && 0 <= i < |buf| && !PixelByte(i, stride, w, h)
    ensures PaintPixel(buf, stride, w, h, x, y, col)[i] == buf[i]
  {
    if InFrame(w, h, x, y) {
      PixelByteAt(stride, w, h, x, y, 0);
      PixelByteAt(stride, w, h, x, y, 1);
      PixelByteAt(stride, w, h, x, y, 2);
    }
  }

  /** The horizontal edges: rows y0 and y1 painted at columns x0 .. x - 1, column by column. */
  function HSweep(buf: seq<byte>, stride: nat, w: int, h: int, x0: int, y0: int, y1: int, x: int, col: Colour): (r: seq<byte>)
    requires Layout(|buf|, stride, w, h)
    ensures |r| == |buf|
    decreases x - x0
  {
    if x <= x0 then buf
    else
      var prev := HSweep(buf, stride, w, h, x0, y0, y1, x - 1, col);
      PaintPixel(PaintPixel(prev, stride, w, h, x - 1, y0, col), stride, w, h, x - 1, y1, col)
  }

  /** The vertical edges: columns x0 and x1 painted at rows y0 .. y - 1, row by row. */
  function VSweep(buf: seq<byte>, stride: nat, w: int, h: int, x0: int, x1: int, y0: int, y: int, col: Colour): (r: seq<byte>)
    requires Layout(|buf|, stride, w, h)
    ensures |r| == |buf|
    decreases y - y0
  {
    if y <= y0 then buf
    else
      var prev := VSweep(buf, stride, w, h, x0, x1, y0, y - 1, col);
      PaintPixel(PaintPixel(prev, stride, w, h, x0, y - 1, col), stride, w, h, x1, y - 1, col)
  }

  function Max(a: int, b: int): int { if a >= b then a else b }

  /** The buffer after drawing the rectangle with corners (x0, y0) and (x1, y1). */
  function BoxImage(buf: seq<byte>, stride: nat, w: int, h: int, x0: int, y0: int, x1: int, y1: int, col: Colour): (r: seq<byte>)
    requires Layout(|buf|, stride, w, h)
    ensures |r| == |buf|
  {
    var top := HSweep(buf, stride, w, h, x0, y0, y1, Max(x0, x1 + 1), col);
    VSweep(top, stride, w, h, x0, x1, y0, Max(y0, y1 + 1), col)
  }

  /** Pixel (px, py) lies on the outline of the rectangle (x0, y0) - (x1, y1). */
  predicate OnEdge(x0: int, y0: int, x1: int, y1: int, px: int, py: int)
  {
    || ((py == y0 || py == y1) && x0 <= px <= x1)
    || ((px == x0 || px == x1) && y0 <= py <= y1)
  }

  lemma {:induction false} HSweepEffect(buf: seq<byte>, stride: nat, w: int, h: int, x0: int, y0: int, y1: int, x: int,
                                        col: Colour, px: int, py: int, c: int)
    requires Layout(|buf|, stride, w, h) && InFrame(w, h, px, py) && 0 <= c < 3
    ensures var i := Offset(stride, px, py) + c;
            0 <= i < |buf| && (HSweep(buf, stride, w, h, x0, y0, y1, x, col)[i] ==
              if (py == y0 || py == y1) && x0 <= px < x then Channel(col, c) else buf[i])
    decreases x - x0
  {
    PixelInBuffer(|buf|, stride, w, h, px, py);
    if x > x0 {
      var prev := HSweep(buf, stride, w, h, x0, y0, y1, x - 1, col);
      HSweepEffect(buf, stride, w, h, x0, y0, y1, x - 1, col, px, py, c);
      PaintPixelEffect(prev, stride, w, h, x - 1, y0, col, px, py, c);
      PaintPixelEffect(PaintPixel(prev, stride, w, h, x - 1, y0, col), stride, w, h, x - 1, y1, col, px, py, c);
    }
  }

  lemma {:induction false} HSweepKeepsOthers(buf: seq<byte>, stride: nat, w: int, h: int, x0: int, y0: int, y1: int, x: int,
                                             col: Colour, i: int)
    requires Layout(|buf|, stride, w, h) && 0 <= i < |buf| && !PixelByte(i, stride, w, h)
    ensures HSweep(buf, stride, w, h, x0, y0, y1, x, col)[i] == buf[i]
    decreases x - x0
  {
    if x > x0 {
      var prev := HSweep(buf, stride, w, h, x0, y0, y1, x - 1, col);
      HSweepKeepsOthers(buf, stride, w, h, x0, y0, y1, x - 1, col, i);
      PaintPixelKeepsOthers(prev, stride, w, h, x - 1, y0, col, i);
      PaintPixelKeepsOthers(PaintPixel(prev, stride, w, h, x - 1, y0, col), stride, w, h, x - 1, y1, col, i);
    }
  }

  lemma {:induction false} VSweepEffect(buf: seq<byte>, stride: nat, w: int, h: int, x0: int, x1: int, y0: int, y: int,
                                        col: Colour, px: int, py: int, c: int)
    requires Layout(|buf|, stride, w, h) && InFrame(w, h, px, py) && 0 <= c < 3
    ensures var i := Offset(stride, px, py) + c;
            0 <= i < |buf| && (VSweep(buf, stride, w, h, x0, x1, y0, y, col)[i] ==
              if (px == x0 || px == x1) && y0 <= py < y then Channel(col, c) else buf[i])
    decreases y - y0
  {
    PixelInBuffer(|buf|, stride, w, h, px, py);
    if y > y0 {
      var prev := VSweep(buf, stride, w, h, x0, x1, y0, y - 1, col);
      VSweepEffect(buf, stride, w, h, x0, x1, y0, y - 1, col, px, py, c);
      PaintPixelEffect(prev, stride, w, h, x0, y - 1, col, px, py, c);
      PaintPixelEffect(PaintPixel(prev, stride, w, h, x0, y - 1, col), stride, w, h, x1, y - 1, col, px, py, c);
    }
  }

  lemma {:induction false} VSweepKeepsOthers(buf: seq<byte>, stride: nat, w: int, h: int, x0: int, x1: int, y0: int, y: int,
                                             col: Colour, i: int)
    requires Layout(|buf|, stride, w, h) && 0 <= i < |buf| && !PixelByte(i, stride, w, h)
    ensures VSweep(buf, stride, w, h, x0, x1, y0, y, col)[i] == buf[i]
    decreases y - y0
  {
    if y > y0 {
      var prev := VSweep(buf, stride, w, h, x0, x1, y0, y - 1, col);
      VSweepKeepsOthers(buf, stride, w, h, x0, x1, y0, y - 1, col, i);
      PaintPixelKeepsOthers(prev, stride, w, h, x0, y - 1, col, i);
      PaintPixelKeepsOthers(PaintPixel(prev, stride, w, h, x0, y - 1, col), stride, w, h, x1, y - 1, col, i);
    }
  }

  /**
   * Drawing a box gives every in-frame pixel on its outline the colour and
   * leaves every other pixel as it was.
   */
  lemma BoxColoursOutline(buf: seq<byte>, stride: nat, w: int, h: int, x0: int, y0: int, x1: int, y1: int,
                          col: Colour, px: int, py: int, c: int)
    requires Layout(|buf|, stride, w, h) && InFrame(w, h, px, py) && 0 <= c < 3
    ensures var i := Offset(stride, px, py) + c;
            0 <= i < |buf| && (BoxImage(buf, stride, w, h, x0, y0, x1, y1, col)[i] ==
              if OnEdge(x0, y0, x1, y1, px, py) then Channel(col, c) else buf[i])
  {
    var top := HSweep(buf, stride, w, h, x0, y0, y1, Max(x0, x1 + 1), col);
    HSweepEffect(buf, stride, w, h, x0, y0, y1, Max(x0, x1 + 1), col, px, py, c);
    VSweepEffect(top, stride, w, h, x0, x1, y0, Max(y0, y1 + 1), col, px, py, c);
  }

  /** Drawing a box never writes row padding or past the last row, wherever the box lies. */
  lemma BoxStaysInFrame(buf: seq<byte>, stride: nat, w: int, h: int, x0: int, y0: int, x1: int, y1: int,
                        col: Colour, i: int)
    requires Layout(|buf|, stride, w, h) && 0 <= i < |buf| && !PixelByte(i, stride, w, h)
    ensures BoxImage(buf, stride, w, h, x0, y0, x1, y1, col)[i] == buf[i]
  {
    var top := HSweep(buf, stride, w, h, x0, y0, y1, Max(x0, x1 + 1), col);
    HSweepKeepsOthers(buf, stride, w, h, x0, y0, y1, Max(x0, x1 + 1), col, i);
    VSweepKeepsOthers(top, stride, w, h, x0, x1, y0, Max(y0, y1 + 1), col, i);
  }

  /** Set pixel (x, y) to (r, g, b); coordinates outside the frame are ignored. */
  method DrawPixel(rgb: RgbFrame, stride: nat, x: int32, y: int32, r: byte, g: byte, b: byte)
    requires rgb.data != null && Layout(rgb.data.Length, stride, rgb.width, rgb.height)
    modifies rgb.data
    ensures rgb.data[..] == PaintPixel(old(rgb.data[..]), stride, rgb.width, rgb.height, x, y, Colour(r, g, b))
  {
    if x < 0 || x >= rgb.width || y < 0 || y >= rgb.height {
      return;
    }
    PixelInBuffer(rgb.data.Length, stride, rgb.width, rgb.height, x, y);
    RowStartIsProduct(stride, y as nat);
    var p := y * stride + x * 3;
    rgb.data[p] := r;
    rgb.data[p + 1] := g;
    rgb.data[p + 2] := b;
    assert rgb.data[..] == PaintPixel(old(rgb.data[..]), stride, rgb.width, rgb.height, x, y, Colour(r, g, b));
  }

  /** Draw the outline of the rectangle (x0, y0) - (x1, y1): the two rows, then the two columns. */
  method DrawBox(rgb: RgbFrame, stride: nat, x0: int32, y0: int32, x1: int32, y1: int32, r: byte, g: byte, b: byte)
    requires rgb.data != null && Layout(rgb.data.Length, stride, rgb.width, rgb.height)
    requires x1 < 0x7FFF_FFFF && y1 < 0x7FFF_FFFF  // the int counters pass x1 and y1 without overflow
    modifies rgb.data
    ensures rgb.data[..] == BoxImage(old(rgb.data[..]), stride, rgb.width, rgb.height, x0, y0, x1, y1, Colour(r, g, b))
  {
    ghost var before := rgb.data[..];
    var x: int := x0;
    while x <= x1
      invariant x0 <= x <= Max(x0, x1 + 1)
      invariant rgb.data[..] == HSweep(before, stride, rgb.width, rgb.height, x0, y0, y1, x, Colour(r, g, b))
      decreases x1 - x
    {
      DrawPixel(rgb, stride, x, y0, r, g, b);
      DrawPixel(rgb, stride, x, y1, r, g, b);
      x := x + 1;
    }
    ghost var top := rgb.data[..];
    var y: int := y0;
    while y <= y1
      invariant y0 <= y <= Max(y0, y1 + 1)
      invariant rgb.data[..] == VSweep(top, stride, rgb.width, rgb.height, x0, x1, y0, y, Colour(r, g, b))
      decreases y1 - y
    {
      DrawPixel(rgb, stride, x0, y, r, g, b);
      DrawPixel(rgb, stride, x1, y, r, g, b);
      y := y + 1;
    }
  }

  /** A detection in pixel coordinates (the scaled, truncated model output). */
  datatype Box = Box(xmin: int32, ymin: int32, xmax: int32, ymax: int32)

  /** The value an `int` takes when compared with an `unsigned int`. */
  function AsUnsigned(v: int32): (u: nat)
    ensures u < UINT_LIMIT
    ensures v >= 0 ==> u == v
    ensures v < 0 ==> u == v + UINT_LIMIT
  {
    if v < 0 then v + UINT_LIMIT else v
  }

  /**
   * The clamp applied before drawing: the low corner is raised to 0, and
   * the high corner is compared, as unsigned, with the frame size and
   * brought down to size - 1 when it is not below it.
   */
  function ClampBox(box: Box, w: nat, h: nat): (r: Box)
    requires w < 0x8000_0000 && h < 0x8000_0000
    ensures 0 <= r.xmin && 0 <= r.ymin && r.xmax <= w - 1 && r.ymax <= h - 1
  {
    Box(if box.xmin < 0 then 0 else box.xmin,
        if box.ymin < 0 then 0 else box.ymin,
        if AsUnsigned(box.xmax) >= w then w - 1 else box.xmax,
        if AsUnsigned(box.ymax) >= h then h - 1 else box.ymax)
  }

  /**
   * What the clamp does to each coordinate: a negative low corner becomes
   * 0 and others are kept; a high corner inside the frame is kept, one at
   * or past the size, or negative, becomes size - 1.
   */
  lemma ClampBoxCoordinates(box: Box, w: nat, h: nat)
    requires w < 0x8000_0000 && h < 0x8000_0000
    ensures var r := ClampBox(box, w, h);
            && r.xmin == Max(box.xmin, 0) && r.ymin == Max(box.ymin, 0)
            && (0 <= box.xmax < w ==> r.xmax == box.xmax)
            && (0 <= box.ymax < h ==> r.ymax == box.ymax)
            && (box.xmax >= w || box.xmax < 0 ==> r.xmax == w - 1)
            && (box.ymax >= h || box.ymax < 0 ==> r.ymax == h - 1)
  {
  }

  /**
   * A box whose right edge comes out negative (one lying wholly left of
   * the frame) has that edge moved to the last column: what is drawn
   * spans the whole width of the frame.
   */
  lemma NegativeRightEdgeSpansWidth(box: Box, w: nat, h: nat)
    requires 0 < w < 0x8000_0000 && h < 0x8000_0000
    requires box.xmin <= 0 && box.xmax < 0
    ensures var r := ClampBox(box, w, h);
            r.xmin == 0 && r.xmax == w - 1
            && forall px :: 0 <= px < w ==> OnEdge(r.xmin, r.ymin, r.xmax, r.ymax, px, r.ymin)
  {
  }

  /** The buffer after drawing the first n boxes, each clamped, in order. */
  function Detections(buf: seq<byte>, stride: nat, w: nat, h: nat, boxes: seq<Box>, n: nat): (r: seq<byte>)
    requires Layout(|buf|, stride, w, h) && w < 0x8000_0000 && h < 0x8000_0000 && n <= |boxes|
    ensures |r| == |buf|
  {
    if n == 0 then buf
    else
      var b := ClampBox(boxes[n - 1], w, h);
      BoxImage(Detections(buf, stride, w, h, boxes, n - 1), stride, w, h, b.xmin, b.ymin, b.xmax, b.ymax, BOX_COLOUR)
  }

  /**
   * After drawing the detections, a pixel of the frame is red exactly when
   * it lies on the outline of one of the clamped boxes, and is unchanged
   * otherwise.
   */
  lemma {:induction false} DetectionsColourOutlines(buf: seq<byte>, stride: nat, w: nat, h: nat, boxes: seq<Box>, n: nat,
                                                    px: int, py: int, c: int)
    requires Layout(|buf|, stride, w, h) && w < 0x8000_0000 && h < 0x8000_0000 && n <= |boxes|
    requires InFrame(w, h, px, py) && 0 <= c < 3
    ensures var i := Offset(stride, px, py) + c;
            0 <= i < |buf| && (Detections(buf, stride, w, h, boxes, n)[i] ==
              if OnSomeOutline(boxes, n, w, h, px, py) then Channel(BOX_COLOUR, c) else buf[i])
  {
    PixelInBuffer(|buf|, stride, w, h, px, py);
    if n == 0 {
      assert Detections(buf, stride, w, h, boxes, n) == buf;
    } else {
      DetectionStepColours(buf, stride, w, h, boxes, n, px, py, c);
      DetectionsColourOutlines(buf, stride, w, h, boxes, n - 1, px, py, c);
      if OnOutline(boxes[n - 1], w, h, px, py) {
        assert OnSomeOutline(boxes, n, w, h, px, py);
      } else {
        assert OnSomeOutline(boxes, n, w, h, px, py) == OnSomeOutline(boxes, n - 1, w, h, px, py);
      }
    }
  }

  /** Drawing box n - 1 over the first n - 1 colours its outline and leaves other pixels as they were. */
  lemma DetectionStepColours(buf: seq<byte>, stride: nat, w: nat, h: nat, boxes: seq<Box>, n: nat, px: int, py: int, c: int)
    requires Layout(|buf|, stride, w, h) && w < 0x8000_0000 && h < 0x8000_0000 && 0 < n <= |boxes|
    requires InFrame(w, h, px, py) && 0 <= c < 3
    ensures var i := Offset(stride, px, py) + c;
            0 <= i < |buf| && (Detections(buf, stride, w, h, boxes, n)[i] ==
              if OnOutline(boxes[n - 1], w, h, px, py) then Channel(BOX_COLOUR, c) else Detections(buf, stride, w, h, boxes, n - 1)[i])
  {
    PixelInBuffer(|buf|, stride, w, h, px, py);
    var b := ClampBox(boxes[n - 1], w, h);
    BoxColoursOutline(Detections(buf, stride, w, h, boxes, n - 1), stride, w, h, b.xmin, b.ymin, b.xmax, b.ymax, BOX_COLOUR, px, py, c);
  }

  /** Pixel (px, py) lies on the outline of one of the first n boxes, each clamped. */
  predicate OnSomeOutline(boxes: seq<Box>, n: nat, w: nat, h: nat, px: int, py: int)
    requires w < 0x8000_0000 && h < 0x8000_0000 && n <= |boxes|
  {
    n > 0 && (OnOutline(boxes[n - 1], w, h, px, py) || OnSomeOutline(boxes, n - 1, w, h, px, py))
  }

  /** OnSomeOutline is the existential it abbreviates, in both directions. */
  lemma {:induction false} OnSomeOutlineMeans(boxes: seq<Box>, n: nat, w: nat, h: nat, px: int, py: int)
    requires w < 0x8000_0000 && h < 0x8000_0000 && n <= |boxes|
    ensures OnSomeOutline(boxes, n, w, h, px, py) <==> exists k :: 0 <= k < n && OnOutline(boxes[k], w, h, px, py)
  {
    if n > 0 {
      OnSomeOutlineMeans(boxes, n - 1, w, h, px, py);
      if OnOutline(boxes[n - 1], w, h, px, py) {
        assert 0 <= n - 1 < n;
      } else if exists k :: 0 <= k < n && OnOutline(boxes[k], w, h, px, py) {
        var k :| 0 <= k < n && OnOutline(boxes[k], w, h, px, py);
        assert k < n - 1;
      }
    }
  }

  /** Pixel (px, py) lies on the outline of `box` once it is clamped to a w x h frame. */
  predicate OnOutline(box: Box, w: nat, h: nat, px: int, py: int)
    requires w < 0x8000_0000 && h < 0x8000_0000
  {
    var b := ClampBox(box, w, h);
    OnEdge(b.xmin, b.ymin, b.xmax, b.ymax, px, py)
  }

  /** Drawing detections never writes row padding or past the last row. */
  lemma {:induction false} DetectionsStayInFrame(buf: seq<byte>, stride: nat, w: nat, h: nat, boxes: seq<Box>, n: nat, i: int)
    requires Layout(|buf|, stride, w, h) && w < 0x8000_0000 && h < 0x8000_0000 && n <= |boxes|
    requires 0 <= i < |buf| && !PixelByte(i, stride, w, h)
    ensures Detections(buf, stride, w, h, boxes, n)[i] == buf[i]
  {
    if n == 0 {
      assert Detections(buf, stride, w, h, boxes, n) == buf;
    } else {
      DetectionStepStaysInFrame(buf, stride, w, h, boxes, n, i);
      DetectionsStayInFrame(buf, stride, w, h, boxes, n - 1, i);
    }
  }

  /** Drawing box n - 1 over the first n - 1 leaves a non-pixel byte as it was. */
  lemma DetectionStepStaysInFrame(buf: seq<byte>, stride: nat, w: nat, h: nat, boxes: seq<Box>, n: nat, i: int)
    requires Layout(|buf|, stride, w, h) && w < 0x8000_0000 && h < 0x8000_0000 && 0 < n <= |boxes|
    requires 0 <= i < |buf| && !PixelByte(i, stride, w, h)
    ensures Detections(buf, stride, w, h, boxes, n)[i] == Detections(buf, stride, w, h, boxes, n - 1)[i]
  {
    var b := ClampBox(boxes[n - 1], w, h);
    BoxStaysInFrame(Detections(buf, stride, w, h, boxes, n - 1), stride, w, h, b.xmin, b.ymin, b.xmax, b.ymax, BOX_COLOUR, i);
  }

  /**
   * One pass of the detection loop: clamp box i to the frame and draw it
   * in red, taking the frame from the first i boxes drawn to the first i + 1.
   */
  method DrawDetection(rgb: RgbFrame, stride: nat, boxes: seq<Box>, i: nat, ghost before: seq<byte>)
    requires rgb.data != null && rgb.width < 0x8000_0000 && rgb.height < 0x8000_0000 && i < |boxes|
    requires Layout(|before|, stride, rgb.width, rgb.height)
    requires rgb.data[..] == Detections(before, stride, rgb.width, rgb.height, boxes, i)
    modifies rgb.data
    ensures rgb.data[..] == Detections(before, stride, rgb.width, rgb.height, boxes, i + 1)
  {
    var box := boxes[i];
    var xmin, ymin, xmax, ymax := box.xmin, box.ymin, box.xmax, box.ymax;
    if xmin < 0 { xmin := 0; }
    if ymin < 0 { ymin := 0; }
    if AsUnsigned(xmax) >= rgb.width { xmax := rgb.width - 1; }
    if AsUnsigned(ymax) >= rgb.height { ymax := rgb.height - 1; }
    ghost var b := ClampBox(box, rgb.width, rgb.height);
    assert b == Box(xmin, ymin, xmax, ymax);
    ghost var prev := rgb.data[..];
    DrawBox(rgb, stride, xmin, ymin, xmax, ymax, 255, 0, 0);
    assert Detections(before, stride, rgb.width, rgb.height, boxes, i + 1)
        == BoxImage(prev, stride, rgb.width, rgb.height, xmin, ymin, xmax, ymax, BOX_COLOUR);
  }

  /**
   * Draw every detection of `result` onto `rgb` in red.  Nothing happens
   * when the frame, its data or the result is missing.
   */
  method DrawDetections(rgb: RgbFrame?, stride: nat, result: Option<seq<Box>>)
    requires rgb != null && rgb.data != null ==>
               Layout(rgb.data.Length, stride, rgb.width, rgb.height)
               && rgb.width < 0x8000_0000 && rgb.height < 0x8000_0000
    modifies if rgb != null && rgb.data != null then {rgb.data} else {}
    ensures rgb != null && rgb.data != null && result.None? ==> rgb.data[..] == old(rgb.data[..])
    ensures rgb != null && rgb.data != null && result.Some? ==>
              rgb.data[..] == Detections(old(rgb.data[..]), stride, rgb.width, rgb.height, result.value, |result.value|)
  {
    if rgb == null || rgb.data == null || result.None? {
      return;
    }
    var boxes := result.value;
    ghost var before := rgb.data[..];
    var i := 0;
    while i < |boxes|
      invariant 0 <= i <= |boxes|
      invariant rgb.data[..] == Detections(before, stride, rgb.width, rgb.height, boxes, i)
    {
      DrawDetection(rgb, stride, boxes, i, before);
      i := i + 1;
    }
  }
}
