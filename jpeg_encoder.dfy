/**
 * The YUYV to JPEG path: a frame is converted to RGB one scanline at a
 * time into a single reused row buffer, and each row is handed to the
 * JPEG compressor before the next one is produced.
 *
 * The compressor is modelled only at its scanline interface: it records
 * its parameters, its scanline counter and the rows it has been fed.
 * What it makes of them (the compressed bytes) is not part of this model.
 */
module JpegEncoder {
  import opened Base
  import opened ImageEncoder

  /** Compression quality the encoder selects. */
  const QUALITY: nat := 80

  /** Colour components per input pixel (RGB). */
  const COMPONENTS: nat := 3

  /** The compressor object as the encoder drives it. */
  class Compressor {
    var imageWidth: nat
    var imageHeight: nat
    var inputComponents: nat
    var quality: nat
    /** Index of the next scanline to be written; advanced by each write. */
    var nextScanline: nat
    /** Copies of the rows handed over so far, in order. */
    var scanlines: seq<seq<byte>>

    ghost predicate Valid()
      reads this
    {
      nextScanline == |scanlines| && nextScanline <= imageHeight
    }

    /** Create, set the image parameters, the defaults and the quality, and start. */
    constructor (width: nat, height: nat)
      ensures Valid()
      ensures imageWidth == width && imageHeight == height
      ensures inputComponents == COMPONENTS && quality == QUALITY
      ensures nextScanline == 0 && scanlines == []
    {
      imageWidth, imageHeight := width, height;
      inputComponents, quality := COMPONENTS, QUALITY;
      nextScanline, scanlines := 0, [];
    }

    /** Write one scanline: the compressor takes a copy of the row's bytes. */
    method WriteScanline(row: array<byte>)
      requires Valid() && nextScanline < imageHeight
      modifies this
      ensures Valid()
      ensures scanlines == old(scanlines) + [row[..]]
      ensures nextScanline == old(nextScanline) + 1
      ensures imageWidth == old(imageWidth) && imageHeight == old(imageHeight)
      ensures inputComponents == old(inputComponents) && quality == old(quality)
    {
      scanlines := scanlines + [row[..]];
      nextScanline := nextScanline + 1;
    }
  }

  /**
   * What the conversion demands of its input: an even, non-negative size,
   * a complete frame, and row offsets that fit the unsigned 32-bit
   * scanline arithmetic.
   */
  predicate Frame(data: seq<byte>, width: int, height: int)
  {
    0 <= width && width % 2 == 0 && 0 <= height && width * height * 2 <= |data|
    && width * height * 2 <= UINT_LIMIT
  }

  /** The RGB row of scanline `s`: the width / 2 groups that start at input offset s * width * 2. */
  function Scanline(data: seq<byte>, width: nat, s: nat): seq<byte>
    requires width % 2 == 0 && s * width * 2 + width * 2 <= |data|
  {
    Converted(data[s * width * 2..], width / 2)
  }

  /**
   * Convert a YUYV frame and feed it to a fresh compressor one scanline
   * at a time.  Always returns 0.  The rows reach the compressor in order,
   * row s being the RGB conversion of the input bytes from s * width * 2 on;
   * together they are the whole-frame converter's image of the same input.
   */
  method ConvertYuyvToJpeg(yuyvData: seq<byte>, width: int, height: int) returns (status: int, cinfo: Compressor)
    requires Frame(yuyvData, width, height)
    ensures status == 0
    ensures cinfo.imageWidth == width && cinfo.imageHeight == height
    ensures cinfo.inputComponents == COMPONENTS && cinfo.quality == QUALITY
    ensures cinfo.nextScanline == height && |cinfo.scanlines| == height
    ensures forall s :: 0 <= s < height ==>
              ScanlineFits(yuyvData, width, height, s) && cinfo.scanlines[s] == Scanline(yuyvData, width, s)
    ensures 4 * (width / 2 * height) <= |yuyvData|
    ensures Concat(cinfo.scanlines) == Converted(yuyvData, width / 2 * height)
  {
    cinfo := new Compressor(width, height);
    var row := new byte[width * 3];
    while cinfo.nextScanline < cinfo.imageHeight
      invariant cinfo.Valid() && fresh(cinfo) && fresh(row)
      invariant cinfo.imageWidth == width && cinfo.imageHeight == height
      invariant cinfo.inputComponents == COMPONENTS && cinfo.quality == QUALITY
      invariant forall s :: 0 <= s < cinfo.nextScanline ==>
                  ScanlineFits(yuyvData, width, height, s) && cinfo.scanlines[s] == Scanline(yuyvData, width, s)
      decreases height - cinfo.nextScanline
    {
      var s := cinfo.nextScanline;
      ScanlineFitsAt(yuyvData, width, height, s);
      var offset := s * width * 2;
      FillRow(yuyvData, offset, row, width);
      cinfo.WriteScanline(row);
    }
    RowsMakeFrame(yuyvData, width, height, cinfo.scanlines);
    status := 0;
  }

  /** Scanline `s` of a frame lies inside the input. */
  predicate ScanlineFits(data: seq<byte>, width: int, height: int, s: int)
  {
    Frame(data, width, height) && 0 <= s < height && s * width * 2 + width * 2 <= |data|
  }

  lemma ScanlineFitsAt(data: seq<byte>, width: int, height: int, s: nat)
    requires Frame(data, width, height) && s < height
    ensures ScanlineFits(data, width, height, s)
  {
    assert s * width * 2 + width * 2 == (s + 1) * width * 2;
    assert (s + 1) * width <= height * width;
  }

  /**
   * The inner loop: pairs of pixels of one scanline, read from `data`
   * starting at `offset`, with the pair at column x stored at row[3x ..].
   */
  method FillRow(data: seq<byte>, offset: nat, row: array<byte>, width: nat)
    requires width % 2 == 0 && offset + width * 2 <= |data| && row.Length == width * 3
    modifies row
    ensures row[..] == Converted(data[offset..], width / 2)
  {
    ghost var line := data[offset..];
    ghost var g := 0;  // pairs done
    var p := offset;  // the input cursor
    var x := 0;
    while x < width
      invariant 0 <= x <= width && x == 2 * g && p == offset + 4 * g
      invariant row[..3 * x] == Converted(line, g)
    {
      assert data[p] == line[4 * g] && data[p + 1] == line[4 * g + 1];
      assert data[p + 2] == line[4 * g + 2] && data[p + 3] == line[4 * g + 3];
      StorePair(row, x * 3, data[p], data[p + 1], data[p + 2], data[p + 3]);
      ConvertedStep(line, g);
      assert row[..3 * x + 6] == row[..3 * x] + row[3 * x..3 * x + 6];
      p := p + 4;
      x := x + 2;
      g := g + 1;
    }
    assert row[..] == row[..3 * x];
  }

  /**
   * The scanlines fed to the compressor, one after the other, are the
   * whole-frame RGB image that the whole-frame converter produces from the
   * same input.
   */
  lemma RowsMakeFrame(data: seq<byte>, width: nat, height: nat, rows: seq<seq<byte>>)
    requires Frame(data, width, height) && |rows| == height
    requires forall s :: 0 <= s < height ==> ScanlineFits(data, width, height, s) && rows[s] == Scanline(data, width, s)
    ensures 4 * (width / 2 * height) <= |data|
    ensures Concat(rows) == Converted(data, width / 2 * height)
  {
    var hw := width / 2;
    forall s | 0 <= s < height
      ensures RowIsRun(data, hw, rows, s)
    {
      var a, n := RowArith(data, width, height, s);
      RowGroupsIsProduct(s, hw);
    }
    FrameGroupsArith(width, height);
    RowGroupsIsProduct(height, hw);
    RunsMakeConverted(data, hw, rows, height);
    assert rows[..height] == rows;
  }

  /** Row s is the conversion of the s-th run of `hw` groups of `src`. */
  ghost predicate RowIsRun(src: seq<byte>, hw: nat, rows: seq<seq<byte>>, s: nat)
  {
    s < |rows| && 4 * RowGroups(s, hw) + 4 * hw <= |src| && rows[s] == Converted(src[4 * RowGroups(s, hw)..], hw)
  }

  /**
   * Runs of `hw` groups laid end to end: if row s is the conversion of the
   * s-th run, the first k rows together are the conversion of the first k runs.
   */
  lemma {:induction false} RunsMakeConverted(src: seq<byte>, hw: nat, rows: seq<seq<byte>>, k: nat)
    requires k <= |rows| && 4 * RowGroups(k, hw) <= |src|
    requires forall s :: 0 <= s < k ==> RowIsRun(src, hw, rows, s)
    ensures Concat(rows[..k]) == Converted(src, RowGroups(k, hw))
  {
    if k == 0 {
      assert rows[..k] == [];
    } else {
      var a := RowGroups(k - 1, hw);
      assert RowGroups(k, hw) == a + hw;
      assert RowIsRun(src, hw, rows, k - 1);
      RunsMakeConverted(src, hw, rows, k - 1);
      assert rows[..k][..k - 1] == rows[..k - 1];
      assert rows[..k] == rows[..k - 1] + [rows[k - 1]];
      ConcatSnoc(rows[..k - 1], rows[k - 1]);
      ConvertedSplit(src, a, hw);
    }
  }

  /** Group counts of a frame: `a` groups before scanline s, `n` in the whole frame. */
  lemma RowArith(data: seq<byte>, width: nat, height: nat, s: nat) returns (a: nat, n: nat)
    requires Frame(data, width, height) && s < height
    ensures n == width / 2 * height && 4 * n <= |data| && 6 * n == width * height * 3
    ensures a == width / 2 * s && a + width / 2 == width / 2 * (s + 1)
    ensures 4 * a == s * width * 2 && 6 * a == s * width * 3
    ensures 6 * (a + width / 2) == (s + 1) * width * 3 && a + width / 2 <= n
  {
    var hw := width / 2;
    FrameGroupsArith(width, height);
    a, n := hw * s, hw * height;
    assert width == 2 * hw;
    assert s * width == 2 * a;
    assert (s + 1) * width == s * width + width;
    assert hw * (s + 1) <= hw * height;
  }

  /**
   * Scanline s is the slice [s * width * 3, (s + 1) * width * 3) of the
   * whole-frame conversion of the same input.
   */
  lemma ScanlineIsFrameSlice(data: seq<byte>, width: nat, height: nat, s: nat)
    requires Frame(data, width, height) && s < height
    ensures ScanlineFits(data, width, height, s)
    ensures 4 * (width / 2 * height) <= |data|
    ensures |Converted(data, width / 2 * height)| == width * height * 3
    ensures 0 <= s * width * 3 <= (s + 1) * width * 3 <= width * height * 3
    ensures Scanline(data, width, s) == Converted(data, width / 2 * height)[s * width * 3 .. (s + 1) * width * 3]
  {
    ScanlineFitsAt(data, width, height, s);
    var hw := width / 2;
    var a, n := RowArith(data, width, height, s);
    ConvertedLength(data, n);
    ConvertedSplit(data, a, n - a);
    ConvertedSplit(data[4 * a..], hw, n - a - hw);
    ConvertedLength(data, a);
    ConvertedLength(data[4 * a..], hw);
  }
}
