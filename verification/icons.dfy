/** tools/create_icons.py: the 32-bit uncompressed bitmap encoder
    (create_bmp) and the four 32x32 square-icon generators. */
module IconBitmap {
  import opened Options
  import opened Bytes
  import opened Uint32

  datatype Rgb = Rgb(r: Byte, g: Byte, b: Byte)

  const Black := Rgb(0, 0, 0)
  const White := Rgb(255, 255, 255)

  /** BITMAPFILEHEADER is 14 bytes and BITMAPINFOHEADER 40, so the pixel
      array starts at byte 54. */
  const FileHeaderSize: nat := 14
  const InfoHeaderSize: nat := 40
  const PixelOffset: nat := 54

  /** Black is the transparency key: it is written with alpha 0, every
      other colour with alpha 255. */
  function Alpha(p: Rgb): Byte
  {
    if p.r == 0 && p.g == 0 && p.b == 0 then 0 else 255
  }

  /** One pixel as struct.pack('BBBB', b, g, r, alpha). */
  function PixelBytes(p: Rgb): seq<Byte>
  {
    [p.b, p.g, p.r, Alpha(p)]
  }

  /** The pixel array: the pixels in list order, four bytes each. */
  function EncodePixels(ps: seq<Rgb>): (r: seq<Byte>)
    ensures |r| == 4 * |ps|
    ensures forall i :: 0 <= i < |ps| ==> r[4 * i..4 * i + 4] == PixelBytes(ps[i])
  {
    if |ps| == 0 then []
    else
      var rest := EncodePixels(ps[..|ps| - 1]);
      var r := rest + PixelBytes(ps[|ps| - 1]);
      assert forall i :: 0 <= i < |ps| - 1 ==> r[4 * i..4 * i + 4] == rest[4 * i..4 * i + 4];
      r
  }

  /** The header fields struct.pack can represent; for any other size it
      raises before the file is opened. */
  predicate HeaderFits(width: int, height: int)
  {
    && IsI32(width) && IsI32(height)
    && IsU32(width * height * 4) && IsU32(54 + width * height * 4)
  }

  function FileHeader(fileSize: int): (r: seq<Byte>)
    requires IsU32(fileSize)
    ensures |r| == FileHeaderSize
  {
    [0x42, 0x4D] + U32(fileSize) + U16(0) + U16(0) + U32(PixelOffset)
  }

  function InfoHeader(width: int, height: int): (r: seq<Byte>)
    requires HeaderFits(width, height)
    ensures |r| == InfoHeaderSize
  {
    U32(40) + I32(width) + I32(height) + U16(1) + U16(32) + U32(0)
    + U32(width * height * 4) + I32(2835) + I32(2835) + U32(0) + U32(0)
  }

  /** create_bmp, with the file contents as the result. */
  function CreateBmp(width: int, height: int, pixels: seq<Rgb>): (r: Option<seq<Byte>>)
    ensures r.Some? <==> HeaderFits(width, height)
    ensures r.Some? ==> |r.value| == PixelOffset + 4 * |pixels|
    ensures r.Some? ==> r.value[PixelOffset..] == EncodePixels(pixels)
  {
    if !HeaderFits(width, height) then None
    else Some(FileHeader(54 + width * height * 4) + InfoHeader(width, height) + EncodePixels(pixels))
  }

  // ---------------------------------------------------------------------
  // Reading a bitmap back

  datatype FileHeaderFields = FileHeaderFields(
    fileSize: int, reserved1: int, reserved2: int, pixelOffset: int)

  datatype InfoHeaderFields = InfoHeaderFields(
    infoSize: int, width: int, height: int, planes: int, bitCount: int,
    compression: int, imageSize: int, xPelsPerMeter: int, yPelsPerMeter: int,
    colorsUsed: int, colorsImportant: int)

  datatype BmpHeader = BmpHeader(file: FileHeaderFields, info: InfoHeaderFields)

  function ParseFileHeader(s: seq<Byte>): FileHeaderFields
    requires |s| == FileHeaderSize
  {
    FileHeaderFields(ReadU32(s, 2), ReadU16(s, 6), ReadU16(s, 8), ReadU32(s, 10))
  }

  function ParseInfoHeader(s: seq<Byte>): InfoHeaderFields
    requires |s| == InfoHeaderSize
  {
    InfoHeaderFields(
      ReadU32(s, 0), ReadI32(s, 4), ReadI32(s, 8), ReadU16(s, 12), ReadU16(s, 14),
      ReadU32(s, 16), ReadU32(s, 20), ReadI32(s, 24), ReadI32(s, 28),
      ReadU32(s, 32), ReadU32(s, 36))
  }

  /** Decodes the two headers of a bitmap image: the "BM" signature is
      required, then the file header and the info header fields. */
  function ParseHeader(s: seq<Byte>): Option<BmpHeader>
  {
    if |s| < 54 || s[0] != 0x42 || s[1] != 0x4D then None
    else Some(BmpHeader(ParseFileHeader(s[..14]), ParseInfoHeader(s[14..54])))
  }

  /** Decodes the pixel stored at byte offset i: its colour and alpha. */
  function ParsePixel(s: seq<Byte>, i: nat): (Rgb, Byte)
    requires i + 4 <= |s|
  {
    (Rgb(s[i + 2], s[i + 1], s[i]), s[i + 3])
  }

  lemma ReadU32At(s: seq<Byte>, i: nat, v: int)
    requires IsU32(v) && i + 4 <= |s| && s[i..i + 4] == U32(v)
    ensures ReadU32(s, i) == v
  {
    assert s[i] == U32(v)[0] && s[i + 1] == U32(v)[1] && s[i + 2] == U32(v)[2] && s[i + 3] == U32(v)[3];
    U32RoundTrip(v);
  }

  lemma ReadI32At(s: seq<Byte>, i: nat, v: int)
    requires IsI32(v) && i + 4 <= |s| && s[i..i + 4] == I32(v)
    ensures ReadI32(s, i) == v
  {
    ReadU32At(s, i, if v < 0 then v + TwoTo32 else v);
  }

  lemma ReadU16At(s: seq<Byte>, i: nat, v: int)
    requires IsU16(v) && i + 2 <= |s| && s[i..i + 2] == U16(v)
    ensures ReadU16(s, i) == v
  {
    assert s[i] == U16(v)[0] && s[i + 1] == U16(v)[1];
  }

  lemma FileHeaderRoundTrip(fileSize: int)
    requires IsU32(fileSize)
    ensures ParseFileHeader(FileHeader(fileSize)) == FileHeaderFields(fileSize, 0, 0, 54)
  {
    var s := FileHeader(fileSize);
    ReadU32At(s, 2, fileSize);
    ReadU16At(s, 6, 0);
    ReadU16At(s, 8, 0);
    ReadU32At(s, 10, 54);
  }

  lemma InfoHeaderRoundTrip(width: int, height: int)
    requires HeaderFits(width, height)
    ensures ParseInfoHeader(InfoHeader(width, height))
         == InfoHeaderFields(40, width, height, 1, 32, 0, width * height * 4, 2835, 2835, 0, 0)
  {
    var s := InfoHeader(width, height);
    ReadU32At(s, 0, 40);
    ReadI32At(s, 4, width);
    ReadI32At(s, 8, height);
    ReadU16At(s, 12, 1);
    ReadU16At(s, 14, 32);
    ReadU32At(s, 16, 0);
    ReadU32At(s, 20, width * height * 4);
    ReadI32At(s, 24, 2835);
    ReadI32At(s, 28, 2835);
    ReadU32At(s, 32, 0);
    ReadU32At(s, 36, 0);
  }

  /** Every header field reads back as create_bmp wrote it: signature
      "BM", file size 54 + w*h*4, zero reserved words, offset 54, a
      40-byte info header with the given width and height, one plane,
      32 bits per pixel, no compression, image size w*h*4, 2835 pixels
      per metre both ways and empty palette counts. */
  lemma HeaderRoundTrip(width: int, height: int, pixels: seq<Rgb>)
    requires HeaderFits(width, height)
    ensures ParseHeader(CreateBmp(width, height, pixels).value)
         == Some(BmpHeader(
              FileHeaderFields(54 + width * height * 4, 0, 0, 54),
              InfoHeaderFields(40, width, height, 1, 32, 0, width * height * 4, 2835, 2835, 0, 0)))
  {
    var s := CreateBmp(width, height, pixels).value;
    var fh := FileHeader(54 + width * height * 4);
    var ih := InfoHeader(width, height);
    assert s == fh + ih + EncodePixels(pixels);
    assert s[..14] == fh;
    assert s[14..54] == ih;
    FileHeaderRoundTrip(54 + width * height * 4);
    InfoHeaderRoundTrip(width, height);
  }

  /** Pixel i of the list sits at byte 54 + 4i, as (b, g, r, alpha), and
      its alpha is 0 exactly when the pixel is black. No row is moved. */
  lemma PixelRoundTrip(width: int, height: int, pixels: seq<Rgb>, i: nat)
    requires HeaderFits(width, height) && i < |pixels|
    ensures PixelOffset + 4 * i + 4 <= |CreateBmp(width, height, pixels).value|
    ensures ParsePixel(CreateBmp(width, height, pixels).value, PixelOffset + 4 * i)
         == (pixels[i], Alpha(pixels[i]))
    ensures Alpha(pixels[i]) == 0 <==> pixels[i] == Black
  {
    var s := CreateBmp(width, height, pixels).value;
    var body := EncodePixels(pixels);
    assert s[PixelOffset..] == body;
    assert s[PixelOffset + 4 * i..PixelOffset + 4 * i + 4] == body[4 * i..4 * i + 4];
  }

  /** The size the header announces matches the bytes written exactly
      when the list holds width*height pixels; create_bmp never checks. */
  lemma SizeFieldAgreement(width: int, height: int, pixels: seq<Rgb>)
    requires HeaderFits(width, height)
    ensures ParseHeader(CreateBmp(width, height, pixels).value).value.file.fileSize
              == |CreateBmp(width, height, pixels).value|
            <==> |pixels| == width * height
  {
    HeaderRoundTrip(width, height, pixels);
  }

  // ---------------------------------------------------------------------
  // The square icons

  const IconSide: nat := 32

  predicate InSquare(x: int, y: int)
  {
    8 <= x < 24 && 8 <= y < 24
  }

  predicate OnBorder(x: int, y: int)
  {
    InSquare(x, y) && (x == 8 || x == 23 || y == 8 || y == 23)
  }

  /** The colour every square generator gives pixel (x, y). */
  function SquarePixel(x: int, y: int, fill: Rgb): Rgb
  {
    if InSquare(x, y) then
      (if x == 8 || x == 23 || y == 8 || y == 23 then White else fill)
    else Black
  }

  /** Row y, generated left to right. */
  function Row(y: int, fill: Rgb): (r: seq<Rgb>)
    ensures |r| == IconSide
  {
    seq(IconSide, x requires 0 <= x < IconSide => SquarePixel(x, y, fill))
  }

  /** The first n rows, top to bottom (the y-outer, x-inner loops). */
  function Rows(n: nat, fill: Rgb): (ps: seq<Rgb>)
    ensures |ps| == IconSide * n
    ensures forall i :: 0 <= i < |ps| ==> ps[i] == SquarePixel(i % IconSide, i / IconSide, fill)
  {
    if n == 0 then [] else Rows(n - 1, fill) + Row(n - 1, fill)
  }

  /** The pixel list of a 32x32 square icon with the given fill. */
  function SquareIcon(fill: Rgb): (ps: seq<Rgb>)
    ensures |ps| == IconSide * IconSide
  {
    Rows(IconSide, fill)
  }

  const ProcessFill := Rgb(0, 0, 255)
  const DiskFill := Rgb(255, 0, 0)
  const FilesFill := Rgb(255, 255, 0)
  const NotebookFill := Rgb(0, 255, 0)

  /** The file each generator writes: create_process_icon,
      create_disk_icon, create_files_icon, create_notebook_icon. */
  function SquareIconFile(fill: Rgb): (r: seq<Byte>)
    ensures |r| == PixelOffset + 4 * IconSide * IconSide
  {
    CreateBmp(32, 32, SquareIcon(fill)).value
  }

  /** Pixel (x, y) of a generated icon is list entry 32*y + x. */
  lemma SquareIconAt(fill: Rgb, x: nat, y: nat)
    requires x < IconSide && y < IconSide
    ensures SquareIcon(fill)[IconSide * y + x] == SquarePixel(x, y, fill)
  {
    var i := IconSide * y + x;
    assert i / IconSide == y && i % IconSide == x;
  }

  /** Two generators agree everywhere except on the interior fill. */
  lemma IconsDifferOnlyInFill(f: Rgb, g: Rgb, x: nat, y: nat)
    requires x < IconSide && y < IconSide
    ensures SquareIcon(f)[IconSide * y + x] != SquareIcon(g)[IconSide * y + x]
            ==> InSquare(x, y) && !OnBorder(x, y)
  {
    SquareIconAt(f, x, y);
    SquareIconAt(g, x, y);
  }

  /** The square is symmetric top to bottom, so writing the rows top-down
      under a bottom-up height field shows the same picture. */
  lemma SquareIsVerticallySymmetric(fill: Rgb, x: int, y: int)
    ensures SquarePixel(x, 31 - y, fill) == SquarePixel(x, y, fill)
  {
  }

  /** The three probe pixels of the process icon, as encoded bytes:
      (0,0) is transparent, (16,16) is opaque blue, (8,8) opaque white. */
  lemma ProcessIconProbes()
    ensures var s := SquareIconFile(ProcessFill);
      && s[PixelOffset + 3] == 0
      && s[PixelOffset + 4 * (32 * 16 + 16)..PixelOffset + 4 * (32 * 16 + 16) + 4] == [255, 0, 0, 255]
      && s[PixelOffset + 4 * (32 * 8 + 8)..PixelOffset + 4 * (32 * 8 + 8) + 4] == [255, 255, 255, 255]
  {
    var s := SquareIconFile(ProcessFill);
    IconPixelBytes(ProcessFill, 0, 0);
    IconPixelBytes(ProcessFill, 16, 16);
    IconPixelBytes(ProcessFill, 8, 8);
    assert s[PixelOffset + 3] == s[PixelOffset..PixelOffset + 4][3];
  }

  /** The four bytes of pixel (x, y) in a generated file. */
  lemma IconPixelBytes(fill: Rgb, x: nat, y: nat)
    requires x < IconSide && y < IconSide
    ensures var i := IconSide * y + x;
      SquareIconFile(fill)[PixelOffset + 4 * i..PixelOffset + 4 * i + 4] == PixelBytes(SquarePixel(x, y, fill))
  {
    var i := IconSide * y + x;
    var ps := SquareIcon(fill);
    SquareIconAt(fill, x, y);
    var s := SquareIconFile(fill);
    var body := EncodePixels(ps);
    assert s[PixelOffset..] == body;
    assert s[PixelOffset + 4 * i..PixelOffset + 4 * i + 4] == body[4 * i..4 * i + 4];
  }


  // ---------------------------------------------------------------------
  // Counting opaque pixels

  function Count(ps: seq<Rgb>, c: Rgb): nat
  {
    if |ps| == 0 then 0 else Count(ps[..|ps| - 1], c) + (if ps[|ps| - 1] == c then 1 else 0)
  }

  lemma {:induction false} CountAppend(a: seq<Rgb>, b: seq<Rgb>, c: Rgb)
    ensures Count(a + b, c) == Count(a, c) + Count(b, c)
    decreases |b|
  {
    if |b| == 0 {
      assert a + b == a;
    } else {
      assert (a + b)[..|a + b| - 1] == a + b[..|b| - 1];
      assert (a + b)[|a + b| - 1] == b[|b| - 1];
      CountAppend(a, b[..|b| - 1], c);
    }
  }

  lemma {:induction false} CountUniform(s: seq<Rgb>, v: Rgb, c: Rgb)
    requires forall i :: 0 <= i < |s| ==> s[i] == v
    ensures Count(s, c) == if v == c then |s| else 0
  {
    if |s| > 0 {
      CountUniform(s[..|s| - 1], v, c);
    }
  }

  /** A row's count is the sum over the margins, the two edge columns and
      the inside. */
  lemma RowSplit(r: seq<Rgb>, c: Rgb)
    requires |r| == IconSide
    ensures Count(r, c) == Count(r[..8], c) + Count(r[8..9], c) + Count(r[9..23], c)
                           + Count(r[23..24], c) + Count(r[24..], c)
  {
    var a, b, m, d, e := r[..8], r[8..9], r[9..23], r[23..24], r[24..];
    assert r == a + b + m + d + e;
    CountAppend(a, b, c);
    CountAppend(a + b, m, c);
    CountAppend(a + b + m, d, c);
    CountAppend(a + b + m + d, e, c);
  }

  /** Occurrences of colour c in row y, split at the square's edges. */
  lemma RowCount(y: int, fill: Rgb, c: Rgb)
    requires fill != White && fill != Black
    ensures Count(Row(y, fill), c) ==
      if !(8 <= y < 24) then (if c == Black then 32 else 0)
      else if y == 8 || y == 23 then (if c == White then 16 else if c == Black then 16 else 0)
      else (if c == White then 2 else if c == Black then 16 else if c == fill then 14 else 0)
  {
    var r := Row(y, fill);
    var a, b, m, d, e := r[..8], r[8..9], r[9..23], r[23..24], r[24..];
    RowSplit(r, c);
    CountUniform(a, Black, c);
    CountUniform(e, Black, c);
    if 8 <= y < 24 {
      CountUniform(b, White, c);
      CountUniform(d, White, c);
      if y == 8 || y == 23 {
        CountUniform(m, White, c);
      } else {
        CountUniform(m, fill, c);
      }
    } else {
      CountUniform(b, Black, c);
      CountUniform(d, Black, c);
      CountUniform(m, Black, c);
    }
  }

  /** Within the first n rows: white border pixels, fill pixels and
      transparent pixels. */
  lemma {:induction false} RowsCount(n: nat, fill: Rgb)
    requires n <= IconSide
    requires fill != White && fill != Black
    ensures Count(Rows(n, fill), White) ==
      (if n <= 8 then 0 else if n <= 23 then 16 + 2 * (n - 9) else 60)
    ensures Count(Rows(n, fill), fill) ==
      (if n <= 9 then 0 else if n <= 23 then 14 * (n - 9) else 196)
  {
    if n > 0 {
      CountAppend(Rows(n - 1, fill), Row(n - 1, fill), White);
      CountAppend(Rows(n - 1, fill), Row(n - 1, fill), fill);
      RowCount(n - 1, fill, White);
      RowCount(n - 1, fill, fill);
      RowsCount(n - 1, fill);
    }
  }

  /** Every square icon has 60 white border pixels and 196 fill pixels;
      the remaining 768 are black and therefore transparent. */
  lemma SquareIconCounts(fill: Rgb)
    requires fill != White && fill != Black
    ensures Count(SquareIcon(fill), White) == 60
    ensures Count(SquareIcon(fill), fill) == 196
  {
    RowsCount(IconSide, fill);
  }
}
