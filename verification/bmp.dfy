/**
 * The bitmap sink (`bmp_writer`): every region becomes one Windows bitmap
 * file named after the sink's counter. The file is a 14-byte file header and
 * a 40-byte information header, both packed structs laid out least
 * significant byte first as a little-endian host writes them, followed by
 * the pixel block with its rows put bottom row first. The counter advances only when the file could be opened;
 * when it cannot, nothing is written and the pixel block is left as it was.
 */
module Bmp {
  import opened Optional
  import opened Bytes
  import opened Regions
  import opened Rows
  import opened Names

  /** `sizeof(struct bm_head)`: 2 + 4 + 2 + 2 + 4 packed bytes. */
  const FileHeaderBytes: nat := 14
  /** `sizeof(struct bm_info_head)`: nine 4-byte and two 2-byte packed fields. */
  const InfoHeaderBytes: nat := 40
  /** Where the pixel block starts: both headers. */
  const PixelDataOffset: nat := FileHeaderBytes + InfoHeaderBytes
  /** The two characters `BM` read as a little-endian 16-bit value. */
  const Signature: u16 := 0x4D42
  const BitsPerPixel: u16 := 32

  datatype FileHeader = FileHeader(
    bfType: u16, bfSize: u32, bfReserved1: u16, bfReserved2: u16, bfOffBits: u32)

  datatype InfoHeader = InfoHeader(
    biSize: u32, biWidth: u32, biHeight: u32, biPlanes: u16, biBitCount: u16,
    biCompression: u32, biSizeImage: u32, biXPelsPerMeter: u32, biYPelsPerMeter: u32,
    biClrUsed: u32, biClrImportant: u32)

  // ------------------------------------------------------------ header layout

  /** The bytes of the packed file header. */
  function SerializeFileHeader(h: FileHeader): (s: seq<byte>)
    ensures |s| == FileHeaderBytes
  {
    LE16(h.bfType) + LE32(h.bfSize) + LE16(h.bfReserved1) + LE16(h.bfReserved2)
      + LE32(h.bfOffBits)
  }

  /** Reads a packed file header. */
  function ParseFileHeader(s: seq<byte>): FileHeader
    requires |s| == FileHeaderBytes
  {
    FileHeader(FromLE16(s[0..2]), FromLE32(s[2..6]), FromLE16(s[6..8]),
               FromLE16(s[8..10]), FromLE32(s[10..14]))
  }

  /** A serialised file header reads back as itself. */
  lemma ParseSerializeFileHeader(h: FileHeader)
    ensures ParseFileHeader(SerializeFileHeader(h)) == h
  {
    var s := SerializeFileHeader(h);
    assert s[0..2] == LE16(h.bfType);
    assert s[2..6] == LE32(h.bfSize);
    assert s[6..8] == LE16(h.bfReserved1);
    assert s[8..10] == LE16(h.bfReserved2);
    assert s[10..14] == LE32(h.bfOffBits);
  }

  /** Every 14 bytes are the layout of exactly one file header. */
  lemma SerializeParseFileHeader(s: seq<byte>)
    requires |s| == FileHeaderBytes
    ensures SerializeFileHeader(ParseFileHeader(s)) == s
  {
    LE16OfFromLE16(s[0..2]);
    LE32OfFromLE32(s[2..6]);
    LE16OfFromLE16(s[6..8]);
    LE16OfFromLE16(s[8..10]);
    LE32OfFromLE32(s[10..14]);
    assert s == s[0..2] + s[2..6] + s[6..8] + s[8..10] + s[10..14];
  }

  /** The bytes of the packed information header. */
  function SerializeInfoHeader(h: InfoHeader): (s: seq<byte>)
    ensures |s| == InfoHeaderBytes
  {
    LE32(h.biSize) + LE32(h.biWidth) + LE32(h.biHeight) + LE16(h.biPlanes)
      + LE16(h.biBitCount) + LE32(h.biCompression) + LE32(h.biSizeImage)
      + LE32(h.biXPelsPerMeter) + LE32(h.biYPelsPerMeter) + LE32(h.biClrUsed)
      + LE32(h.biClrImportant)
  }

  /** Reads a packed information header. */
  function ParseInfoHeader(s: seq<byte>): InfoHeader
    requires |s| == InfoHeaderBytes
  {
    InfoHeader(FromLE32(s[0..4]), FromLE32(s[4..8]), FromLE32(s[8..12]),
               FromLE16(s[12..14]), FromLE16(s[14..16]), FromLE32(s[16..20]),
               FromLE32(s[20..24]), FromLE32(s[24..28]), FromLE32(s[28..32]),
               FromLE32(s[32..36]), FromLE32(s[36..40]))
  }

  /** A serialised information header reads back as itself. */
  lemma ParseSerializeInfoHeader(h: InfoHeader)
    ensures ParseInfoHeader(SerializeInfoHeader(h)) == h
  {
    var s := SerializeInfoHeader(h);
    assert s[0..4] == LE32(h.biSize);
    assert s[4..8] == LE32(h.biWidth);
    assert s[8..12] == LE32(h.biHeight);
    assert s[12..14] == LE16(h.biPlanes);
    assert s[14..16] == LE16(h.biBitCount);
    assert s[16..20] == LE32(h.biCompression);
    assert s[20..24] == LE32(h.biSizeImage);
    assert s[24..28] == LE32(h.biXPelsPerMeter);
    assert s[28..32] == LE32(h.biYPelsPerMeter);
    assert s[32..36] == LE32(h.biClrUsed);
    assert s[36..40] == LE32(h.biClrImportant);
  }

  /** Every 40 bytes are the layout of exactly one information header. */
  lemma SerializeParseInfoHeader(s: seq<byte>)
    requires |s| == InfoHeaderBytes
    ensures SerializeInfoHeader(ParseInfoHeader(s)) == s
  {
    LE32OfFromLE32(s[0..4]);
    LE32OfFromLE32(s[4..8]);
    LE32OfFromLE32(s[8..12]);
    LE16OfFromLE16(s[12..14]);
    LE16OfFromLE16(s[14..16]);
    LE32OfFromLE32(s[16..20]);
    LE32OfFromLE32(s[20..24]);
    LE32OfFromLE32(s[24..28]);
    LE32OfFromLE32(s[28..32]);
    LE32OfFromLE32(s[32..36]);
    LE32OfFromLE32(s[36..40]);
    assert s == s[0..4] + s[4..8] + s[8..12] + s[12..14] + s[14..16] + s[16..20]
              + s[20..24] + s[24..28] + s[28..32] + s[32..36] + s[36..40];
  }

  // ------------------------------------------------------------- the writer

  /**
   * Dimensions the writer handles without overflowing a C `int`: both
   * non-negative and the pixel block size `width * height * 4` below 2^31.
   */
  predicate Representable(width: i32, height: i32)
  {
    0 <= width && 0 <= height && PixelBytes(width, height) < 0x8000_0000
  }

  /**
   * The file header `bmp_writer` fills in for a `width` by `height` image: it
   * starts with the characters `BM`, the pixels start right after both packed
   * headers, and the recorded file size counts the headers and the pixels.
   */
  function FileHeaderFor(width: i32, height: i32): (h: FileHeader)
    requires Representable(width, height)
    ensures SerializeFileHeader(h)[..2] == [0x42, 0x4D]
    ensures h.bfOffBits == |SerializeFileHeader(h)| + |SerializeInfoHeader(InfoHeaderFor(width, height))|
    ensures h.bfSize == h.bfOffBits + PixelBytes(width, height)
  {
    FileHeader(Signature, PixelDataOffset + PixelBytes(width, height), 0, 0, PixelDataOffset)
  }

  /**
   * The information header `bmp_writer` fills in for a `width` by `height`
   * image: it records its own packed size, the image's dimensions, and an
   * image size of exactly `biBitCount` bits per pixel.
   */
  function InfoHeaderFor(width: i32, height: i32): (h: InfoHeader)
    requires Representable(width, height)
    ensures h.biSize == |SerializeInfoHeader(h)|
    ensures h.biWidth == width && h.biHeight == height
    ensures h.biSizeImage * 8 == h.biWidth * h.biHeight * h.biBitCount
  {
    var area := width * height;
    assert PixelBytes(width, height) * 8 == area * 32 by {
      assert PixelBytes(width, height) == 4 * area;
    }
    InfoHeader(InfoHeaderBytes, width, height, 1, BitsPerPixel, 0,
               PixelBytes(width, height), 0, 0, 0, 0)
  }

  /** The sink's state: the number the next file is named after. */
  datatype BmpSink = BmpSink(num: nat)

  /** `bmp_writer_init`: numbering starts at zero. */
  const InitialSink: BmpSink := BmpSink(0)

  datatype File = File(name: string, contents: seq<byte>)

  /**
   * What one call leaves behind: the sink's new state, the caller's pixel
   * block (the writer flips it in place) and the file written, if any.
   */
  datatype WriteOutcome = WriteOutcome(sink: BmpSink, data: seq<byte>, file: Option<File>)

  /**
   * `bmp_writer`, given whether `fopen` succeeded. The position and the
   * `size` argument are accepted and ignored: the pixel bytes written are
   * always `width * height * 4`, taken from the flipped block.
   */
  function BmpWrite(sink: BmpSink, x: i32, y: i32, width: i32, height: i32,
                    data: seq<byte>, size: int, openOk: bool): (o: WriteOutcome)
    requires Representable(width, height)
    requires PixelBytes(width, height) <= |data|
    ensures |o.data| == |data|
    ensures !openOk ==> o == WriteOutcome(sink, data, None)
    ensures openOk ==> o.sink.num == sink.num + 1 && o.file.Some?
                       && o.file.value.name == FileName(sink.num)
                       && |o.file.value.contents| == PixelDataOffset + PixelBytes(width, height)
  {
    if !openOk then WriteOutcome(sink, data, None)
    else
      var pixels := ReverseRows(data, BytesPerPixel * width, height);
      var contents := SerializeFileHeader(FileHeaderFor(width, height))
                      + SerializeInfoHeader(InfoHeaderFor(width, height))
                      + pixels[..PixelBytes(width, height)];
      WriteOutcome(BmpSink(sink.num + 1), pixels, Some(File(FileName(sink.num), contents)))
  }

  /**
   * The headers of a written file describe the file itself: the signature is
   * `BM`, the recorded file size is the length of the file, the recorded pixel
   * offset is where the pixels start and the recorded image size is the number
   * of bytes from there to the end; the image is `width` by `height` at 32 bits
   * per pixel, in one uncompressed plane, with every other field zero.
   */
  lemma WrittenHeaders(sink: BmpSink, x: i32, y: i32, width: i32, height: i32,
                       data: seq<byte>, size: int)
    requires Representable(width, height)
    requires PixelBytes(width, height) <= |data|
    ensures var f := BmpWrite(sink, x, y, width, height, data, size, true).file.value.contents;
            var fh := ParseFileHeader(f[..FileHeaderBytes]);
            var ih := ParseInfoHeader(f[FileHeaderBytes..PixelDataOffset]);
            && fh.bfType == Signature && fh.bfReserved1 == 0 && fh.bfReserved2 == 0
            && fh.bfSize == |f| && fh.bfOffBits == PixelDataOffset
            && ih.biSize == InfoHeaderBytes && ih.biWidth == width && ih.biHeight == height
            && ih.biPlanes == 1 && ih.biBitCount == 32 && ih.biCompression == 0
            && ih.biSizeImage == |f| - fh.bfOffBits
            && ih.biXPelsPerMeter == 0 && ih.biYPelsPerMeter == 0
            && ih.biClrUsed == 0 && ih.biClrImportant == 0
  {
    var f := BmpWrite(sink, x, y, width, height, data, size, true).file.value.contents;
    var fs := SerializeFileHeader(FileHeaderFor(width, height));
    var ih := SerializeInfoHeader(InfoHeaderFor(width, height));
    assert f[..FileHeaderBytes] == fs;
    assert f[FileHeaderBytes..PixelDataOffset] == ih;
    ParseSerializeFileHeader(FileHeaderFor(width, height));
    ParseSerializeInfoHeader(InfoHeaderFor(width, height));
  }

  /**
   * `contents` is the bitmap of the `width` by `height` block at the start of
   * `data`: as long as both headers and the block, headers that describe
   * exactly that image, and the block's rows stored bottom row first.
   */
  predicate HoldsImage(contents: seq<byte>, width: i32, height: i32, data: seq<byte>)
  {
    && Representable(width, height) && PixelBytes(width, height) <= |data|
    && |contents| == PixelDataOffset + PixelBytes(width, height)
    && ParseFileHeader(contents[..FileHeaderBytes]) == FileHeaderFor(width, height)
    && ParseInfoHeader(contents[FileHeaderBytes..PixelDataOffset]) == InfoHeaderFor(width, height)
    && contents[PixelDataOffset..]
       == ReverseRows(data, BytesPerPixel * width, height)[..PixelBytes(width, height)]
  }

  /** The file the writer produces holds the image of the block it was given. */
  lemma WrittenImage(sink: BmpSink, x: i32, y: i32, width: i32, height: i32,
                     data: seq<byte>, size: int)
    requires Representable(width, height)
    requires PixelBytes(width, height) <= |data|
    ensures HoldsImage(BmpWrite(sink, x, y, width, height, data, size, true).file.value.contents,
                       width, height, data)
  {
    var f := BmpWrite(sink, x, y, width, height, data, size, true).file.value.contents;
    assert f[..FileHeaderBytes] == SerializeFileHeader(FileHeaderFor(width, height));
    assert f[FileHeaderBytes..PixelDataOffset] == SerializeInfoHeader(InfoHeaderFor(width, height));
    ParseSerializeFileHeader(FileHeaderFor(width, height));
    ParseSerializeInfoHeader(InfoHeaderFor(width, height));
  }

  /**
   * The pixels of a written file, from the recorded pixel offset on, hold the
   * caller's block bottom row first: stored row `row` is row
   * `height - 1 - row` of the block the writer was given, and the block left
   * with the caller is exactly the stored one.
   */
  lemma WrittenPixels(sink: BmpSink, x: i32, y: i32, width: i32, height: i32,
                      data: seq<byte>, size: int, row: nat, col: nat)
    requires Representable(width, height)
    requires PixelBytes(width, height) <= |data|
    requires row < height && col < BytesPerPixel * width
    ensures var o := BmpWrite(sink, x, y, width, height, data, size, true);
            var f := o.file.value.contents;
            && f[PixelDataOffset..] == o.data[..PixelBytes(width, height)]
            && PixelDataOffset + Idx(row, col, BytesPerPixel * width) < |f|
            && Idx(height - 1 - row, col, BytesPerPixel * width) < |data|
            && f[PixelDataOffset + Idx(row, col, BytesPerPixel * width)]
               == data[Idx(height - 1 - row, col, BytesPerPixel * width)]
  {
    var rowLen := BytesPerPixel * width;
    assert rowLen * height == PixelBytes(width, height);
    ReverseRowsRow(data, rowLen, height, row, col);
  }

  /**
   * A reader that flips the stored pixels back recovers the block the writer
   * was given, and the writer leaves the caller a block that flipping again
   * restores.
   */
  lemma WrittenPixelsReadBack(sink: BmpSink, x: i32, y: i32, width: i32, height: i32,
                              data: seq<byte>, size: int)
    requires Representable(width, height)
    requires PixelBytes(width, height) <= |data|
    ensures var o := BmpWrite(sink, x, y, width, height, data, size, true);
            var f := o.file.value.contents;
            && ReverseRows(f[PixelDataOffset..], BytesPerPixel * width, height)
               == data[..PixelBytes(width, height)]
            && ReverseRows(o.data, BytesPerPixel * width, height) == data
  {
    var rowLen := BytesPerPixel * width;
    var n := PixelBytes(width, height);
    assert rowLen * height == n;
    ReverseRowsTwice(data, rowLen, height);
    ReverseRowsTwice(data[..n], rowLen, height);
    var o := BmpWrite(sink, x, y, width, height, data, size, true);
    ReverseRowsPrefix(data, rowLen, height);
    assert o.file.value.contents[PixelDataOffset..] == o.data[..n];
  }

  /** Neither the position nor the `size` argument affects what the writer does. */
  lemma IgnoresPositionAndSize(sink: BmpSink, x: i32, y: i32, x': i32, y': i32,
                               width: i32, height: i32, data: seq<byte>,
                               size: int, size': int, openOk: bool)
    requires Representable(width, height)
    requires PixelBytes(width, height) <= |data|
    ensures BmpWrite(sink, x, y, width, height, data, size, openOk)
         == BmpWrite(sink, x', y', width, height, data, size', openOk)
  {
  }

  /**
   * A 4 by 2 image: the file is 86 bytes and its file header reads `BM`, the
   * size 86 and the pixel offset 54, each least significant byte first.
   */
  lemma FourByTwoExample(sink: BmpSink, data: seq<byte>)
    requires |data| == 32
    ensures var f := BmpWrite(sink, 0, 0, 4, 2, data, 32, true).file.value.contents;
            && |f| == 86
            && f[..FileHeaderBytes] == [0x42, 0x4D, 86, 0, 0, 0, 0, 0, 0, 0, 54, 0, 0, 0]
  {
    assert PixelBytes(4, 2) == 32;
    var f := BmpWrite(sink, 0, 0, 4, 2, data, 32, true).file.value.contents;
    assert f[..FileHeaderBytes] == SerializeFileHeader(FileHeaderFor(4, 2));
    FourByTwoFileHeader();
  }

  /** The file header of a 4 by 2 bitmap: signature "BM", 86 bytes in all, pixels at 54. */
  lemma FourByTwoFileHeader()
    ensures SerializeFileHeader(FileHeaderFor(4, 2)) == [0x42, 0x4D, 86, 0, 0, 0, 0, 0, 0, 0, 54, 0, 0, 0]
  {
    assert FileHeaderFor(4, 2) == FileHeader(0x4D42, 86, 0, 0, 54);
    assert LE16(0x4D42) == [0x42, 0x4D];
    assert LE32(86) == [86, 0, 0, 0];
    assert LE16(0) == [0, 0];
    assert LE32(54) == [54, 0, 0, 0];
  }

  /**
   * The writer run in place on the caller's pixel buffer, as the C code does:
   * the rows are flipped only after the file has been opened.
   */
  method BmpWriteInPlace(sink: BmpSink, x: i32, y: i32, width: i32, height: i32,
                         a: array<byte>, size: int, openOk: bool)
    returns (sink': BmpSink, file: Option<File>)
    requires Representable(width, height)
    requires PixelBytes(width, height) <= a.Length
    modifies a
    ensures var o := BmpWrite(sink, x, y, width, height, old(a[..]), size, openOk);
            sink' == o.sink && file == o.file && a[..] == o.data
  {
    if !openOk {
      return sink, None;
    }
    var fileHeader := SerializeFileHeader(FileHeaderFor(width, height));
    var infoHeader := SerializeInfoHeader(InfoHeaderFor(width, height));
    FlipRows(a, width, height);
    var contents := fileHeader + infoHeader + a[..PixelBytes(width, height)];
    sink' := BmpSink(sink.num + 1);
    file := Some(File(FileName(sink.num), contents));
  }

  /**
   * The in-place writer run on a fresh copy of the caller's pixel block: the
   * counter, the block left behind and the file agree with `BmpWrite`.
   */
  method BmpWriteBuffer(sink: BmpSink, x: i32, y: i32, width: i32, height: i32,
                        data: seq<byte>, size: int, openOk: bool)
    returns (sink': BmpSink, data': seq<byte>, file: Option<File>)
    requires Representable(width, height)
    requires PixelBytes(width, height) <= |data|
    ensures WriteOutcome(sink', data', file) == BmpWrite(sink, x, y, width, height, data, size, openOk)
  {
    var a := new byte[|data|](k requires 0 <= k < |data| => data[k]);
    assert a[..] == data;
    sink', file := BmpWriteInPlace(sink, x, y, width, height, a, size, openOk);
    data' := a[..];
  }
}
