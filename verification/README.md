# x-viredero capture core, modelled in Dafny

x-viredero is a small X11 daemon. It listens for damage notifications on the
root window. For each damaged rectangle it fetches the pixels and hands them
to a writer. This project models the logic inside that loop that can be
stated without a display server:

- **The framed-stream writer** (`stdout_writer`) turns a region into a
  16-byte header and the payload bytes. The header holds x, y, width and
  height as 32-bit big-endian integers. There is no length prefix. The model
  has an encoder, a decoder for one record and a decoder for a whole stream
  (`Framed`).
- **The bitmap writer** (`bmp_writer`, `swap_lines`) writes one Windows
  bitmap file per region:
  - a packed 14-byte file header and a 40-byte information header. The C
    code writes the structs in host byte order; the model lays them out
    least significant byte first, as a little-endian host writes them
    (`Bmp`, `Bytes`);
  - the pixel block with its rows reversed in place by exclusive-or swaps.
    This is modelled both as a pure function and as an array method with loop
    invariants (`Rows`);
  - the file name `/tmp/imgs/w%0.6d.bmp` built from a counter (`Names`);
  - a counter that advances only when the file opens.
- **Startup** (`setup_dpy`) checks the display, the damage extension and the
  root geometry, in that order (`Display`).
- **One drained batch of events** (`main` and `output_damage`), in
  `Capture`:
  - only damage notifications about the root are forwarded, in arrival order;
  - each forwarded region is fetched and handed to the installed writer;
  - a failed fetch skips the region.

What the outside world answers is an input to the model:

- the display probe;
- the events of a batch;
- for each forwarded region, the image the server returns (or none) and
  whether `fopen` succeeds.

`output_damage` converts `x` with `htonl` before calling the writer, whatever
the writer is. The model keeps that conversion as an opaque function
parameter `hostToNet`. Each writer sees the converted value:

- the bitmap writer ignores position, so it makes no difference there;
- the framed-stream writer converts again, so a reader of its header gets
  `hostToNet(x)` back, not `x` (`Capture.StreamDecodes`).

Bytes are modelled as the integers 0..255 (`Bytes.byte`). Exclusive-or on
them is defined one binary digit at a time. C `int`s are the subset type
`i32`. They are reinterpreted as unsigned 32-bit values for the wire.

## Model

| member | source | states |
|---|---|---|
| `Bytes.ToUnsigned` | x-viredero/x-viredero.c:47-53 | a C `int` passed to `htonl` becomes the `uint32_t` congruent to it modulo 2^32, unchanged when non-negative |
| `Bytes.ToSigned` | x-viredero/x-viredero.c:46-54 | reading a 32-bit unsigned wire value back as a C `int` is the inverse of the two's-complement reinterpretation |
| `Bytes.SignedRoundTrip` | x-viredero/x-viredero.c:47-54 | a C `int` reinterpreted as unsigned and back is unchanged |
| `Bytes.BE32` | x-viredero/x-viredero.c:47-54 | the network-order bytes of a 32-bit value read back as that value, most significant byte first |
| `Bytes.BE32OfFromBE32` | x-viredero/x-viredero.c:47-54 | every four bytes are the network-order encoding of exactly one value |
| `Bytes.LE16` | x-viredero/x-viredero.c:64-84 | a packed 16-bit header field is two bytes, least significant first, that read back as the value |
| `Bytes.LE16OfFromLE16` | x-viredero/x-viredero.c:64-84 | every two bytes are the little-endian encoding of exactly one 16-bit value |
| `Bytes.LE32` | x-viredero/x-viredero.c:64-84 | a packed 32-bit header field is four bytes that read back as the value, and they are the network-order bytes reversed |
| `Bytes.LE32OfFromLE32` | x-viredero/x-viredero.c:64-84 | every four bytes are the little-endian encoding of exactly one 32-bit value |
| `Bytes.XorCancel` | x-viredero/x-viredero.c:89-91 | exclusive-or with the same value twice gives the original value |
| `Bytes.XorCommutes` | x-viredero/x-viredero.c:89-91 | exclusive-or does not depend on argument order |
| `Bytes.Xor` | x-viredero/x-viredero.c:89-91 | the C `^` on two bytes, computed one binary digit at a time; the result is a byte, and its cancellation and symmetry are stated by `Bytes.XorLaws` |
| `Bytes.XorLaws` | x-viredero/x-viredero.c:89-91 | on bytes, exclusive-or cancels and is symmetric |
| `Bytes.XorSwap` | x-viredero/x-viredero.c:89-91 | the three assignments `p ^= q; q ^= p; p ^= q` leave each cell holding the other's old value |
| `Framed.EncodeHeader` | x-viredero/x-viredero.c:47-54 | the header is 16 bytes: x, y, width and height, each as four network-order bytes; `Framed.DecodeEncodeHeader` and `Framed.EncodeDecodeHeader` make it a bijection |
| `Framed.DecodeEncodeHeader` | x-viredero/x-viredero.c:47-54 | decoding the 16 header bytes of a region gives back x, y, width and height |
| `Framed.EncodeDecodeHeader` | x-viredero/x-viredero.c:47-54 | every 16 bytes are the header of exactly one rectangle |
| `Framed.StdoutWriter` | x-viredero/x-viredero.c:44-56 | the bytes written for a region are 16 + size long; the first 16 decode to x, y, width and height in that order; the payload follows unchanged |
| `Framed.DecodeRecordOfEncode` | x-viredero/x-viredero.c:44-56 | a record whose payload is width * height * 4 bytes, followed by anything, is read back as that record and the rest |
| `Framed.EncodeStreamAppend` | x-viredero/x-viredero.c:44-56 | the stream of two runs of records is the first run's bytes followed by the second's |
| `Framed.StreamRoundTrip` | x-viredero/x-viredero.c:44-56 | a reader that knows payload = width * height * 4 recovers every record of a stream, in order |
| `Rows.OffsetIsProduct` | x-viredero/x-viredero.c:128-130 | row `i` of the pixel block starts at `i * byte_w` |
| `Rows.RowPair` | x-viredero/x-viredero.c:129-130 | rows `i` and `height-i-1` swapped by the loop are disjoint and lie inside the block |
| `Rows.MirrorInvolution` | x-viredero/x-viredero.c:129-130 | taking a byte from the mirrored row twice comes back to the same position |
| `Rows.ReverseRowsRow` | x-viredero/x-viredero.c:127-131 | after the row reversal, row `i` holds what row `height-1-i` held, byte by byte |
| `Rows.MiddleRowFixed` | x-viredero/x-viredero.c:129-130 | with an odd height the middle row is not moved |
| `Rows.ReverseRowsTwice` | x-viredero/x-viredero.c:127-131 | reversing the rows twice restores the buffer |
| `Rows.SwapLines` | x-viredero/x-viredero.c:86-93 | `swap_lines` on two disjoint lines exchanges their first `size` bytes and changes no other byte |
| `Rows.SwapLinesOf` | x-viredero/x-viredero.c:86-93 | `swap_lines` on a copy of a buffer returns it with the two lines exchanged and every other byte as it was |
| `Rows.SwapStep` | x-viredero/x-viredero.c:88-92 | one iteration of `swap_lines` extends the exchanged prefix of both lines by one byte |
| `Rows.FlipStep` | x-viredero/x-viredero.c:129-131 | one iteration of the row loop puts one more row at each end in its mirrored place and leaves the rest |
| `Rows.FlippedAll` | x-viredero/x-viredero.c:129-131 | once the loop has handled `height / 2` rows, the block is exactly the row-reversed original |
| `Rows.ReverseRows` | x-viredero/x-viredero.c:127-131 | the block with its first `height` rows in reverse order; same length; bytes past the block unchanged; row-by-row meaning in `Rows.ReverseRowsRow` |
| `Rows.ReverseRowsPrefix` | x-viredero/x-viredero.c:127-132 | flipping the buffer and then writing its first `4 * width * height` bytes gives the same bytes as flipping just that block |
| `Rows.FlipRows` | x-viredero/x-viredero.c:127-131 | the in-place row loop leaves the array equal to the row-reversed original, bytes past the block untouched |
| `Rows.FlipRowsOf` | x-viredero/x-viredero.c:127-131 | the row loop run on a copy of a pixel block returns the block with rows `i` and `height-1-i` exchanged for every `i` |
| `Names.Digits` | x-viredero/x-viredero.c:121 | the decimal digits of `n` denote `n`, and have no leading zero except for 0 itself |
| `Names.Padded` | x-viredero/x-viredero.c:121 | `%0.6d` gives at least six digits, padded with zeros on the left, that denote `n`; longer numbers get no leading zero |
| `Names.PaddedOfValue` | x-viredero/x-viredero.c:121 | any non-empty digit string is the padded representation of its own value at its own width |
| `Names.FileName` | x-viredero/x-viredero.c:59 | a name is `/tmp/imgs/w`, the counter's digits, then `.bmp` |
| `Names.FileNameParse` | x-viredero/x-viredero.c:121 | a string parses to counter `n` exactly when it is the name formatted for `n` |
| `Names.FileNameParses` | x-viredero/x-viredero.c:121 | the name formatted for `n` parses back to `n` |
| `Names.ParsedIsFileName` | x-viredero/x-viredero.c:121 | a string that parses to `n` is the name formatted for `n` |
| `Names.FileNameInjective` | x-viredero/x-viredero.c:121-134 | different counter values give different file names, so no file overwrites another |
| `Names.FileNameLength` | x-viredero/x-viredero.c:59 | below one million the name is exactly 21 characters: six digits |
| `Names.FileNameFitsBuffer` | x-viredero/x-viredero.c:61 | the name for any non-negative C `int` counter, with its terminator, fits the 64-byte buffer |
| `Bmp.SerializeFileHeader` | x-viredero/x-viredero.c:64-70 | the packed file header is 14 bytes |
| `Bmp.ParseSerializeFileHeader` | x-viredero/x-viredero.c:64-70 | a serialised file header reads back field for field |
| `Bmp.SerializeParseFileHeader` | x-viredero/x-viredero.c:64-70 | every 14 bytes are the layout of exactly one file header |
| `Bmp.SerializeInfoHeader` | x-viredero/x-viredero.c:72-84 | the packed information header is 40 bytes |
| `Bmp.ParseSerializeInfoHeader` | x-viredero/x-viredero.c:72-84 | a serialised information header reads back field for field |
| `Bmp.SerializeParseInfoHeader` | x-viredero/x-viredero.c:72-84 | every 40 bytes are the layout of exactly one information header |
| `Bmp.FileHeaderFor` | x-viredero/x-viredero.c:102-107 | the file header's bytes start with `BM`; the pixel offset is the packed size of both headers; the recorded file size is that offset plus `4 * width * height` |
| `Bmp.InfoHeaderFor` | x-viredero/x-viredero.c:109-119 | the information header records its own packed size and the width and height; its image size is exactly `biBitCount` bits per pixel of that area |
| `Bmp.BmpWrite` | x-viredero/x-viredero.c:121-134 | if the open fails, nothing is written and the counter and the pixel block are unchanged; otherwise the counter goes up by one and the file is named after the old counter, 54 + 4 * width * height bytes long |
| `Bmp.WrittenHeaders` | x-viredero/x-viredero.c:102-119 | the written headers read back as `BM`, file size = file length, pixel offset 54, reserved 0; info size 40, the width and height, 1 plane, 32 bits, no compression, image size = bytes after the offset, other fields 0 |
| `Bmp.WrittenImage` | x-viredero/x-viredero.c:102-132 | a written file holds the image it was given: 54 + `4 * width * height` bytes, headers that read back as those of a `width` by `height` image, then the block's rows bottom row first |
| `Bmp.WrittenPixels` | x-viredero/x-viredero.c:125-132 | from offset 54 the file holds the flipped block, and stored row `i` is row `height-1-i` of the block given |
| `Bmp.WrittenPixelsReadBack` | x-viredero/x-viredero.c:127-132 | flipping the stored pixels back recovers the block given, and flipping the block left with the caller restores it |
| `Bmp.IgnoresPositionAndSize` | x-viredero/x-viredero.c:95-132 | the writer's result does not depend on x, y or the `size` argument |
| `Bmp.FourByTwoFileHeader` | x-viredero/x-viredero.c:102-107 | the file header of a 4 by 2 image is the bytes `42 4D 56 00 00 00 00 00 00 00 36 00 00 00` |
| `Bmp.FourByTwoExample` | x-viredero/x-viredero.c:102-132 | a 4 by 2 region gives an 86-byte file with that file header |
| `Bmp.BmpWriteInPlace` | x-viredero/x-viredero.c:95-135 | the in-place writer, flipping the caller's array only after the open succeeds, agrees with the pure writer |
| `Bmp.BmpWriteBuffer` | x-viredero/x-viredero.c:121-135 | the in-place writer run on a copy of the pixel block leaves the same counter, block and file as the pure writer |
| `Display.Setup` | x-viredero/x-viredero.c:142-175 | damage tracking is requested exactly when the display opened and the extension exists; a successful setup installs the bitmap writer with counter 0 |
| `Display.SetupSucceedsIff` | x-viredero/x-viredero.c:142-175 | setup succeeds exactly when the display opens, the extension exists and the root has non-zero width and height; the session then holds the root and the damage event base |
| `Display.SetupFirstFailure` | x-viredero/x-viredero.c:143-166 | a failed setup reports the first failed check: display, then extension, then geometry |
| `Display.GeometryFailureAfterTracking` | x-viredero/x-viredero.c:154-166 | a root of zero width or height fails setup after damage tracking was already requested |
| `Capture.Forwarded` | x-viredero/x-viredero.c:204-206 | an event is forwarded when its type is the damage event base plus `XDamageNotify` and its drawable is the root |
| `Capture.Dispatched` | x-viredero/x-viredero.c:202-211 | a batch forwards at most one region per event |
| `Capture.MatchIndices` | x-viredero/x-viredero.c:202-211 | the forwarded positions are increasing, in range, and include a position exactly when its event has the damage type and concerns the root |
| `Capture.DispatchedExactly` | x-viredero/x-viredero.c:202-211 | the forwarded regions are the areas of exactly the matching events, one for one, in arrival order |
| `Capture.DispatchedAppend` | x-viredero/x-viredero.c:202-211 | filtering a batch split anywhere gives the two halves' regions, concatenated |
| `Capture.MixedBatch` | x-viredero/x-viredero.c:202-211 | damage to another window and a non-damage event on the root are dropped; the three root regions pass in order |
| `Capture.RequestSize` | x-viredero/x-viredero.c:188 | the `size` argument, `width * height * bits_per_pixel / 8`, is never negative for a non-negative area |
| `Capture.SendRegion` | x-viredero/x-viredero.c:186-188 | the framed-stream writer appends one record for the region, with the converted x, 16 + size bytes long |
| `Capture.StoreRegion` | x-viredero/x-viredero.c:186-188 | the bitmap writer adds one file named after the counter and advances it when the file opens, and changes nothing otherwise |
| `Capture.StoredImage` | x-viredero/x-viredero.c:186-188 | the file the bitmap writer adds for a region holds that region's image: its length, its headers for `width` by `height`, and the fetched rows bottom row first |
| `Capture.OutputDamage` | x-viredero/x-viredero.c:177-189 | a failed fetch changes nothing; the framed-stream writer appends exactly the region's record with the converted x; the bitmap writer changes nothing when the file does not open; the session and the kind of writer are always kept |
| `Capture.ImageStep` | x-viredero/x-viredero.c:177-189 | one region output to the bitmap writer adds its image as the next file exactly when the fetch succeeds and the file opens |
| `Capture.Deliver` | x-viredero/x-viredero.c:207-209 | outputting a batch's regions one after another keeps the session and the kind of writer; what each writer gains is stated by `Capture.BitmapNumbering`, `Capture.BitmapImages` and `Capture.StreamSent` |
| `Capture.BitmapNumbering` | x-viredero/x-viredero.c:207-209 | over a batch the counter and the file list grow by the number of fetched regions whose file opened; earlier files stay; the new files are named after consecutive counter values |
| `Capture.BitmapImages` | x-viredero/x-viredero.c:207-209 | over a batch, the `k`-th new file holds the image of the `k`-th region whose fetch succeeded and whose file opened |
| `Capture.StreamSent` | x-viredero/x-viredero.c:207-209 | over a batch the framed-stream writer appends the encoding of one record per fetched region, in order |
| `Capture.StreamDecodes` | x-viredero/x-viredero.c:186-188 | with 32-bit images a reader of the bytes a batch adds recovers every record, each carrying the converted x |
| `Capture.DrainBatch` | x-viredero/x-viredero.c:202-212 | reading a batch event by event and outputting each forwarded region as it comes equals outputting the filtered regions in order |
| `Capture.DrainForward` | x-viredero/x-viredero.c:204-210 | a forwarded event is the next filtered region and is output with the next answer |
| `Capture.FirstBatchNames` | x-viredero/x-viredero.c:58-60 | after a successful setup the first batch's files are named after counters 0, 1, 2, ... one per file written |

## Left out

- The X11 calls (`XOpenDisplay`, `XDamageQueryExtension`, `XDamageCreate`, `XGetWindowAttributes`, `XGetImage`, `XPending`, `XNextEvent`) are foreign calls. Their answers are inputs: `Display.Probe`, the event sequence, and `Capture.Response`.
- Server grabbing and `usleep` are concurrency and timing, with nothing to state about them.
- The endless outer loop of `main` is left out; one drained batch is modelled.
- `fopen`, `fwrite`, `fclose` and `write` are file I/O. File-open success is a boolean input. Written data is a byte sequence. Short writes are not modelled.
- `usage`, `printf` and `fprintf` only print diagnostics.
- The `malloc(64)` name buffer is not modelled. `Names.FileNameFitsBuffer` shows that the name always fits.
- The file descriptor in `writer_private` is not modelled. The framed-stream writer's state is the bytes it has sent.
- The missing `return` values of the `int` functions are undefined behaviour in C and are not modelled.
- `htonl` on `x` at line 186 has no fixed meaning here: it depends on the host's byte order, so it is the parameter `hostToNet`.
- `main` ignores the result of `setup_dpy` and enters the loop even after a failed startup, with an unset display. The batch lemmas start from a context, and `Capture.FirstBatchNames` starts from a successful `Display.Setup`. Running on after a failed startup is not modelled.
- `setup_dpy` always installs the bitmap writer, so nothing in the program installs `stdout_writer`. The model still covers it as `Display.StreamWriter`, as if it were installed.
- 32-bit overflow is not modelled. `Bmp.Representable` and `Capture.Serviceable` require `width * height * 4` (and `width * height * bits_per_pixel`) to fit a C `int`.
- Negative widths and heights are not modelled. The server never reports them, and the writers would read out of bounds on them.
- Bmp.BmpWrite requires at least `4 * width * height` bytes of data. The C code reads that many bytes whatever `size` says, so a shorter image would be read out of bounds.
- Capture.StreamDecodes requires 32-bit images. With other depths the header no longer determines the payload length, so a reader cannot delimit records. The model records the bytes anyway (`Capture.StreamSent`).
- The row padding of the `XImage` (`bytes_per_line`) is not modelled. The image data is taken to be rows of exactly `4 * width` bytes.
- Rows.SwapLines requires the two lines not to overlap. On a shared byte the exclusive-or exchange would clear it, and the row loop never passes overlapping lines.
- The bitmap headers are laid out for a little-endian host. The C code writes the packed structs in host byte order, so on a big-endian host every multi-byte header field is written most significant byte first.
- Bytes are the integers 0..255, not machine bit-vectors. Exclusive-or is defined arithmetically, one binary digit at a time, and the C `char` sign does not affect it.
