/**
 * The capture loop (`main` and `output_damage`), one drained batch at a
 * time. Of the events in a batch only damage notifications about the root
 * window are forwarded, in the order they arrived. For each forwarded region
 * the daemon fetches the root's pixels there and hands them to the installed
 * writer; a fetch that fails skips the region. Before the call the `x`
 * coordinate is put through `htonl`, whatever the writer is, so the writer
 * sees the converted value; that conversion is a parameter here.
 */
module Capture {
  import opened Optional
  import opened Bytes
  import opened Regions
  import opened Framed
  import opened Names
  import opened Bmp
  import opened Display

  /** The damage extension's notify event, at offset 0 from the extension's event base. */
  const XDamageNotify: int := 0

  /** An event as the loop reads it: its type, the drawable it concerns and, for damage, the area. */
  datatype Event = Event(kind: int, drawable: nat, area: Rect)

  /** The loop forwards an event when it is damage to the root window. */
  predicate Forwarded(session: Session, e: Event)
  {
    e.kind == session.damageBase + XDamageNotify && e.drawable == session.root
  }

  // --------------------------------------------------------------- filtering

  /** The regions the loop forwards from a batch, in arrival order. */
  function Dispatched(session: Session, events: seq<Event>): (rects: seq<Rect>)
    ensures |rects| <= |events|
    decreases |events|
  {
    if |events| == 0 then []
    else
      var n := |events| - 1;
      Dispatched(session, events[..n])
        + (if Forwarded(session, events[n]) then [events[n].area] else [])
  }

  /**
   * The positions of the forwarded events: strictly increasing, and a
   * position is listed exactly when the event there is forwarded.
   */
  function MatchIndices(session: Session, events: seq<Event>): (idx: seq<nat>)
    ensures forall j :: 0 <= j < |idx| ==> idx[j] < |events|
    ensures forall j, k :: 0 <= j < k < |idx| ==> idx[j] < idx[k]
    ensures forall i :: 0 <= i < |events| ==> (i in idx <==> Forwarded(session, events[i]))
    decreases |events|
  {
    if |events| == 0 then []
    else
      var n := |events| - 1;
      var front := MatchIndices(session, events[..n]);
      assert forall i :: 0 <= i < n ==> events[..n][i] == events[i];
      front + (if Forwarded(session, events[n]) then [n] else [])
  }

  /**
   * The forwarded regions are the areas of the forwarded events, one for one
   * and in the same order: nothing forwarded is dropped, nothing else is
   * let through.
   */
  lemma {:induction false} DispatchedExactly(session: Session, events: seq<Event>)
    ensures |Dispatched(session, events)| == |MatchIndices(session, events)|
    ensures forall j :: 0 <= j < |Dispatched(session, events)| ==>
              Dispatched(session, events)[j] == events[MatchIndices(session, events)[j]].area
    decreases |events|
  {
    if |events| > 0 {
      var n := |events| - 1;
      DispatchedExactly(session, events[..n]);
      var front := MatchIndices(session, events[..n]);
      forall j | 0 <= j < |front|
        ensures events[..n][front[j]] == events[front[j]]
      {
      }
    }
  }

  /** A batch split anywhere is filtered piece by piece. */
  lemma {:induction false} DispatchedAppend(session: Session, a: seq<Event>, b: seq<Event>)
    ensures Dispatched(session, a + b) == Dispatched(session, a) + Dispatched(session, b)
    decreases |b|
  {
    if |b| == 0 {
      assert a + b == a;
    } else {
      var n := |b| - 1;
      assert (a + b)[..|a + b| - 1] == a + b[..n];
      DispatchedAppend(session, a, b[..n]);
    }
  }

  /**
   * Damage to the root, damage to another window, damage to the root, an
   * event of another type on the root, damage to the root: the three root
   * regions are forwarded, in that order.
   */
  lemma MixedBatch(session: Session, r1: Rect, r2: Rect, r3: Rect, other: nat, area: Rect)
    requires other != session.root
    ensures var damage := session.damageBase + XDamageNotify;
            Dispatched(session, [Event(damage, session.root, r1), Event(damage, other, area),
                                 Event(damage, session.root, r2), Event(damage + 1, session.root, area),
                                 Event(damage, session.root, r3)])
            == [r1, r2, r3]
  {
    var damage := session.damageBase + XDamageNotify;
    var events := [Event(damage, session.root, r1), Event(damage, other, area),
                   Event(damage, session.root, r2), Event(damage + 1, session.root, area),
                   Event(damage, session.root, r3)];
    assert Dispatched(session, events[..0]) == [] by { assert events[..0] == []; }
    assert Dispatched(session, events[..1]) == [r1] by { DispatchedStep(session, events, 0); }
    assert Dispatched(session, events[..2]) == [r1] by { DispatchedStep(session, events, 1); }
    assert Dispatched(session, events[..3]) == [r1, r2] by { DispatchedStep(session, events, 2); }
    assert Dispatched(session, events[..4]) == [r1, r2] by { DispatchedStep(session, events, 3); }
    assert Dispatched(session, events[..5]) == [r1, r2, r3] by { DispatchedStep(session, events, 4); }
    assert events[..5] == events;
  }

  // -------------------------------------------------------- output_damage

  /** An image the server returns: its bits per pixel and its pixel bytes. */
  datatype Image = Image(bitsPerPixel: nat, data: seq<byte>)

  /**
   * What the outside world answers while one region is output: the fetched
   * image, if `XGetImage` succeeded, and whether the bitmap sink's `fopen`
   * succeeds.
   */
  datatype Response = Response(image: Option<Image>, fileOpens: bool)

  /** The `size` argument `output_damage` passes: `width * height * bits_per_pixel / 8`. */
  function RequestSize(r: Rect, img: Image): (n: int)
    ensures 0 <= r.width && 0 <= r.height ==> 0 <= n
  {
    ProductNonNegative(r.width, r.height, img.bitsPerPixel);
    r.width * r.height * img.bitsPerPixel / 8
  }

  lemma ProductNonNegative(a: int, b: int, c: nat)
    ensures 0 <= a && 0 <= b ==> 0 <= a * b * c
  {
    if 0 <= a && 0 <= b {
      var ab := a * b;
      assert 0 <= ab;
      assert 0 <= ab * c;
    }
  }

  /**
   * What a writer needs of a fetched image: a non-negative area whose sizes
   * stay within a C `int`, and as many bytes as the writer reads.
   */
  predicate Serviceable(stream: bool, r: Rect, img: Image)
  {
    && 0 <= r.width && 0 <= r.height
    && r.width * r.height * img.bitsPerPixel < 0x8000_0000
    && (if stream then RequestSize(r, img) <= |img.data|
        else Representable(r.width, r.height) && PixelBytes(r.width, r.height) <= |img.data|)
  }

  predicate Consistent(stream: bool, r: Rect, resp: Response)
  {
    resp.image.Some? ==> Serviceable(stream, r, resp.image.value)
  }

  /** The record the framed-stream sink sends for a region: the converted `x` and `size` bytes. */
  function RegionRecord(r: Rect, x: i32, img: Image): Record
    requires Serviceable(true, r, img)
  {
    Record(Rect(x, r.y, r.width, r.height), img.data[..RequestSize(r, img)])
  }

  /**
   * The framed-stream sink's bytes after it has sent one region: one more
   * record, 16 header bytes and `size` pixel bytes long.
   */
  function SendRegion(sent: seq<byte>, r: Rect, x: i32, img: Image): (out: seq<byte>)
    requires Serviceable(true, r, img)
    ensures out == sent + EncodeRecord(RegionRecord(r, x, img))
    ensures |out| == |sent| + HeaderBytes + RequestSize(r, img)
  {
    var size := RequestSize(r, img);
    assert img.data[..size][..size] == img.data[..size];
    sent + StdoutWriter(x, r.y, r.width, r.height, img.data, size)
  }

  /**
   * The bitmap sink's state and files after it has been handed one region:
   * when the file opens, one more file, named after the counter, and the
   * counter one higher; otherwise no change. What the file holds is stated by
   * `StoredImage`.
   */
  function StoreRegion(sink: BmpSink, files: seq<File>, r: Rect, x: i32, img: Image, opens: bool)
    : (w: Writer)
    requires Serviceable(false, r, img)
    ensures w.BitmapWriter?
    ensures !opens ==> w == BitmapWriter(sink, files)
    ensures opens ==> && w.sink.num == sink.num + 1
                      && |w.files| == |files| + 1
                      && w.files == files + [w.files[|files|]]
                      && w.files[|files|].name == FileName(sink.num)
  {
    var o := BmpWrite(sink, x, r.y, r.width, r.height, img.data, RequestSize(r, img), opens);
    var written := if o.file.Some? then [o.file.value] else [];
    BitmapWriter(o.sink, files + written)
  }

  /** The file the bitmap sink adds for a region holds that region's image. */
  lemma StoredImage(sink: BmpSink, files: seq<File>, r: Rect, x: i32, img: Image)
    requires Serviceable(false, r, img)
    ensures var w := StoreRegion(sink, files, r, x, img, true);
            HoldsImage(w.files[|files|].contents, r.width, r.height, img.data)
  {
    WrittenImage(sink, x, r.y, r.width, r.height, img.data, RequestSize(r, img));
  }

  /**
   * `output_damage` for one region: fetch, convert `x`, hand the image to the
   * writer. A failed fetch leaves everything as it was.
   */
  function OutputDamage(ctx: Context, r: Rect, resp: Response, hostToNet: i32 -> i32): (c: Context)
    requires Consistent(ctx.writer.StreamWriter?, r, resp)
    ensures c.session == ctx.session
    ensures c.writer.StreamWriter? == ctx.writer.StreamWriter?
    ensures resp.image.None? ==> c == ctx
    ensures ctx.writer.StreamWriter? && resp.image.Some? ==>
              c.writer.sent == ctx.writer.sent + EncodeRecord(RegionRecord(r, hostToNet(r.x), resp.image.value))
    ensures ctx.writer.BitmapWriter? && !resp.fileOpens ==> c == ctx
  {
    match resp.image
    case None => ctx
    case Some(img) =>
      match ctx.writer
      case StreamWriter(sent) =>
        ctx.(writer := StreamWriter(SendRegion(sent, r, hostToNet(r.x), img)))
      case BitmapWriter(sink, files) =>
        ctx.(writer := StoreRegion(sink, files, r, hostToNet(r.x), img, resp.fileOpens))
  }

  // ---------------------------------------------------------------- a batch

  /** Every region has an answer its writer can use. */
  predicate Fits(stream: bool, rects: seq<Rect>, resps: seq<Response>)
  {
    |resps| == |rects| && forall j :: 0 <= j < |rects| ==> Consistent(stream, rects[j], resps[j])
  }

  /** The answers for the first `n` regions fit those regions. */
  lemma FitsPrefix(stream: bool, rects: seq<Rect>, resps: seq<Response>, n: nat)
    requires Fits(stream, rects, resps) && n <= |rects|
    ensures Fits(stream, rects[..n], resps[..n])
  {
  }

  /** Outputs the forwarded regions of a batch one after another. */
  function Deliver(ctx: Context, rects: seq<Rect>, resps: seq<Response>, hostToNet: i32 -> i32)
    : (c: Context)
    requires Fits(ctx.writer.StreamWriter?, rects, resps)
    ensures c.session == ctx.session
    ensures c.writer.StreamWriter? == ctx.writer.StreamWriter?
    decreases |rects|
  {
    if |rects| == 0 then ctx
    else
      var n := |rects| - 1;
      FitsPrefix(ctx.writer.StreamWriter?, rects, resps, n);
      OutputDamage(Deliver(ctx, rects[..n], resps[..n], hostToNet), rects[n], resps[n], hostToNet)
  }

  /** The number of regions that end up in a bitmap file: fetched, and the file opened. */
  function Successes(resps: seq<Response>): nat
  {
    if |resps| == 0 then 0
    else
      var n := |resps| - 1;
      Successes(resps[..n]) + (if resps[n].image.Some? && resps[n].fileOpens then 1 else 0)
  }

  /**
   * `files` extends `prior`, and each file after those is named after the
   * next counter value, starting at `first`.
   */
  predicate NumberedFrom(files: seq<File>, prior: seq<File>, first: nat)
  {
    && |prior| <= |files| && files[..|prior|] == prior
    && forall i :: |prior| <= i < |files| ==> files[i].name == FileName(first + (i - |prior|))
  }

  /** Appending the file named after the next counter value keeps the numbering. */
  lemma NumberedAppend(files: seq<File>, prior: seq<File>, first: nat, f: File)
    requires NumberedFrom(files, prior, first)
    requires f.name == FileName(first + (|files| - |prior|))
    ensures NumberedFrom(files + [f], prior, first)
  {
    var grown := files + [f];
    assert grown[..|prior|] == files[..|prior|];
    forall i | |prior| <= i < |grown|
      ensures grown[i].name == FileName(first + (i - |prior|))
    {
      if i < |files| {
        assert grown[i] == files[i];
      }
    }
  }

  /**
   * With the bitmap sink, the counter advances once per file written, the
   * earlier files stay, and the new files are named after consecutive
   * counter values starting at the counter the batch began with.
   */
  lemma {:induction false} BitmapNumbering(ctx: Context, rects: seq<Rect>, resps: seq<Response>,
                                           hostToNet: i32 -> i32)
    requires ctx.writer.BitmapWriter?
    requires Fits(false, rects, resps)
    ensures var c := Deliver(ctx, rects, resps, hostToNet);
            && c.writer.BitmapWriter?
            && c.writer.sink.num == ctx.writer.sink.num + Successes(resps)
            && |c.writer.files| == |ctx.writer.files| + Successes(resps)
            && NumberedFrom(c.writer.files, ctx.writer.files, ctx.writer.sink.num)
    decreases |rects|
  {
    if |rects| > 0 {
      var n := |rects| - 1;
      FitsPrefix(false, rects, resps, n);
      BitmapNumbering(ctx, rects[..n], resps[..n], hostToNet);
      var before := Deliver(ctx, rects[..n], resps[..n], hostToNet);
      assert Deliver(ctx, rects, resps, hostToNet) == OutputDamage(before, rects[n], resps[n], hostToNet);
      assert Successes(resps) == Successes(resps[..n]) + (if resps[n].image.Some? && resps[n].fileOpens then 1 else 0);
      BitmapStep(before, ctx.writer.files, ctx.writer.sink.num, rects[n], resps[n], hostToNet);
    }
  }

  /** One region handed to the bitmap sink keeps the numbering of its files. */
  lemma BitmapStep(before: Context, prior: seq<File>, first: nat, r: Rect, resp: Response,
                   hostToNet: i32 -> i32)
    requires before.writer.BitmapWriter? && Consistent(false, r, resp)
    requires before.writer.sink.num == first + (|before.writer.files| - |prior|)
    requires NumberedFrom(before.writer.files, prior, first)
    ensures var c := OutputDamage(before, r, resp, hostToNet);
            var grew := if resp.image.Some? && resp.fileOpens then 1 else 0;
            && c.writer.BitmapWriter?
            && c.writer.sink.num == before.writer.sink.num + grew
            && |c.writer.files| == |before.writer.files| + grew
            && NumberedFrom(c.writer.files, prior, first)
  {
    var c := OutputDamage(before, r, resp, hostToNet);
    if resp.image.Some? && resp.fileOpens {
      var files := before.writer.files;
      NumberedAppend(files, prior, first, c.writer.files[|files|]);
    } else {
      assert c == before;
    }
  }

  /** The region and image that a single answer turns into a bitmap file, if any. */
  function StoredBy(r: Rect, resp: Response): seq<(Rect, Image)>
  {
    if resp.image.Some? && resp.fileOpens then [(r, resp.image.value)] else []
  }

  /** The regions of a batch, with their images, that end up in bitmap files, in order. */
  function Stored(rects: seq<Rect>, resps: seq<Response>): (s: seq<(Rect, Image)>)
    requires |resps| == |rects|
    ensures |s| == Successes(resps)
    decreases |rects|
  {
    if |rects| == 0 then []
    else
      var n := |rects| - 1;
      Stored(rects[..n], resps[..n]) + StoredBy(rects[n], resps[n])
  }

  /** The files after `prior` hold, one for one and in order, the images in `stored`. */
  predicate ImagesFrom(files: seq<File>, prior: seq<File>, stored: seq<(Rect, Image)>)
  {
    && |files| == |prior| + |stored|
    && forall k :: 0 <= k < |stored| ==>
         HoldsImage(files[|prior| + k].contents, stored[k].0.width, stored[k].0.height, stored[k].1.data)
  }

  /** Appending the file of one more stored image keeps the files and the images in step. */
  lemma ImagesAppend(files: seq<File>, prior: seq<File>, stored: seq<(Rect, Image)>,
                     f: File, r: Rect, img: Image)
    requires ImagesFrom(files, prior, stored)
    requires HoldsImage(f.contents, r.width, r.height, img.data)
    ensures ImagesFrom(files + [f], prior, stored + [(r, img)])
  {
    var grown, more := files + [f], stored + [(r, img)];
    forall k | 0 <= k < |more|
      ensures HoldsImage(grown[|prior| + k].contents, more[k].0.width, more[k].0.height, more[k].1.data)
    {
      if k < |stored| {
        assert grown[|prior| + k] == files[|prior| + k] && more[k] == stored[k];
      }
    }
  }

  /** One region handed to the bitmap sink adds its image to the files exactly when it is stored. */
  lemma ImageStep(before: Context, prior: seq<File>, stored: seq<(Rect, Image)>, r: Rect,
                  resp: Response, hostToNet: i32 -> i32)
    requires before.writer.BitmapWriter? && Consistent(false, r, resp)
    requires ImagesFrom(before.writer.files, prior, stored)
    ensures var c := OutputDamage(before, r, resp, hostToNet);
            c.writer.BitmapWriter? && ImagesFrom(c.writer.files, prior, stored + StoredBy(r, resp))
  {
    var c := OutputDamage(before, r, resp, hostToNet);
    if resp.image.Some? && resp.fileOpens {
      var files := before.writer.files;
      StoredImage(before.writer.sink, files, r, hostToNet(r.x), resp.image.value);
      ImagesAppend(files, prior, stored, c.writer.files[|files|], r, resp.image.value);
    } else {
      assert c == before;
      assert stored + StoredBy(r, resp) == stored;
    }
  }

  /**
   * With the bitmap sink, the files a batch adds hold, in order, the images
   * of the regions whose fetch succeeded and whose file opened, each as large
   * as its region and stored bottom row first.
   */
  lemma {:induction false} BitmapImages(ctx: Context, rects: seq<Rect>, resps: seq<Response>,
                                        hostToNet: i32 -> i32)
    requires ctx.writer.BitmapWriter?
    requires Fits(false, rects, resps)
    ensures var c := Deliver(ctx, rects, resps, hostToNet);
            c.writer.BitmapWriter? && ImagesFrom(c.writer.files, ctx.writer.files, Stored(rects, resps))
    decreases |rects|
  {
    if |rects| > 0 {
      var n := |rects| - 1;
      FitsPrefix(false, rects, resps, n);
      BitmapImages(ctx, rects[..n], resps[..n], hostToNet);
      var before := Deliver(ctx, rects[..n], resps[..n], hostToNet);
      assert Deliver(ctx, rects, resps, hostToNet) == OutputDamage(before, rects[n], resps[n], hostToNet);
      assert Stored(rects, resps) == Stored(rects[..n], resps[..n]) + StoredBy(rects[n], resps[n]);
      ImageStep(before, ctx.writer.files, Stored(rects[..n], resps[..n]), rects[n], resps[n], hostToNet);
    } else {
      assert ImagesFrom(ctx.writer.files, ctx.writer.files, []);
    }
  }

  /** The records a framed-stream sink sends for a batch: one per fetched region. */
  function SentRecords(rects: seq<Rect>, resps: seq<Response>, hostToNet: i32 -> i32)
    : seq<Record>
    requires Fits(true, rects, resps)
    decreases |rects|
  {
    if |rects| == 0 then []
    else
      var n := |rects| - 1;
      FitsPrefix(true, rects, resps, n);
      SentRecords(rects[..n], resps[..n], hostToNet)
        + match resps[n].image
          case None => []
          case Some(img) => [RegionRecord(rects[n], hostToNet(rects[n].x), img)]
  }

  /** The records sent for a batch are those for all but its last region, then the last one's. */
  lemma SentRecordsLast(rects: seq<Rect>, resps: seq<Response>, hostToNet: i32 -> i32)
    requires Fits(true, rects, resps) && 0 < |rects|
    ensures var n := |rects| - 1;
            Fits(true, rects[..n], resps[..n])
            && SentRecords(rects, resps, hostToNet)
               == SentRecords(rects[..n], resps[..n], hostToNet) + LastRecord(rects, resps, hostToNet)
  {
    FitsPrefix(true, rects, resps, |rects| - 1);
  }

  /** The record for the last region of a batch, if its image was fetched. */
  function LastRecord(rects: seq<Rect>, resps: seq<Response>, hostToNet: i32 -> i32): seq<Record>
    requires Fits(true, rects, resps) && 0 < |rects|
  {
    var n := |rects| - 1;
    match resps[n].image
    case None => []
    case Some(img) => [RegionRecord(rects[n], hostToNet(rects[n].x), img)]
  }

  /** Delivering the last region of a batch to the framed-stream sink sends its record. */
  lemma DeliverStreamLast(ctx: Context, rects: seq<Rect>, resps: seq<Response>, hostToNet: i32 -> i32)
    requires ctx.writer.StreamWriter?
    requires Fits(true, rects, resps) && 0 < |rects|
    ensures var n := |rects| - 1;
            Fits(true, rects[..n], resps[..n])
            && Deliver(ctx, rects, resps, hostToNet).writer.sent
               == Deliver(ctx, rects[..n], resps[..n], hostToNet).writer.sent
                  + EncodeStream(LastRecord(rects, resps, hostToNet))
  {
    var n := |rects| - 1;
    FitsPrefix(true, rects, resps, n);
    var before := Deliver(ctx, rects[..n], resps[..n], hostToNet);
    SendStep(before, rects[n], resps[n], hostToNet);
  }

  /** Outputting one region to the framed-stream sink appends its record, if its image was fetched. */
  lemma SendStep(before: Context, r: Rect, resp: Response, hostToNet: i32 -> i32)
    requires before.writer.StreamWriter? && Consistent(true, r, resp)
    ensures OutputDamage(before, r, resp, hostToNet).writer.sent
         == before.writer.sent
            + EncodeStream(match resp.image
                           case None => []
                           case Some(img) => [RegionRecord(r, hostToNet(r.x), img)])
  {
    match resp.image
    case None =>
      assert before.writer.sent + [] == before.writer.sent;
    case Some(img) =>
      var rec := RegionRecord(r, hostToNet(r.x), img);
      assert EncodeStream([rec]) == EncodeRecord(rec) by {
        assert EncodeStream([rec]) == EncodeRecord(rec) + EncodeStream([]);
      }
  }

  /**
   * With the framed-stream sink, the bytes sent for a batch are the bytes
   * sent before followed by the encoding of one record per fetched region.
   */
  lemma {:induction false} StreamSent(ctx: Context, rects: seq<Rect>, resps: seq<Response>,
                                      hostToNet: i32 -> i32)
    requires ctx.writer.StreamWriter?
    requires Fits(true, rects, resps)
    ensures Deliver(ctx, rects, resps, hostToNet).writer.sent
         == ctx.writer.sent + EncodeStream(SentRecords(rects, resps, hostToNet))
    decreases |rects|
  {
    if |rects| > 0 {
      var n := |rects| - 1;
      SentRecordsLast(rects, resps, hostToNet);
      DeliverStreamLast(ctx, rects, resps, hostToNet);
      StreamSent(ctx, rects[..n], resps[..n], hostToNet);
      var front := SentRecords(rects[..n], resps[..n], hostToNet);
      var last := LastRecord(rects, resps, hostToNet);
      var s0 := ctx.writer.sent;
      var before := Deliver(ctx, rects[..n], resps[..n], hostToNet).writer.sent;
      var after := Deliver(ctx, rects, resps, hostToNet).writer.sent;
      assert after == before + EncodeStream(last);
      assert before == s0 + EncodeStream(front);
      assert EncodeStream(SentRecords(rects, resps, hostToNet))
          == EncodeStream(front) + EncodeStream(last) by {
        EncodeStreamAppend(front, last);
      }
      ConcatAssoc(s0, EncodeStream(front), EncodeStream(last));
    }
  }

  /**
   * Regrouping a concatenation of three sequences. Stated apart so that the
   * batch lemmas do not search for it among their many sequence terms.
   */
  lemma ConcatAssoc<T>(a: seq<T>, b: seq<T>, c: seq<T>)
    ensures a + b + c == a + (b + c)
  {
  }

  /** Every image of the batch that was fetched has 32 bits per pixel. */
  predicate FullDepth(resps: seq<Response>)
  {
    forall j :: 0 <= j < |resps| ==> resps[j].image.Some? ==> resps[j].image.value.bitsPerPixel == 32
  }

  /**
   * With 32-bit images every record carries exactly the width * height * 4
   * bytes its header announces, so a reader of the bytes the batch adds to
   * the stream recovers every record of the batch, in order.
   */
  lemma StreamDecodes(ctx: Context, rects: seq<Rect>, resps: seq<Response>, hostToNet: i32 -> i32)
    requires ctx.writer.StreamWriter?
    requires Fits(true, rects, resps) && FullDepth(resps)
    ensures var c := Deliver(ctx, rects, resps, hostToNet);
            var added := EncodeStream(SentRecords(rects, resps, hostToNet));
            && c.writer.sent == ctx.writer.sent + added
            && DecodeStream(added) == Some(SentRecords(rects, resps, hostToNet))
  {
    StreamSent(ctx, rects, resps, hostToNet);
    SentRecordsDelimited(rects, resps, hostToNet);
    StreamRoundTrip(SentRecords(rects, resps, hostToNet));
  }

  /** A 32-bit image asks the framed-stream sink for width * height * 4 bytes. */
  lemma FullDepthSize(r: Rect, img: Image)
    requires 0 <= r.width && 0 <= r.height && img.bitsPerPixel == 32
    ensures RequestSize(r, img) == PixelBytes(r.width, r.height)
  {
    var area := r.width * r.height;
    assert r.width * r.height * 32 == area * 32;
    assert BytesPerPixel * r.width * r.height == 4 * area;
  }

  /** With 32-bit images every record sent is delimited by its own header. */
  lemma {:induction false} SentRecordsDelimited(rects: seq<Rect>, resps: seq<Response>,
                                                hostToNet: i32 -> i32)
    requires Fits(true, rects, resps) && FullDepth(resps)
    ensures var recs := SentRecords(rects, resps, hostToNet);
            forall i :: 0 <= i < |recs| ==> Delimited(recs[i])
    decreases |rects|
  {
    if |rects| > 0 {
      var n := |rects| - 1;
      SentRecordsLast(rects, resps, hostToNet);
      assert FullDepth(resps[..n]);
      SentRecordsDelimited(rects[..n], resps[..n], hostToNet);
      LastRecordDelimited(rects, resps, hostToNet);
    }
  }

  /** With a 32-bit image the record for the last region is delimited by its header. */
  lemma LastRecordDelimited(rects: seq<Rect>, resps: seq<Response>, hostToNet: i32 -> i32)
    requires Fits(true, rects, resps) && 0 < |rects| && FullDepth(resps)
    ensures var last := LastRecord(rects, resps, hostToNet);
            forall i :: 0 <= i < |last| ==> Delimited(last[i])
  {
    var n := |rects| - 1;
    match resps[n].image
    case None =>
    case Some(img) =>
      FullDepthSize(rects[n], img);
  }

  // ----------------------------------------------------------- the event loop

  /** Reading one more event of the batch forwards at most its own area. */
  lemma DispatchedStep(session: Session, events: seq<Event>, i: nat)
    requires i < |events|
    ensures Dispatched(session, events[..i + 1])
         == Dispatched(session, events[..i])
            + (if Forwarded(session, events[i]) then [events[i].area] else [])
  {
    assert events[..i + 1][..i] == events[..i];
  }

  /** What is forwarded from the first `i` events is the start of what the batch forwards. */
  lemma DispatchedPrefix(session: Session, events: seq<Event>, i: nat)
    requires i <= |events|
    ensures Dispatched(session, events)
         == Dispatched(session, events[..i]) + Dispatched(session, events[i..])
  {
    DispatchedAppend(session, events[..i], events[i..]);
    assert events[..i] + events[i..] == events;
  }

  /** Outputting one more region extends the delivered prefix by one. */
  lemma DeliverStep(ctx: Context, all: seq<Rect>, resps: seq<Response>, next: nat,
                    hostToNet: i32 -> i32)
    requires Fits(ctx.writer.StreamWriter?, all, resps)
    requires next < |all|
    ensures Fits(ctx.writer.StreamWriter?, all[..next], resps[..next])
    ensures Fits(ctx.writer.StreamWriter?, all[..next + 1], resps[..next + 1])
    ensures var c := Deliver(ctx, all[..next], resps[..next], hostToNet);
            && Consistent(c.writer.StreamWriter?, all[next], resps[next])
            && Deliver(ctx, all[..next + 1], resps[..next + 1], hostToNet)
               == OutputDamage(c, all[next], resps[next], hostToNet)
  {
    FitsPrefix(ctx.writer.StreamWriter?, all, resps, next);
    FitsPrefix(ctx.writer.StreamWriter?, all, resps, next + 1);
    assert all[..next + 1][..next] == all[..next];
    assert resps[..next + 1][..next] == resps[..next];
  }

  /**
   * The inner `while (XPending(...))` loop over one batch: reads the events
   * in order and outputs each forwarded one, consuming the answers in order.
   */
  method DrainBatch(ctx: Context, events: seq<Event>, resps: seq<Response>, hostToNet: i32 -> i32)
    returns (c: Context)
    requires Fits(ctx.writer.StreamWriter?, Dispatched(ctx.session, events), resps)
    ensures c == Deliver(ctx, Dispatched(ctx.session, events), resps, hostToNet)
  {
    c := ctx;
    var next := 0;
    var i := 0;
    DrainStart(ctx, events, resps, hostToNet);
    while i < |events|
      invariant 0 <= i <= |events|
      invariant Drained(ctx, events, resps, hostToNet, i, next, c)
    {
      var e := events[i];
      if Forwarded(ctx.session, e) {
        DrainForward(ctx, events, resps, hostToNet, i, next, c);
        c := OutputDamage(c, e.area, resps[next], hostToNet);
        next := next + 1;
      } else {
        DrainSkip(ctx, events, resps, hostToNet, i, next, c);
      }
      i := i + 1;
    }
    DrainEnd(ctx, events, resps, hostToNet, next, c);
  }

  /**
   * The state of `DrainBatch` after `i` events: the first `next` forwarded
   * regions, exactly those of the first `i` events, have been output.
   */
  predicate Drained(ctx: Context, events: seq<Event>, resps: seq<Response>, hostToNet: i32 -> i32,
                    i: nat, next: nat, c: Context)
  {
    var all := Dispatched(ctx.session, events);
    && i <= |events|
    && Fits(ctx.writer.StreamWriter?, all, resps)
    && next <= |all| && all[..next] == Dispatched(ctx.session, events[..i])
    && Fits(ctx.writer.StreamWriter?, all[..next], resps[..next])
    && c == Deliver(ctx, all[..next], resps[..next], hostToNet)
  }

  /** Before any event is read nothing has been output. */
  lemma DrainStart(ctx: Context, events: seq<Event>, resps: seq<Response>, hostToNet: i32 -> i32)
    requires Fits(ctx.writer.StreamWriter?, Dispatched(ctx.session, events), resps)
    ensures Drained(ctx, events, resps, hostToNet, 0, 0, ctx)
  {
    assert events[..0] == [];
  }

  /** An event that is not forwarded leaves the output as it was. */
  lemma DrainSkip(ctx: Context, events: seq<Event>, resps: seq<Response>, hostToNet: i32 -> i32,
                  i: nat, next: nat, c: Context)
    requires Drained(ctx, events, resps, hostToNet, i, next, c)
    requires i < |events| && !Forwarded(ctx.session, events[i])
    ensures Drained(ctx, events, resps, hostToNet, i + 1, next, c)
  {
    DispatchedStep(ctx.session, events, i);
  }

  /** A forwarded event is the next region of the batch, and it is output with the next answer. */
  lemma DrainForward(ctx: Context, events: seq<Event>, resps: seq<Response>, hostToNet: i32 -> i32,
                     i: nat, next: nat, c: Context)
    requires Drained(ctx, events, resps, hostToNet, i, next, c)
    requires i < |events| && Forwarded(ctx.session, events[i])
    ensures next < |resps| && Consistent(c.writer.StreamWriter?, events[i].area, resps[next])
    ensures Drained(ctx, events, resps, hostToNet, i + 1, next + 1,
                    OutputDamage(c, events[i].area, resps[next], hostToNet))
  {
    var all := Dispatched(ctx.session, events);
    DispatchedStep(ctx.session, events, i);
    DispatchedPrefix(ctx.session, events, i + 1);
    assert all[..next + 1] == Dispatched(ctx.session, events[..i + 1]);
    assert all[next] == events[i].area;
    DeliverStep(ctx, all, resps, next, hostToNet);
  }

  /** Once every event has been read, the whole batch has been output. */
  lemma DrainEnd(ctx: Context, events: seq<Event>, resps: seq<Response>, hostToNet: i32 -> i32,
                 next: nat, c: Context)
    requires Drained(ctx, events, resps, hostToNet, |events|, next, c)
    ensures c == Deliver(ctx, Dispatched(ctx.session, events), resps, hostToNet)
  {
    var all := Dispatched(ctx.session, events);
    assert events[..|events|] == events;
    assert all[..next] == all && resps[..next] == resps;
  }

  /**
   * Right after a successful startup the bitmap sink names the files of the
   * first batch `w000000.bmp`, `w000001.bmp`, ... one per file written.
   */
  lemma FirstBatchNames(p: Probe, events: seq<Event>, resps: seq<Response>, hostToNet: i32 -> i32)
    requires Setup(p).result.Ok?
    requires Fits(false, Dispatched(Setup(p).result.value.session, events), resps)
    ensures var ctx := Setup(p).result.value;
            var c := Deliver(ctx, Dispatched(ctx.session, events), resps, hostToNet);
            && c.writer.BitmapWriter?
            && |c.writer.files| == c.writer.sink.num == Successes(resps)
            && forall k :: 0 <= k < |c.writer.files| ==> c.writer.files[k].name == FileName(k)
  {
    var ctx := Setup(p).result.value;
    BitmapNumbering(ctx, Dispatched(ctx.session, events), resps, hostToNet);
  }
}
