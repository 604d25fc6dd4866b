/**
 * The framed-stream sink (`stdout_writer`): every region becomes a record of
 * four 32-bit big-endian header fields (x, y, width, height) followed by the
 * raw pixel bytes, with no length prefix and no delimiter. A reader learns the
 * payload length only from the header, as width * height * 4.
 */
module Framed {
  import opened Optional
  import opened Bytes
  import opened Regions

  /** Size of a record header: four 32-bit fields. */
  const HeaderBytes: nat := 16

  /** One record of the stream: a rectangle and the pixel bytes sent for it. */
  datatype Record = Record(rect: Rect, payload: seq<byte>)

  /** The header fields of a record in network byte order. */
  function EncodeHeader(r: Rect): (s: seq<byte>)
    ensures |s| == HeaderBytes
  {
    BE32(ToUnsigned(r.x)) + BE32(ToUnsigned(r.y))
      + BE32(ToUnsigned(r.width)) + BE32(ToUnsigned(r.height))
  }

  /** Reads the four network-order fields of a record header as C `int`s. */
  function DecodeHeader(s: seq<byte>): Rect
    requires |s| == HeaderBytes
  {
    Rect(ToSigned(FromBE32(s[0..4])), ToSigned(FromBE32(s[4..8])),
         ToSigned(FromBE32(s[8..12])), ToSigned(FromBE32(s[12..16])))
  }

  /** Decoding an encoded header gives back the rectangle. */
  lemma DecodeEncodeHeader(r: Rect)
    ensures DecodeHeader(EncodeHeader(r)) == r
  {
    var s := EncodeHeader(r);
    assert s[0..4] == BE32(ToUnsigned(r.x));
    assert s[4..8] == BE32(ToUnsigned(r.y));
    assert s[8..12] == BE32(ToUnsigned(r.width));
    assert s[12..16] == BE32(ToUnsigned(r.height));
    SignedRoundTrip(r.x);
    SignedRoundTrip(r.y);
    SignedRoundTrip(r.width);
    SignedRoundTrip(r.height);
  }

  /** Every sixteen bytes are the header of exactly one rectangle. */
  lemma EncodeDecodeHeader(s: seq<byte>)
    requires |s| == HeaderBytes
    ensures EncodeHeader(DecodeHeader(s)) == s
  {
    BE32OfFromBE32(s[0..4]);
    BE32OfFromBE32(s[4..8]);
    BE32OfFromBE32(s[8..12]);
    BE32OfFromBE32(s[12..16]);
    assert s == s[0..4] + s[4..8] + s[8..12] + s[12..16];
  }

  /**
   * `stdout_writer`: the bytes written to the descriptor for one region, the
   * header followed by the first `size` bytes of `data`.
   */
  function StdoutWriter(x: i32, y: i32, width: i32, height: i32, data: seq<byte>, size: int)
    : (out: seq<byte>)
    requires 0 <= size <= |data|
    ensures |out| == HeaderBytes + size
    ensures DecodeHeader(out[..HeaderBytes]) == Rect(x, y, width, height)
    ensures out[HeaderBytes..] == data[..size]
  {
    var header := EncodeHeader(Rect(x, y, width, height));
    DecodeEncodeHeader(Rect(x, y, width, height));
    assert (header + data[..size])[..HeaderBytes] == header;
    header + data[..size]
  }

  /** The bytes of one record. */
  function EncodeRecord(rec: Record): seq<byte>
  {
    StdoutWriter(rec.rect.x, rec.rect.y, rec.rect.width, rec.rect.height,
                 rec.payload, |rec.payload|)
  }

  /** The payload length a reader expects after a header, if the header allows one. */
  function ExpectedPayload(r: Rect): Option<nat>
  {
    if r.width < 0 || r.height < 0 then None else Some(PixelBytes(r.width, r.height))
  }

  /** A record a reader can delimit: its payload is exactly width * height * 4 bytes. */
  predicate Delimited(rec: Record)
  {
    ExpectedPayload(rec.rect) == Some(|rec.payload|)
  }

  /** Reads one record from the front of `s`, returning it and the bytes after it. */
  function DecodeRecord(s: seq<byte>): (r: Option<(Record, seq<byte>)>)
    ensures r.Some? ==> |r.value.1| + HeaderBytes <= |s|
  {
    if |s| < HeaderBytes then None
    else
      var rect := DecodeHeader(s[..HeaderBytes]);
      match ExpectedPayload(rect)
      case None => None
      case Some(n) =>
        if |s| - HeaderBytes < n then None
        else Some((Record(rect, s[HeaderBytes..HeaderBytes + n]), s[HeaderBytes + n..]))
  }

  /** A record followed by anything is read back as that record and the rest. */
  lemma DecodeRecordOfEncode(rec: Record, rest: seq<byte>)
    requires Delimited(rec)
    ensures DecodeRecord(EncodeRecord(rec) + rest) == Some((rec, rest))
  {
    var s := EncodeRecord(rec) + rest;
    var n := |rec.payload|;
    assert s[..HeaderBytes] == EncodeRecord(rec)[..HeaderBytes];
    assert s[HeaderBytes..HeaderBytes + n] == rec.payload;
    assert s[HeaderBytes + n..] == rest;
  }

  /** The stream a framed sink produces for a sequence of records. */
  function EncodeStream(recs: seq<Record>): seq<byte>
  {
    if |recs| == 0 then [] else EncodeRecord(recs[0]) + EncodeStream(recs[1..])
  }

  /** The stream of two runs of records is the stream of the first followed by that of the second. */
  lemma {:induction false} EncodeStreamAppend(a: seq<Record>, b: seq<Record>)
    ensures EncodeStream(a + b) == EncodeStream(a) + EncodeStream(b)
    decreases |a|
  {
    if |a| == 0 {
      assert a + b == b;
    } else {
      assert (a + b)[1..] == a[1..] + b;
      EncodeStreamAppend(a[1..], b);
    }
  }

  /** Splits a whole stream into records; fails on a truncated or undecodable tail. */
  function DecodeStream(s: seq<byte>): Option<seq<Record>>
    decreases |s|
  {
    if |s| == 0 then Some([])
    else match DecodeRecord(s)
      case None => None
      case Some((rec, rest)) =>
        match DecodeStream(rest)
        case None => None
        case Some(recs) => Some([rec] + recs)
  }

  /** Decoding the stream of delimited records recovers the records, in order. */
  lemma {:induction false} StreamRoundTrip(recs: seq<Record>)
    requires forall i :: 0 <= i < |recs| ==> Delimited(recs[i])
    ensures DecodeStream(EncodeStream(recs)) == Some(recs)
    decreases |recs|
  {
    if |recs| > 0 {
      var tail := EncodeStream(recs[1..]);
      var s := EncodeStream(recs);
      assert s == EncodeRecord(recs[0]) + tail;
      assert |s| != 0 by { assert |EncodeRecord(recs[0])| >= HeaderBytes; }
      assert DecodeRecord(s) == Some((recs[0], tail)) by {
        DecodeRecordOfEncode(recs[0], tail);
      }
      assert DecodeStream(tail) == Some(recs[1..]) by {
        StreamRoundTrip(recs[1..]);
      }
      assert [recs[0]] + recs[1..] == recs;
    }
  }
}
