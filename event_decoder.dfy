/** The inbound side of the codec: `decode_event` (example.py:6-53), which
    walks a received buffer with a cursor `pos`. The logical event id is the
    first 4-byte field plus one; only event 9, the cookie/error report, has
    a payload, laid out as

      offset 0        wire id (logical id - 1)
      offset 4        cookie
      offset 8        for_cookie
      offset 12       error code
      offset 16       message length L, signed
      offset 20       max(L, 0) message bytes
      20 + m          channel id            (m = max(L, 0))
      24 + m          local port
      28 + m          count
      32 + m          count channel ids, 4 bytes each

    Every field except L is a 4-byte big-endian unsigned integer. */
module EventDecoder {
  import opened Bytes
  import Messages

  /** Logical id of the cookie/error report, the one event that is decoded. */
  const COOKIE_REPORT_EVENT: nat := 9
  /** Bytes in front of the message: id, cookie, for_cookie, error, length. */
  const MESSAGE_OFFSET: nat := 20
  /** Fixed-size fields of event 9: the five above plus channel id, local
      port and count. */
  const FIXED_SIZE: nat := 32

  /** The fields of event 9 the source prints, returned instead. The
      message is kept as the raw bytes the source would decode as UTF-8. */
  datatype CookieReport = CookieReport(
    cookie: nat,
    forCookie: nat,
    error: nat,
    messageLength: int,
    message: seq<Byte>,
    channelId: nat,
    localPort: nat,
    channelIds: seq<nat>)

  datatype Decoded =
    | Event9(report: CookieReport)   // logical id 9, fully decoded
    | Unrecognized(eventId: nat)     // any other logical id: nothing past the id is read
    | Truncated                      // a field runs past the end of the buffer

  /** Number of message bytes a signed length announces: none when it is
      zero or negative. */
  function MessageSize(len: int): (m: nat)
    ensures len > 0 ==> m == len
    ensures len <= 0 ==> m == 0
  {
    if len > 0 then len else 0
  }

  /** Bytes an event-9 buffer occupies for the report decoded from it. */
  function Consumed(r: CookieReport): nat {
    FIXED_SIZE + |r.message| + 4 * |r.channelIds|
  }

  /** `count` consecutive 4-byte fields starting at `from`, in order. */
  function U32Run(buf: seq<Byte>, from: nat, count: nat): (ids: seq<nat>)
    requires from + 4 * count <= |buf|
    ensures |ids| == count
    ensures forall k :: 0 <= k < count ==> ids[k] == U32At(buf, from + 4 * k)
  {
    if count == 0 then []
    else U32Run(buf, from, count - 1) + [U32At(buf, from + 4 * (count - 1))]
  }

  /** What the decoder yields for a buffer: the layout above, read only as
      far as the buffer reaches. This is stricter than the Python code,
      which reads missing bytes as absent (see DecodeAsWritten). */
  function Decode(buf: seq<Byte>): (d: Decoded)
    ensures d.Unrecognized? ==> d.eventId != COOKIE_REPORT_EVENT && d.eventId >= 1
    ensures d.Event9? ==> Consumed(d.report) <= |buf|
    ensures d.Event9? ==> |d.report.message| == MessageSize(d.report.messageLength)
  {
    if |buf| < 4 then Truncated
    else
      var eventId := U32At(buf, 0) + 1;
      if eventId != COOKIE_REPORT_EVENT then Unrecognized(eventId)
      else if |buf| < MESSAGE_OFFSET then Truncated
      else
        var len := I32At(buf, 16);
        var m := MessageSize(len);
        if |buf| < FIXED_SIZE + m then Truncated
        else
          var count := U32At(buf, 28 + m);
          if |buf| < FIXED_SIZE + m + 4 * count then Truncated
          else
            Event9(CookieReport(
              U32At(buf, 4), U32At(buf, 8), U32At(buf, 12),
              len, buf[MESSAGE_OFFSET..MESSAGE_OFFSET + m],
              U32At(buf, 20 + m), U32At(buf, 24 + m),
              U32Run(buf, FIXED_SIZE + m, count)))
  }

  /** The report a buffer holding a whole event 9 carries, by its offsets. */
  function ReportAt(buf: seq<Byte>): (r: CookieReport)
    requires |buf| >= MESSAGE_OFFSET
    requires FIXED_SIZE + MessageSize(I32At(buf, 16)) <= |buf|
    requires var m := MessageSize(I32At(buf, 16));
      FIXED_SIZE + m + 4 * U32At(buf, 28 + m) <= |buf|
    ensures Consumed(r) <= |buf|
  {
    var len := I32At(buf, 16);
    var m := MessageSize(len);
    CookieReport(
      U32At(buf, 4), U32At(buf, 8), U32At(buf, 12),
      len, buf[MESSAGE_OFFSET..MESSAGE_OFFSET + m],
      U32At(buf, 20 + m), U32At(buf, 24 + m),
      U32Run(buf, FIXED_SIZE + m, U32At(buf, 28 + m)))
  }

  /** Decode on a buffer that holds a whole event 9. */
  lemma DecodeOfWholeEvent(buf: seq<Byte>)
    requires |buf| >= MESSAGE_OFFSET && U32At(buf, 0) + 1 == COOKIE_REPORT_EVENT
    requires FIXED_SIZE + MessageSize(I32At(buf, 16)) <= |buf|
    requires var m := MessageSize(I32At(buf, 16));
      FIXED_SIZE + m + 4 * U32At(buf, 28 + m) <= |buf|
    ensures Decode(buf) == Event9(ReportAt(buf))
  {
  }

  /** The loop at the end of `decode_event`: `count` 4-byte fields from
      `pos` on, appended one by one; returns them and the cursor after them. */
  method ReadChannelIds(buf: seq<Byte>, pos: nat, count: nat) returns (ids: seq<nat>, end: nat)
    requires pos + 4 * count <= |buf|
    ensures ids == U32Run(buf, pos, count)
    ensures end == pos + 4 * count
  {
    ids, end := [], pos;
    var i := 0;
    while i < count
      invariant 0 <= i <= count
      invariant end == pos + 4 * i
      invariant ids == U32Run(buf, pos, i)
    {
      ids := ids + [U32At(buf, end)];
      end := end + 4;
      i := i + 1;
    }
  }

  /** `decode_event` itself: a cursor `pos` bumped past every field, with a
      bounds check before each read, and a loop that appends the channel
      ids. Returns the decoded event and where the cursor stopped. */
  method DecodeEvent(buf: seq<Byte>) returns (d: Decoded, pos: nat)
    ensures d == Decode(buf)
    ensures pos <= |buf|
    ensures d.Unrecognized? ==> pos == 4
    ensures d.Event9? ==> pos == Consumed(d.report)
  {
    pos := 0;
    if |buf| < pos + 4 { return Truncated, pos; }
    var eventId := U32At(buf, pos) + 1;
    pos := pos + 4;
    if eventId != COOKIE_REPORT_EVENT {
      return Unrecognized(eventId), pos;
    }

    if |buf| < pos + 16 { return Truncated, pos; }
    var cookie := U32At(buf, pos);
    pos := pos + 4;
    var forCookie := U32At(buf, pos);
    pos := pos + 4;
    var error := U32At(buf, pos);
    pos := pos + 4;
    var messageLength := I32At(buf, pos);
    pos := pos + 4;
    ghost var m := MessageSize(messageLength);

    var message: seq<Byte> := [];
    if messageLength > 0 {
      if |buf| < pos + messageLength { return Truncated, pos; }
      message := buf[pos..pos + messageLength];
      pos := pos + messageLength;
    }

    assert pos == MESSAGE_OFFSET + m && message == buf[MESSAGE_OFFSET..pos];
    if |buf| < pos + 12 { return Truncated, pos; }
    var channelId := U32At(buf, pos);
    pos := pos + 4;
    var localPort := U32At(buf, pos);
    pos := pos + 4;
    var count := U32At(buf, pos);
    pos := pos + 4;

    if |buf| < pos + 4 * count { return Truncated, pos; }
    assert pos == FIXED_SIZE + m && count == U32At(buf, 28 + m);
    var channelIds;
    channelIds, pos := ReadChannelIds(buf, pos, count);
    d := Event9(CookieReport(cookie, forCookie, error, messageLength, message, channelId, localPort, channelIds));
    DecodeOfWholeEvent(buf);
  }

  // ---------------------------------------------------------------------
  // The Python code as written: slices past the end are clamped, so a
  // missing field reads as the value of whatever bytes remain (0 for none)
  // and decoding never fails for lack of bytes.

  /** `int.from_bytes(bytes[pos:pos + 4], byteorder="big")`: the field
      when it lies inside the buffer, 0 when it starts at or past the end,
      and the value of the short tail when it straddles the end. */
  function PyU32(buf: seq<Byte>, pos: nat): (r: nat)
    ensures pos + 4 <= |buf| ==> r == U32At(buf, pos)
    ensures |buf| <= pos ==> r == 0
    ensures pos < |buf| < pos + 4 ==> r == BigEndian(buf[pos..]) && r < Pow256(|buf| - pos)
  {
    if pos + 4 <= |buf| then
      FieldIsBigEndian(buf, pos);
      BigEndian(buf[pos..pos + 4])
    else
      BigEndian(Slice(buf, pos, pos + 4))
  }

  /** The signed read `int.from_bytes(bytes[pos:pos + 4], "big", signed=True)`:
      the signed field inside the buffer, 0 past its end. */
  function PyI32(buf: seq<Byte>, pos: nat): (r: int)
    ensures pos + 4 <= |buf| ==> r == I32At(buf, pos)
    ensures |buf| <= pos ==> r == 0
    ensures r < 0 <==> pos < |buf| && buf[pos] >= 128
  {
    var bs := Slice(buf, pos, pos + 4);
    if pos + 4 <= |buf| then
      FieldIsBigEndian(buf, pos);
      SignedBigEndian(bs)
    else
      assert pos < |buf| ==> bs[0] == buf[pos];
      SignedBigEndian(bs)
  }

  /** The channel-id loop as written: `count` reads from `from` on, each
      one `PyU32`, in order, however far they run past the buffer. */
  function PyU32Run(buf: seq<Byte>, from: nat, count: nat): (ids: seq<nat>)
    ensures |ids| == count
  {
    if count == 0 then []
    else PyU32Run(buf, from, count - 1) + [PyU32(buf, from + 4 * (count - 1))]
  }

  /** The k-th read of the as-written loop is the 4-byte read at from + 4k,
      inside the buffer or not. */
  lemma {:induction false} PyU32RunReadsEachField(buf: seq<Byte>, from: nat, count: nat)
    ensures forall k :: 0 <= k < count ==> PyU32Run(buf, from, count)[k] == PyU32(buf, from + 4 * k)
  {
    if count > 0 {
      PyU32RunReadsEachField(buf, from, count - 1);
      var init, ids := PyU32Run(buf, from, count - 1), PyU32Run(buf, from, count);
      assert forall k :: 0 <= k < count - 1 ==> ids[k] == init[k];
    }
  }

  /** `decode_event` with Python's lenient reads. */
  function DecodeAsWritten(buf: seq<Byte>): (d: Decoded)
    ensures !d.Truncated?
    ensures d.Unrecognized? <==> PyU32(buf, 0) + 1 != COOKIE_REPORT_EVENT
  {
    var eventId := PyU32(buf, 0) + 1;
    if eventId != COOKIE_REPORT_EVENT then Unrecognized(eventId)
    else
      var len := PyI32(buf, 16);
      var m := MessageSize(len);
      var message := if len > 0 then Slice(buf, MESSAGE_OFFSET, MESSAGE_OFFSET + len) else [];
      Event9(CookieReport(
        PyU32(buf, 4), PyU32(buf, 8), PyU32(buf, 12),
        len, message,
        PyU32(buf, 20 + m), PyU32(buf, 24 + m),
        PyU32Run(buf, FIXED_SIZE + m, PyU32(buf, 28 + m))))
  }

  lemma {:induction false} PyU32RunInBounds(buf: seq<Byte>, from: nat, count: nat)
    requires from + 4 * count <= |buf|
    ensures PyU32Run(buf, from, count) == U32Run(buf, from, count)
  {
    if count > 0 {
      PyU32RunInBounds(buf, from, count - 1);
    }
  }

  /** `DecodeAsWritten` on a first field that announces event 9. */
  lemma AsWrittenOfEvent9(buf: seq<Byte>)
    requires PyU32(buf, 0) + 1 == COOKIE_REPORT_EVENT
    ensures var len := PyI32(buf, 16);
      var m := MessageSize(len);
      DecodeAsWritten(buf) == Event9(CookieReport(
        PyU32(buf, 4), PyU32(buf, 8), PyU32(buf, 12),
        len, if len > 0 then Slice(buf, MESSAGE_OFFSET, MESSAGE_OFFSET + len) else [],
        PyU32(buf, 20 + m), PyU32(buf, 24 + m), PyU32Run(buf, FIXED_SIZE + m, PyU32(buf, 28 + m))))
  {
  }

  /** The Python code on a buffer that holds a whole event 9 reads the same
      report as the strict decoder. */
  lemma AsWrittenOfWholeEvent(buf: seq<Byte>)
    requires |buf| >= MESSAGE_OFFSET && U32At(buf, 0) + 1 == COOKIE_REPORT_EVENT
    requires FIXED_SIZE + MessageSize(I32At(buf, 16)) <= |buf|
    requires var m := MessageSize(I32At(buf, 16));
      FIXED_SIZE + m + 4 * U32At(buf, 28 + m) <= |buf|
    ensures DecodeAsWritten(buf) == Event9(ReportAt(buf))
  {
    var len := I32At(buf, 16);
    var m := MessageSize(len);
    var count := U32At(buf, 28 + m);
    assert PyU32(buf, 0) + 1 == COOKIE_REPORT_EVENT;
    assert PyU32(buf, 4) == U32At(buf, 4) && PyU32(buf, 8) == U32At(buf, 8) && PyU32(buf, 12) == U32At(buf, 12);
    assert PyI32(buf, 16) == len;
    var message := if len > 0 then Slice(buf, MESSAGE_OFFSET, MESSAGE_OFFSET + len) else [];
    assert message == buf[MESSAGE_OFFSET..MESSAGE_OFFSET + m];
    assert PyU32(buf, 20 + m) == U32At(buf, 20 + m) && PyU32(buf, 24 + m) == U32At(buf, 24 + m);
    assert PyU32(buf, 28 + m) == count;
    PyU32RunInBounds(buf, FIXED_SIZE + m, count);
    AsWrittenOfEvent9(buf);
  }

  /** Wherever the strict decoder produces a result it is the one the
      Python code produces. */
  lemma DecodeAgreesWithSource(buf: seq<Byte>)
    requires !Decode(buf).Truncated?
    ensures Decode(buf) == DecodeAsWritten(buf)
  {
    assert PyU32(buf, 0) == U32At(buf, 0);
    if Decode(buf).Event9? {
      DecodeOfWholeEvent(buf);
      AsWrittenOfWholeEvent(buf);
    }
  }

  /** The Python code reads the 3-byte buffer 00 00 08 as a complete event 9
      with every field zero; the strict decoder reports it truncated. */
  lemma SourceAcceptsTruncatedBuffer()
    ensures DecodeAsWritten([0, 0, 8]) == Event9(CookieReport(0, 0, 0, 0, [], 0, 0, []))
    ensures Decode([0, 0, 8]) == Truncated
  {
    var buf: seq<Byte> := [0, 0, 8];
    assert Slice(buf, 0, 4) == buf;
    assert BigEndian(buf) == 8 by {
      assert buf[..2] == [0, 0] && buf[..2][..1] == [0] && [0][..0] == [];
    }
    assert PyU32(buf, 0) == 8;
    assert PyI32(buf, 16) == 0 by { assert Slice(buf, 16, 20) == []; }
    forall p: nat | p >= 4 ensures PyU32(buf, p) == 0 {
      assert Slice(buf, p, p + 4) == [];
    }
  }

  // ---------------------------------------------------------------------
  // Properties of the decoder.

  /** The logical id is the first field plus one. Any id other than 9 is
      reported as unrecognised, and nothing after the first four bytes is
      read: replacing them changes nothing. */
  lemma OtherEventsReadOnlyTheId(buf: seq<Byte>, rest: seq<Byte>)
    requires |buf| >= 4 && U32At(buf, 0) + 1 != COOKIE_REPORT_EVENT
    ensures Decode(buf) == Unrecognized(BigEndian(buf[..4]) + 1)
    ensures Decode(buf[..4] + rest) == Decode(buf)
  {
    FieldIsBigEndian(buf, 0);
    assert (buf[..4] + rest)[0..4] == buf[0..4] == buf[..4];
  }

  /** Only the id decides between the three outcomes when the buffer holds
      at least the id: event 9 is never reported unrecognised, and no other
      id is ever reported truncated. */
  lemma OutcomeFollowsTheId(buf: seq<Byte>)
    ensures Decode(buf).Unrecognized? <==> |buf| >= 4 && U32At(buf, 0) + 1 != COOKIE_REPORT_EVENT
    ensures Decode(buf).Event9? ==> |buf| >= 4 && U32At(buf, 0) + 1 == COOKIE_REPORT_EVENT
    ensures |buf| < 4 ==> Decode(buf) == Truncated
  {
  }

  /** The message length is read as a signed field at offset 16. A zero or
      negative length (every length whose top bit is set among them) means
      an empty message and the channel id right at offset 20; a positive
      length L means exactly L message bytes and the channel id after them. */
  lemma SignedMessageLength(buf: seq<Byte>)
    requires Decode(buf).Event9?
    ensures var r := Decode(buf).report;
      && r.messageLength == SignedBigEndian(buf[16..20])
      && (r.messageLength < 0 <==> buf[16] >= 128)
      && (r.messageLength <= 0 ==> r.message == [] && r.channelId == U32At(buf, 20))
      && (r.messageLength > 0 ==>
            r.message == buf[20..20 + r.messageLength] && r.channelId == U32At(buf, 20 + r.messageLength))
  {
    FieldIsBigEndian(buf, 16);
  }

  /** An event-9 buffer is consumed up to 32 + max(L, 0) + 4 * count bytes,
      where count is the field right before the channel ids; the channel
      ids are those fields in order. */
  lemma ConsumedBytes(buf: seq<Byte>)
    requires Decode(buf).Event9?
    ensures var r := Decode(buf).report;
      var m := MessageSize(r.messageLength);
      && Consumed(r) == 32 + m + 4 * U32At(buf, 28 + m) <= |buf|
      && |r.channelIds| == U32At(buf, 28 + m)
      && (forall k :: 0 <= k < |r.channelIds| ==> r.channelIds[k] == U32At(buf, 32 + m + 4 * k))
  {
  }

  lemma {:induction false} U32RunOfPrefix(buf: seq<Byte>, rest: seq<Byte>, from: nat, count: nat)
    requires from + 4 * count <= |buf|
    ensures U32Run(buf + rest, from, count) == U32Run(buf, from, count)
  {
    if count > 0 {
      var last := from + 4 * (count - 1);
      U32RunOfPrefix(buf, rest, from, count - 1);
      FieldOfPrefix(buf, rest, last);
    }
  }

  /** Bytes after a complete event do not change what is decoded. */
  lemma DecodeIgnoresTrailingBytes(buf: seq<Byte>, rest: seq<Byte>)
    requires !Decode(buf).Truncated?
    ensures Decode(buf + rest) == Decode(buf)
  {
    FieldOfPrefix(buf, rest, 0);
    if Decode(buf).Event9? {
      FieldOfPrefix(buf, rest, 4);
      FieldOfPrefix(buf, rest, 8);
      FieldOfPrefix(buf, rest, 12);
      FieldOfPrefix(buf, rest, 16);
      var m := MessageSize(I32At(buf, 16));
      assert (buf + rest)[20..20 + m] == buf[20..20 + m];
      FieldOfPrefix(buf, rest, 20 + m);
      FieldOfPrefix(buf, rest, 24 + m);
      FieldOfPrefix(buf, rest, 28 + m);
      U32RunOfPrefix(buf, rest, 32 + m, U32At(buf, 28 + m));
    }
  }

  // ---------------------------------------------------------------------
  // An encoder for event 9, the inverse the round trip is stated against.
  // The source only decodes this event; the proxy is what sends it.

  /** A report that fits the wire format: every unsigned field in four
      bytes, the length in a signed four-byte field, exactly max(L, 0)
      message bytes. */
  predicate WireCompatible(r: CookieReport) {
    && r.cookie < UINT32_LIMIT && r.forCookie < UINT32_LIMIT && r.error < UINT32_LIMIT
    && -INT32_LIMIT <= r.messageLength < INT32_LIMIT
    && |r.message| == MessageSize(r.messageLength)
    && r.channelId < UINT32_LIMIT && r.localPort < UINT32_LIMIT
    && |r.channelIds| < UINT32_LIMIT
    && forall k :: 0 <= k < |r.channelIds| ==> r.channelIds[k] < UINT32_LIMIT
  }

  /** Channel ids as consecutive 4-byte fields, in order. */
  function U32sBytes(ids: seq<nat>): (r: seq<Byte>)
    requires forall k :: 0 <= k < |ids| ==> ids[k] < UINT32_LIMIT
    ensures |r| == 4 * |ids|
    ensures forall k :: 0 <= k < |ids| ==> r[4 * k..4 * k + 4] == UInt32Bytes(ids[k])
  {
    if ids == [] then []
    else
      var init := U32sBytes(ids[..|ids| - 1]);
      var r := init + UInt32Bytes(ids[|ids| - 1]);
      assert forall k :: 0 <= k < |ids| - 1 ==> r[4 * k..4 * k + 4] == init[4 * k..4 * k + 4];
      r
  }

  /** The five fields in front of the message. */
  function ReportHead(r: CookieReport): (bs: seq<Byte>)
    requires WireCompatible(r)
    ensures |bs| == MESSAGE_OFFSET
    ensures U32At(bs, 0) + 1 == COOKIE_REPORT_EVENT
    ensures U32At(bs, 4) == r.cookie && U32At(bs, 8) == r.forCookie && U32At(bs, 12) == r.error
    ensures I32At(bs, 16) == r.messageLength
  {
    var bs := Messages.EventBytes(COOKIE_REPORT_EVENT)
      + UInt32Bytes(r.cookie) + UInt32Bytes(r.forCookie) + UInt32Bytes(r.error)
      + Int32Bytes(r.messageLength);
    FieldAt(bs, 0, Messages.EventBytes(COOKIE_REPORT_EVENT));
    FieldAt(bs, 4, UInt32Bytes(r.cookie));
    FieldAt(bs, 8, UInt32Bytes(r.forCookie));
    FieldAt(bs, 12, UInt32Bytes(r.error));
    FieldAt(bs, 16, Int32Bytes(r.messageLength));
    bs
  }

  /** The three fields between the message and the channel ids. */
  function ReportTail(r: CookieReport): (bs: seq<Byte>)
    requires WireCompatible(r)
    ensures |bs| == 12
    ensures U32At(bs, 0) == r.channelId && U32At(bs, 4) == r.localPort
    ensures U32At(bs, 8) == |r.channelIds|
  {
    var bs := UInt32Bytes(r.channelId) + UInt32Bytes(r.localPort) + UInt32Bytes(|r.channelIds|);
    FieldAt(bs, 0, UInt32Bytes(r.channelId));
    FieldAt(bs, 4, UInt32Bytes(r.localPort));
    FieldAt(bs, 8, UInt32Bytes(|r.channelIds|));
    bs
  }

  function EncodeCookieReport(r: CookieReport): (bs: seq<Byte>)
    requires WireCompatible(r)
    ensures |bs| == Consumed(r)
  {
    ReportHead(r) + r.message + ReportTail(r) + U32sBytes(r.channelIds)
  }

  /** Channel ids written as consecutive fields read back in order. */
  lemma U32RunOfBytes(pre: seq<Byte>, ids: seq<nat>, post: seq<Byte>)
    requires forall k :: 0 <= k < |ids| ==> ids[k] < UINT32_LIMIT
    ensures U32Run(pre + U32sBytes(ids) + post, |pre|, |ids|) == ids
  {
    var bs := U32sBytes(ids);
    var run := U32Run(pre + bs + post, |pre|, |ids|);
    forall k | 0 <= k < |ids|
      ensures run[k] == ids[k]
    {
      SliceOfMiddle(pre, bs, post, 4 * k, 4 * k + 4);
      assert bs[4 * k..4 * k + 4] == UInt32Bytes(ids[k]);
    }
  }

  /** A buffer whose fields hold a report's values decodes to that report. */
  lemma DecodeOfFields(buf: seq<Byte>, r: CookieReport)
    requires WireCompatible(r)
    requires var m := |r.message|;
      && |buf| >= Consumed(r)
      && U32At(buf, 0) + 1 == COOKIE_REPORT_EVENT
      && U32At(buf, 4) == r.cookie && U32At(buf, 8) == r.forCookie && U32At(buf, 12) == r.error
      && I32At(buf, 16) == r.messageLength
      && buf[MESSAGE_OFFSET..MESSAGE_OFFSET + m] == r.message
      && U32At(buf, 20 + m) == r.channelId && U32At(buf, 24 + m) == r.localPort
      && U32At(buf, 28 + m) == |r.channelIds|
      && U32Run(buf, FIXED_SIZE + m, |r.channelIds|) == r.channelIds
    ensures Decode(buf) == Event9(r)
  {
  }

  lemma HeadOfEncoding(r: CookieReport, rest: seq<Byte>)
    requires WireCompatible(r)
    ensures var buf := EncodeCookieReport(r) + rest;
      && U32At(buf, 0) + 1 == COOKIE_REPORT_EVENT
      && U32At(buf, 4) == r.cookie && U32At(buf, 8) == r.forCookie && U32At(buf, 12) == r.error
      && I32At(buf, 16) == r.messageLength
  {
    var head := ReportHead(r);
    var afterHead := r.message + ReportTail(r) + U32sBytes(r.channelIds) + rest;
    assert EncodeCookieReport(r) + rest == [] + head + afterHead;
    U32AtOfMiddle([], head, afterHead, 0);
    U32AtOfMiddle([], head, afterHead, 4);
    U32AtOfMiddle([], head, afterHead, 8);
    U32AtOfMiddle([], head, afterHead, 12);
    U32AtOfMiddle([], head, afterHead, 16);
  }

  lemma MessageOfEncoding(r: CookieReport, rest: seq<Byte>)
    requires WireCompatible(r)
    ensures (EncodeCookieReport(r) + rest)[MESSAGE_OFFSET..MESSAGE_OFFSET + |r.message|] == r.message
  {
    var head, after := ReportHead(r), ReportTail(r) + U32sBytes(r.channelIds) + rest;
    assert EncodeCookieReport(r) + rest == head + r.message + after;
    SliceOfMiddle(head, r.message, after, 0, |r.message|);
  }

  lemma TailOfEncoding(r: CookieReport, rest: seq<Byte>)
    requires WireCompatible(r)
    ensures var buf := EncodeCookieReport(r) + rest;
      var m := |r.message|;
      && U32At(buf, 20 + m) == r.channelId && U32At(buf, 24 + m) == r.localPort
      && U32At(buf, 28 + m) == |r.channelIds|
  {
    var before, tail, after := ReportHead(r) + r.message, ReportTail(r), U32sBytes(r.channelIds) + rest;
    assert EncodeCookieReport(r) + rest == before + tail + after;
    U32AtOfMiddle(before, tail, after, 0);
    U32AtOfMiddle(before, tail, after, 4);
    U32AtOfMiddle(before, tail, after, 8);
  }

  lemma ChannelIdsOfEncoding(r: CookieReport, rest: seq<Byte>)
    requires WireCompatible(r)
    ensures U32Run(EncodeCookieReport(r) + rest, FIXED_SIZE + |r.message|, |r.channelIds|) == r.channelIds
  {
    var before := ReportHead(r) + r.message + ReportTail(r);
    assert EncodeCookieReport(r) + rest == before + U32sBytes(r.channelIds) + rest;
    U32RunOfBytes(before, r.channelIds, rest);
  }

  /** Round trip: an encoded report, followed by anything, decodes to the
      same fields, the channel ids in their original order (none when the
      count is 0). */
  lemma {:induction false} CookieReportRoundTrip(r: CookieReport, rest: seq<Byte>)
    requires WireCompatible(r)
    ensures Decode(EncodeCookieReport(r) + rest) == Event9(r)
  {
    HeadOfEncoding(r, rest);
    MessageOfEncoding(r, rest);
    TailOfEncoding(r, rest);
    ChannelIdsOfEncoding(r, rest);
    DecodeOfFields(EncodeCookieReport(r) + rest, r);
  }
}
