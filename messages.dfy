/** The outbound side of the codec (example.py:56-74): the event id field,
    the length-prefixed string and the "open RTSP session" header, with a
    reader that takes such a header apart again. */
module Messages {
  import opened Bytes

  /** Logical id of the event that asks the proxy to open an RTSP session. */
  const OPEN_SESSION_EVENT: nat := 8
  /** The cookie `open_rtsp` always sends. */
  const OPEN_RTSP_COOKIE: nat := 1

  predicate IsAscii(s: string) {
    forall i :: 0 <= i < |s| ==> s[i] as int < 128
  }

  /** UTF-8 encoding of one Unicode scalar value (Python's `bytes(c, 'utf-8')`). */
  function Utf8Char(c: char): (r: seq<Byte>)
    ensures 1 <= |r| <= 4
    ensures |r| == 1 <==> c as int < 128
    ensures c as int < 128 ==> r == [c as int]
  {
    var cp := c as int;
    if cp < 0x80 then [cp]
    else if cp < 0x800 then [0xC0 + cp / 0x40, 0x80 + cp % 0x40]
    else if cp < 0x1_0000 then [0xE0 + cp / 0x1000, 0x80 + (cp / 0x40) % 0x40, 0x80 + cp % 0x40]
    else [0xF0 + cp / 0x4_0000, 0x80 + (cp / 0x1000) % 0x40, 0x80 + (cp / 0x40) % 0x40, 0x80 + cp % 0x40]
  }

  /** `bytes(s, 'utf-8')`: at least one byte per character, and exactly one
      per character precisely when the string is ASCII, in which case each
      byte is the character's code. */
  function Utf8(s: string): (r: seq<Byte>)
    ensures |r| >= |s|
    ensures |r| == |s| <==> IsAscii(s)
    ensures IsAscii(s) ==> forall i :: 0 <= i < |s| ==> r[i] == s[i] as int
  {
    if s == [] then []
    else
      var r := Utf8(s[..|s| - 1]) + Utf8Char(s[|s| - 1]);
      assert IsAscii(s) <==> IsAscii(s[..|s| - 1]) && s[|s| - 1] as int < 128 by {
        if IsAscii(s[..|s| - 1]) && s[|s| - 1] as int < 128 {
          forall i | 0 <= i < |s| ensures s[i] as int < 128 {
            if i < |s| - 1 { assert s[i] == s[..|s| - 1][i]; }
          }
        }
      }
      r
  }

  /** `string_message(m)` (example.py:56-57): a 4-byte big-endian prefix
      holding `len(m)`, the number of characters, then the UTF-8 bytes of m.
      Python raises OverflowError when len(m) does not fit in four bytes. */
  function StringMessage(m: string): (r: seq<Byte>)
    requires |m| < UINT32_LIMIT
    ensures |r| == 4 + |Utf8(m)|
    ensures BigEndian(r[..4]) == |m|
    ensures r[4..] == Utf8(m)
  {
    UInt32Bytes(|m|) + Utf8(m)
  }

  /** `event_bytes(id)` (example.py:59-61): the logical id minus one as a
      4-byte big-endian field; Python raises OverflowError when id - 1 is
      negative or needs more than four bytes. */
  function EventBytes(eventId: int): (r: seq<Byte>)
    requires 1 <= eventId <= UINT32_LIMIT
    ensures |r| == 4 && BigEndian(r) + 1 == eventId
  {
    UInt32Bytes(eventId - 1)
  }

  /** The header that `open_rtsp` builds (example.py:69-74), with the
      cookie as a parameter: event 8, the cookie, the camera serial and the
      auth token, the last two length-prefixed. */
  function BuildOpenSessionHeader(cookie: nat, serial: string, token: string): (r: seq<Byte>)
    requires cookie < UINT32_LIMIT && |serial| < UINT32_LIMIT && |token| < UINT32_LIMIT
    ensures |r| == 16 + |Utf8(serial)| + |Utf8(token)|
    ensures r[..4] == [0, 0, 0, 7]
    ensures BigEndian(r[4..8]) == cookie
  {
    var id := EventBytes(OPEN_SESSION_EVENT);
    assert id == [0, 0, 0, 7] by { UInt32BytesOfBigEndian(id); }
    var c := UInt32Bytes(cookie);
    var r := id + c + StringMessage(serial) + StringMessage(token);
    assert r[4..8] == c;
    r
  }

  /** The header exactly as `open_rtsp` sends it, cookie fixed to 1. */
  function OpenRtspHeader(serial: string, token: string): (r: seq<Byte>)
    requires |serial| < UINT32_LIMIT && |token| < UINT32_LIMIT
    ensures |r| >= 16 && r[..8] == [0, 0, 0, 7, 0, 0, 0, 1]
  {
    var r := BuildOpenSessionHeader(OPEN_RTSP_COOKIE, serial, token);
    assert r[4..8] == [0, 0, 0, 1] by { UInt32BytesOfBigEndian(r[4..8]); }
    assert r[..8] == r[..4] + r[4..8];
    r
  }

  /** For ASCII strings the length prefix agrees with the number of bytes
      that follow it, and for no other strings: `len` counts characters,
      the payload counts UTF-8 bytes. */
  lemma StringMessagePrefixMatchesPayloadIffAscii(m: string)
    requires |m| < UINT32_LIMIT
    ensures BigEndian(StringMessage(m)[..4]) == |StringMessage(m)| - 4 <==> IsAscii(m)
  {
  }

  /** For ASCII strings the message is 4 + |m| bytes long. */
  lemma AsciiStringMessageLength(m: string)
    requires IsAscii(m) && |m| < UINT32_LIMIT
    ensures |StringMessage(m)| == 4 + |m|
  {
  }

  /** Total length of the open-session header for ASCII serial and token. */
  lemma AsciiHeaderLength(cookie: nat, serial: string, token: string)
    requires cookie < UINT32_LIMIT && |serial| < UINT32_LIMIT && |token| < UINT32_LIMIT
    requires IsAscii(serial) && IsAscii(token)
    ensures |BuildOpenSessionHeader(cookie, serial, token)| == 8 + 4 + |serial| + 4 + |token|
  {
  }

  // ---------------------------------------------------------------------
  // Reading a header back: a 4-byte integer reader and a length-prefixed
  // ASCII string reader over a buffer and a cursor.

  datatype OpenSession = OpenSession(eventId: nat, cookie: nat, serial: string, token: string)

  datatype Option<T> = None | Some(value: T)

  /** Reads a 4-byte big-endian field at `pos`; None when fewer than four
      bytes remain. Returns the value and the cursor after it. */
  function ReadU32(buf: seq<Byte>, pos: nat): (r: Option<(nat, nat)>)
    ensures r.Some? <==> pos + 4 <= |buf|
    ensures r.Some? ==> r.value.1 == pos + 4 && r.value.0 < UINT32_LIMIT
  {
    if pos + 4 <= |buf| then Some((U32At(buf, pos), pos + 4)) else None
  }

  /** Characters of a byte string that holds only ASCII codes. */
  function AsciiChars(bs: seq<Byte>): (s: string)
    requires forall i :: 0 <= i < |bs| ==> bs[i] < 128
    ensures IsAscii(s) && Utf8(s) == bs
  {
    var s := seq(|bs|, i requires 0 <= i < |bs| => bs[i] as char);
    assert IsAscii(s);
    s
  }

  /** Reads a length-prefixed ASCII string at `pos`: None when the prefix or
      the payload runs past the end, or a payload byte is not ASCII. */
  function ReadAsciiString(buf: seq<Byte>, pos: nat): (r: Option<(string, nat)>)
    ensures r.Some? ==> pos + 4 + |r.value.0| == r.value.1 <= |buf|
    ensures r.Some? ==> U32At(buf, pos) == |r.value.0|
    ensures r.Some? ==> Utf8(r.value.0) == buf[pos + 4..r.value.1]
  {
    match ReadU32(buf, pos)
    case None => None
    case Some((n, start)) =>
      if start + n > |buf| then None
      else
        var payload := buf[start..start + n];
        if forall i :: 0 <= i < |payload| ==> payload[i] < 128 then
          Some((AsciiChars(payload), start + n))
        else None
  }

  /** Takes an open-session header apart; None unless the buffer is exactly
      one well-formed header. */
  function ParseOpenSessionHeader(buf: seq<Byte>): (r: Option<OpenSession>)
    ensures r.Some? ==> r.value.eventId >= 1
  {
    match ReadU32(buf, 0)
    case None => None
    case Some((wireId, p1)) =>
      match ReadU32(buf, p1)
      case None => None
      case Some((cookie, p2)) =>
        match ReadAsciiString(buf, p2)
        case None => None
        case Some((serial, p3)) =>
          match ReadAsciiString(buf, p3)
          case None => None
          case Some((token, p4)) =>
            if p4 == |buf| then Some(OpenSession(wireId + 1, cookie, serial, token)) else None
  }

  /** A length-prefixed ASCII string reads back as itself, whatever comes
      before or after it. */
  lemma ReadStringMessage(pre: seq<Byte>, m: string, post: seq<Byte>)
    requires IsAscii(m) && |m| < UINT32_LIMIT
    ensures ReadAsciiString(pre + StringMessage(m) + post, |pre|) == Some((m, |pre| + 4 + |m|))
  {
    var msg := StringMessage(m);
    var buf := pre + msg + post;
    assert ReadU32(buf, |pre|) == Some((|m|, |pre| + 4)) by {
      SliceOfMiddle(pre, msg, post, 0, 4);
      assert msg[0..4] == UInt32Bytes(|m|);
      FieldAt(buf, |pre|, UInt32Bytes(|m|));
    }
    var payload := Utf8(m);
    assert buf[|pre| + 4..|pre| + 4 + |m|] == payload by {
      SliceOfMiddle(pre, msg, post, 4, 4 + |m|);
      assert msg[4..4 + |m|] == payload;
    }
    assert AsciiChars(payload) == m by {
      assert forall i :: 0 <= i < |m| ==> AsciiChars(payload)[i] == m[i];
    }
    ReadAsciiStringOfPayload(buf, |pre|, payload);
  }

  /** The string reader on a prefix followed by an ASCII payload of the
      length it announces. */
  lemma ReadAsciiStringOfPayload(buf: seq<Byte>, pos: nat, payload: seq<Byte>)
    requires ReadU32(buf, pos) == Some((|payload|, pos + 4))
    requires pos + 4 + |payload| <= |buf| && buf[pos + 4..pos + 4 + |payload|] == payload
    requires forall i :: 0 <= i < |payload| ==> payload[i] < 128
    ensures ReadAsciiString(buf, pos) == Some((AsciiChars(payload), pos + 4 + |payload|))
  {
  }

  /** Round trip: the reader recovers event 8, the cookie, the serial and
      the token from the header, and consumes it exactly. */
  lemma {:induction false} OpenSessionHeaderRoundTrip(cookie: nat, serial: string, token: string)
    requires cookie < UINT32_LIMIT && |serial| < UINT32_LIMIT && |token| < UINT32_LIMIT
    requires IsAscii(serial) && IsAscii(token)
    ensures ParseOpenSessionHeader(BuildOpenSessionHeader(cookie, serial, token))
         == Some(OpenSession(OPEN_SESSION_EVENT, cookie, serial, token))
  {
    var id, c, s, t := EventBytes(OPEN_SESSION_EVENT), UInt32Bytes(cookie), StringMessage(serial), StringMessage(token);
    var buf := BuildOpenSessionHeader(cookie, serial, token);
    assert buf == id + c + s + t;
    assert ReadU32(buf, 0) == Some((7, 4)) by {
      assert buf[0..4] == id;
    }
    assert ReadU32(buf, 4) == Some((cookie, 8)) by {
      assert buf[4..8] == c;
    }
    var p3 := 8 + 4 + |serial|;
    assert ReadAsciiString(buf, 8) == Some((serial, p3)) by {
      assert buf == (id + c) + s + t;
      ReadStringMessage(id + c, serial, t);
    }
    assert ReadAsciiString(buf, p3) == Some((token, |buf|)) by {
      assert buf == (id + c + s) + t + [];
      ReadStringMessage(id + c + s, token, []);
    }
  }

  /** The literal header for serial "ABC123" and token "tok". */
  lemma OpenRtspHeaderExample(serial: string, token: string)
    requires serial == "ABC123" && token == "tok"
    ensures OpenRtspHeader(serial, token)
         == [0, 0, 0, 7, 0, 0, 0, 1,
             0, 0, 0, 6, 'A' as int, 'B' as int, 'C' as int, '1' as int, '2' as int, '3' as int,
             0, 0, 0, 3, 't' as int, 'o' as int, 'k' as int]
  {
    assert IsAscii(serial) && IsAscii(token);
    UInt32BytesOfSmall(6);
    UInt32BytesOfSmall(3);
    UInt32BytesOfSmall(1);
    UInt32BytesOfSmall(7);
  }

  /** A non-ASCII character breaks the agreement: "é" is announced as one
      character but sent as two bytes. */
  lemma NonAsciiPrefixUndercounts()
    ensures BigEndian(StringMessage("é")[..4]) == 1
    ensures |StringMessage("é")| == 4 + 2
  {
    assert Utf8("é") == Utf8Char('é');
  }
}
