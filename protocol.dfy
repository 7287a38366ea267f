/** The length-prefixed framing layer: a frame is a 4-byte little-endian length
    followed by that many payload bytes, and frames are appended to and read from
    the front of a shared `Bytes.Buffer`. */
module Protocol {
  import opened Wrappers
  import opened Bytes

  const PROTOCOL_HEADER: nat := 4
  const MESSAGE_MAX_SIZE: nat := 4096
  const UINT32_LIMIT: nat := 0x1_0000_0000

  datatype Error =
    | Io(cause: BufferError)
    | NoRequests
    | MessageTooLarge(length: nat, max: nat)

  // ---------------------------------------------------------------------------
  // Little-endian uint32 (encoding/binary's PutUint32 and Uint32)

  function EncodeLE32(n: nat): (b: seq<byte>)
    requires n < UINT32_LIMIT
    ensures |b| == 4 && DecodeLE32(b) == n
  {
    var q1 := n / 256;
    var q2 := q1 / 256;
    var q3 := q2 / 256;
    DigitSplit(n);
    DigitSplit(q1);
    DigitSplit(q2);
    [(n % 256) as byte, (q1 % 256) as byte, (q2 % 256) as byte, q3 as byte]
  }

  function DecodeLE32(b: seq<byte>): (n: nat)
    requires |b| == 4
    ensures n < UINT32_LIMIT
  {
    b[0] as nat + 256 * (b[1] as nat + 256 * (b[2] as nat + 256 * b[3] as nat))
  }

  /** The low byte and the rest of a number. */
  lemma DigitSplit(n: nat)
    ensures n == n % 256 + 256 * (n / 256) && n % 256 < 256 && n / 256 <= n
  {
  }

  /** Putting a byte below a number and taking it off again. */
  lemma DigitJoin(d: nat, q: nat)
    requires d < 256
    ensures (d + 256 * q) % 256 == d && (d + 256 * q) / 256 == q
  {
  }

  lemma EncodeDecodeLE32(b: seq<byte>)
    requires |b| == 4
    ensures EncodeLE32(DecodeLE32(b)) == b
  {
    var q2 := b[2] as nat + 256 * b[3] as nat;
    var q1 := b[1] as nat + 256 * q2;
    DigitJoin(b[0] as nat, q1);
    DigitJoin(b[1] as nat, q2);
    DigitJoin(b[2] as nat, b[3] as nat);
  }

  // ---------------------------------------------------------------------------
  // The frame the writer appends

  /** The bytes `AppendToBuffer` appends for `msg`: its length header, then the message. */
  function Framed(msg: seq<byte>): (f: seq<byte>)
    requires |msg| <= MESSAGE_MAX_SIZE
    ensures |f| == PROTOCOL_HEADER + |msg|
    ensures DecodeLE32(f[..PROTOCOL_HEADER]) == |msg| && f[PROTOCOL_HEADER..] == msg
  {
    EncodeLE32(|msg|) + msg
  }

  // ---------------------------------------------------------------------------
  // What one call of the reader does to the unread bytes `s` of a buffer

  datatype ReadOutcome = ReadOutcome(data: seq<byte>, remaining: bool, err: Option<Error>, rest: seq<byte>)

  /** The reader's result and the buffer's unread bytes afterwards. A header or payload
      cut short is zero-padded rather than rejected, because the byte counts that
      `Read` returns are ignored; a zero lookahead byte is consumed, a non-zero one
      is pushed back. */
  function ReadRequest(s: seq<byte>): (r: ReadOutcome)
    // only ever consumes from the front
    ensures |r.rest| <= |s| && r.rest == s[|s| - |r.rest|..]
    // a success returns a frame whose header states its payload length
    ensures r.err == None ==>
      |r.data| > PROTOCOL_HEADER && DecodeLE32(r.data[..PROTOCOL_HEADER]) == |r.data| - PROTOCOL_HEADER &&
      r.data[..PROTOCOL_HEADER] == Filled(s, PROTOCOL_HEADER)
    // the flag is raised only with a non-zero byte still at the front
    ensures r.remaining ==> r.err == None && r.rest != [] && r.rest[0] != 0
    // an empty buffer gives io.EOF and no data
    ensures s == [] ==> r.err == Some(Io(EOF)) && r.data == [] && !r.remaining
  {
    if s == [] then ReadOutcome([], false, Some(Io(EOF)), [])
    else ReadPayload(Filled(s, PROTOCOL_HEADER), s[Min(PROTOCOL_HEADER, |s|)..])
  }

  /** The reader once `header` has been read and `s` is what is left unread. */
  function ReadPayload(header: seq<byte>, s: seq<byte>): ReadOutcome
    requires |header| == PROTOCOL_HEADER
  {
    var length := DecodeLE32(header);
    if length == 0 then ReadOutcome([], false, Some(NoRequests), s)
    else if s == [] then ReadOutcome(Zeros(length), false, Some(Io(EOF)), [])
    else Lookahead(header + Filled(s, length), s[Min(length, |s|)..])
  }

  /** The reader once the whole `frame` has been read and `s` is what is left unread. */
  function Lookahead(frame: seq<byte>, s: seq<byte>): ReadOutcome
  {
    if s == [] then ReadOutcome(frame, false, None, [])
    else if s[0] == 0 then ReadOutcome(frame, false, None, s[1..])
    else ReadOutcome(frame, true, None, s)
  }

  /** Unfolds `ReadRequest` past a header read that found bytes to read. */
  lemma ReadRequestAfterHeader(s: seq<byte>, header: seq<byte>)
    requires s != [] && header == Filled(s, PROTOCOL_HEADER)
    ensures ReadRequest(s) == ReadPayload(header, s[Min(PROTOCOL_HEADER, |s|)..])
  {
  }

  // ---------------------------------------------------------------------------
  // The reader and the writer over a buffer

  /** Reads one frame from the front of `buffer` and returns it with its header. */
  method ReadRequestFromBuffer(buffer: Buffer) returns (data: seq<byte>, remaining: bool, err: Option<Error>)
    requires buffer.Valid()
    modifies buffer
    ensures buffer.Valid()
    ensures var r := ReadRequest(old(buffer.Bytes()));
      data == r.data && remaining == r.remaining && err == r.err && buffer.Bytes() == r.rest
  {
    ghost var s := buffer.Bytes();
    var header, e := ReadZeroed(buffer, PROTOCOL_HEADER);
    if e.Some? {
      return [], false, Some(Io(e.value));
    }
    ReadRequestAfterHeader(s, header);
    var contentLength := DecodeLE32(header);
    if contentLength == 0 {
      return [], false, Some(NoRequests);
    }
    var payload;
    payload, e := ReadZeroed(buffer, contentLength);
    if e.Some? {
      return payload, false, Some(Io(e.value));
    }
    data := header + payload;
    assert ReadRequest(s) == Lookahead(data, buffer.Bytes());
    remaining := ReadLookahead(buffer);
    err := None;
  }

  /** `make([]byte, n)` followed by `buffer.Read` into it, the returned count ignored. */
  method ReadZeroed(buffer: Buffer, n: nat) returns (p: seq<byte>, err: Option<BufferError>)
    requires buffer.Valid()
    modifies buffer
    ensures buffer.Valid()
    ensures old(buffer.Bytes()) == [] ==>
      p == Zeros(n) && buffer.Bytes() == [] && err == (if n == 0 then None else Some(EOF))
    ensures old(buffer.Bytes()) != [] ==>
      p == Filled(old(buffer.Bytes()), n) && err == None &&
      buffer.Bytes() == old(buffer.Bytes())[Min(n, |old(buffer.Bytes())|)..]
  {
    ghost var s := buffer.Bytes();
    var a := new byte[n](_ => 0);
    assert a[..] == Zeros(n);
    var k;
    k, err := buffer.Read(a);
    if s != [] {
      ReadIntoZeroed(s, n, k);
    }
    p := a[..];
  }

  /** The lookahead after a frame: a non-zero next byte is pushed back and reported,
      a zero byte is consumed and reported as nothing remaining. */
  method ReadLookahead(buffer: Buffer) returns (remaining: bool)
    requires buffer.Valid()
    modifies buffer
    ensures buffer.Valid()
    ensures var s := old(buffer.Bytes());
      remaining == (s != [] && s[0] != 0) &&
      buffer.Bytes() == (if s == [] then [] else if s[0] == 0 then s[1..] else s)
  {
    var rv, e := buffer.ReadByte();
    if rv == 0 || e.Some? {
      remaining := false;
    } else {
      remaining := true;
      var _ := buffer.UnreadByte();
    }
  }

  /** Reads one frame and returns only its payload. */
  method ReadFromBuffer(buffer: Buffer) returns (payload: seq<byte>, err: Option<Error>)
    requires buffer.Valid()
    modifies buffer
    ensures buffer.Valid()
    ensures var r := ReadRequest(old(buffer.Bytes()));
      err == r.err && buffer.Bytes() == r.rest &&
      payload == (if r.err == None then r.data[PROTOCOL_HEADER..] else [])
  {
    var data, _, e := ReadRequestFromBuffer(buffer);
    if e.Some? {
      return [], e;
    }
    return data[PROTOCOL_HEADER..], None;
  }

  /** Appends the frame of `msg` to `buffer`, creating the buffer when it is null.
      A message over the size limit is rejected before anything is written. */
  method AppendToBuffer(msg: seq<byte>, buffer: Buffer?) returns (out: Buffer?, err: Option<Error>)
    requires buffer != null ==> buffer.Valid()
    modifies buffer
    ensures |msg| > MESSAGE_MAX_SIZE ==>
      out == null && err == Some(MessageTooLarge(|msg|, MESSAGE_MAX_SIZE)) &&
      (buffer != null ==> unchanged(buffer))
    ensures |msg| <= MESSAGE_MAX_SIZE ==>
      err == None && out != null && out.Valid() &&
      (buffer == null ==> fresh(out) && out.Bytes() == Framed(msg)) &&
      (buffer != null ==> out == buffer && out.Bytes() == old(buffer.Bytes()) + Framed(msg))
  {
    if |msg| > MESSAGE_MAX_SIZE {
      return null, Some(MessageTooLarge(|msg|, MESSAGE_MAX_SIZE));
    }
    out := buffer;
    if out == null {
      out := new Buffer();
    }
    var header := EncodeLE32(|msg|);
    var _ := out.Write(header);
    var _ := out.Write(msg);
    err := None;
  }

  // ---------------------------------------------------------------------------
  // Properties of the reader

  /** A buffer that starts with a whole frame of non-zero length yields exactly that
      frame; what follows decides the flag and whether its first byte is eaten. */
  lemma ReadWholeFrame(s: seq<byte>)
    requires |s| >= PROTOCOL_HEADER
    requires DecodeLE32(s[..PROTOCOL_HEADER]) > 0
    requires |s| >= PROTOCOL_HEADER + DecodeLE32(s[..PROTOCOL_HEADER])
    ensures var end := PROTOCOL_HEADER + DecodeLE32(s[..PROTOCOL_HEADER]);
      var r := ReadRequest(s);
      r.err == None && r.data == s[..end] &&
      r.remaining == (|s| > end && s[end] != 0) &&
      r.rest == (if |s| == end then [] else if s[end] == 0 then s[end + 1..] else s[end..])
  {
    var length := DecodeLE32(s[..PROTOCOL_HEADER]);
    var afterHeader := s[PROTOCOL_HEADER..];
    FilledFromLongEnough(s, PROTOCOL_HEADER);
    FilledFromLongEnough(afterHeader, length);
    assert s[..PROTOCOL_HEADER] + afterHeader[..length] == s[..PROTOCOL_HEADER + length];
    assert afterHeader[length..] == s[PROTOCOL_HEADER + length..];
  }

  /** A zero header is rejected with "no requests" after its four bytes are consumed. */
  lemma ReadZeroHeader(s: seq<byte>)
    requires |s| >= PROTOCOL_HEADER && s[..PROTOCOL_HEADER] == [0, 0, 0, 0]
    ensures ReadRequest(s) == ReadOutcome([], false, Some(NoRequests), s[PROTOCOL_HEADER..])
  {
    FilledFromLongEnough(s, PROTOCOL_HEADER);
  }

  /** Fewer than four bytes: the missing header bytes read as zero, every byte is
      consumed, and the failure is either "no requests" or io.EOF from the payload
      read; there is no separate "incomplete" outcome. */
  lemma ReadShortHeader(s: seq<byte>)
    requires 0 < |s| < PROTOCOL_HEADER
    ensures var length := DecodeLE32(s + Zeros(PROTOCOL_HEADER - |s|));
      ReadRequest(s) ==
        if length == 0 then ReadOutcome([], false, Some(NoRequests), [])
        else ReadOutcome(Zeros(length), false, Some(Io(EOF)), [])
  {
    assert s[..|s|] == s;
  }

  /** A header with nothing after it: the payload read meets an empty buffer. */
  lemma ReadHeaderOnly(s: seq<byte>)
    requires |s| == PROTOCOL_HEADER && DecodeLE32(s) > 0
    ensures ReadRequest(s) == ReadOutcome(Zeros(DecodeLE32(s)), false, Some(Io(EOF)), [])
  {
    FilledFromLongEnough(s, PROTOCOL_HEADER);
  }

  /** A payload cut short is not an error: it is padded with zeros to the declared
      length, every byte is consumed and nothing is reported as remaining. */
  lemma ReadShortPayload(s: seq<byte>)
    requires |s| > PROTOCOL_HEADER
    requires |s| < PROTOCOL_HEADER + DecodeLE32(s[..PROTOCOL_HEADER])
    ensures ReadRequest(s) ==
      ReadOutcome(s + Zeros(PROTOCOL_HEADER + DecodeLE32(s[..PROTOCOL_HEADER]) - |s|), false, None, [])
  {
    var length := DecodeLE32(s[..PROTOCOL_HEADER]);
    var afterHeader := s[PROTOCOL_HEADER..];
    FilledFromLongEnough(s, PROTOCOL_HEADER);
    assert afterHeader[..|afterHeader|] == afterHeader;
    assert s[..PROTOCOL_HEADER] + afterHeader == s;
  }

  // ---------------------------------------------------------------------------
  // The reader against the writer

  /** Reading back a frame the writer appended, whatever bytes `t` follow it. */
  lemma ReadAfterAppend(p: seq<byte>, t: seq<byte>)
    requires 0 < |p| <= MESSAGE_MAX_SIZE
    ensures var r := ReadRequest(Framed(p) + t);
      r.err == None && r.data == Framed(p) && r.data[PROTOCOL_HEADER..] == p &&
      r.remaining == (t != [] && t[0] != 0) &&
      r.rest == (if t == [] then [] else if t[0] == 0 then t[1..] else t)
  {
    var s := Framed(p) + t;
    assert s[..PROTOCOL_HEADER] == Framed(p)[..PROTOCOL_HEADER];
    ReadWholeFrame(s);
    assert s[..PROTOCOL_HEADER + |p|] == Framed(p);
    assert t != [] ==> s[PROTOCOL_HEADER + |p|..] == t && s[PROTOCOL_HEADER + |p| + 1..] == t[1..];
  }

  /** A frame appended to an empty buffer reads back whole, leaving the buffer empty. */
  lemma AppendReadRoundTrip(p: seq<byte>)
    requires 0 < |p| <= MESSAGE_MAX_SIZE
    ensures ReadRequest(Framed(p)) == ReadOutcome(Framed(p), false, None, [])
    ensures ReadRequest(Framed(p)).data[PROTOCOL_HEADER..] == p
  {
    ReadAfterAppend(p, []);
    assert Framed(p) + [] == Framed(p);
  }

  /** An empty message is written, but reading it back always fails. */
  lemma AppendEmptyIsUnreadable(t: seq<byte>)
    ensures ReadRequest(Framed([]) + t) == ReadOutcome([], false, Some(NoRequests), t)
  {
    var s := Framed([]) + t;
    assert s[..PROTOCOL_HEADER] == [0, 0, 0, 0];
    ReadZeroHeader(s);
    assert s[PROTOCOL_HEADER..] == t;
  }

  /** Two frames read back in order when the second length has a non-zero low byte. */
  lemma TwoFramesInOrder(p1: seq<byte>, p2: seq<byte>)
    requires 0 < |p1| <= MESSAGE_MAX_SIZE && 0 < |p2| <= MESSAGE_MAX_SIZE
    requires |p2| % 256 != 0
    ensures ReadRequest(Framed(p1) + Framed(p2)) == ReadOutcome(Framed(p1), true, None, Framed(p2))
    ensures ReadRequest(Framed(p2)) == ReadOutcome(Framed(p2), false, None, [])
  {
    ReadAfterAppend(p1, Framed(p2));
    AppendReadRoundTrip(p2);
  }

  /** When the second length is a multiple of 256 its header starts with a zero byte,
      which the first read's lookahead eats. */
  lemma LookaheadEatsNextHeader(p1: seq<byte>, p2: seq<byte>)
    requires 0 < |p1| <= MESSAGE_MAX_SIZE && 0 < |p2| <= MESSAGE_MAX_SIZE
    requires |p2| % 256 == 0
    ensures ReadRequest(Framed(p1) + Framed(p2)) == ReadOutcome(Framed(p1), false, None, Framed(p2)[1..])
  {
    ReadAfterAppend(p1, Framed(p2));
    assert Framed(p2)[0] == 0;
  }

  /** ... and the read that follows cannot yield `p2`: the header it decodes is made of
      the three high length bytes and the first payload byte, which never equals |p2|. */
  lemma SecondFrameLost(p2: seq<byte>)
    requires 0 < |p2| <= MESSAGE_MAX_SIZE
    requires |p2| % 256 == 0
    ensures var r := ReadRequest(Framed(p2)[1..]);
      !(r.err == None && r.data[PROTOCOL_HEADER..] == p2)
  {
    var k := |p2| / 256;
    assert 1 <= k <= 16 && |p2| == 256 * k;
    assert EncodeLE32(|p2|) == [0, k as byte, 0, 0];
    var s := Framed(p2)[1..];
    assert s[..PROTOCOL_HEADER] == [k as byte, 0, 0, p2[0]];
    FilledFromLongEnough(s, PROTOCOL_HEADER);
    var r := ReadRequest(s);
    if r.err == None {
      var length := DecodeLE32(r.data[..PROTOCOL_HEADER]);
      assert length == k + 16777216 * p2[0] as nat;
      assert length != |p2|;
    }
  }

  // ---------------------------------------------------------------------------
  // Many frames: appending messages in turn, then reading frames in turn

  /** The bytes an empty buffer holds after `AppendToBuffer` of each message in turn. */
  function AppendAll(msgs: seq<seq<byte>>): (s: seq<byte>)
    requires forall i :: 0 <= i < |msgs| ==> |msgs[i]| <= MESSAGE_MAX_SIZE
    ensures msgs == [] ==> s == []
    ensures msgs != [] ==>
      PROTOCOL_HEADER + |msgs[0]| <= |s| && s[..PROTOCOL_HEADER + |msgs[0]|] == Framed(msgs[0])
  {
    if msgs == [] then [] else Framed(msgs[0]) + AppendAll(msgs[1..])
  }

  datatype Drained = Drained(payloads: seq<seq<byte>>, err: Option<Error>, rest: seq<byte>)

  /** `ReadFromBuffer` called `n` times in turn, stopping at the first error: the
      payloads read, that error, and the unread bytes left. */
  function ReadFrames(s: seq<byte>, n: nat): (d: Drained)
    ensures |d.payloads| <= n && (d.err == None ==> |d.payloads| == n)
  {
    if n == 0 then Drained([], None, s)
    else
      var r := ReadRequest(s);
      if r.err != None then Drained([], r.err, r.rest)
      else
        var d := ReadFrames(r.rest, n - 1);
        Drained([r.data[PROTOCOL_HEADER..]] + d.payloads, d.err, d.rest)
  }

  /** Non-empty messages appended in turn read back in the same order, leaving the
      buffer empty, as long as no message after the first has a length that is a
      multiple of 256 (see `LookaheadEatsNextHeader`). */
  lemma {:induction false} FramesReadInOrder(msgs: seq<seq<byte>>)
    requires forall i :: 0 <= i < |msgs| ==> 0 < |msgs[i]| <= MESSAGE_MAX_SIZE
    requires forall i :: 0 < i < |msgs| ==> |msgs[i]| % 256 != 0
    ensures ReadFrames(AppendAll(msgs), |msgs|) == Drained(msgs, None, [])
  {
    if msgs == [] {
      assert AppendAll(msgs) == [];
      assert ReadFrames([], 0) == Drained([], None, []);
    } else {
      var later := msgs[1..];
      ReadFirstOfMany(msgs);
      FramesReadInOrder(later);
      assert |later| == |msgs| - 1;
      var d := ReadFrames(AppendAll(later), |msgs| - 1);
      assert d == Drained(later, None, []);
      assert ReadFrames(AppendAll(msgs), |msgs|) == Drained([msgs[0]] + later, None, []);
      assert [msgs[0]] + later == msgs;
    }
  }

  /** One step of `FramesReadInOrder`: the first frame reads back and the frames of
      the later messages are left for the reads that follow. */
  lemma ReadFirstOfMany(msgs: seq<seq<byte>>)
    requires msgs != []
    requires forall i :: 0 <= i < |msgs| ==> 0 < |msgs[i]| <= MESSAGE_MAX_SIZE
    requires |msgs| > 1 ==> |msgs[1]| % 256 != 0
    ensures var d := ReadFrames(AppendAll(msgs[1..]), |msgs| - 1);
      ReadFrames(AppendAll(msgs), |msgs|) == Drained([msgs[0]] + d.payloads, d.err, d.rest)
  {
    var tail := AppendAll(msgs[1..]);
    ReadAfterAppend(msgs[0], tail);
    if |msgs| > 1 {
      assert tail[0] == Framed(msgs[1])[0] == (|msgs[1]| % 256) as byte;
    }
    var r := ReadRequest(AppendAll(msgs));
    assert r.err == None && r.data[PROTOCOL_HEADER..] == msgs[0] && r.rest == tail;
  }

  /** The frame of "hello": a 9-byte frame that reads back with nothing remaining. */
  lemma HelloFrame()
    ensures var hello: seq<byte> := [104, 101, 108, 108, 111];
      Framed(hello) == [5, 0, 0, 0, 104, 101, 108, 108, 111] &&
      ReadRequest(Framed(hello)) == ReadOutcome(Framed(hello), false, None, [])
  {
    AppendReadRoundTrip([104, 101, 108, 108, 111]);
  }
}
