# goris framing layer in Dafny

This project models the length-prefixed framing layer of goris (`common/protocol.go`).
A frame is a 4-byte little-endian `uint32` length followed by that many payload bytes.
Frames are appended to the tail of a Go `bytes.Buffer` and read back from its head.

- `wrappers.dfy`: `Option` (Go's nil-able `error`).
- `bytes_buffer.dfy`: module `Bytes`, the part of Go's `bytes.Buffer` the layer uses.
  The class keeps Go's own fields: `buf`, the read offset `off`, and `lastRead`, the
  memory of the last read that `UnreadByte` consults. The unread bytes are `buf[off..]`
  (`Bytes()`). `Read` copies `min(len(p), available)` bytes. It returns `io.EOF` only
  when the buffer is empty and `p` is not. `ReadByte` behaves as in Go. `UnreadByte`
  fails unless the last operation was a read that consumed bytes, as Go's does.
- `protocol.dfy`: module `Protocol`, the reader and the writer.
  `ReadRequest` is a function of the unread bytes. It gives the returned data, the
  `remaining` flag, the error and the bytes left afterwards. `ReadRequestFromBuffer`
  is proved to act on the buffer exactly as `ReadRequest` says. The lemmas state what
  the framing layer promises about `ReadRequest`, and about `Framed`, the bytes that
  `AppendToBuffer` appends.

The code ignores the byte counts that `Read` returns. The model keeps two consequences:

- A payload cut short is not an error: it is zero-padded to the declared length
  (`ReadShortPayload`). A header cut short is zero-padded too, and the read then fails
  with "no requests" or `io.EOF`, having consumed its bytes (`ReadShortHeader`). A header
  alone fails with `io.EOF` from the payload read (`ReadHeaderOnly`).
- The lookahead byte after a frame is pushed back only when it is non-zero. A zero byte
  is consumed. The next frame's header begins with its low length byte, so a length
  that is a multiple of 256 loses that byte (`LookaheadEatsNextHeader`). The read after
  it then cannot return the second message (`SecondFrameLost`). Any number of frames
  reads back in order when no later length is a multiple of 256 (`FramesReadInOrder`).

A short read is not reported separately, and a zero lookahead byte is not put back;
the model follows the code. Writes to a `bytes.Buffer` never fail, so the writer has no I/O error case.

## Model

| member | source | states |
|---|---|---|
| `Bytes.Buffer.constructor` | common/protocol.go:62-64 | a buffer created for a nil argument holds no bytes |
| `Bytes.Buffer.Read` | common/protocol.go:16-17 | copies min(len(p), available) bytes into the front of p and consumes them; the rest of p is untouched; io.EOF only when the buffer is empty and p is not, and then the buffer resets |
| `Bytes.Buffer.ReadByte` | common/protocol.go:33 | consumes and returns the front byte; on an empty buffer returns 0 with io.EOF |
| `Bytes.Buffer.UnreadByte` | common/protocol.go:38 | right after a read that consumed bytes, the last byte read is back at the front; otherwise fails with errUnreadByte and changes nothing |
| `Bytes.Buffer.Write` | common/protocol.go:69 | the unread bytes become the old ones followed by p; never fails |
| `Protocol.EncodeLE32` | common/protocol.go:66-67 | four bytes that decode back to the length written |
| `Protocol.DecodeLE32` | common/protocol.go:22 | the decoded length fits in a uint32 |
| `Protocol.EncodeDecodeLE32` | common/protocol.go:22 | encoding a decoded header gives back the same four bytes, so the header codec is a bijection |
| `Protocol.Framed` | common/protocol.go:66-79 | the appended bytes are 4 + len(msg) long, start with a header decoding to len(msg), and end with msg |
| `Protocol.ReadRequest` | common/protocol.go:14-44 | the reader only consumes from the front; a success returns a frame whose header is the one read and states the payload length; remaining implies a non-zero byte still at the front; an empty buffer gives io.EOF and no data |
| `Protocol.ReadRequestFromBuffer` | common/protocol.go:14-44 | the returned data, flag and error and the buffer's new unread bytes are those `ReadRequest` gives for the old unread bytes |
| `Protocol.ReadZeroed` | common/protocol.go:26-28 | a zeroed slice of n bytes after one Read: the front of the buffer padded with zeros, or all zeros with io.EOF (unless n is 0) when the buffer is empty |
| `Protocol.ReadLookahead` | common/protocol.go:33-39 | remaining holds iff a non-zero byte comes next; that byte stays, a zero byte is consumed |
| `Protocol.ReadFromBuffer` | common/protocol.go:46-55 | on success returns the frame's payload without its 4-byte header; on error returns no payload and the reader's error; consumes what the reader consumes |
| `Protocol.AppendToBuffer` | common/protocol.go:57-80 | a message over 4096 bytes returns nil and MessageTooLarge(len, 4096) and leaves the buffer untouched; otherwise the buffer, or a fresh one for nil, gains exactly `Framed(msg)` after its old bytes |
| `Protocol.ReadWholeFrame` | common/protocol.go:22-42 | a buffer starting with a whole frame of length L > 0 yields its first 4 + L bytes; the flag and the leftover bytes follow the lookahead rule |
| `Protocol.ReadZeroHeader` | common/protocol.go:22-25 | a zero header fails with NoRequests after consuming exactly the 4 header bytes |
| `Protocol.ReadShortHeader` | common/protocol.go:16-31 | 1 to 3 bytes are all consumed; the zero-padded header yields NoRequests, or io.EOF with L zero bytes of data |
| `Protocol.ReadHeaderOnly` | common/protocol.go:26-31 | a non-zero header with nothing after it fails with io.EOF and L zero bytes of data, leaving the buffer empty |
| `Protocol.ReadShortPayload` | common/protocol.go:26-42 | a payload shorter than declared succeeds, zero-padded to the declared length, with nothing remaining |
| `Protocol.ReadAfterAppend` | common/protocol.go:33-42 | the frame of a non-empty message reads back whole, whatever follows; the payload is the message; the next byte stays iff it is non-zero |
| `Protocol.AppendReadRoundTrip` | common/protocol.go:46-55 | appending a non-empty message to an empty buffer and reading gives the message back, remaining false, and an empty buffer |
| `Protocol.AppendEmptyIsUnreadable` | common/protocol.go:22-25 | the frame of an empty message always reads back as NoRequests |
| `Protocol.TwoFramesInOrder` | common/protocol.go:33-39 | two frames read back in order when the second length is not a multiple of 256 |
| `Protocol.LookaheadEatsNextHeader` | common/protocol.go:33-39 | when the second length is a multiple of 256, the first read consumes the second header's zero low byte and reports nothing remaining |
| `Protocol.SecondFrameLost` | common/protocol.go:22-28 | after that lost byte, the next read cannot return the second message |
| `Protocol.AppendAll` | common/protocol.go:57-80 | appending messages in turn to an empty buffer leaves nothing for no messages, and the first message's frame at the front otherwise |
| `Protocol.ReadFrames` | common/protocol.go:46-55 | reading n frames in turn returns at most n payloads, and exactly n when no read fails |
| `Protocol.ReadFirstOfMany` | common/protocol.go:33-55 | with frames of several messages queued, the first read returns the first message and leaves the later frames untouched, provided the second length is not a multiple of 256 |
| `Protocol.FramesReadInOrder` | common/protocol.go:33-80 | non-empty messages appended in turn read back in the same order, with no error and an empty buffer at the end, when no message after the first has a length that is a multiple of 256 |
| `Protocol.HelloFrame` | common/protocol.go:66-79 | "hello" frames as 05 00 00 00 followed by its 5 bytes and reads back with nothing remaining |

## Left out

- `goris.go` (sockets, the accept loop and the echo over raw system calls) is not part of this model.
- `Bytes.Buffer.Write`: Go's `grow` may compact the buffer or reset it when empty, which moves `off`. The unread bytes are the same either way, and an `UnreadByte` right after a `Write` fails, so the model appends without compacting.
- `Bytes.Buffer.constructor`: the capacity hint passed to `bytes.NewBuffer` and the `ErrTooLarge` panic on growth are not modelled; the buffer is an unbounded sequence.
- `Protocol.ReadRequestFromBuffer`, `Protocol.ReadFromBuffer`: the buffer parameter is non-null, so the nil-pointer panic Go has for a nil `*bytes.Buffer` is not modelled.
- `Protocol.ReadZeroed`: `make([]byte, contentLength)` at common/protocol.go:26 may ask for up to 2^32 - 1 bytes for a garbage header, which can exhaust memory in Go; the model allocates without bound.
- The error branches after `Write` and `WriteString` are not modelled: those writes always succeed.
- Error messages are constructors (`Io(EOF)`, `NoRequests`, `MessageTooLarge(length, max)`), not formatted text.
- The unused constant `MESSAGE_LENGTH` is not modelled.
- Strings are byte sequences; the UTF-8 view given by `string(data[4:])` is not modelled.
- `Read`'s returned count is kept in the model but ignored by the reader, as in the code. The rune states of `lastRead` do not appear, because `ReadRune` is never used.
- Concurrent use of one buffer is outside the model; the layer assumes a single owner.
