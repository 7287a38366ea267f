/** A model of the part of Go's `bytes.Buffer` that the framing layer relies on:
    a byte queue whose unread part is `buf[off..]`, written at the tail and
    read from the head, with a one-step memory of the last read that
    `UnreadByte` consults. */
module Bytes {
  import opened Wrappers

  newtype byte = x: int | 0 <= x < 256

  /** The count Go's `copy` moves: the smaller of the two lengths. */
  function Min(a: nat, b: nat): (m: nat)
    ensures m <= a && m <= b && (m == a || m == b)
  {
    if a <= b then a else b
  }

  /** `n` zero bytes: what `make([]byte, n)` holds. */
  function Zeros(n: nat): (z: seq<byte>)
    ensures |z| == n && forall i :: 0 <= i < n ==> z[i] == 0
  {
    seq(n, _ => 0)
  }

  /** What a zeroed slice of length `n` holds after `Read` copied the front of `s` into it. */
  function Filled(s: seq<byte>, n: nat): (f: seq<byte>)
    ensures |f| == n
  {
    s[..Min(n, |s|)] + Zeros(n - Min(n, |s|))
  }

  /** When `s` holds at least `n` bytes, the slice is exactly its front. */
  lemma FilledFromLongEnough(s: seq<byte>, n: nat)
    requires n <= |s|
    ensures Filled(s, n) == s[..n]
  {
    assert Zeros(0) == [];
  }

  /** A read into a zeroed slice of length `n` leaves it `Filled`. */
  lemma ReadIntoZeroed(s: seq<byte>, n: nat, k: nat)
    requires k == Min(n, |s|)
    ensures s[..k] + Zeros(n)[k..] == Filled(s, n)
  {
    assert Zeros(n)[k..] == Zeros(n - k);
  }

  /** The errors a buffer read can report: `io.EOF` and `errUnreadByte`, the error of an
      `UnreadByte` that does not follow a successful read. */
  datatype BufferError = EOF | ErrUnreadByte

  /** The buffer's record of the last operation (`opRead` or `opInvalid`; the rune
      variants are never produced here because `ReadRune` is not used). */
  datatype ReadOp = OpInvalid | OpRead

  class Buffer {
    var buf: seq<byte>
    var off: nat
    var lastRead: ReadOp

    ghost predicate Valid()
      reads this
    {
      off <= |buf| && (lastRead == OpRead ==> off > 0)
    }

    /** The unread portion, Go's `b.Bytes()`. */
    function Bytes(): seq<byte>
      reads this
      requires Valid()
    {
      buf[off..]
    }

    /** `bytes.NewBuffer` of an empty slice (its capacity is only a hint). */
    constructor ()
      ensures Valid() && Bytes() == [] && off == 0 && lastRead == OpInvalid
    {
      buf := [];
      off := 0;
      lastRead := OpInvalid;
    }

    /** Copies `min(p.Length, available)` bytes into the front of `p` and consumes them.
        Only an empty buffer reports an error, and only when `p` is not empty. */
    method Read(p: array<byte>) returns (n: nat, err: Option<BufferError>)
      requires Valid()
      modifies this, p
      ensures Valid()
      ensures old(Bytes()) == [] ==>
        n == 0 && p[..] == old(p[..]) && buf == [] && off == 0 && lastRead == OpInvalid &&
        err == (if p.Length == 0 then None else Some(EOF))
      ensures old(Bytes()) != [] ==>
        err == None && n == Min(p.Length, |old(Bytes())|) &&
        p[..] == old(Bytes())[..n] + old(p[..])[n..] && Bytes() == old(Bytes())[n..] &&
        buf == old(buf) && off == old(off) + n &&
        lastRead == (if n > 0 then OpRead else OpInvalid)
    {
      lastRead := OpInvalid;
      if off == |buf| {
        buf, off := [], 0;
        if p.Length == 0 {
          return 0, None;
        }
        return 0, Some(EOF);
      }
      n := Min(p.Length, |buf| - off);
      forall i | 0 <= i < n {
        p[i] := buf[off + i];
      }
      off := off + n;
      if n > 0 {
        lastRead := OpRead;
      }
      err := None;
    }

    /** Consumes and returns the next byte, or reports `EOF` (and yields 0) when empty. */
    method ReadByte() returns (c: byte, err: Option<BufferError>)
      requires Valid()
      modifies this
      ensures Valid()
      ensures old(Bytes()) == [] ==>
        c == 0 && err == Some(EOF) && buf == [] && off == 0 && lastRead == OpInvalid
      ensures old(Bytes()) != [] ==>
        c == old(Bytes())[0] && err == None && Bytes() == old(Bytes())[1..] && buf == old(buf) && off == old(off) + 1 &&
        lastRead == OpRead
    {
      if off == |buf| {
        buf, off, lastRead := [], 0, OpInvalid;
        return 0, Some(EOF);
      }
      c := buf[off];
      off := off + 1;
      lastRead := OpRead;
      err := None;
    }

    /** Steps back over the last byte read. It fails whenever the last operation was
        not a read that consumed bytes (a `Write`, a failed read, a read of nothing). */
    method UnreadByte() returns (err: Option<BufferError>)
      requires Valid()
      modifies this
      ensures Valid()
      ensures old(lastRead) == OpInvalid ==> err == Some(ErrUnreadByte) && unchanged(this)
      ensures old(lastRead) == OpRead ==>
        err == None && buf == old(buf) && off == old(off) - 1 && lastRead == OpInvalid &&
        Bytes() == [old(buf)[old(off) - 1]] + old(Bytes())
    {
      if lastRead == OpInvalid {
        return Some(ErrUnreadByte);
      }
      lastRead := OpInvalid;
      if off > 0 {
        off := off - 1;
      }
      err := None;
    }

    /** Appends `p` at the tail; it never fails, so it returns only the count. */
    method Write(p: seq<byte>) returns (n: nat)
      requires Valid()
      modifies this
      ensures Valid()
      ensures n == |p| && Bytes() == old(Bytes()) + p && lastRead == OpInvalid
    {
      buf := buf + p;
      lastRead := OpInvalid;
      n := |p|;
    }
  }
}
