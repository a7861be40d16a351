// The byte streams of the library: a bounded buffer written from the front, and a cursor over
// octets received.

module Streams {
  import opened Octets

  /** A writable stream over the first `size` octets of a buffer. Once a write does not fit, all fail. */
  class Stream {
    const buf: array<byte>
    const size: nat
    var pos: nat
    var error: bool

    ghost predicate Valid()
      reads this
    {
      pos <= size <= buf.Length
    }

    ghost function Contents(): bytes
      requires Valid()
      reads this, buf
    {
      buf[..pos]
    }

    constructor (buf: array<byte>, size: nat)
      requires size <= buf.Length
      ensures Valid() && Contents() == [] && !error
      ensures this.buf == buf && this.size == size
    {
      this.buf := buf;
      this.size := size;
      pos := 0;
      error := false;
    }

    method Rewind()
      requires Valid()
      modifies this
      ensures Valid() && Contents() == [] && !error
    {
      pos := 0;
      error := false;
    }

    method Write(data: bytes) returns (ok: bool)
      requires Valid()
      modifies this, buf
      ensures Valid()
      ensures ok == (!old(error) && old(pos) + |data| <= size)
      ensures Contents() == if ok then old(Contents()) + data else old(Contents())
      ensures error == (old(error) || !ok)
    {
      ok := false;
      if !error {
        if size - pos >= |data| {
          for i := 0 to |data|
            invariant unchanged(this)
            invariant buf[..pos + i] == old(buf[..pos]) + data[..i]
          {
            buf[pos + i] := data[i];
          }
          pos := pos + |data|;
          ok := true;
          assert data[..|data|] == data;
        } else {
          error := true;
        }
      }
    }

    method PutU8(value: byte) returns (ok: bool)
      requires Valid()
      modifies this, buf
      ensures Valid()
      ensures ok == (!old(error) && old(pos) < size)
      ensures Contents() == if ok then old(Contents()) + [value] else old(Contents())
      ensures error == (old(error) || !ok)
    {
      ok := Write([value]);
    }

    /** Two octets in network order; only the low 16 bits count. */
    method PutU16(value: nat) returns (ok: bool)
      requires Valid()
      modifies this, buf
      ensures Valid()
      ensures ok == (!old(error) && old(pos) + 2 <= size)
      ensures Contents() == old(Contents()) + if ok then [value / 256 % 256, value % 256] else []
      ensures error == (old(error) || !ok)
    {
      ok := Write([value / 256 % 256, value % 256]);
    }

    predicate Eof()
      reads this
    {
      pos == size
    }
  }

  /** A cursor over the octets of one call. */
  class Input {
    const data: bytes
    var pos: nat
    var error: bool

    ghost predicate Valid()
      reads this
    {
      pos <= |data|
    }

    constructor (data: bytes)
      ensures Valid() && pos == 0 && !error && this.data == data
    {
      this.data := data;
      pos := 0;
      error := false;
    }

    method GetU8() returns (ok: bool, b: byte)
      requires Valid()
      modifies this
      ensures Valid()
      ensures ok == (!old(error) && old(pos) < |data|)
      ensures ok ==> b == data[old(pos)]
      ensures pos == old(pos) + if ok then 1 else 0
      ensures error == (old(error) || !ok)
    {
      ok, b := false, 0;
      if !error {
        if pos < |data| {
          b := data[pos];
          pos := pos + 1;
          ok := true;
        } else {
          error := true;
        }
      }
    }

    method Seek(offset: nat) returns (ok: bool)
      requires Valid()
      modifies `pos
      ensures Valid()
      ensures ok == (offset <= |data|)
      ensures pos == if ok then offset else old(pos)
    {
      ok := false;
      if offset <= |data| {
        pos := offset;
        ok := true;
      }
    }
  }
}
