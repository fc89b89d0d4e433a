/**
 * The `std::istream` and `std::ostream` the manager reads and writes: a
 * byte string with a read cursor, and a byte string that grows at the end.
 * A read that asks for more bytes than are left moves the cursor to the
 * end and reports failure (the source never checks the failure bits).
 */
module Streams {
  import opened Wrappers
  import opened Bytes

  class InputStream {
    const data: Bytes
    var pos: nat

    ghost predicate Valid()
      reads this
    {
      pos <= |data|
    }

    /** The bytes not read yet. */
    function Rest(): Bytes
      reads this
      requires Valid()
    {
      data[pos..]
    }

    constructor (data: Bytes)
      ensures Valid() && this.data == data && Rest() == data
    {
      this.data := data;
      pos := 0;
    }

    /** `read(buffer, n)` */
    method Read(n: nat) returns (r: Option<Bytes>)
      requires Valid()
      modifies this
      ensures Valid()
      ensures if n <= |old(Rest())| then r == Some(old(Rest())[..n]) && Rest() == old(Rest())[n..]
              else r == None && Rest() == []
    {
      if pos + n <= |data| {
        r := Some(data[pos..pos + n]);
        assert data[pos..][..n] == data[pos..pos + n];
        assert data[pos..][n..] == data[pos + n..];
        pos := pos + n;
      } else {
        r := None;
        pos := |data|;
      }
    }

    /**
     * `read(buffer, n)` into a buffer that was initialised beforehand: the
     * bytes that were there, fewer than n when the stream ends early.
     */
    method ReadSome(n: nat) returns (r: Bytes)
      requires Valid()
      modifies this
      ensures Valid()
      ensures r == Take(old(Rest()), n) && Rest() == old(Rest())[|r|..]
    {
      r := Take(data[pos..], n);
      assert data[pos..][|r|..] == data[pos + |r|..];
      pos := pos + |r|;
    }

    /** Four bytes read into a `uint32_t`. */
    method ReadU32() returns (r: Option<U32>)
      requires Valid()
      modifies this
      ensures Valid()
      ensures if 4 <= |old(Rest())| then r == Some(DecodeU32(old(Rest())[..4])) && Rest() == old(Rest())[4..]
              else r == None && Rest() == []
    {
      var b := Read(4);
      r := if b.Some? then Some(DecodeU32(b.value)) else None;
    }

    /** Two bytes read into a `uint16_t`. */
    method ReadU16() returns (r: Option<U16>)
      requires Valid()
      modifies this
      ensures Valid()
      ensures if 2 <= |old(Rest())| then r == Some(DecodeU16(old(Rest())[..2])) && Rest() == old(Rest())[2..]
              else r == None && Rest() == []
    {
      var b := Read(2);
      r := if b.Some? then Some(DecodeU16(b.value)) else None;
    }

    /** Everything left, as the console's payload reader consumes it. */
    method ReadToEnd() returns (r: Bytes)
      requires Valid()
      modifies this
      ensures Valid() && r == old(Rest()) && Rest() == []
    {
      r := data[pos..];
      pos := |data|;
    }

    /** `std::getline(stream, line)` */
    method GetLine() returns (line: Bytes)
      requires Valid()
      modifies this
      ensures Valid() && (line, Rest()) == SplitLine(old(Rest()))
    {
      var split := SplitLine(data[pos..]);
      line := split.0;
      pos := |data| - |split.1|;
      assert data[pos..] == split.1;
    }
  }

  class OutputStream {
    var data: Bytes

    constructor ()
      ensures data == []
    {
      data := [];
    }

    /** `write(buffer, n)` and `operator<<` */
    method Write(b: Bytes)
      modifies this
      ensures data == old(data) + b
    {
      data := data + b;
    }
  }
}
