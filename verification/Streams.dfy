/** Strings as byte buffers, and byte streams (src/arpc/io_adapters.cpp,
    src/arpc/string_adapters.cpp): an output stream appends to a string, an input stream is a
    string and a position in it. */
module Streams {
  import opened Results

  type byte = x: int | 0 <= x < 256

  /** What reading `n` bytes from the front of `bs` yields: the bytes and the rest. */
  function Take(bs: seq<byte>, n: nat): (r: Result<(seq<byte>, seq<byte>)>)
  {
    if n <= |bs| then Ok((bs[..n], bs[n..])) else Err(Eof)
  }

  /** std::string: a resizable byte buffer. */
  class ByteString {
    var chars: array<byte>

    ghost function Contents(): seq<byte>
      reads this, chars
    {
      chars[..]
    }

    constructor (s: seq<byte>)
      ensures Contents() == s && fresh(chars)
    {
      chars := new byte[|s|](i requires 0 <= i < |s| => s[i]);
    }

    /** std::string::resize, zero filled. */
    method Resize(n: nat)
      modifies this
      ensures fresh(chars) && chars.Length == n
      ensures forall i :: 0 <= i < n ==>
        chars[i] == if i < old(chars.Length) then old(chars[i]) else 0
    {
      var old_ := chars;
      chars := new byte[n](i requires 0 <= i < n reads old_ => if i < old_.Length then old_[i] else 0);
    }

    method PushBack(b: byte)
      modifies this
      ensures fresh(chars) && Contents() == old(Contents()) + [b]
    {
      ghost var before := Contents();
      var n := chars.Length;
      Resize(n + 1);
      chars[n] := b;
      assert chars[..n] == before;
    }
  }

  class OutputStream {
    var data: seq<byte>

    constructor ()
      ensures data == []
    {
      data := [];
    }

    method Putc(b: byte)
      modifies this
      ensures data == old(data) + [b]
    {
      data := data + [b];
    }

    method Write(p: seq<byte>)
      modifies this
      ensures data == old(data) + p
    {
      data := data + p;
    }
  }

  class InputStream {
    const source: seq<byte>
    var pos: nat

    ghost predicate Valid()
      reads this
    {
      pos <= |source|
    }

    ghost function Rest(): seq<byte>
      reads this
      requires Valid()
    {
      source[pos..]
    }

    constructor (source: seq<byte>)
      ensures Valid() && this.source == source && Rest() == source
    {
      this.source := source;
      pos := 0;
    }

    /** string_input_stream::getc: one byte, or Eof without moving. */
    method Getc() returns (r: Result<byte>)
      requires Valid()
      modifies this
      ensures Valid()
      ensures old(Rest()) == [] ==> r == Err(Eof) && pos == old(pos)
      ensures old(Rest()) != [] ==> r == Ok(old(Rest())[0]) && Rest() == old(Rest())[1..]
    {
      if pos >= |source| {
        return Err(Eof);
      }
      pos := pos + 1;
      return Ok(source[pos - 1]);
    }

    /** read_fully: a short read consumes what is left and throws. */
    method ReadFully(n: nat) returns (r: Result<seq<byte>>)
      requires Valid()
      modifies this
      ensures Valid()
      ensures r.Ok? <==> n <= |old(Rest())|
      ensures r.Ok? ==> Take(old(Rest()), n) == Ok((r.value, Rest()))
      ensures r.Err? ==> r.error == Eof && Rest() == []
    {
      if n <= |source| - pos {
        r := Ok(source[pos..pos + n]);
        assert source[pos..][..n] == source[pos..pos + n] && source[pos..][n..] == source[pos + n..];
        pos := pos + n;
      } else {
        pos := |source|;
        r := Err(Eof);
      }
    }
  }
}
