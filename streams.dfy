/**
 * The file streams the compressor reads from and writes to. A file is a byte
 * sequence; an input stream is that sequence and a read position that each
 * read advances, an output stream the bytes written so far. Opening, closing
 * and the open-failure branches are not modelled.
 */
module Streams {
  import opened Bytes

  /** An input file stream opened in binary mode. */
  class InStream {
    const data: seq<byte>
    var pos: nat

    ghost predicate Valid()
      reads this
    {
      pos <= |data|
    }

    /** The bytes not yet read. */
    ghost function Remaining(): seq<byte>
      reads this
      requires Valid()
    {
      data[pos..]
    }

    constructor (contents: seq<byte>)
      ensures Valid() && data == contents && pos == 0 && Remaining() == contents
    {
      data := contents;
      pos := 0;
    }

    /**
     * Reads `n` bytes. The read succeeds only when `n` bytes remain; a short
     * read takes what is left, leaves the stream at its end and fails.
     */
    method Read(n: nat) returns (ok: bool, got: seq<byte>)
      requires Valid()
      modifies this
      ensures Valid()
      ensures ok == (n <= |old(Remaining())|)
      ensures ok ==> got == old(Remaining())[..n] && Remaining() == old(Remaining())[n..]
      ensures !ok ==> got == old(Remaining()) && Remaining() == []
      ensures pos == if ok then old(pos) + n else |data|
    {
      if n <= |data| - pos {
        ok, got := true, data[pos..pos + n];
        pos := pos + n;
      } else {
        ok, got := false, data[pos..];
        pos := |data|;
      }
    }
  }

  /** An output file stream opened in binary mode, truncating. */
  class OutStream {
    var written: seq<byte>

    constructor ()
      ensures written == []
    {
      written := [];
    }

    method Write(bytes: seq<byte>)
      modifies this
      ensures written == old(written) + bytes
    {
      written := written + bytes;
    }
  }
}
