/**
 * The two streams of the temporary-file copy and the buffered loop between them.
 */
module Streams {
  import opened Folders

  /** Size of the copy buffer, `ByteArray(8192)`. */
  const BufferSize: nat := 8192

  /** An InputStream over a document's bytes; `pos` counts the bytes already read. */
  class InputStream {
    const data: seq<byte>
    var pos: nat

    ghost predicate Valid()
      reads this
    {
      pos <= |data|
    }

    /** The bytes still to be read. */
    function Remaining(): seq<byte>
      reads this
      requires Valid()
    {
      data[pos..]
    }

    constructor (content: seq<byte>)
      ensures Valid() && Remaining() == content
    {
      data := content;
      pos := 0;
    }

    /**
     * read(buffer): -1 at the end of the stream; otherwise some number n of the
     * remaining bytes, at least one and at most the buffer's length, placed at the
     * front of the buffer. How many is the stream's choice; this one reads as many as fit.
     */
    method Read(buffer: array<byte>) returns (n: int)
      requires Valid() && buffer.Length > 0
      modifies this, buffer
      ensures Valid()
      ensures old(Remaining()) == [] ==> n == -1 && Remaining() == []
      ensures old(Remaining()) != [] ==> 0 < n <= buffer.Length && n <= |old(Remaining())|
      ensures old(Remaining()) != [] ==> buffer[..n] == old(Remaining())[..n]
      ensures old(Remaining()) != [] ==> Remaining() == old(Remaining())[n..]
    {
      if pos == |data| {
        return -1;
      }
      n := if |data| - pos < buffer.Length then |data| - pos else buffer.Length;
      var start := pos;
      for k := 0 to n
        invariant pos == start
        invariant forall m | 0 <= m < k :: buffer[m] == data[start + m]
      {
        buffer[k] := data[start + k];
      }
      pos := pos + n;
    }
  }

  /** An OutputStream; `written` is everything written to it so far. */
  class OutputStream {
    var written: seq<byte>

    constructor ()
      ensures written == []
    {
      written := [];
    }

    /** write(buffer, off, len). */
    method Write(buffer: array<byte>, off: nat, len: nat)
      requires off + len <= buffer.Length
      modifies this
      ensures written == old(written) + buffer[off..off + len]
    {
      written := written + buffer[off..off + len];
    }
  }

  /**
   * The copy loop of getRandomImageFile: read into an 8192-byte buffer until read
   * gives -1, writing each chunk in order and counting the bytes.
   */
  method Copy(input: InputStream, output: OutputStream) returns (totalBytes: nat)
    requires input.Valid()
    modifies input, output
    ensures input.Valid() && input.Remaining() == []
    ensures output.written == old(output.written) + old(input.Remaining())
    ensures totalBytes == |old(input.Remaining())|
  {
    var buffer := new byte[BufferSize];
    ghost var source := input.Remaining();
    totalBytes := 0;
    while true
      invariant input.Valid()
      invariant totalBytes <= |source|
      invariant input.Remaining() == source[totalBytes..]
      invariant output.written == old(output.written) + source[..totalBytes]
      decreases |input.Remaining()|
    {
      var bytesRead := input.Read(buffer);
      if bytesRead == -1 {
        break;
      }
      output.Write(buffer, 0, bytesRead);
      assert source[..totalBytes + bytesRead] == source[..totalBytes] + source[totalBytes..][..bytesRead];
      totalBytes := totalBytes + bytesRead;
    }
    assert source[..totalBytes] == source;
  }
}
