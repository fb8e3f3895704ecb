/** An in-memory binary stream with one cursor for reading, as the SSZ codec uses it. */
module ByteStreams {
  import opened Bytes

  class ByteStream {
    var data: ByteString
    var pos: nat

    constructor (data: ByteString)
      ensures this.data == data && pos == 0
    {
      this.data, pos := data, 0;
    }

    ghost predicate Valid()
      reads this
    {
      pos <= |data|
    }

    method Write(bytes: ByteString)
      modifies `data
      ensures data == old(data) + bytes
    {
      data := data + bytes;
    }

    /** Up to n bytes; fewer when the stream ends. */
    method Read(n: nat) returns (bytes: ByteString)
      requires Valid()
      modifies `pos
      ensures pos == if old(pos) + n <= |data| then old(pos) + n else |data|
      ensures Valid() && bytes == data[old(pos)..pos]
    {
      var end := if pos + n <= |data| then pos + n else |data|;
      bytes := data[pos..end];
      pos := end;
    }
  }
}
