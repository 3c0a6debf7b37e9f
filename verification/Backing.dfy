/** The stream that everything is finally written to. */
module Backing {
  import opened Bytes

  /** Bytes, a position, and a Size that is honoured. */
  class BackingStream {
    var bytes: seq<byte>
    var position: nat
    const canWrite: bool

    constructor (bytes: seq<byte>, canWrite: bool)
      ensures this.bytes == bytes && this.position == 0 && this.canWrite == canWrite
    {
      this.bytes, this.position, this.canWrite := bytes, 0, canWrite;
    }

    method Seek(position: nat)
      modifies this`position
      ensures this.position == position
    {
      this.position := position;
    }

    method Read(n: nat) returns (r: seq<byte>)
      modifies this`position
      ensures r == ArrayRead(bytes, old(position), n)
      ensures position == old(position) + |r|
    {
      r := ArrayRead(bytes, position, n);
      position := position + |r|;
    }

    method Write(data: seq<byte>)
      modifies this
      ensures bytes == ArrayWrite(old(bytes), old(position), data)
      ensures position == old(position) + |data|
    {
      bytes := ArrayWrite(bytes, position, data);
      position := position + |data|;
    }

    method WriteAsync(data: seq<byte>, offset: nat)
      modifies this
      ensures bytes == ArrayWrite(old(bytes), offset, data)
      ensures position == offset + |data|
    {
      Seek(offset);
      Write(data);
    }

    method Resize(n: nat)
      modifies this`bytes
      ensures bytes == Bytes.Resize(old(bytes), n)
    {
      bytes := Bytes.Resize(bytes, n);
    }
  }
}
