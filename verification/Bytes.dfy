module Bytes {
  type byte = b: int | 0 <= b < 256

  type Bytes = seq<byte>
}

/** What is read from front to back. */
module ByteStreams {
  import opened Bytes

  class ByteStream {
    const data: Bytes
    var pos: nat

    constructor (data: Bytes)
      ensures this.data == data && pos == 0
    {
      this.data := data;
      pos := 0;
    }

    function Rest(): Bytes
      requires pos <= |data|
      reads this
    {
      data[pos..]
    }

    /** Up to `n` bytes; fewer only at the end. */
    method Read(n: nat) returns (b: Bytes)
      requires pos <= |data|
      modifies this
      ensures pos <= |data|
      ensures var m := if n <= |old(Rest())| then n else |old(Rest())|;
        b == old(Rest())[..m] && Rest() == old(Rest())[m..]
    {
      var m := if n <= |data| - pos then n else |data| - pos;
      b := data[pos..pos + m];
      assert b == Rest()[..m];
      pos := pos + m;
      assert Rest() == old(Rest())[m..];
    }

    /** `read(1)`: one byte, or none at the end. */
    method ReadByte() returns (b: Bytes)
      requires pos <= |data|
      modifies this
      ensures pos <= |data|
      ensures if old(pos) < |data| then b == [data[old(pos)]] && pos == old(pos) + 1 else b == [] && pos == old(pos)
    {
      b := Read(1);
      assert |Rest()| == |data| - pos;
    }
  }
}
