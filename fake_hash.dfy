/** The identity accumulator of the grouping-key test and the expected-key helper beside it. */
module FakeHashing {
  import opened Wrappers
  import opened Bytes
  import Hex

  /** A hash.Hash that keeps every byte written, in order, and returns them as its digest. */
  class FakeHash {
    /** The contents of the embedded bytes.Buffer. */
    var buffer: ByteString

    constructor ()
      ensures buffer == []
    {
      buffer := [];
    }

    /** bytes.Buffer.Write: appends p and reports all of it written (the error is always nil). */
    method Write(p: ByteString) returns (n: nat)
      modifies this
      ensures buffer == old(buffer) + p
      ensures n == |p|
    {
      buffer := buffer + p;
      n := |p|;
    }

    /** bytes.Buffer.Reset: forgets everything written. */
    method Reset()
      modifies this
      ensures buffer == []
    {
      buffer := [];
    }

    /** Sum(b): b, followed by exactly the bytes written so far; the accumulator is not changed. */
    function Sum(b: ByteString): (r: ByteString)
      reads this
      ensures |r| == |b| + |buffer|
      ensures r[..|b|] == b && r[|b|..] == buffer
    {
      b + buffer
    }

    /** Size: the length of the digest Sum appends, which is the number of bytes written. */
    function Size(): (n: nat)
      reads this
      ensures n == |Sum([])|
    {
      |buffer|
    }

    /** BlockSize: the accumulator takes input one byte at a time. */
    function BlockSize(): (n: nat)
      ensures n == 1
    {
      1
    }
  }

  /** hexifyStrings: the lower-case hex of the strings joined with no separator. */
  function HexifyStrings(ss: seq<ByteString>): (r: ByteString)
    ensures |r| == 2 * |Join(ss)|
    ensures Hex.Decode(r) == Some(Join(ss))
  {
    Hex.DecodeEncode(Join(ss));
    Hex.Encode(Join(ss))
  }
}
