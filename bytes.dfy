/** Go strings and byte slices: both are plain sequences of bytes. */
module Bytes {

  /** One byte, 0 through 255. */
  type Byte = b: int | 0 <= b < 256

  /** A Go string or []byte; the empty sequence is Go's "" (an unset protobuf string). */
  type ByteString = seq<Byte>

  /** strings.Join(ss, ""): every string in order, with no separator between them. */
  function Join(ss: seq<ByteString>): (r: ByteString)
  {
    if ss == [] then [] else ss[0] + Join(ss[1..])
  }

  /** Joining two lists of strings is joining each and appending the results. */
  lemma {:induction false} JoinAppend(a: seq<ByteString>, b: seq<ByteString>)
    ensures Join(a + b) == Join(a) + Join(b)
  {
    if a == [] {
      assert a + b == b;
    } else {
      assert (a + b)[1..] == a[1..] + b;
      JoinAppend(a[1..], b);
    }
  }

  /** Joining one more string appends it at the end. */
  lemma {:induction false} JoinSnoc(ss: seq<ByteString>, s: ByteString)
    ensures Join(ss + [s]) == Join(ss) + s
  {
    JoinAppend(ss, [s]);
  }
}
