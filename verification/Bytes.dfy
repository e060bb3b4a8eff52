/** Octets, shared by the modules that work on memory and messages. */
module Bytes {
  newtype byte = x: int | 0 <= x < 256

  lemma InMiddle(a: seq<byte>, b: seq<byte>, c: seq<byte>)
    ensures (a + b + c)[|a|..|a| + |b|] == b
  {
  }
}
