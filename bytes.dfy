/** Bytes and the chunks a streamed HTTP body arrives in. */
module Bytes {

  newtype Byte = b: int | 0 <= b < 256

  type Chunk = seq<Byte>

  /** The bytes of `chunks` written one after the other. */
  function Concat(chunks: seq<Chunk>): seq<Byte> {
    if chunks == [] then [] else Concat(chunks[..|chunks| - 1]) + chunks[|chunks| - 1]
  }

  /** The sum of the lengths of `chunks`, as a running byte counter accumulates it. */
  function TotalLength(chunks: seq<Chunk>): nat {
    if chunks == [] then 0 else TotalLength(chunks[..|chunks| - 1]) + |chunks[|chunks| - 1]|
  }

  /** The byte counter agrees with the size of what was written. */
  lemma {:induction false} ConcatLength(chunks: seq<Chunk>)
    ensures |Concat(chunks)| == TotalLength(chunks)
  {
    if chunks != [] {
      ConcatLength(chunks[..|chunks| - 1]);
    }
  }
}
