/**
 * The incremental checksum `crc32part(src, len, crc)`: a left fold of a table-driven
 * byte step over the buffer, starting from the running value. The step's table is
 * not part of this model, so every definition and lemma here takes the step as a
 * parameter and holds for any step function.
 */
module Crc {
  import opened ByteOrder

  /** One byte of `crc32part`: new running value from the old one and the next byte. */
  type CrcStep = (uint32, byte) -> uint32

  function Crc32Part(step: CrcStep, data: seq<byte>, crc: uint32): uint32
    decreases |data|
  {
    if data == [] then crc else Crc32Part(step, data[1..], step(crc, data[0]))
  }

  /** Feeding `a` and then `b` is feeding `a + b`: the accumulator can be resumed anywhere. */
  lemma {:induction false} Crc32PartAppend(step: CrcStep, a: seq<byte>, b: seq<byte>, crc: uint32)
    ensures Crc32Part(step, a + b, crc) == Crc32Part(step, b, Crc32Part(step, a, crc))
    decreases |a|
  {
    if a == [] {
      assert a + b == b;
    } else {
      assert (a + b)[0] == a[0];
      assert (a + b)[1..] == a[1..] + b;
      Crc32PartAppend(step, a[1..], b, step(crc, a[0]));
    }
  }

  /** The bytes of a chunk list, in order. */
  function Flatten(chunks: seq<seq<byte>>): seq<byte>
  {
    if chunks == [] then [] else chunks[0] + Flatten(chunks[1..])
  }

  /** Calls `crc32part` once per chunk, each call resuming from the previous result. */
  function FeedChunks(step: CrcStep, chunks: seq<seq<byte>>, crc: uint32): uint32
  {
    if chunks == [] then crc else FeedChunks(step, chunks[1..], Crc32Part(step, chunks[0], crc))
  }

  /** Any split into chunks gives the checksum of the whole buffer. */
  lemma {:induction false} FeedChunksIsWhole(step: CrcStep, chunks: seq<seq<byte>>, crc: uint32)
    ensures FeedChunks(step, chunks, crc) == Crc32Part(step, Flatten(chunks), crc)
  {
    if chunks != [] {
      FeedChunksIsWhole(step, chunks[1..], Crc32Part(step, chunks[0], crc));
      Crc32PartAppend(step, chunks[0], Flatten(chunks[1..]), crc);
    }
  }

  /** The split a copy loop makes when it moves at most `size` bytes per round. */
  function Chunks(data: seq<byte>, size: nat): (r: seq<seq<byte>>)
    requires size > 0
    ensures Flatten(r) == data
    ensures forall i :: 0 <= i < |r| ==> 0 < |r[i]| <= size
    ensures forall i :: 0 <= i < |r| - 1 ==> |r[i]| == size
    decreases |data|
  {
    if data == [] then []
    else if |data| <= size then
      assert Flatten([data]) == data + Flatten([]);
      [data]
    else
      var rest := Chunks(data[size..], size);
      assert ([data[..size]] + rest)[1..] == rest;
      assert data[..size] + data[size..] == data;
      [data[..size]] + rest
  }

  /** Fixed-size chunking does not change the checksum. */
  lemma ChunkedIsWhole(step: CrcStep, data: seq<byte>, size: nat, crc: uint32)
    requires size > 0
    ensures FeedChunks(step, Chunks(data, size), crc) == Crc32Part(step, data, crc)
  {
    FeedChunksIsWhole(step, Chunks(data, size), crc);
  }
}
