/** Bytes, byte strings and the files they are kept in. */
module Bytes {
  type byte = x: int | 0 <= x < 256

  /** `pwrite`: bytes beyond the end extend the file, a gap reads as zero. */
  function PWrite(file: seq<byte>, off: nat, data: seq<byte>): (r: seq<byte>)
    ensures |r| == if data != [] && off + |data| > |file| then off + |data| else |file|
    ensures forall i | 0 <= i < |r| ::
              r[i] == if off <= i < off + |data| then data[i - off] else if i < |file| then file[i] else 0
  {
    var n := if data != [] && off + |data| > |file| then off + |data| else |file|;
    seq(n, i requires 0 <= i < n =>
          if off <= i < off + |data| then data[i - off] else if i < |file| then file[i] else 0)
  }

  lemma PWriteAppend(file: seq<byte>, off: nat, a: seq<byte>, b: seq<byte>)
    ensures PWrite(PWrite(file, off, a), off + |a|, b) == PWrite(file, off, a + b)
  {
  }

  /** A file on disk. */
  class DiskFile {
    var bytes: seq<byte>

    constructor (bytes: seq<byte>)
      ensures this.bytes == bytes
    {
      this.bytes := bytes;
    }
  }
}
