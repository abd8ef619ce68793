/** File contents as byte sequences, and the positional write a write stream
    opened with a `start` offset performs. */
module ByteFile {

  newtype byte = x: int | 0 <= x < 256

  type Bytes = seq<byte>

  function Max(a: nat, b: nat): nat {
    if a < b then b else a
  }

  function Zeros(n: nat): (r: Bytes)
    ensures |r| == n
    ensures forall i :: 0 <= i < n ==> r[i] == 0
  {
    if n == 0 then [] else Zeros(n - 1) + [0]
  }

  /** Writes `data` into `file` starting at byte `start`. Bytes of `file` outside
      the written range are kept; a gap between the old end of the file and
      `start` reads back as zero bytes (a hole). */
  function WriteAt(file: Bytes, start: nat, data: Bytes): (r: Bytes)
    ensures |r| == Max(|file|, start + |data|)
    ensures forall i :: 0 <= i < |r| ==>
      r[i] == if start <= i < start + |data| then data[i - start]
              else if i < |file| then file[i]
              else 0
  {
    var padded := if start <= |file| then file else file + Zeros(start - |file|);
    var tail := if start + |data| < |padded| then padded[start + |data|..] else [];
    padded[..start] + data + tail
  }

  /** `file` holds `data` at byte offset `start`. */
  predicate HoldsAt(file: Bytes, start: nat, data: Bytes)
  {
    start + |data| <= |file| && file[start..start + |data|] == data
  }

  /** After a write, the written bytes read back at their offset. */
  lemma WriteAtHolds(file: Bytes, start: nat, data: Bytes)
    ensures HoldsAt(WriteAt(file, start, data), start, data)
  {
    var r := WriteAt(file, start, data);
    forall i | 0 <= i < |data| ensures r[start..start + |data|][i] == data[i] {
      assert r[start + i] == data[i];
    }
  }

  /** A write leaves alone what a file holds entirely before the written range. */
  lemma WriteAtKeepsEarlier(file: Bytes, start: nat, data: Bytes, earlier: nat, kept: Bytes)
    requires HoldsAt(file, earlier, kept) && earlier + |kept| <= start
    ensures HoldsAt(WriteAt(file, start, data), earlier, kept)
  {
    var r := WriteAt(file, start, data);
    forall i | 0 <= i < |kept| ensures r[earlier..earlier + |kept|][i] == kept[i] {
      assert r[earlier + i] == file[earlier + i];
      assert file[earlier..earlier + |kept|][i] == kept[i];
    }
  }

  /** Writing at the current end of a file appends. */
  lemma WriteAtEnd(file: Bytes, data: Bytes)
    ensures WriteAt(file, |file|, data) == file + data
  {
    var r := WriteAt(file, |file|, data);
    assert |r| == |file + data|;
    forall i | 0 <= i < |r| ensures r[i] == (file + data)[i] { }
  }

  /** The chunks of a file laid end to end. */
  function Flatten(chunks: seq<Bytes>): Bytes
  {
    if chunks == [] then [] else Flatten(chunks[..|chunks| - 1]) + chunks[|chunks| - 1]
  }

  /** Each chunk but the last is exactly `chunkSize` bytes long, as the chunks
      cut from one file are. */
  predicate FullButLast(chunks: seq<Bytes>, chunkSize: nat)
  {
    forall k :: 0 <= k < |chunks| - 1 ==> |chunks[k]| == chunkSize
  }

  lemma {:induction false} FlattenFullLength(chunks: seq<Bytes>, chunkSize: nat)
    requires forall k :: 0 <= k < |chunks| ==> |chunks[k]| == chunkSize
    ensures |Flatten(chunks)| == |chunks| * chunkSize
  {
    if chunks != [] {
      FlattenFullLength(chunks[..|chunks| - 1], chunkSize);
    }
  }
}
