/**
 A file's bytes: reads, writes that grow the file, and runs of them through one handle.
 */
module FileData {

  newtype Byte = b: int | 0 <= b < 256

  /** The bytes a read of size at offset delivers. */
  function ReadAt(data: seq<Byte>, offset: nat, size: nat): (r: seq<Byte>)
    ensures offset >= |data| ==> r == []
    ensures offset < |data| ==> offset + |r| <= |data| && r == data[offset..offset + |r|]
    ensures offset < |data| ==> |r| == size || (|r| < size && offset + |r| == |data|)
  {
    if offset >= |data| then []
    else if offset + size > |data| then data[offset..]
    else data[offset..offset + size]
  }

  /** A read within the file moves the position within the file, and is short only at its end. */
  lemma ReadAtStays(data: seq<Byte>, offset: nat, size: nat)
    requires offset <= |data|
    ensures offset + |ReadAt(data, offset, size)| <= |data|
    ensures data[..offset] + ReadAt(data, offset, size) == data[..offset + |ReadAt(data, offset, size)|]
    ensures |ReadAt(data, offset, size)| == 0 && size > 0 ==> offset == |data|
  {
  }

  function Zeros(n: nat): (z: seq<Byte>)
    ensures |z| == n && forall i :: 0 <= i < n ==> z[i] == 0
  {
    seq(n, _ => 0)
  }

  /** The file after writing bytes at offset: zero-padded up to the offset, overwritten from there on. */
  function WriteAt(data: seq<Byte>, offset: nat, bytes: seq<Byte>): (r: seq<Byte>)
    ensures |r| == if offset + |bytes| > |data| then offset + |bytes| else |data|
    ensures forall i :: 0 <= i < |r| ==>
        r[i] == if offset <= i < offset + |bytes| then bytes[i - offset] else if i < |data| then data[i] else 0
  {
    var grown := if offset + |bytes| > |data| then data + Zeros(offset + |bytes| - |data|) else data;
    grown[..offset] + bytes + grown[offset + |bytes|..]
  }

  // ---------------------------------------------------------------- several writes through one handle

  function Joined(chunks: seq<seq<Byte>>): seq<Byte> {
    if chunks == [] then [] else chunks[0] + Joined(chunks[1..])
  }

  /** The file after writing the chunks one after the other, each where the last one ended. */
  function Writes(data: seq<Byte>, offset: nat, chunks: seq<seq<Byte>>): seq<Byte>
    decreases |chunks|
  {
    if chunks == [] then data
    else Writes(WriteAt(data, offset, chunks[0]), offset + |chunks[0]|, chunks[1..])
  }

  lemma WriteTwice(data: seq<Byte>, offset: nat, a: seq<Byte>, b: seq<Byte>)
    ensures WriteAt(WriteAt(data, offset, a), offset + |a|, b) == WriteAt(data, offset, a + b)
  {
    var l := WriteAt(WriteAt(data, offset, a), offset + |a|, b);
    var r := WriteAt(data, offset, a + b);
    assert |l| == |r|;
    assert forall i :: 0 <= i < |r| ==> l[i] == r[i];
  }

  lemma WriteNothing(data: seq<Byte>, offset: nat)
    requires offset <= |data|
    ensures WriteAt(data, offset, []) == data
  {
  }

  /** Successive writes through one handle leave what one write of all the bytes would. */
  lemma {:induction false} WritesJoin(data: seq<Byte>, offset: nat, chunks: seq<seq<Byte>>)
    requires offset <= |data| || chunks != []
    ensures Writes(data, offset, chunks) == WriteAt(data, offset, Joined(chunks))
    decreases |chunks|
  {
    if chunks == [] {
      WriteNothing(data, offset);
    } else {
      var next := WriteAt(data, offset, chunks[0]);
      WritesJoin(next, offset + |chunks[0]|, chunks[1..]);
      WriteTwice(data, offset, chunks[0], Joined(chunks[1..]));
    }
  }

  /** Writing a new file chunk by chunk and appending to an old one: the chunks, one after the other. */
  lemma WritesAppend(data: seq<Byte>, chunks: seq<seq<Byte>>)
    ensures Writes(data, |data|, chunks) == data + Joined(chunks)
  {
    WritesJoin(data, |data|, chunks);
    var r := WriteAt(data, |data|, Joined(chunks));
    assert |r| == |data + Joined(chunks)|;
    assert forall i :: 0 <= i < |r| ==> r[i] == (data + Joined(chunks))[i];
  }

  /** What was written is what is read back from the same place. */
  lemma ReadWritten(data: seq<Byte>, offset: nat, bytes: seq<Byte>)
    ensures ReadAt(WriteAt(data, offset, bytes), offset, |bytes|) == bytes
  {
    var w := WriteAt(data, offset, bytes);
    if bytes != [] {
      assert |ReadAt(w, offset, |bytes|)| == |bytes|;
      assert forall i :: 0 <= i < |bytes| ==> w[offset + i] == bytes[i];
    } else {
      assert |ReadAt(w, offset, 0)| == 0;
    }
  }

  /** A read away from a write sees what was there before. */
  lemma ReadElsewhere(data: seq<Byte>, offset: nat, bytes: seq<Byte>, from: nat, size: nat)
    requires from + size <= |data| && (from + size <= offset || offset + |bytes| <= from)
    ensures ReadAt(WriteAt(data, offset, bytes), from, size) == ReadAt(data, from, size)
  {
    var w := WriteAt(data, offset, bytes);
    if from < |data| {
      var a := ReadAt(w, from, size);
      var b := ReadAt(data, from, size);
      assert |a| == size && |b| == size;
      assert forall i :: from <= i < from + size ==> w[i] == data[i];
    }
  }
}
