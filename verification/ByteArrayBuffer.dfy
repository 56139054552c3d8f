/** `ByteArrayBuffer`: a queue of bytes kept as a list of chunks. */
module ByteArrayBuffers {
  import opened ByteArrays

  /** The bytes of a list of chunks. */
  ghost function Bytes(chunks: seq<ByteArray>): seq<byte>
    reads chunks
  {
    if chunks == [] then [] else chunks[0].data + Bytes(chunks[1..])
  }

  ghost predicate Distinct(chunks: seq<ByteArray>)
  {
    forall i, j :: 0 <= i < j < |chunks| ==> chunks[i] != chunks[j]
  }

  lemma {:induction false} BytesAppend(chunks: seq<ByteArray>, c: ByteArray)
    ensures Bytes(chunks + [c]) == Bytes(chunks) + c.data
    decreases |chunks|
  {
    if chunks == [] {
      assert [c][1..] == [];
      assert chunks + [c] == [c];
    } else {
      assert (chunks + [c])[1..] == chunks[1..] + [c];
      BytesAppend(chunks[1..], c);
    }
  }

  class ByteArrayBuffer {
    var dataListM: seq<ByteArray>
    var dataLengthM: nat
    ghost var pushed: seq<byte>     // all bytes ever pushed
    ghost var removed: seq<byte>    // all bytes ever popped, dropped or cleared

    ghost function Contents(): seq<byte>
      reads this, dataListM
    {
      Bytes(dataListM)
    }

    /** The length is right, and what was pushed is what was removed followed by what is left. */
    ghost predicate Valid()
      reads this, dataListM
    {
      && Distinct(dataListM)
      && dataLengthM == |Contents()|
      && pushed == removed + Contents()
    }

    constructor ()
      ensures Valid() && Contents() == [] && fresh(dataListM) && pushed == []
    {
      dataListM, dataLengthM, pushed, removed := [], 0, [], [];
    }

    method Push(byteArray: ByteArray)
      requires Valid()
      modifies this
      ensures Valid() && fresh(set c | c in dataListM && c !in old(dataListM))
      ensures Contents() == old(Contents()) + byteArray.data
      ensures pushed == old(pushed) + byteArray.data && removed == old(removed)
    {
      var copy := new ByteArray.Copy(byteArray);
      Append(copy);
      dataLengthM := dataLengthM + |byteArray.data|;
    }

    method PushBuffer(buffer: array<byte>, bufferLength: nat)
      requires Valid() && bufferLength <= buffer.Length
      modifies this
      ensures Valid() && fresh(set c | c in dataListM && c !in old(dataListM))
      ensures Contents() == old(Contents()) + buffer[..bufferLength]
      ensures pushed == old(pushed) + buffer[..bufferLength] && removed == old(removed)
    {
      var byteArray := new ByteArray();
      byteArray.SetDataFromBuffer(buffer, bufferLength);
      Append(byteArray);
      dataLengthM := dataLengthM + bufferLength;
    }

    /** `push_back`; the length is still to be brought up to date. */
    method Append(c: ByteArray)
      requires Valid() && c !in dataListM
      modifies this`dataListM, this`pushed
      ensures dataListM == old(dataListM) + [c] && Distinct(dataListM)
      ensures Contents() == old(Contents()) + c.data
      ensures pushed == old(pushed) + c.data && pushed == removed + Contents()
    {
      BytesAppend(dataListM, c);
      dataListM := dataListM + [c];
      pushed := pushed + c.data;
    }

    /** Copies bytes from offset `srcOffs` on. */
    method GetBytesToBuffer(buffer: array<byte>, bufferLength: nat, srcOffs: nat) returns (copiedBytes: nat)
      requires Valid() && bufferLength <= buffer.Length
      modifies buffer
      ensures copiedBytes == |Slice(Contents(), srcOffs, bufferLength)|
      ensures buffer[..copiedBytes] == Slice(Contents(), srcOffs, bufferLength)
      ensures buffer[copiedBytes..] == old(buffer[..])[copiedBytes..]
    {
      copiedBytes := 0;
      var offs: nat, i := srcOffs, 0;
      ghost var wanted := Slice(Contents(), srcOffs, bufferLength);
      assert dataListM[0..] == dataListM;
      while copiedBytes < bufferLength && i < |dataListM|
        invariant i <= |dataListM| && copiedBytes <= bufferLength
        invariant Gathering(buffer[..], copiedBytes, bufferLength, Bytes(dataListM[i..]), offs, wanted)
        invariant buffer[..][copiedBytes..] == old(buffer[..])[copiedBytes..]
      {
        var chunk := dataListM[i];
        ghost var before := buffer[..];
        assert dataListM[i..][1..] == dataListM[i + 1..];
        var cbytes := chunk.CopyDataToBuffer(buffer, copiedBytes, bufferLength - copiedBytes, offs);
        GatherPiece(before, buffer[..], copiedBytes, bufferLength, chunk.data, Bytes(dataListM[i + 1..]), offs, wanted);
        if cbytes != 0 {
          copiedBytes := copiedBytes + cbytes;
          offs := 0;
        } else {
          offs := offs - |chunk.data|;
        }
        i := i + 1;
      }
      GatheredAll(buffer[..], copiedBytes, bufferLength, Bytes(dataListM[i..]), offs, wanted);
    }

    /** Moves bytes out. */
    method PopBytesToBuffer(buffer: array<byte>, bufferLength: nat) returns (popped: nat)
      requires Valid() && bufferLength <= buffer.Length
      modifies this, dataListM, buffer
      ensures Valid() && |dataListM| <= |old(dataListM)|
      ensures dataListM == old(dataListM)[|old(dataListM)| - |dataListM|..]
      ensures popped == if bufferLength < |old(Contents())| then bufferLength else |old(Contents())|
      ensures old(Contents()) == buffer[..popped] + Contents()
      ensures removed == old(removed) + buffer[..popped] && pushed == old(pushed)
    {
      var n := GetBytesToBuffer(buffer, bufferLength, 0);
      ghost var bytes := Contents();
      popped := Drop(n);
    }

    /** Removes bytes from the front; chunks may be empty. */
    method Drop(length: nat) returns (dropped: nat)
      requires Valid() && length <= dataLengthM
      modifies this, dataListM
      ensures Valid() && |dataListM| <= |old(dataListM)|
      ensures dataListM == old(dataListM)[|old(dataListM)| - |dataListM|..]
      ensures dropped == length && Contents() == old(Contents())[length..]
      ensures removed == old(removed) + old(Contents())[..length] && pushed == old(pushed)
    {
      var left: nat := length;
      ghost var bytes, k, n := Contents(), 0, 0;
      while left > 0
        invariant k <= |old(dataListM)| && dataListM == old(dataListM)[k..]
        invariant Distinct(dataListM) && n + left == length <= |bytes|
        invariant Contents() == bytes[n..] && dataLengthM == |Contents()|
        invariant pushed == old(pushed) && removed == old(removed)
        decreases left, |dataListM|
      {
        var sliceLength := |dataListM[0].data|;
        if sliceLength <= left {
          DroppedMore(bytes, n, dataListM[0].data, Bytes(dataListM[1..]));
          dataListM := dataListM[1..];
          dataLengthM := dataLengthM - sliceLength;
          left := left - sliceLength;
          k, n := k + 1, n + sliceLength;
        } else {
          assert bytes[n..][left..] == bytes[length..];
          DropFromFirst(left);
          dataLengthM := dataLengthM - left;
          left, n := 0, length;
        }
      }
      assert bytes[..length] + bytes[length..] == bytes;
      assert removed + bytes == removed + bytes[..length] + bytes[length..];
      removed := removed + bytes[..length];
      return length;
    }

    /** `dataListM.front().truncateData(n)` */
    method DropFromFirst(n: nat)
      requires Distinct(dataListM) && dataListM != [] && n < |dataListM[0].data|
      modifies dataListM[0]
      ensures Contents() == old(Contents())[n..]
    {
      assert dataListM[0] !in dataListM[1..];
      dataListM[0].TruncateData(n, 0);
    }

    method Clear()
      requires Valid()
      modifies this
      ensures Valid() && Contents() == [] && dataListM == []
      ensures removed == old(removed) + old(Contents()) && pushed == old(pushed)
    {
      removed := removed + Contents();
      dataLengthM := 0;
      while dataListM != []
        invariant removed == pushed == old(pushed) && dataLengthM == 0 && Distinct(dataListM)
        decreases |dataListM|
      {
        dataListM := dataListM[1..];
      }
    }
  }
}
