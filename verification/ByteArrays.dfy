/** `ByteArray`: bytes in memory that is allocated anew whenever their number changes. */
module ByteArrays {

  type byte = x: int | 0 <= x < 256

  /** At most `length` bytes of `s` from offset `offs` on. */
  function Slice(s: seq<byte>, offs: nat, length: nat): (r: seq<byte>)
    ensures |r| <= length
  {
    if offs >= |s| then [] else if offs + length > |s| then s[offs..] else s[offs..offs + length]
  }

  /** It holds as many bytes as there are, up to `length`, and these in their order. */
  lemma SliceHolds(s: seq<byte>, offs: nat, length: nat)
    ensures var there := if offs >= |s| then 0 else |s| - offs;
      && |Slice(s, offs, length)| == (if there < length then there else length)
      && forall i :: 0 <= i < |Slice(s, offs, length)| ==> Slice(s, offs, length)[i] == s[offs + i]
  {
  }

  /** A slice of two pieces, cut where the first one ends. */
  lemma SliceAcross(a: seq<byte>, b: seq<byte>, offs: nat, length: nat)
    ensures offs >= |a| ==> Slice(a + b, offs, length) == Slice(b, offs - |a|, length)
    ensures offs < |a| ==>
      Slice(a + b, offs, length) == Slice(a, offs, length) + Slice(b, 0, length - |Slice(a, offs, length)|)
  {
  }

  /** `s` with `piece` written over it from index `n` on. */
  function Written(s: seq<byte>, n: nat, piece: seq<byte>): seq<byte>
    requires n + |piece| <= |s|
  {
    s[..n] + piece + s[n + |piece|..]
  }

  lemma WrittenParts(s: seq<byte>, n: nat, piece: seq<byte>)
    requires n + |piece| <= |s|
    ensures var r := Written(s, n, piece);
      |r| == |s| && r[..n + |piece|] == s[..n] + piece && r[n + |piece|..] == s[n + |piece|..]
  {
  }

  /** `buffer` holds `n` of the bytes wanted; the others are to come from `rest`. */
  ghost predicate Gathering(buffer: seq<byte>, n: nat, length: nat, rest: seq<byte>, offs: nat, wanted: seq<byte>)
  {
    n <= length <= |buffer| && buffer[..n] + Slice(rest, offs, length - n) == wanted
  }

  /** A piece from `a` was written to the buffer: its slice, if there is one; else the offset lies beyond `a`. */
  lemma GatherPiece(before: seq<byte>, after: seq<byte>, n: nat, length: nat, a: seq<byte>, b: seq<byte>, offs: nat,
                    wanted: seq<byte>)
    requires n < length && Gathering(before, n, length, a + b, offs, wanted)
    requires after == Written(before, n, Slice(a, offs, length - n))
    ensures var k := |Slice(a, offs, length - n)|;
      && after[n + k..] == before[n + k..]
      && (k != 0 ==> Gathering(after, n + k, length, b, 0, wanted))
      && (k == 0 ==> offs >= |a| && Gathering(after, n, length, b, offs - |a|, wanted))
  {
    var piece := Slice(a, offs, length - n);
    WrittenParts(before, n, piece);
    SliceAcross(a, b, offs, length - n);
    if piece != [] {
      GatherMore(before, after, n, length, a, b, offs, wanted);
    } else {
      assert before[..n] + piece == before[..n];
    }
  }

  lemma GatherMore(before: seq<byte>, after: seq<byte>, n: nat, length: nat, a: seq<byte>, b: seq<byte>, offs: nat,
                   wanted: seq<byte>)
    requires n < length && Gathering(before, n, length, a + b, offs, wanted) && offs < |a|
    requires |after| == |before|
    requires after[..n + |Slice(a, offs, length - n)|] == before[..n] + Slice(a, offs, length - n)
    ensures Gathering(after, n + |Slice(a, offs, length - n)|, length, b, 0, wanted)
  {
    var piece := Slice(a, offs, length - n);
    SliceAcross(a, b, offs, length - n);
    Regroup(before[..n], piece, Slice(b, 0, length - n - |piece|));
  }

  lemma Regroup(a: seq<byte>, b: seq<byte>, c: seq<byte>)
    ensures a + (b + c) == a + b + c
  {
  }

  lemma GatheredAll(buffer: seq<byte>, n: nat, length: nat, rest: seq<byte>, offs: nat, wanted: seq<byte>)
    requires Gathering(buffer, n, length, rest, offs, wanted) && (n == length || rest == [])
    ensures n == |wanted| && buffer[..n] == wanted
  {
    assert Slice(rest, offs, length - n) == [];
  }

  /** A whole piece at the front was dropped. */
  lemma DroppedMore(bytes: seq<byte>, n: nat, piece: seq<byte>, rest: seq<byte>)
    requires n <= |bytes| && bytes[n..] == piece + rest
    ensures n + |piece| <= |bytes| && rest == bytes[n + |piece|..]
  {
    assert |bytes[n..]| == |piece| + |rest|;
    assert bytes[n..][|piece|..] == bytes[n + |piece|..];
  }

  class ByteArray {
    var data: seq<byte>

    constructor ()
      ensures data == []
    {
      data := [];
    }

    constructor Copy(other: ByteArray)
      ensures data == other.data
    {
      data := other.data;
    }

    method SetDataFromBuffer(buffer: array<byte>, length: nat)
      requires length <= buffer.Length
      modifies this
      ensures data == buffer[..length]
    {
      data := buffer[..length];
    }

    method AddDataFromBuffer(buffer: array<byte>, length: nat)
      requires length <= buffer.Length
      modifies this
      ensures data == old(data) + buffer[..length]
    {
      if length == 0 {
        return;
      }
      data := data + buffer[..length];
    }

    /** Copies into `buffer` from index `start` on. */
    method CopyDataToBuffer(buffer: array<byte>, start: nat, length: nat, srcOffs: nat) returns (copied: nat)
      requires start + length <= buffer.Length
      modifies buffer
      ensures copied == |Slice(data, srcOffs, length)|
      ensures buffer[..] == Written(old(buffer[..]), start, Slice(data, srcOffs, length))
    {
      if srcOffs >= |data| {
        return 0;
      }
      copied := if srcOffs + length > |data| then |data| - srcOffs else length;
      forall i | 0 <= i < copied {
        buffer[start + i] := data[srcOffs + i];
      }
    }

    method TruncateData(truncleft: nat, truncright: nat)
      requires truncleft + truncright <= |data|
      modifies this
      ensures data == old(data)[truncleft..|old(data)| - truncright]
    {
      if truncleft != 0 || truncright != 0 {
        data := data[truncleft..|data| - truncright];
      }
    }
  }
}
