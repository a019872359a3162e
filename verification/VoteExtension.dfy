/**
 The generated message OracleVoteExtension: its size computation, the writer that fills a buffer from the end
 backwards, and the decoder.  Ranging over the Go map visits the keys in an arbitrary order; here each loop picks an
 arbitrary remaining key.
 */
module VoteExtension {
  import opened Varint
  import opened FieldSkipper
  import opened Orders
  import opened VoteExtensionWire
  import opened Wrappers

  /** One byte in front of index i. */
  method PutByte(dAtA: array<byte>, i: nat, b: byte) returns (start: nat)
    requires 0 < i <= dAtA.Length
    modifies dAtA
    ensures start == i - 1
    ensures dAtA[start..] == [b] + old(dAtA[i..])
    ensures forall j :: 0 <= j < start ==> dAtA[j] == old(dAtA[j])
  {
    start := i - 1;
    dAtA[start] := b;
  }

  /** copy: the payload in front of index i. */
  method PutBytes(dAtA: array<byte>, i: nat, payload: bytes) returns (start: nat)
    requires |payload| <= i <= dAtA.Length
    modifies dAtA
    ensures start == i - |payload|
    ensures dAtA[start..] == payload + old(dAtA[i..])
    ensures forall j :: 0 <= j < start ==> dAtA[j] == old(dAtA[j])
  {
    start := i - |payload|;
    forall j | 0 <= j < |payload| {
      dAtA[start + j] := payload[j];
    }
  }

  lemma Regroup(a: bytes, b: bytes, c: bytes, d: bytes)
    ensures a + (b + (c + d)) == a + b + c + d
  {
  }

  /** A tag byte, the length of the payload and the payload, in front of index i. */
  method WriteDelimited(dAtA: array<byte>, i: nat, tag: byte, payload: bytes) returns (start: nat)
    requires 1 + |VarintBytes(|payload|)| + |payload| <= i <= dAtA.Length < TWO_TO_THE_63
    modifies dAtA
    ensures start == i - (1 + |VarintBytes(|payload|)| + |payload|)
    ensures dAtA[start..] == [tag] + VarintBytes(|payload|) + payload + old(dAtA[i..])
    ensures forall j :: 0 <= j < start ==> dAtA[j] == old(dAtA[j])
  {
    ghost var tail := dAtA[i..];
    SovIsVarintLength(|payload|);
    Regroup([tag], VarintBytes(|payload|), payload, tail);
    start := PutBytes(dAtA, i, payload);
    start := EncodeVarint(dAtA, start, |payload|);
    start := PutByte(dAtA, start, tag);
  }

  /** The key and value fields of a map entry, in front of index i. */
  method WriteEntryBody(dAtA: array<byte>, baseI: nat, key: uint64, value: bytes) returns (i: nat)
    requires |EntryBody(key, value)| <= baseI <= dAtA.Length < TWO_TO_THE_63
    modifies dAtA
    ensures i == baseI - |EntryBody(key, value)|
    ensures dAtA[i..] == EntryBody(key, value) + old(dAtA[baseI..])
    ensures forall j :: 0 <= j < i ==> dAtA[j] == old(dAtA[j])
  {
    ghost var tail := dAtA[baseI..];
    ghost var valueField := if |value| > 0 then [0x12] + VarintBytes(|value|) + value else [];
    i := baseI;
    if |value| > 0 {
      i := WriteDelimited(dAtA, i, 0x12, value);
    }
    assert dAtA[i..] == valueField + tail;
    Regroup([0x08], VarintBytes(key), valueField, tail);
    SovIsVarintLength(key);
    i := EncodeVarint(dAtA, i, key);
    i := PutByte(dAtA, i, 0x08);
  }

  /** One map entry in front of index baseI. */
  method WriteEntry(dAtA: array<byte>, baseI: nat, key: uint64, value: bytes) returns (i: nat)
    requires |EntryBytes(key, value)| <= baseI <= dAtA.Length < TWO_TO_THE_63
    modifies dAtA
    ensures i == baseI - |EntryBytes(key, value)|
    ensures dAtA[i..] == EntryBytes(key, value) + old(dAtA[baseI..])
    ensures forall j :: 0 <= j < i ==> dAtA[j] == old(dAtA[j])
  {
    hide EntryBody;
    ghost var body, tail := EntryBody(key, value), dAtA[baseI..];
    SovIsVarintLength(|body|);
    i := WriteEntryBody(dAtA, baseI, key, value);
    i := EncodeVarint(dAtA, i, baseI - i);
    i := PutByte(dAtA, i, 0x0a);
    assert dAtA[i..] == [0x0a] + (VarintBytes(|body|) + (body + tail));
    Regroup([0x0a], VarintBytes(|body|), body, tail);
  }

  /** The loop over the fields of one map entry. */
  method ReadEntry(dAtA: bytes, start: nat, post: nat) returns (r: Entry)
    requires |dAtA| < TWO_TO_THE_63 && start <= |dAtA| && post <= |dAtA|
    ensures r == EntryFrom(dAtA, start, post, 0, [])
  {
    var iNdEx, mapkey: uint64, mapvalue: bytes := start, 0, [];
    while iNdEx < post
      invariant start <= iNdEx <= |dAtA|
      invariant EntryFrom(dAtA, start, post, 0, []) == EntryFrom(dAtA, iNdEx, post, mapkey, mapvalue)
      decreases |dAtA| - iNdEx
    {
      var entryPreIndex := iNdEx;
      var tag := ReadVarint(dAtA, iNdEx, 0);
      if tag.Bad? {
        return EntryFailed(tag.error);
      }
      iNdEx := tag.next;
      var fieldNum := FieldNumber(tag.value);
      if fieldNum == 1 {
        var key := ReadVarint(dAtA, iNdEx, mapkey);
        if key.Bad? {
          return EntryFailed(key.error);
        }
        mapkey := key.value;
        iNdEx := key.next;
      } else if fieldNum == 2 {
        var length := ReadVarint(dAtA, iNdEx, 0);
        if length.Bad? {
          return EntryFailed(length.error);
        }
        iNdEx := length.next;
        var end := ReadLength(dAtA, iNdEx, length.value);
        if end.PayloadFailed? {
          return EntryFailed(end.error);
        }
        mapvalue := dAtA[iNdEx..end.index];
        iNdEx := end.index;
      } else {
        iNdEx := entryPreIndex;
        var end := SkipUnknown(dAtA, iNdEx, post);
        if end.PayloadFailed? {
          return EntryFailed(end.error);
        }
        iNdEx := end.index;
      }
    }
    r := Entry(mapkey, mapvalue);
  }

  /** The checks made on a length before its payload is used. */
  method ReadLength(dAtA: bytes, iNdEx: nat, length: uint64) returns (p: Payload)
    requires |dAtA| < TWO_TO_THE_63 && iNdEx <= |dAtA|
    ensures p == DelimitedEnd(dAtA, iNdEx, length)
  {
    var intLength := AsInt64(length);
    if intLength < 0 {
      return PayloadFailed(InvalidLength);
    }
    var postIndex := AddInt64(iNdEx, intLength);
    if postIndex < 0 {
      return PayloadFailed(InvalidLength);
    }
    if postIndex > |dAtA| {
      return PayloadFailed(UnexpectedEOF);
    }
    p := End(postIndex);
  }

  /** Skips the unknown field at iNdEx. */
  method SkipUnknown(dAtA: bytes, iNdEx: nat, limit: nat) returns (p: Payload)
    requires |dAtA| < TWO_TO_THE_63 && iNdEx <= |dAtA| && limit <= |dAtA|
    ensures p == UnknownEnd(dAtA, iNdEx, limit)
  {
    var skippy := SkipField(dAtA[iNdEx..]);
    if skippy.SkipFailed? {
      return PayloadFailed(skippy.error);
    }
    if skippy.size >= TWO_TO_THE_63 || AddInt64(iNdEx, skippy.size) < 0 {
      return PayloadFailed(InvalidLength);
    }
    if iNdEx + skippy.size > limit {
      return PayloadFailed(UnexpectedEOF);
    }
    p := End(iNdEx + skippy.size);
  }

  class OracleVoteExtension {
    var Prices: Prices

    constructor ()
      ensures Prices == map[]
    {
      Prices := map[];
    }

    /** The exact number of bytes that any encoding of the map takes. */
    method Size() returns (n: nat)
      requires TotalSize(Prices) < TWO_TO_THE_63
      ensures n == TotalSize(Prices)
    {
      n := 0;
      var todo := Prices;
      while todo != map[]
        invariant todo.Keys <= Prices.Keys
        invariant forall k <- todo :: todo[k] == Prices[k]
        invariant n + TotalSize(todo) == TotalSize(Prices)
        decreases |todo|
      {
        assert todo.Keys != {};
        var k :| k in todo.Keys;
        var v := todo[k];
        TotalSizeWithout(todo, k);
        SmallerWithout(todo, k);
        var l := 0;
        SovIsVarintLength(k);
        if |v| > 0 {
          SovIsVarintLength(|v|);
          l := 1 + |v| + Sov(|v|);
        }
        var mapEntrySize := 1 + Sov(k) + l;
        assert mapEntrySize == |EntryBody(k, v)|;
        SovIsVarintLength(mapEntrySize);
        n := n + mapEntrySize + 1 + Sov(mapEntrySize);
        todo := todo - {k};
      }
    }

    /** Fills the buffer from its end; nothing in front of the encoding is touched. */
    method MarshalToSizedBuffer(dAtA: array<byte>) returns (n: nat, ghost order: seq<uint64>)
      requires TotalSize(Prices) <= dAtA.Length < TWO_TO_THE_63
      modifies dAtA
      ensures IsOrder(order, Prices.Keys)
      ensures n == TotalSize(Prices)
      ensures dAtA[dAtA.Length - n..] == Encoded(order, Prices)
      ensures forall j :: 0 <= j < dAtA.Length - n ==> dAtA[j] == old(dAtA[j])
    {
      hide EntryBytes, EntryBody;
      var i := dAtA.Length;
      var todo := Prices;
      order := [];
      while todo != map[]
        invariant todo.Keys <= Prices.Keys && i <= dAtA.Length
        invariant forall k <- todo :: todo[k] == Prices[k]
        invariant IsOrder(order, Prices.Keys - todo.Keys)
        invariant i + TotalSize(Prices) == dAtA.Length + TotalSize(todo)
        invariant dAtA[i..] == Encoded(order, Prices)
        invariant forall j :: 0 <= j < i ==> dAtA[j] == old(dAtA[j])
        decreases |todo|
      {
        assert todo.Keys != {};
        var k :| k in todo.Keys;
        TotalSizeWithout(todo, k);
        SmallerWithout(todo, k);
        assert todo[k] == Prices[k];
        i := WriteEntry(dAtA, i, k, Prices[k]);
        EncodedExtends(order, Prices, todo, k);
        order := order + [k];
        todo := todo - {k};
      }
      n := dAtA.Length - i;
    }

    /** A buffer of exactly the right size, filled from index 0 to its end. */
    method Marshal() returns (dAtA: array<byte>, ghost order: seq<uint64>)
      requires TotalSize(Prices) < TWO_TO_THE_63
      ensures fresh(dAtA)
      ensures IsOrder(order, Prices.Keys)
      ensures dAtA[..] == Encoded(order, Prices)
    {
      var size := Size();
      dAtA := new byte[size];
      var n;
      n, order := MarshalToSizedBuffer(dAtA);
      assert dAtA[..] == dAtA[dAtA.Length - n..];
    }

    /** Decodes into the message; what was decoded before an error stays in the map. */
    method Unmarshal(dAtA: bytes) returns (err: Option<Error>)
      requires |dAtA| < TWO_TO_THE_63
      modifies this
      ensures match UnmarshalFrom(dAtA, 0, old(Prices))
              case Decoded(p) => err == None && Prices == p
              case Failed(e, p) => err == Some(e) && Prices == p
    {
      var iNdEx := 0;
      while iNdEx < |dAtA|
        invariant 0 <= iNdEx <= |dAtA|
        invariant UnmarshalFrom(dAtA, 0, old(Prices)) == UnmarshalFrom(dAtA, iNdEx, Prices)
        decreases |dAtA| - iNdEx
      {
        var preIndex := iNdEx;
        var tag := ReadVarint(dAtA, iNdEx, 0);
        if tag.Bad? {
          return Some(tag.error);
        }
        iNdEx := tag.next;
        var fieldNum, wireType := FieldNumber(tag.value), tag.value % 8;
        if wireType == 4 {
          return Some(EndGroupForNonGroup);
        }
        if fieldNum <= 0 {
          return Some(IllegalTag);
        }
        if fieldNum == 1 {
          if wireType != 2 {
            return Some(WrongWireType);
          }
          var length := ReadVarint(dAtA, iNdEx, 0);
          if length.Bad? {
            return Some(length.error);
          }
          iNdEx := length.next;
          var post := ReadLength(dAtA, iNdEx, length.value);
          if post.PayloadFailed? {
            return Some(post.error);
          }
          var entry := ReadEntry(dAtA, iNdEx, post.index);
          if entry.EntryFailed? {
            return Some(entry.error);
          }
          Prices := Prices[entry.key := entry.value];
          iNdEx := post.index;
        } else {
          iNdEx := preIndex;
          var end := SkipUnknown(dAtA, iNdEx, |dAtA|);
          if end.PayloadFailed? {
            return Some(end.error);
          }
          iNdEx := end.index;
        }
      }
      err := None;
    }
  }

  /** Marshal followed by Unmarshal into a new message gives the same map and no error, whatever the orders. */
  method MarshalThenUnmarshal(m: OracleVoteExtension) returns (m': OracleVoteExtension, err: Option<Error>)
    requires TotalSize(m.Prices) < TWO_TO_THE_63
    ensures fresh(m') && err == None && m'.Prices == m.Prices
  {
    var dAtA, order := m.Marshal();
    EncodedSize(order, m.Prices);
    RoundTrip(order, m.Prices);
    m' := new OracleVoteExtension();
    err := m'.Unmarshal(dAtA[..]);
  }
}
