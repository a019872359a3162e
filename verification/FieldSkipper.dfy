/**
 skipVoteExtensions: how the decoder steps over a field it does not know (Protocol Buffers Encoding, section
 "Message Structure").  The generated code keeps one nesting counter in a single loop; here it is proved equal to
 the recursive grammar of fields and groups.
 */
module FieldSkipper {
  import opened Varint

  datatype Skipped = Skip(size: nat) | SkipFailed(error: Error)

  /** Where the payload of a field ends, for the wire types without nesting. */
  datatype Payload = End(index: int) | PayloadFailed(error: Error)

  function PayloadEnd(s: bytes, i: nat, wireType: nat): (p: Payload)
    requires |s| < TWO_TO_THE_63 && i <= |s|
    ensures p.End? && p.index >= 0 ==> p.index >= i
  {
    if wireType == 0 then
      match VarintAt(s, i, 0, 0) case Ok(_, next) => End(next) case Bad(e) => PayloadFailed(e)
    else if wireType == 1 then End(AddInt64(i, 8))
    else if wireType == 2 then
      match VarintAt(s, i, 0, 0)
      case Bad(e) => PayloadFailed(e)
      case Ok(u, next) =>
        if AsInt64(u) < 0 then PayloadFailed(InvalidLength) else End(AddInt64(next, AsInt64(u)))
    else if wireType == 5 then End(AddInt64(i, 4))
    else PayloadFailed(IllegalWireType)
  }

  /** The loop of skipVoteExtensions from index i on, with `depth` groups open. */
  function SkipFrom(s: bytes, i: nat, depth: nat): (r: Skipped)
    requires |s| < TWO_TO_THE_63
    ensures r.Skip? ==> r.size > i
    decreases |s| - i
  {
    if i >= |s| then SkipFailed(UnexpectedEOF) else
    match VarintAt(s, i, 0, 0)
    case Bad(e) => SkipFailed(e)
    case Ok(wire, j) =>
      var wireType := wire % 8;
      if wireType == 3 then SkipFrom(s, j, depth + 1)
      else if wireType == 4 then
        if depth == 0 then SkipFailed(UnexpectedEndOfGroup)
        else if depth == 1 then Skip(j)
        else SkipFrom(s, j, depth - 1)
      else
        match PayloadEnd(s, j, wireType)
        case PayloadFailed(e) => SkipFailed(e)
        case End(k) =>
          if k < 0 then SkipFailed(InvalidLength)
          else if depth == 0 then Skip(k)
          else SkipFrom(s, k, depth)
  }

  method SkipField(dAtA: bytes) returns (r: Skipped)
    requires |dAtA| < TWO_TO_THE_63
    ensures r == SkipFrom(dAtA, 0, 0)
  {
    var iNdEx: int, depth := 0, 0;
    while iNdEx < |dAtA|
      invariant 0 <= iNdEx && 0 <= depth
      invariant SkipFrom(dAtA, iNdEx, depth) == SkipFrom(dAtA, 0, 0)
      decreases |dAtA| - iNdEx
    {
      var tag := ReadVarint(dAtA, iNdEx, 0);
      if tag.Bad? {
        return SkipFailed(tag.error);
      }
      iNdEx := tag.next;
      var wireType := tag.value % 8;
      if wireType == 0 {
        var v := ReadVarint(dAtA, iNdEx, 0);
        if v.Bad? {
          return SkipFailed(v.error);
        }
        iNdEx := v.next;
      } else if wireType == 1 {
        iNdEx := AddInt64(iNdEx, 8);
      } else if wireType == 2 {
        var v := ReadVarint(dAtA, iNdEx, 0);
        if v.Bad? {
          return SkipFailed(v.error);
        }
        iNdEx := v.next;
        var length := AsInt64(v.value);
        if length < 0 {
          return SkipFailed(InvalidLength);
        }
        iNdEx := AddInt64(iNdEx, length);
      } else if wireType == 3 {
        depth := depth + 1;
      } else if wireType == 4 {
        if depth == 0 {
          return SkipFailed(UnexpectedEndOfGroup);
        }
        depth := depth - 1;
      } else if wireType == 5 {
        iNdEx := AddInt64(iNdEx, 4);
      } else {
        return SkipFailed(IllegalWireType);
      }
      if iNdEx < 0 {
        return SkipFailed(InvalidLength);
      }
      if depth == 0 {
        return Skip(iNdEx);
      }
    }
    r := SkipFailed(UnexpectedEOF);
  }

  // ---------------------------------------------------------------- the grammar of fields

  datatype Extent = Ends(index: nat) | NoField

  /** The end of the one field that starts at i: a tag and its payload, or a start-group tag and a group. */
  function FieldEnd(s: bytes, i: nat): (r: Extent)
    requires |s| < TWO_TO_THE_63
    ensures r.Ends? ==> r.index > i
    decreases |s| - i, 0
  {
    if i >= |s| then NoField else
    match VarintAt(s, i, 0, 0)
    case Bad(_) => NoField
    case Ok(wire, j) =>
      if wire % 8 == 3 then GroupEnd(s, j)
      else if wire % 8 == 4 then NoField
      else
        match PayloadEnd(s, j, wire % 8)
        case PayloadFailed(_) => NoField
        case End(k) => if k < 0 then NoField else Ends(k)
  }

  /** The end of a group body that starts at i: fields up to and including an end-group tag. */
  function GroupEnd(s: bytes, i: nat): (r: Extent)
    requires |s| < TWO_TO_THE_63
    ensures r.Ends? ==> r.index > i
    decreases |s| - i, 1
  {
    if i >= |s| then NoField else
    match VarintAt(s, i, 0, 0)
    case Bad(_) => NoField
    case Ok(wire, j) =>
      if wire % 8 == 4 then Ends(j) else
      match FieldEnd(s, i)
      case NoField => NoField
      case Ends(k) => GroupEnd(s, k)
  }

  /** What the counting loop does once the group body at i, inside `depth` further groups, has been skipped. */
  ghost predicate ContinuesAfter(s: bytes, r: Skipped, body: Extent, depth: nat)
    requires |s| < TWO_TO_THE_63
  {
    match body
    case NoField => r.SkipFailed?
    case Ends(k) => r == if depth == 0 then Skip(k) else SkipFrom(s, k, depth)
  }

  lemma {:induction false} FieldThenRest(s: bytes, i: nat, depth: nat)
    requires |s| < TWO_TO_THE_63
    ensures ContinuesAfter(s, SkipFrom(s, i, depth), FieldEnd(s, i), depth) ||
            (depth > 0 && i < |s| && VarintAt(s, i, 0, 0).Ok? && VarintAt(s, i, 0, 0).value % 8 == 4)
    decreases |s| - i, 0
  {
    if i < |s| && VarintAt(s, i, 0, 0).Ok? {
      var Ok(wire, j) := VarintAt(s, i, 0, 0);
      if wire % 8 == 3 {
        GroupThenRest(s, j, depth);
      }
    }
  }

  lemma {:induction false} GroupThenRest(s: bytes, i: nat, depth: nat)
    requires |s| < TWO_TO_THE_63
    ensures ContinuesAfter(s, SkipFrom(s, i, depth + 1), GroupEnd(s, i), depth)
    decreases |s| - i, 1
  {
    if i < |s| && VarintAt(s, i, 0, 0).Ok? && VarintAt(s, i, 0, 0).value % 8 != 4 {
      FieldThenRest(s, i, depth + 1);
      match FieldEnd(s, i)
      case NoField =>
      case Ends(k) => GroupThenRest(s, k, depth);
    }
  }

  /** The counting loop skips exactly one field of the grammar, nested groups included, and nothing else. */
  lemma SkipIsOneField(s: bytes)
    requires |s| < TWO_TO_THE_63
    ensures match FieldEnd(s, 0)
            case Ends(n) => SkipFrom(s, 0, 0) == Skip(n)
            case NoField => SkipFrom(s, 0, 0).SkipFailed?
  {
    FieldThenRest(s, 0, 0);
  }

  // ---------------------------------------------------------------- locality

  lemma PayloadIgnoresSuffix(s: bytes, t: bytes, i: nat, wireType: nat)
    requires |s + t| < TWO_TO_THE_63 && i <= |s|
    requires PayloadEnd(s, i, wireType).End?
    ensures PayloadEnd(s + t, i, wireType) == PayloadEnd(s, i, wireType)
  {
    if wireType == 0 || wireType == 2 {
      VarintIgnoresSuffix(s, t, i, 0, 0);
    }
  }

  /** A skip that stays inside the input skips the same field when more input follows. */
  lemma {:induction false} SkipIgnoresSuffix(s: bytes, t: bytes, i: nat, depth: nat)
    requires |s + t| < TWO_TO_THE_63
    requires SkipFrom(s, i, depth).Skip?
    ensures SkipFrom(s + t, i, depth) == SkipFrom(s, i, depth)
    decreases |s| - i
  {
    VarintIgnoresSuffix(s, t, i, 0, 0);
    var Ok(wire, j) := VarintAt(s, i, 0, 0);
    if wire % 8 == 3 {
      SkipIgnoresSuffix(s, t, j, depth + 1);
    } else if wire % 8 == 4 {
      if depth > 1 {
        SkipIgnoresSuffix(s, t, j, depth - 1);
      }
    } else {
      PayloadIgnoresSuffix(s, t, j, wire % 8);
      var End(k) := PayloadEnd(s, j, wire % 8);
      if depth > 0 {
        SkipIgnoresSuffix(s, t, k, depth);
      }
    }
  }
}
