/**
 The generated message CurrencyPair: two string fields, base = 1 and quote = 2, in the format of VoteExtensionWire.
 A string is its bytes.
 */
module CurrencyPairWire {
  import opened Varint
  import opened FieldSkipper
  import opened VoteExtensionWire
  import opened VoteExtension
  import opened Wrappers

  datatype Pair = Pair(base: bytes, quote: bytes)

  // ---------------------------------------------------------------- encoding

  function StringField(tag: byte, value: bytes): bytes {
    if |value| > 0 then [tag] + VarintBytes(|value|) + value else []
  }

  function EncodedPair(p: Pair): bytes {
    StringField(0x0a, p.base) + StringField(0x12, p.quote)
  }

  // ---------------------------------------------------------------- decoding

  datatype PairField = BaseField(value: bytes, next: nat) | QuoteField(value: bytes, next: nat) | Unknown(next: nat) | BadField(error: Error)

  function PairFieldAt(s: bytes, i: nat): (f: PairField)
    requires |s| < TWO_TO_THE_63 && i < |s|
    ensures !f.BadField? ==> i < f.next <= |s|
  {
    match VarintAt(s, i, 0, 0)
    case Bad(e) => BadField(e)
    case Ok(wire, j) =>
      if wire % 8 == 4 then BadField(EndGroupForNonGroup)
      else if FieldNumber(wire) <= 0 then BadField(IllegalTag)
      else if FieldNumber(wire) == 1 || FieldNumber(wire) == 2 then
        if wire % 8 != 2 then BadField(WrongWireType) else
        match VarintAt(s, j, 0, 0)
        case Bad(e) => BadField(e)
        case Ok(length, k) =>
          match DelimitedEnd(s, k, length)
          case PayloadFailed(e) => BadField(e)
          case End(post) => if FieldNumber(wire) == 1 then BaseField(s[k..post], post) else QuoteField(s[k..post], post)
      else
        match UnknownEnd(s, i, |s|)
        case PayloadFailed(e) => BadField(e)
        case End(k) => Unknown(k)
  }

  function With(p: Pair, f: PairField): Pair {
    match f
    case BaseField(v, _) => p.(base := v)
    case QuoteField(v, _) => p.(quote := v)
    case _ => p
  }

  datatype PairOutcome = DecodedPair(pair: Pair) | FailedPair(error: Error, partial: Pair)

  function DecodeFrom(s: bytes, i: nat, p: Pair): PairOutcome
    requires |s| < TWO_TO_THE_63 && i <= |s|
    decreases |s| - i
  {
    if i == |s| then DecodedPair(p) else
    match PairFieldAt(s, i)
    case BadField(e) => FailedPair(e, p)
    case f => DecodeFrom(s, f.next, With(p, f))
  }

  // ---------------------------------------------------------------- concatenation is merge

  ghost predicate FieldMoved(a: PairField, b: PairField, n: nat) {
    match b
    case BadField(_) => a.BadField?
    case BaseField(v, next) => a == BaseField(v, next + n)
    case QuoteField(v, next) => a == QuoteField(v, next + n)
    case Unknown(next) => a == Unknown(next + n)
  }

  lemma PairFieldIgnoresSuffix(s: bytes, t: bytes, i: nat)
    requires |s + t| < TWO_TO_THE_63 && i < |s|
    requires !PairFieldAt(s, i).BadField?
    ensures PairFieldAt(s + t, i) == PairFieldAt(s, i)
  {
    hide VarintAt, UnknownEnd, FieldNumber;
    VarintIgnoresSuffix(s, t, i, 0, 0);
    var Ok(wire, j) := VarintAt(s, i, 0, 0);
    if FieldNumber(wire) == 1 || FieldNumber(wire) == 2 {
      VarintIgnoresSuffix(s, t, j, 0, 0);
      var Ok(length, k) := VarintAt(s, j, 0, 0);
      var end := DelimitedEnd(s, k, length).index;
      assert (s + t)[k..end] == s[k..end];
    } else {
      UnknownIgnoresSuffixAtEnd(s, t, i);
    }
  }

  lemma PairFieldIgnoresPrefix(s: bytes, t: bytes, i: nat)
    requires |s + t| < TWO_TO_THE_63 && i < |t|
    ensures FieldMoved(PairFieldAt(s + t, |s| + i), PairFieldAt(t, i), |s|)
  {
    hide VarintAt, UnknownEnd, DelimitedEnd, FieldNumber;
    VarintIgnoresPrefix(s, t, i, 0, 0);
    if VarintAt(t, i, 0, 0).Ok? {
      var Ok(wire, j) := VarintAt(t, i, 0, 0);
      VarintIgnoresPrefix(s, t, j, 0, 0);
      UnknownIgnoresPrefix(s, t, i, |t|);
      if VarintAt(t, j, 0, 0).Ok? {
        var Ok(length, k) := VarintAt(t, j, 0, 0);
        DelimitedIgnoresPrefix(s, t, k, length);
        var d := DelimitedEnd(t, k, length);
        if d.End? {
          assert (s + t)[|s| + k..|s| + d.index] == t[k..d.index];
        }
      }
    }
  }

  lemma {:induction false} PairRest(s: bytes, t: bytes, i: nat, p: Pair)
    requires |s + t| < TWO_TO_THE_63 && i <= |t|
    ensures var a, b := DecodeFrom(s + t, |s| + i, p), DecodeFrom(t, i, p);
            a == b || (a.FailedPair? && b.FailedPair? && a.partial == b.partial)
    decreases |t| - i
  {
    hide PairFieldAt;
    if i < |t| {
      PairFieldIgnoresPrefix(s, t, i);
      var f := PairFieldAt(t, i);
      if !f.BadField? {
        PairRest(s, t, f.next, With(p, f));
      }
    }
  }

  lemma {:induction false} PairFirst(s: bytes, t: bytes, i: nat, p: Pair)
    requires |s + t| < TWO_TO_THE_63 && i <= |s|
    requires DecodeFrom(s, i, p).DecodedPair?
    ensures DecodeFrom(s + t, i, p) == DecodeFrom(s + t, |s|, DecodeFrom(s, i, p).pair)
    decreases |s| - i
  {
    hide PairFieldAt;
    if i < |s| {
      PairFieldIgnoresSuffix(s, t, i);
      var f := PairFieldAt(s, i);
      PairFirst(s, t, f.next, With(p, f));
    }
  }

  /** Decoding a concatenation decodes the second input into the result of the first. */
  lemma PairConcatenationIsMerge(s: bytes, t: bytes, p: Pair)
    requires |s + t| < TWO_TO_THE_63
    requires DecodeFrom(s, 0, p).DecodedPair?
    ensures var a, b := DecodeFrom(s + t, 0, p), DecodeFrom(t, 0, DecodeFrom(s, 0, p).pair);
            a == b || (a.FailedPair? && b.FailedPair? && a.partial == b.partial)
  {
    PairFirst(s, t, 0, p);
    PairRest(s, t, 0, DecodeFrom(s, 0, p).pair);
  }

  // ---------------------------------------------------------------- decoding undoes encoding

  lemma StringFieldDecodes(tag: byte, value: bytes, p: Pair)
    requires tag == 0x0a || tag == 0x12
    requires |StringField(tag, value)| < TWO_TO_THE_63
    ensures DecodeFrom(StringField(tag, value), 0, p)
            == DecodedPair(if value == [] then p else if tag == 0x0a then p.(base := value) else p.(quote := value))
  {
    hide VarintAt, UnknownEnd, VarintBytes;
    if value != [] {
      var s := StringField(tag, value);
      var k := 1 + |VarintBytes(|value|)|;
      assert s[1..k] == VarintBytes(|value|);
      assert s[k..|s|] == value;
      TagRead(s, 0);
      VarintRoundTrip(s, 1, |value|);
      assert DelimitedEnd(s, k, |value|) == End(|s|);
      assert PairFieldAt(s, 0).next == |s|;
    }
  }

  /** The strings of q that are not empty replace those of p. */
  function Merged(p: Pair, q: Pair): Pair {
    Pair(if q.base == [] then p.base else q.base, if q.quote == [] then p.quote else q.quote)
  }

  /** An encoded pair, decoded into a message that may already hold strings. */
  lemma EncodedPairDecodes(p: Pair, q: Pair)
    requires |EncodedPair(q)| < TWO_TO_THE_63
    ensures DecodeFrom(EncodedPair(q), 0, p) == DecodedPair(Merged(p, q))
  {
    hide DecodeFrom, StringField;
    StringFieldDecodes(0x0a, q.base, p);
    PairConcatenationIsMerge(StringField(0x0a, q.base), StringField(0x12, q.quote), p);
    StringFieldDecodes(0x12, q.quote, DecodeFrom(StringField(0x0a, q.base), 0, p).pair);
  }

  /** Decoding an encoded pair into an empty message gives the pair. */
  lemma PairRoundTrip(p: Pair)
    requires |EncodedPair(p)| < TWO_TO_THE_63
    ensures DecodeFrom(EncodedPair(p), 0, Pair([], [])) == DecodedPair(p)
  {
    EncodedPairDecodes(Pair([], []), p);
  }

  /** Two encodings one after the other decode to the second pair with its empty strings filled in from the first. */
  lemma EncodingsMerge(p: Pair, q: Pair)
    requires |EncodedPair(p) + EncodedPair(q)| < TWO_TO_THE_63
    ensures DecodeFrom(EncodedPair(p) + EncodedPair(q), 0, Pair([], [])) == DecodedPair(Merged(p, q))
  {
    hide DecodeFrom, EncodedPair;
    PairRoundTrip(p);
    PairConcatenationIsMerge(EncodedPair(p), EncodedPair(q), Pair([], []));
    EncodedPairDecodes(p, q);
  }

  // ---------------------------------------------------------------- the generated code

  class CurrencyPair {
    var Base: bytes
    var Quote: bytes

    constructor ()
      ensures Value() == Pair([], [])
    {
      Base, Quote := [], [];
    }

    function Value(): Pair
      reads this
    {
      Pair(Base, Quote)
    }

    method Size() returns (n: nat)
      requires |Base| < TWO_TO_THE_63 && |Quote| < TWO_TO_THE_63
      ensures n == |EncodedPair(Value())|
    {
      n := 0;
      var l := |Base|;
      SovIsVarintLength(l);
      if l > 0 {
        n := n + (1 + l + Sov(l));
      }
      l := |Quote|;
      SovIsVarintLength(l);
      if l > 0 {
        n := n + (1 + l + Sov(l));
      }
    }

    /** Fills the buffer from its end; nothing in front of the encoding is touched. */
    method MarshalToSizedBuffer(dAtA: array<byte>) returns (n: nat)
      requires |EncodedPair(Value())| <= dAtA.Length < TWO_TO_THE_63
      modifies dAtA
      ensures n == |EncodedPair(Value())|
      ensures dAtA[dAtA.Length - n..] == EncodedPair(Value())
      ensures forall j :: 0 <= j < dAtA.Length - n ==> dAtA[j] == old(dAtA[j])
    {
      hide VarintBytes;
      var i := dAtA.Length;
      if |Quote| > 0 {
        i := WriteDelimited(dAtA, i, 0x12, Quote);
      }
      assert dAtA[i..] == StringField(0x12, Quote);
      if |Base| > 0 {
        i := WriteDelimited(dAtA, i, 0x0a, Base);
      }
      assert dAtA[i..] == EncodedPair(Value());
      n := dAtA.Length - i;
    }

    /** A buffer of exactly the right size, filled from index 0 to its end. */
    method Marshal() returns (dAtA: array<byte>)
      requires |EncodedPair(Value())| < TWO_TO_THE_63
      ensures fresh(dAtA) && dAtA[..] == EncodedPair(Value())
    {
      var size := Size();
      dAtA := new byte[size];
      var n := MarshalToSizedBuffer(dAtA);
      assert dAtA[..] == dAtA[dAtA.Length - n..];
    }

    /** Decodes into the message; what was decoded before an error stays. */
    method Unmarshal(dAtA: bytes) returns (err: Option<Error>)
      requires |dAtA| < TWO_TO_THE_63
      modifies this
      ensures match DecodeFrom(dAtA, 0, old(Value()))
              case DecodedPair(p) => err == None && Value() == p
              case FailedPair(e, p) => err == Some(e) && Value() == p
    {
      var iNdEx := 0;
      while iNdEx < |dAtA|
        invariant 0 <= iNdEx <= |dAtA|
        invariant DecodeFrom(dAtA, 0, old(Value())) == DecodeFrom(dAtA, iNdEx, Value())
        decreases |dAtA| - iNdEx
      {
        var preIndex := iNdEx;
        var tag := ReadVarint(dAtA, iNdEx, 0);
        if tag.Bad? {
          return Some(tag.error);
        }
        iNdEx := tag.next;
        var fieldNum, wireType := FieldNumber(tag.value), tag.value % 8;
        if wireType == 4 {
          return Some(EndGroupForNonGroup);
        }
        if fieldNum <= 0 {
          return Some(IllegalTag);
        }
        if fieldNum == 1 || fieldNum == 2 {
          if wireType != 2 {
            return Some(WrongWireType);
          }
          var length := ReadVarint(dAtA, iNdEx, 0);
          if length.Bad? {
            return Some(length.error);
          }
          iNdEx := length.next;
          var post := ReadLength(dAtA, iNdEx, length.value);
          if post.PayloadFailed? {
            return Some(post.error);
          }
          if fieldNum == 1 {
            Base := dAtA[iNdEx..post.index];
          } else {
            Quote := dAtA[iNdEx..post.index];
          }
          iNdEx := post.index;
        } else {
          iNdEx := preIndex;
          var end := SkipUnknown(dAtA, iNdEx, |dAtA|);
          if end.PayloadFailed? {
            return Some(end.error);
          }
          iNdEx := end.index;
        }
      }
      err := None;
    }
  }

  /** Marshal followed by Unmarshal into a new message gives the same two strings and no error. */
  method PairMarshalThenUnmarshal(m: CurrencyPair) returns (m': CurrencyPair, err: Option<Error>)
    requires |EncodedPair(m.Value())| < TWO_TO_THE_63
    ensures fresh(m') && err == None && m'.Value() == m.Value()
  {
    var dAtA := m.Marshal();
    PairRoundTrip(m.Value());
    m' := new CurrencyPair();
    err := m'.Unmarshal(dAtA[..]);
  }
}
