/**
 Fields as Protocol Buffers writes them (Protocol Buffers Encoding, sections "Message Structure" and "Groups"): the two messages are
 made of them, and both decoders step over the unknown ones.  The encoder here shares nothing with the decoders but the varint.
 */
module WireFields {
  import opened Varint
  import opened FieldSkipper
  import opened VoteExtensionWire
  import opened CurrencyPairWire

  datatype Value =
    | Number(n: uint64)
    | EightBytes(b: bytes)
    | Delimited(b: bytes)
    | Group(fields: seq<WireField>, endNumber: nat)
    | FourBytes(b: bytes)

  datatype WireField = WireField(number: nat, value: Value)

  function WireType(v: Value): nat {
    match v
    case Number(_) => 0
    case EightBytes(_) => 1
    case Delimited(_) => 2
    case Group(_, _) => 3
    case FourBytes(_) => 5
  }

  /** What can be written: fixed-size values of their size, and numbers, tags and lengths that fit in 64 bits. */
  predicate Writable(f: WireField)
    decreases f
  {
    8 * f.number + 7 < TWO_TO_THE_64 &&
    match f.value
    case Number(_) => true
    case EightBytes(b) => |b| == 8
    case FourBytes(b) => |b| == 4
    case Delimited(b) => |b| < TWO_TO_THE_63
    case Group(fields, endNumber) => 8 * endNumber + 4 < TWO_TO_THE_64 && forall g <- fields :: Writable(g)
  }

  /** A tag, then the value: a varint, eight bytes, a length and so many bytes, the fields of a group and an end tag, or four bytes. */
  function FieldBytes(f: WireField): (s: bytes)
    ensures s != []
    decreases f, 1
  {
    VarintBytes(8 * f.number + WireType(f.value)) + ValueBytes(f.value)
  }

  function ValueBytes(v: Value): bytes
    decreases v, 0
  {
    match v
    case Number(n) => VarintBytes(n)
    case EightBytes(b) => b
    case FourBytes(b) => b
    case Delimited(b) => VarintBytes(|b|) + b
    case Group(fields, endNumber) => FieldsBytes(fields) + VarintBytes(8 * endNumber + 4)
  }

  function FieldsBytes(fields: seq<WireField>): bytes
    decreases fields, 0
  {
    if fields == [] then [] else FieldBytes(fields[0]) + FieldsBytes(fields[1..])
  }

  /** The bytes of s from i on start with p. */
  predicate Holds(s: bytes, i: nat, p: bytes) {
    i + |p| <= |s| && s[i..i + |p|] == p
  }

  lemma HoldsParts(s: bytes, i: nat, p: bytes, q: bytes)
    requires Holds(s, i, p + q)
    ensures Holds(s, i, p) && Holds(s, i + |p|, q)
  {
    var whole := s[i..i + |p + q|];
    assert s[i..i + |p|] == whole[..|p|];
    assert s[i + |p|..i + |p| + |q|] == whole[|p|..];
  }

  /** The skipper's grammar ends a written field where the writer ended it. */
  lemma {:induction false} FieldEndsAfter(s: bytes, i: nat, f: WireField)
    requires |s| < TWO_TO_THE_63 && Writable(f) && Holds(s, i, FieldBytes(f))
    ensures FieldEnd(s, i) == Ends(i + |FieldBytes(f)|)
    ensures VarintAt(s, i, 0, 0).Ok? && VarintAt(s, i, 0, 0).value == 8 * f.number + WireType(f.value)
    decreases f, 1
  {
    hide VarintAt, VarintBytes, GroupEnd;
    var tag := VarintBytes(8 * f.number + WireType(f.value));
    HoldsParts(s, i, tag, ValueBytes(f.value));
    VarintRoundTrip(s, i, 8 * f.number + WireType(f.value));
    var j := i + |tag|;
    match f.value
    case Number(n) =>
      VarintRoundTrip(s, j, n);
    case EightBytes(b) =>
    case FourBytes(b) =>
    case Delimited(b) =>
      HoldsParts(s, j, VarintBytes(|b|), b);
      VarintRoundTrip(s, j, |b|);
    case Group(fields, endNumber) =>
      GroupEndsAfter(s, j, fields, endNumber);
  }

  lemma {:induction false} GroupEndsAfter(s: bytes, i: nat, fields: seq<WireField>, endNumber: nat)
    requires |s| < TWO_TO_THE_63 && (forall g <- fields :: Writable(g)) && 8 * endNumber + 4 < TWO_TO_THE_64
    requires Holds(s, i, FieldsBytes(fields) + VarintBytes(8 * endNumber + 4))
    ensures GroupEnd(s, i) == Ends(i + |FieldsBytes(fields) + VarintBytes(8 * endNumber + 4)|)
    decreases fields, 0
  {
    hide VarintAt, VarintBytes, FieldEnd, Writable, FieldBytes;
    var end := VarintBytes(8 * endNumber + 4);
    if fields == [] {
      assert [] + end == end;
      VarintRoundTrip(s, i, 8 * endNumber + 4);
    } else {
      var first, rest := FieldBytes(fields[0]), FieldsBytes(fields[1..]);
      assert FieldsBytes(fields) + end == first + (rest + end);
      HoldsParts(s, i, first, rest + end);
      FieldEndsAfter(s, i, fields[0]);
      assert WireType(fields[0].value) != 4;
      GroupEndsAfter(s, i + |first|, fields[1..], endNumber);
    }
  }

  /** A tag gives back its field number. */
  lemma NumberOfTag(number: nat, wireType: nat)
    requires number < 0x8000_0000 && wireType < 8
    ensures FieldNumber(8 * number + wireType) == number
  {
    assert (8 * number + wireType) / 8 == number;
  }

  /** What follows the field does not matter to the skip, up to the given limit. */
  lemma SkipsField(s: bytes, i: nat, limit: nat, f: WireField)
    requires |s| < TWO_TO_THE_63 && Writable(f) && Holds(s, i, FieldBytes(f)) && i + |FieldBytes(f)| <= limit <= |s|
    ensures UnknownEnd(s, i, limit) == End(i + |FieldBytes(f)|)
  {
    hide FieldBytes, FieldEnd, SkipFrom, Writable;
    var n := |FieldBytes(f)|;
    assert s[i..][0..n] == s[i..i + n];
    FieldEndsAfter(s[i..], 0, f);
    SkipIsOneField(s[i..]);
  }

  // ---------------------------------------------------------------- the vote extension

  lemma UnknownIsOther(f: WireField, t: bytes)
    requires Writable(f) && 1 < f.number < 0x8000_0000 && |FieldBytes(f) + t| < TWO_TO_THE_63
    ensures FieldAt(FieldBytes(f) + t, 0) == OtherField(|FieldBytes(f)|)
  {
    hide FieldBytes, Writable, VarintAt, UnknownEnd, FieldNumber;
    var s := FieldBytes(f) + t;
    assert s[0..|FieldBytes(f)|] == FieldBytes(f);
    FieldEndsAfter(s, 0, f);
    NumberOfTag(f.number, WireType(f.value));
    SkipsField(s, 0, |s|, f);
  }

  /** An unknown field of any wire type and any nesting, wherever it stands, changes neither the result nor whether there is one. */
  lemma UnknownFieldSkipped(s: bytes, f: WireField, t: bytes)
    requires Writable(f) && 1 < f.number < 0x8000_0000 && |s + FieldBytes(f) + t| < TWO_TO_THE_63
    requires Unmarshal(s).Decoded?
    ensures Unmarshal(s + FieldBytes(f) + t).Decoded? <==> Unmarshal(s + t).Decoded?
    ensures Unmarshal(s + FieldBytes(f) + t).Decoded? ==> Unmarshal(s + FieldBytes(f) + t) == Unmarshal(s + t)
    ensures Unmarshal(FieldBytes(f)) == Decoded(map[])
  {
    hide FieldBytes, UnmarshalFrom, FieldAt, Writable;
    var field := FieldBytes(f);
    UnknownIsOther(f, []);
    assert field + [] == field;
    OtherFieldAlone(field);
    ConcatenationIsMerge(s, field);
    assert Unmarshal(s).prices + map[] == Unmarshal(s).prices;
    ConcatenationIsMerge(s + field, t);
    ConcatenationIsMerge(s, t);
  }

  lemma OtherFieldAlone(s: bytes)
    requires 0 < |s| < TWO_TO_THE_63 && FieldAt(s, 0) == OtherField(|s|)
    ensures Unmarshal(s) == Decoded(map[])
  {
    hide FieldAt;
    assert UnmarshalFrom(s, |s|, map[]) == Decoded(map[]);
  }

  /** An unknown field that is cut off anywhere makes decoding fail. */
  lemma CutFieldFails(f: WireField, n: nat)
    requires Writable(f) && 1 < f.number < 0x8000_0000 && |FieldBytes(f)| < TWO_TO_THE_63
    requires 0 < n < |FieldBytes(f)|
    ensures Unmarshal(FieldBytes(f)[..n]).Failed?
  {
    hide FieldBytes, FieldAt, Writable;
    var s := FieldBytes(f)[..n];
    assert s + FieldBytes(f)[n..] == FieldBytes(f) == FieldBytes(f) + [];
    UnknownIsOther(f, []);
    if !FieldAt(s, 0).FieldFailed? {
      FieldIgnoresSuffix(s, FieldBytes(f)[n..], 0);
    }
  }

  /** So does an entry that is cut off anywhere. */
  lemma CutEntryFails(key: uint64, value: bytes, n: nat)
    requires |EntryBytes(key, value)| < TWO_TO_THE_63
    requires 0 < n < |EntryBytes(key, value)|
    ensures Unmarshal(EntryBytes(key, value)[..n]).Failed?
  {
    hide EntryBytes, FieldAt;
    var s := EntryBytes(key, value)[..n];
    assert s + EntryBytes(key, value)[n..] == EntryBytes(key, value);
    EntryDecodes(key, value);
    if !FieldAt(s, 0).FieldFailed? {
      FieldIgnoresSuffix(s, EntryBytes(key, value)[n..], 0);
    }
  }

  /** Inside a map entry every field but those of key and value is skipped too. */
  lemma EntryUnknownSkipped(s: bytes, i: nat, post: nat, f: WireField, key: uint64, value: bytes)
    requires |s| < TWO_TO_THE_63 && Writable(f) && f.number < 0x8000_0000 && f.number != 1 && f.number != 2
    requires Holds(s, i, FieldBytes(f)) && i + |FieldBytes(f)| <= post <= |s|
    ensures EntryFrom(s, i, post, key, value) == EntryFrom(s, i + |FieldBytes(f)|, post, key, value)
  {
    hide FieldBytes, Writable, VarintAt, UnknownEnd, FieldNumber, DelimitedEnd;
    FieldEndsAfter(s, i, f);
    NumberOfTag(f.number, WireType(f.value));
    SkipsField(s, i, post, f);
  }

  /** An entry with an unknown field in front of its key decodes like the entry. */
  lemma EntryWithUnknownDecodes(f: WireField, key: uint64, value: bytes)
    requires Writable(f) && f.number < 0x8000_0000 && f.number != 1 && f.number != 2
    requires |FieldBytes(f) + EntryBody(key, value)| < TWO_TO_THE_63 - 11
    ensures var body := FieldBytes(f) + EntryBody(key, value);
            |[0x0a] + VarintBytes(|body|) + body| < TWO_TO_THE_63 && Unmarshal([0x0a] + VarintBytes(|body|) + body) == Decoded(map[key := value])
  {
    hide VarintAt, UnknownEnd, EntryFrom, FieldBytes, Writable, VarintBytes, EntryBody;
    var field := FieldBytes(f);
    var body := field + EntryBody(key, value);
    AtMostTenBytes(|body|);
    var s := [0x0a] + VarintBytes(|body|) + body;
    var k := 1 + |VarintBytes(|body|)|;
    TagRead(s, 0);
    assert s[1..k] == VarintBytes(|body|);
    VarintRoundTrip(s, 1, |body|);
    assert s[k..] == body && s[k..k + |field|] == field;
    EntryUnknownSkipped(s, k, |s|, f, 0, []);
    assert s[k + |field|..] == EntryBody(key, value);
    EntryBodyDecodes(s, k + |field|, key, value);
    assert DelimitedEnd(s, k, |body|) == End(|s|);
    assert FieldAt(s, 0) == PriceField(key, value, |s|);
    assert UnmarshalFrom(s, |s|, map[key := value]) == Decoded(map[key := value]);
  }

  // ---------------------------------------------------------------- the currency pair

  /** The same for a currency pair, whose fields are 1 and 2. */
  lemma PairUnknownSkipped(s: bytes, f: WireField, t: bytes, p: Pair)
    requires Writable(f) && 2 < f.number < 0x8000_0000 && |s + FieldBytes(f) + t| < TWO_TO_THE_63
    requires DecodeFrom(s, 0, p).DecodedPair?
    ensures var a, b := DecodeFrom(s + FieldBytes(f) + t, 0, p), DecodeFrom(s + t, 0, p);
            a == b || (a.FailedPair? && b.FailedPair? && a.partial == b.partial)
  {
    hide FieldBytes, DecodeFrom, Writable;
    var q := DecodeFrom(s, 0, p).pair;
    PairUnknownAlone(f, q);
    PairConcatenationIsMerge(s, FieldBytes(f), p);
    PairConcatenationIsMerge(s + FieldBytes(f), t, p);
    PairConcatenationIsMerge(s, t, p);
  }

  lemma PairUnknownAlone(f: WireField, q: Pair)
    requires Writable(f) && 2 < f.number < 0x8000_0000 && |FieldBytes(f)| < TWO_TO_THE_63
    ensures DecodeFrom(FieldBytes(f), 0, q) == DecodedPair(q)
  {
    hide FieldBytes, Writable, VarintAt, UnknownEnd, FieldNumber;
    var s := FieldBytes(f);
    assert s[0..|s|] == s;
    FieldEndsAfter(s, 0, f);
    NumberOfTag(f.number, WireType(f.value));
    SkipsField(s, 0, |s|, f);
    assert PairFieldAt(s, 0) == Unknown(|s|);
    assert DecodeFrom(s, |s|, q) == DecodedPair(q);
  }

  // ---------------------------------------------------------------- the two messages are made of fields

  /** A map entry is field 1 of the extension: a message of the key as field 1 and, unless it is empty, the value as field 2. */
  lemma EntryIsMessage(key: uint64, value: bytes)
    ensures var fields := [WireField(1, Number(key))] + if value == [] then [] else [WireField(2, Delimited(value))];
            EntryBytes(key, value) == FieldBytes(WireField(1, Delimited(FieldsBytes(fields))))
  {
    var keyField, valueField := WireField(1, Number(key)), WireField(2, Delimited(value));
    OneByteTags();
    assert FieldBytes(keyField) == [0x08] + VarintBytes(key);
    assert FieldBytes(valueField) == [0x12] + (VarintBytes(|value|) + value);
    hide VarintBytes;
    assert [keyField][1..] == [] && [keyField, valueField][1..] == [valueField] && [valueField][1..] == [];
    assert FieldsBytes([keyField]) == FieldBytes(keyField);
    assert FieldsBytes([keyField, valueField]) == FieldBytes(keyField) + FieldBytes(valueField);
    assert [keyField] + [valueField] == [keyField, valueField] && [keyField] + [] == [keyField];
    assert EntryBody(key, value) == FieldsBytes([keyField] + if value == [] then [] else [valueField]);
  }

  /** A currency pair is its base as field 1 and its quote as field 2, each unless it is empty. */
  lemma PairIsMessage(p: Pair)
    ensures EncodedPair(p) == FieldsBytes((if p.base == [] then [] else [WireField(1, Delimited(p.base))])
                                          + (if p.quote == [] then [] else [WireField(2, Delimited(p.quote))]))
  {
    hide StringField, FieldBytes, FieldsBytes;
    StringIsField(1, p.base);
    StringIsField(2, p.quote);
    var base := if p.base == [] then [] else [WireField(1, Delimited(p.base))];
    var quote := if p.quote == [] then [] else [WireField(2, Delimited(p.quote))];
    FieldsJoin(base, quote);
  }

  /** A string under number 1 or 2, left out when empty. */
  lemma StringIsField(number: nat, value: bytes)
    requires number == 1 || number == 2
    ensures StringField(8 * number + 2, value) == FieldsBytes(if value == [] then [] else [WireField(number, Delimited(value))])
  {
    if value != [] {
      var f := WireField(number, Delimited(value));
      OneByteTags();
      hide VarintBytes;
      assert [f][1..] == [];
      assert FieldBytes(f) == VarintBytes(8 * number + 2) + (VarintBytes(|value|) + value);
      assert FieldsBytes([f]) == FieldBytes(f) + [];
    }
  }

  lemma {:induction false} FieldsJoin(s: seq<WireField>, t: seq<WireField>)
    ensures FieldsBytes(s + t) == FieldsBytes(s) + FieldsBytes(t)
  {
    hide FieldBytes;
    if s == [] {
      assert s + t == t;
    } else {
      assert (s + t)[1..] == s[1..] + t;
      FieldsJoin(s[1..], t);
    }
  }

  lemma OneByteTags()
    ensures VarintBytes(8) == [0x08] && VarintBytes(10) == [0x0a] && VarintBytes(18) == [0x12]
  {
  }

  /** Key 1 with the price bytes 2 and 7, and the pair BTC/USD, byte by byte. */
  lemma MessageExamples()
    ensures EntryBytes(1, [2, 7]) == [0x0a, 6, 0x08, 1, 0x12, 2, 2, 7]
    ensures EntryBytes(300, []) == [0x0a, 3, 0x08, 0xac, 0x02]
    ensures EncodedPair(Pair([66, 84, 67], [85, 83, 68])) == [0x0a, 3, 66, 84, 67, 0x12, 3, 85, 83, 68]
    ensures EncodedPair(Pair([], [85])) == [0x12, 1, 85]
  {
    VarintExample();
    assert VarintBytes(1) == [1] && VarintBytes(2) == [2] && VarintBytes(3) == [3] && VarintBytes(6) == [6];
    var quote: bytes := [85];
    assert StringField(0x12, quote) == [0x12, 1, 85];
    assert EncodedPair(Pair([], quote)) == [] + StringField(0x12, quote);
  }

  /** Eight bytes under the unknown number 3 decode to no prices. */
  lemma UnknownExample(p: bytes)
    requires |p| == 8
    ensures Unmarshal([0x19] + p) == Decoded(map[])
  {
    var f := WireField(3, EightBytes(p));
    assert VarintBytes(25) == [0x19];
    assert FieldBytes(f) == [0x19] + p;
    hide FieldBytes, Unmarshal;
    EmptyDecodes();
    assert [] + FieldBytes(f) + [] == FieldBytes(f);
    UnknownFieldSkipped([], f, []);
  }

  // ---------------------------------------------------------------- what is rejected

  /** The field number is the number in the tag read as a 32-bit integer. */
  lemma FieldNumberIsInt32(wire: uint64)
    ensures -0x8000_0000 <= FieldNumber(wire) < 0x8000_0000
    ensures (FieldNumber(wire) - wire / 8) % 0x1_0000_0000 == 0
  {
  }

  /** A length is accepted exactly when that many bytes are left; one of 2^63 or more is negative, and one whose end wraps is invalid too. */
  lemma LengthExactly(s: bytes, i: nat, length: uint64)
    requires |s| < TWO_TO_THE_63 && i <= |s|
    ensures DelimitedEnd(s, i, length) == if length <= |s| - i then End(i + length)
                                          else if length < TWO_TO_THE_63 - i then PayloadFailed(UnexpectedEOF)
                                          else PayloadFailed(InvalidLength)
  {
  }

  /** The first error of an input that starts with this tag, if the tag already decides it. */
  lemma RejectedTags(number: nat, wireType: nat, t: bytes)
    requires wireType < 8 && number < 0x8000_0000 && |VarintBytes(8 * number + wireType) + t| < TWO_TO_THE_63
    ensures var r := Unmarshal(VarintBytes(8 * number + wireType) + t);
            && (wireType == 4 ==> r == Failed(EndGroupForNonGroup, map[]))
            && (wireType != 4 && number == 0 ==> r == Failed(IllegalTag, map[]))
            && (wireType != 4 && wireType != 2 && number == 1 ==> r == Failed(WrongWireType, map[]))
            && (wireType >= 6 && number > 1 ==> r == Failed(IllegalWireType, map[]))
    ensures var r := DecodeFrom(VarintBytes(8 * number + wireType) + t, 0, Pair([], []));
            && (wireType == 4 ==> r == FailedPair(EndGroupForNonGroup, Pair([], [])))
            && (wireType != 4 && number == 0 ==> r == FailedPair(IllegalTag, Pair([], [])))
            && (wireType != 4 && wireType != 2 && (number == 1 || number == 2) ==> r == FailedPair(WrongWireType, Pair([], [])))
            && (wireType >= 6 && number > 2 ==> r == FailedPair(IllegalWireType, Pair([], [])))
  {
    hide VarintAt, VarintBytes, FieldNumber, EntryFrom;
    var tag := 8 * number + wireType;
    var s := VarintBytes(tag) + t;
    assert s[0..|VarintBytes(tag)|] == VarintBytes(tag);
    VarintRoundTrip(s, 0, tag);
    NumberOfTag(number, wireType);
    assert tag % 8 == wireType;
    if wireType >= 6 && number > 0 {
      assert s[0..] == s;
      assert SkipFrom(s, 0, 0) == SkipFailed(IllegalWireType);
    }
  }
}
