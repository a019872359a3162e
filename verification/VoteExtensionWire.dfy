/**
 The wire format of OracleVoteExtension, a message with the single field `map<uint64, bytes> prices = 1`
 (Protocol Buffers Encoding, sections "Message Structure", "Maps" and "Last One Wins").

 The functions here say what the generated code computes; the code itself, which fills a buffer from its end backwards
 and updates the map entry by entry, is in module VoteExtension.
 */
module VoteExtensionWire {
  import opened Varint
  import opened FieldSkipper
  import opened Orders

  type Prices = map<uint64, bytes>

  // ---------------------------------------------------------------- encoding

  function EntryBody(key: uint64, value: bytes): bytes {
    [0x08] + VarintBytes(key) + (if |value| > 0 then [0x12] + VarintBytes(|value|) + value else [])
  }

  function EntryBytes(key: uint64, value: bytes): bytes {
    [0x0a] + VarintBytes(|EntryBody(key, value)|) + EntryBody(key, value)
  }

  /** The bytes for entries written in this order: the buffer is filled backwards, so the last one comes first. */
  function Encoded(order: seq<uint64>, prices: Prices): bytes
    requires forall k <- order :: k in prices
  {
    if order == [] then [] else
    var last := |order| - 1;
    EntryBytes(order[last], prices[order[last]]) + Encoded(order[..last], prices)
  }

  ghost function Pick(keys: set<uint64>): uint64
    requires keys != {}
  {
    var k :| k in keys; k
  }

  /** The encoded size of a map, whatever the order. */
  ghost function TotalSize(prices: Prices): nat
    decreases |prices|
  {
    if prices == map[] then 0 else
    var k := Pick(prices.Keys);
    assert k in prices.Keys;
    SmallerWithout(prices, k);
    |EntryBytes(k, prices[k])| + TotalSize(prices - {k})
  }

  lemma SmallerWithout(prices: Prices, k: uint64)
    requires k in prices
    ensures |prices - {k}| == |prices| - 1
  {
  }

  lemma {:induction false} TotalSizeWithout(prices: Prices, k: uint64)
    requires k in prices
    ensures TotalSize(prices) == |EntryBytes(k, prices[k])| + TotalSize(prices - {k})
    decreases |prices|
  {
    var p := Pick(prices.Keys);
    if p != k {
      SmallerWithout(prices, p);
      SmallerWithout(prices, k);
      TotalSizeWithout(prices - {p}, k);
      TotalSizeWithout(prices - {k}, p);
      assert prices - {p} - {k} == prices - {k} - {p};
    }
  }

  lemma {:induction false} EncodedFor(order: seq<uint64>, m1: Prices, m2: Prices)
    requires forall k <- order :: k in m1 && k in m2 && m1[k] == m2[k]
    ensures Encoded(order, m1) == Encoded(order, m2)
  {
    if order != [] {
      EncodedFor(order[..|order| - 1], m1, m2);
    }
  }

  /** One more key visited: its entry goes in front. */
  lemma EncodedExtends(order: seq<uint64>, prices: Prices, todo: Prices, k: uint64)
    requires todo.Keys <= prices.Keys && k in todo
    requires IsOrder(order, prices.Keys - todo.Keys)
    ensures IsOrder(order + [k], prices.Keys - (todo - {k}).Keys)
    ensures forall k' <- order + [k] :: k' in prices
    ensures Encoded(order + [k], prices) == EntryBytes(k, prices[k]) + Encoded(order, prices)
  {
  }

  /** Every iteration order of the map takes the same number of bytes. */
  lemma {:induction false} EncodedSize(order: seq<uint64>, prices: Prices)
    requires IsOrder(order, prices.Keys)
    ensures |Encoded(order, prices)| == TotalSize(prices)
  {
    if order == [] {
      assert prices.Keys == {};
      assert prices == map[];
    } else {
      var k := order[|order| - 1];
      var rest := prices - {k};
      assert rest.Keys == prices.Keys - {k};
      OrderInit(order, prices.Keys);
      EncodedSize(order[..|order| - 1], rest);
      EncodedFor(order[..|order| - 1], rest, prices);
      TotalSizeWithout(prices, k);
    }
  }

  // ---------------------------------------------------------------- decoding

  datatype Entry = Entry(key: uint64, value: bytes) | EntryFailed(error: Error)

  /** The low 32 bits of wire >> 3, read as int32. */
  function FieldNumber(wire: uint64): int {
    var low := wire / 8 % 0x1_0000_0000;
    if low < 0x8000_0000 then low else low - 0x1_0000_0000
  }

  /** Where a length-delimited payload that starts at i and has the given length word ends. */
  function DelimitedEnd(s: bytes, i: nat, length: uint64): (p: Payload)
    requires |s| < TWO_TO_THE_63 && i <= |s|
    ensures p.End? ==> i <= p.index <= |s|
  {
    var len := AsInt64(length);
    if len < 0 then PayloadFailed(InvalidLength)
    else
      var end := AddInt64(i, len);
      if end < 0 then PayloadFailed(InvalidLength)
      else if end > |s| then PayloadFailed(UnexpectedEOF)
      else End(end)
  }

  /** The skip of an unknown field at i, where the field has to end at `limit` or before. */
  function UnknownEnd(s: bytes, i: nat, limit: nat): (p: Payload)
    requires |s| < TWO_TO_THE_63 && i <= |s| && limit <= |s|
    ensures p.End? ==> i < p.index <= limit
  {
    match SkipFrom(s[i..], 0, 0)
    case SkipFailed(e) => PayloadFailed(e)
    case Skip(n) =>
      if n >= TWO_TO_THE_63 || AddInt64(i, n) < 0 then PayloadFailed(InvalidLength)
      else if i + n > limit then PayloadFailed(UnexpectedEOF)
      else End(i + n)
  }

  /** The loop over the fields of one map entry, from index i to `post`. */
  function EntryFrom(s: bytes, i: nat, post: nat, key: uint64, value: bytes): Entry
    requires |s| < TWO_TO_THE_63 && i <= |s| && post <= |s|
    decreases |s| - i
  {
    if i >= post then Entry(key, value) else
    match VarintAt(s, i, 0, 0)
    case Bad(e) => EntryFailed(e)
    case Ok(wire, j) =>
      if FieldNumber(wire) == 1 then
        match VarintAt(s, j, 0, key)
        case Bad(e) => EntryFailed(e)
        case Ok(key', k) => EntryFrom(s, k, post, key', value)
      else if FieldNumber(wire) == 2 then
        match VarintAt(s, j, 0, 0)
        case Bad(e) => EntryFailed(e)
        case Ok(length, k) =>
          match DelimitedEnd(s, k, length)
          case PayloadFailed(e) => EntryFailed(e)
          case End(end) => EntryFrom(s, end, post, key, s[k..end])
      else
        match UnknownEnd(s, i, post)
        case PayloadFailed(e) => EntryFailed(e)
        case End(k) => EntryFrom(s, k, post, key, value)
  }

  /** What the field at index i amounts to. */
  datatype Field = PriceField(key: uint64, value: bytes, next: nat) | OtherField(next: nat) | FieldFailed(error: Error)

  function FieldAt(s: bytes, i: nat): (f: Field)
    requires |s| < TWO_TO_THE_63 && i < |s|
    ensures !f.FieldFailed? ==> i < f.next <= |s|
  {
    match VarintAt(s, i, 0, 0)
    case Bad(e) => FieldFailed(e)
    case Ok(wire, j) =>
      if wire % 8 == 4 then FieldFailed(EndGroupForNonGroup)
      else if FieldNumber(wire) <= 0 then FieldFailed(IllegalTag)
      else if FieldNumber(wire) == 1 then
        if wire % 8 != 2 then FieldFailed(WrongWireType) else
        match VarintAt(s, j, 0, 0)
        case Bad(e) => FieldFailed(e)
        case Ok(length, k) =>
          match DelimitedEnd(s, k, length)
          case PayloadFailed(e) => FieldFailed(e)
          case End(post) =>
            match EntryFrom(s, k, post, 0, [])
            case EntryFailed(e) => FieldFailed(e)
            case Entry(key, value) => PriceField(key, value, post)
      else
        match UnknownEnd(s, i, |s|)
        case PayloadFailed(e) => FieldFailed(e)
        case End(k) => OtherField(k)
  }

  /** The map as it stands when decoding ends, and the error if there was one. */
  datatype Outcome = Decoded(prices: Prices) | Failed(error: Error, partial: Prices)

  function UnmarshalFrom(s: bytes, i: nat, prices: Prices): Outcome
    requires |s| < TWO_TO_THE_63 && i <= |s|
    decreases |s| - i
  {
    if i == |s| then Decoded(prices) else
    match FieldAt(s, i)
    case FieldFailed(e) => Failed(e, prices)
    case OtherField(next) => UnmarshalFrom(s, next, prices)
    case PriceField(key, value, next) => UnmarshalFrom(s, next, prices[key := value])
  }

  /** Decoding into an empty message. */
  function Unmarshal(s: bytes): Outcome
    requires |s| < TWO_TO_THE_63
  {
    UnmarshalFrom(s, 0, map[])
  }

  // ---------------------------------------------------------------- locality of one field

  ghost predicate SameEntry(a: Entry, b: Entry) {
    a == b || (a.EntryFailed? && b.EntryFailed?)
  }

  ghost predicate SameFieldMoved(a: Field, b: Field, n: nat) {
    match b
    case FieldFailed(_) => a.FieldFailed?
    case OtherField(next) => a == OtherField(next + n)
    case PriceField(key, value, next) => a == PriceField(key, value, next + n)
  }

  lemma UnknownIgnoresSuffix(s: bytes, t: bytes, i: nat, limit: nat)
    requires |s + t| < TWO_TO_THE_63 && i <= |s| && limit <= |s|
    requires UnknownEnd(s, i, limit).End?
    ensures UnknownEnd(s + t, i, limit) == UnknownEnd(s, i, limit)
  {
    assert (s + t)[i..] == s[i..] + t;
    SkipIgnoresSuffix(s[i..], t, 0, 0);
  }

  lemma {:induction false} EntryIgnoresSuffix(s: bytes, t: bytes, i: nat, post: nat, key: uint64, value: bytes)
    requires |s + t| < TWO_TO_THE_63 && i <= |s| && post <= |s|
    requires EntryFrom(s, i, post, key, value).Entry?
    ensures EntryFrom(s + t, i, post, key, value) == EntryFrom(s, i, post, key, value)
    decreases |s| - i
  {
    if i < post {
      VarintIgnoresSuffix(s, t, i, 0, 0);
      var Ok(wire, j) := VarintAt(s, i, 0, 0);
      if FieldNumber(wire) == 1 {
        VarintIgnoresSuffix(s, t, j, 0, key);
        var Ok(key', k) := VarintAt(s, j, 0, key);
        EntryIgnoresSuffix(s, t, k, post, key', value);
      } else if FieldNumber(wire) == 2 {
        VarintIgnoresSuffix(s, t, j, 0, 0);
        var Ok(length, k) := VarintAt(s, j, 0, 0);
        var End(end) := DelimitedEnd(s, k, length);
        assert (s + t)[k..end] == s[k..end];
        EntryIgnoresSuffix(s, t, end, post, key, s[k..end]);
      } else {
        UnknownIgnoresSuffix(s, t, i, post);
        EntryIgnoresSuffix(s, t, UnknownEnd(s, i, post).index, post, key, value);
      }
    }
  }

  lemma FieldIgnoresSuffix(s: bytes, t: bytes, i: nat)
    requires |s + t| < TWO_TO_THE_63 && i < |s|
    requires !FieldAt(s, i).FieldFailed?
    ensures FieldAt(s + t, i) == FieldAt(s, i)
  {
    VarintIgnoresSuffix(s, t, i, 0, 0);
    var Ok(wire, j) := VarintAt(s, i, 0, 0);
    if FieldNumber(wire) == 1 {
      VarintIgnoresSuffix(s, t, j, 0, 0);
      var Ok(length, k) := VarintAt(s, j, 0, 0);
      EntryIgnoresSuffix(s, t, k, DelimitedEnd(s, k, length).index, 0, []);
    } else {
      UnknownIgnoresSuffixAtEnd(s, t, i);
    }
  }

  lemma UnknownIgnoresSuffixAtEnd(s: bytes, t: bytes, i: nat)
    requires |s + t| < TWO_TO_THE_63 && i <= |s|
    requires UnknownEnd(s, i, |s|).End?
    ensures UnknownEnd(s + t, i, |s + t|) == UnknownEnd(s, i, |s|)
  {
    assert (s + t)[i..] == s[i..] + t;
    SkipIgnoresSuffix(s[i..], t, 0, 0);
  }

  /** The two inputs run out at the same place, so a length is acceptable in both or in neither. */
  lemma DelimitedIgnoresPrefix(s: bytes, t: bytes, j: nat, length: uint64)
    requires |s + t| < TWO_TO_THE_63 && j <= |t|
    ensures var a, b := DelimitedEnd(s + t, |s| + j, length), DelimitedEnd(t, j, length);
            a.End? == b.End? && (b.End? ==> a.index == b.index + |s|)
  {
  }

  lemma UnknownIgnoresPrefix(s: bytes, t: bytes, j: nat, limit: nat)
    requires |s + t| < TWO_TO_THE_63 && j <= |t| && limit <= |t|
    ensures var a, b := UnknownEnd(s + t, |s| + j, |s| + limit), UnknownEnd(t, j, limit);
            a.End? == b.End? && (b.End? ==> a.index == b.index + |s|)
  {
    assert (s + t)[|s| + j..] == t[j..];
  }

  lemma {:induction false} EntryIgnoresPrefix(s: bytes, t: bytes, j: nat, post: nat, key: uint64, value: bytes)
    requires |s + t| < TWO_TO_THE_63 && j <= |t| && post <= |t|
    ensures SameEntry(EntryFrom(s + t, |s| + j, |s| + post, key, value), EntryFrom(t, j, post, key, value))
    decreases |t| - j, 1
  {
    hide VarintAt, UnknownEnd, DelimitedEnd, FieldNumber;
    VarintIgnoresPrefix(s, t, j, 0, 0);
    if j < post && VarintAt(t, j, 0, 0).Ok? {
      var Ok(wire, k) := VarintAt(t, j, 0, 0);
      if FieldNumber(wire) == 1 {
        VarintIgnoresPrefix(s, t, k, 0, key);
        if VarintAt(t, k, 0, key).Ok? {
          var Ok(key', k') := VarintAt(t, k, 0, key);
          EntryIgnoresPrefix(s, t, k', post, key', value);
        }
      } else if FieldNumber(wire) == 2 {
        VarintIgnoresPrefix(s, t, k, 0, 0);
        if VarintAt(t, k, 0, 0).Ok? {
          EntryValueIgnoresPrefix(s, t, j, post, key, value);
        }
      } else {
        UnknownIgnoresPrefix(s, t, j, post);
        var u := UnknownEnd(t, j, post);
        if u.End? {
          EntryIgnoresPrefix(s, t, u.index, post, key, value);
        }
      }
    }
  }

  /** The value branch of the previous lemma. */
  lemma {:induction false} EntryValueIgnoresPrefix(s: bytes, t: bytes, j: nat, post: nat, key: uint64, value: bytes)
    requires |s + t| < TWO_TO_THE_63 && j < post <= |t|
    requires VarintAt(t, j, 0, 0).Ok? && FieldNumber(VarintAt(t, j, 0, 0).value) == 2
    requires VarintAt(s + t, |s| + j, 0, 0) == Moved(VarintAt(t, j, 0, 0), |s|)
    requires VarintAt(t, VarintAt(t, j, 0, 0).next, 0, 0).Ok?
    requires VarintAt(s + t, |s| + VarintAt(t, j, 0, 0).next, 0, 0)
             == Moved(VarintAt(t, VarintAt(t, j, 0, 0).next, 0, 0), |s|)
    ensures SameEntry(EntryFrom(s + t, |s| + j, |s| + post, key, value), EntryFrom(t, j, post, key, value))
    decreases |t| - j, 0
  {
    hide VarintAt, UnknownEnd, FieldNumber;
    var Ok(length, k) := VarintAt(t, VarintAt(t, j, 0, 0).next, 0, 0);
    DelimitedIgnoresPrefix(s, t, k, length);
    var d := DelimitedEnd(t, k, length);
    if d.End? {
      assert (s + t)[|s| + k..|s| + d.index] == t[k..d.index];
      EntryIgnoresPrefix(s, t, d.index, post, key, t[k..d.index]);
    }
  }

  lemma FieldIgnoresPrefix(s: bytes, t: bytes, j: nat)
    requires |s + t| < TWO_TO_THE_63 && j < |t|
    ensures SameFieldMoved(FieldAt(s + t, |s| + j), FieldAt(t, j), |s|)
  {
    hide EntryFrom, UnknownEnd, DelimitedEnd, VarintAt, FieldNumber;
    VarintIgnoresPrefix(s, t, j, 0, 0);
    if VarintAt(t, j, 0, 0).Ok? {
      var Ok(wire, k) := VarintAt(t, j, 0, 0);
      if FieldNumber(wire) != 1 {
        UnknownIgnoresPrefix(s, t, j, |t|);
      } else {
        VarintIgnoresPrefix(s, t, k, 0, 0);
        if VarintAt(t, k, 0, 0).Ok? {
          PriceFieldIgnoresPrefix(s, t, k);
        }
      }
    }
  }

  /** The body of a price field, after its length has been read. */
  lemma PriceFieldIgnoresPrefix(s: bytes, t: bytes, k: nat)
    requires |s + t| < TWO_TO_THE_63 && k <= |t|
    requires VarintAt(t, k, 0, 0).Ok?
    ensures var Ok(length, k') := VarintAt(t, k, 0, 0);
            var a, b := DelimitedEnd(s + t, |s| + k', length), DelimitedEnd(t, k', length);
            a.End? == b.End? &&
            (b.End? ==>
               a.index == b.index + |s| &&
               SameEntry(EntryFrom(s + t, |s| + k', a.index, 0, []), EntryFrom(t, k', b.index, 0, [])))
  {
    hide EntryFrom, VarintAt;
    var Ok(length, k') := VarintAt(t, k, 0, 0);
    DelimitedIgnoresPrefix(s, t, k', length);
    var d := DelimitedEnd(t, k', length);
    if d.End? {
      EntryIgnoresPrefix(s, t, k', d.index, 0, []);
    }
  }

  // ---------------------------------------------------------------- concatenation is merge

  ghost predicate SameOutcome(a: Outcome, b: Outcome) {
    a == b || (a.Failed? && b.Failed? && a.partial == b.partial)
  }

  lemma {:induction false} RestOfConcatenation(s: bytes, t: bytes, j: nat, prices: Prices)
    requires |s + t| < TWO_TO_THE_63 && j <= |t|
    ensures SameOutcome(UnmarshalFrom(s + t, |s| + j, prices), UnmarshalFrom(t, j, prices))
    decreases |t| - j
  {
    hide FieldAt;
    if j < |t| {
      FieldIgnoresPrefix(s, t, j);
      match FieldAt(t, j)
      case FieldFailed(_) =>
      case OtherField(next) => RestOfConcatenation(s, t, next, prices);
      case PriceField(key, value, next) => RestOfConcatenation(s, t, next, prices[key := value]);
    }
  }

  lemma {:induction false} FirstOfConcatenation(s: bytes, t: bytes, i: nat, prices: Prices)
    requires |s + t| < TWO_TO_THE_63 && i <= |s|
    requires UnmarshalFrom(s, i, prices).Decoded?
    ensures UnmarshalFrom(s + t, i, prices) == UnmarshalFrom(s + t, |s|, UnmarshalFrom(s, i, prices).prices)
    decreases |s| - i
  {
    if i < |s| {
      FieldIgnoresSuffix(s, t, i);
      match FieldAt(s, i)
      case OtherField(next) => FirstOfConcatenation(s, t, next, prices);
      case PriceField(key, value, next) => FirstOfConcatenation(s, t, next, prices[key := value]);
    }
  }

  /** Decoding into a map that already holds entries overwrites them key by key. */
  lemma {:induction false} DecodeOver(s: bytes, i: nat, before: Prices, prices: Prices)
    requires |s| < TWO_TO_THE_63 && i <= |s|
    ensures UnmarshalFrom(s, i, before + prices) ==
            match UnmarshalFrom(s, i, prices)
            case Decoded(p) => Decoded(before + p)
            case Failed(e, p) => Failed(e, before + p)
    decreases |s| - i
  {
    if i < |s| {
      match FieldAt(s, i)
      case FieldFailed(_) =>
      case OtherField(next) => DecodeOver(s, next, before, prices);
      case PriceField(key, value, next) =>
        assert (before + prices)[key := value] == before + prices[key := value];
        DecodeOver(s, next, before, prices[key := value]);
    }
  }

  /**
   Concatenating encodings merges the messages: when the first input decodes, the concatenation decodes exactly when
   the second one does, and the result is the first map overwritten by what was decoded from the second.
   */
  lemma ConcatenationIsMerge(s: bytes, t: bytes)
    requires |s + t| < TWO_TO_THE_63
    requires Unmarshal(s).Decoded?
    ensures Unmarshal(s + t).Decoded? <==> Unmarshal(t).Decoded?
    ensures Unmarshal(t).Decoded? ==> Unmarshal(s + t) == Decoded(Unmarshal(s).prices + Unmarshal(t).prices)
    ensures Unmarshal(t).Failed? ==> Unmarshal(s + t).partial == Unmarshal(s).prices + Unmarshal(t).partial
  {
    var first := Unmarshal(s).prices;
    FirstOfConcatenation(s, t, 0, map[]);
    RestOfConcatenation(s, t, 0, first);
    DecodeOver(t, 0, first, map[]);
    assert first + map[] == first;
  }

  /** A well-formed field with a number this version does not know leaves the result unchanged wherever it stands. */
  lemma UnknownFieldsAreIgnored(s: bytes, field: bytes, t: bytes)
    requires |s + field + t| < TWO_TO_THE_63
    requires Unmarshal(s).Decoded?
    requires VarintAt(field, 0, 0, 0).Ok? && FieldNumber(VarintAt(field, 0, 0, 0).value) > 1
    requires FieldEnd(field, 0) == Ends(|field|)
    ensures Unmarshal(s + field + t).Decoded? <==> Unmarshal(t).Decoded?
    ensures Unmarshal(t).Decoded? ==> Unmarshal(s + field + t) == Decoded(Unmarshal(s).prices + Unmarshal(t).prices)
  {
    hide UnmarshalFrom, FieldEnd, VarintAt;
    UnknownFieldAlone(field);
    ConcatenationIsMerge(s, field);
    assert Unmarshal(s).prices + map[] == Unmarshal(s).prices;
    ConcatenationIsMerge(s + field, t);
  }

  lemma UnknownFieldAlone(field: bytes)
    requires |field| < TWO_TO_THE_63
    requires VarintAt(field, 0, 0, 0).Ok? && FieldNumber(VarintAt(field, 0, 0, 0).value) > 1
    requires FieldEnd(field, 0) == Ends(|field|)
    ensures Unmarshal(field) == Decoded(map[])
  {
    hide EntryFrom, DelimitedEnd, SkipFrom, PayloadEnd, VarintAt, GroupEnd;
    SkipIsOneField(field);
    assert field[0..] == field;
    assert UnknownEnd(field, 0, |field|) == End(|field|);
    assert FieldAt(field, 0) == OtherField(|field|);
    assert UnmarshalFrom(field, |field|, map[]) == Decoded(map[]);
  }

  // ---------------------------------------------------------------- decoding undoes encoding

  lemma TagRead(s: bytes, i: nat)
    requires i < |s| && s[i] < 128
    ensures VarintAt(s, i, 0, 0) == Ok(s[i], i + 1)
  {
  }

  /** A key field ors its key into the accumulator. */
  lemma KeyFieldStep(s: bytes, i: nat, j: nat, key: uint64, acc: uint64, value: bytes)
    requires |s| < TWO_TO_THE_63 && i + 1 <= j <= |s|
    requires s[i] == 0x08 && s[i + 1..j] == VarintBytes(key)
    ensures BitOr(acc, key) < TWO_TO_THE_64
    ensures EntryFrom(s, i, |s|, acc, value) == EntryFrom(s, j, |s|, BitOr(acc, key), value)
  {
    hide VarintAt, UnknownEnd, DelimitedEnd, BitOr, VarintBytes;
    OrStaysInWord(acc, key);
    TagRead(s, i);
    VarintRoundTrip(s, i + 1, key);
    VarintOrsIntoAccumulator(s, i + 1, 0, acc, 0);
    BitOrWithZero(acc);
  }

  lemma SliceOfTail(s: bytes, i: nat, a: nat, b: nat)
    requires a <= b && i + b <= |s|
    ensures s[i + a..i + b] == s[i..][a..b]
  {
  }

  /** The loop over an entry's fields recovers the key and the value. */
  lemma EntryBodyDecodes(s: bytes, i: nat, key: uint64, value: bytes)
    requires |s| < TWO_TO_THE_63 && i <= |s|
    requires s[i..] == EntryBody(key, value)
    ensures EntryFrom(s, i, |s|, 0, []) == Entry(key, value)
  {
    hide EntryFrom, BitOr, VarintBytes;
    var body := EntryBody(key, value);
    var j := i + 1 + |VarintBytes(key)|;
    var tail := s[i..];
    assert s[i] == tail[0] == 0x08;
    SliceOfTail(s, i, 1, j - i);
    assert tail[1..j - i] == VarintBytes(key);
    KeyFieldStep(s, i, j, key, 0, []);
    BitOrWithZero(key);
    if |value| > 0 {
      SliceOfTail(s, i, j - i, |s| - i);
      assert s[j..|s|] == s[j..];
      assert s[j..] == body[j - i..];
      EntryValueDecodes(s, j, key, value);
    } else {
      EntryEnds(s, key, []);
    }
  }

  lemma EntryEnds(s: bytes, key: uint64, value: bytes)
    requires |s| < TWO_TO_THE_63
    ensures EntryFrom(s, |s|, |s|, key, value) == Entry(key, value)
  {
  }

  lemma EntryValueDecodes(s: bytes, j: nat, key: uint64, value: bytes)
    requires |s| < TWO_TO_THE_63 && j <= |s|
    requires 0 < |value| < TWO_TO_THE_63 && s[j..] == [0x12] + VarintBytes(|value|) + value
    ensures EntryFrom(s, j, |s|, key, []) == Entry(key, value)
  {
    hide VarintAt, UnknownEnd, VarintBytes;
    var tail := s[j..];
    var k := j + 1 + |VarintBytes(|value|)|;
    assert s[j] == tail[0];
    SliceOfTail(s, j, 1, k - j);
    SliceOfTail(s, j, k - j, |s| - j);
    assert tail[1..k - j] == VarintBytes(|value|);
    assert tail[k - j..|s| - j] == value;
    TagRead(s, j);
    VarintRoundTrip(s, j + 1, |value|);
    assert DelimitedEnd(s, k, |value|) == End(|s|);
    EntryEnds(s, key, value);
  }

  lemma EntryDecodes(key: uint64, value: bytes)
    requires |EntryBytes(key, value)| < TWO_TO_THE_63
    ensures Unmarshal(EntryBytes(key, value)) == Decoded(map[key := value])
    ensures FieldAt(EntryBytes(key, value), 0) == PriceField(key, value, |EntryBytes(key, value)|)
  {
    hide VarintAt, UnknownEnd, EntryFrom;
    var s, body := EntryBytes(key, value), EntryBody(key, value);
    var k := 1 + |VarintBytes(|body|)|;
    TagRead(s, 0);
    assert s[1..k] == VarintBytes(|body|);
    VarintRoundTrip(s, 1, |body|);
    assert s[k..] == body;
    EntryBodyDecodes(s, k, key, value);
    assert DelimitedEnd(s, k, |body|) == End(|s|);
    assert FieldAt(s, 0) == PriceField(key, value, |s|);
    assert UnmarshalFrom(s, |s|, map[key := value]) == Decoded(map[key := value]);
  }

  /** An entry with a value of at most 33 bytes takes at most 48 bytes. */
  lemma SmallEntrySize(key: uint64, value: bytes)
    requires |value| <= 33
    ensures |EntryBytes(key, value)| <= 48
  {
    AtMostTenBytes(key);
  }

  /** The last entry of an order comes first in its encoding; the rest encodes the map without it. */
  lemma EncodedSplits(order: seq<uint64>, prices: Prices)
    requires IsOrder(order, prices.Keys) && order != []
    ensures var front, k := order[..|order| - 1], order[|order| - 1];
            && k in prices && IsOrder(front, (prices - {k}).Keys)
            && Encoded(order, prices) == EntryBytes(k, prices[k]) + Encoded(front, prices - {k})
            && map[k := prices[k]] + (prices - {k}) == prices
  {
    hide EntryBytes;
    var front, k := order[..|order| - 1], order[|order| - 1];
    assert (prices - {k}).Keys == prices.Keys - {k};
    OrderInit(order, prices.Keys);
    EncodedFor(front, prices - {k}, prices);
  }

  /** Every encoding of a map, in whatever order the entries were written, decodes to that map. */
  lemma {:induction false} RoundTrip(order: seq<uint64>, prices: Prices)
    requires IsOrder(order, prices.Keys)
    requires |Encoded(order, prices)| < TWO_TO_THE_63
    ensures Unmarshal(Encoded(order, prices)) == Decoded(prices)
  {
    if order == [] {
      assert prices.Keys == {};
      assert prices == map[];
      EmptyDecodes();
    } else {
      hide IsOrder, Encoded, Unmarshal, EntryBytes;
      var front, k := order[..|order| - 1], order[|order| - 1];
      EncodedSplits(order, prices);
      RoundTrip(front, prices - {k});
      EntryDecodes(k, prices[k]);
      ConcatenationIsMerge(EntryBytes(k, prices[k]), Encoded(front, prices - {k}));
    }
  }

  /** An empty extension decodes to no prices. */
  lemma EmptyDecodes()
    ensures Unmarshal([]) == Decoded(map[])
  {
  }

  // ---------------------------------------------------------------- a repeated key inside one entry

  /** The keys that the fields of an entry body carry, in order, each read on its own. */
  function KeysIn(s: bytes, i: nat, post: nat): seq<uint64>
    requires |s| < TWO_TO_THE_63 && i <= |s| && post <= |s|
    decreases |s| - i
  {
    if i >= post then [] else
    match VarintAt(s, i, 0, 0)
    case Bad(_) => []
    case Ok(wire, j) =>
      if FieldNumber(wire) == 1 then
        match VarintAt(s, j, 0, 0)
        case Bad(_) => []
        case Ok(k, next) => [k] + KeysIn(s, next, post)
      else if FieldNumber(wire) == 2 then
        match VarintAt(s, j, 0, 0)
        case Bad(_) => []
        case Ok(length, k) =>
          match DelimitedEnd(s, k, length)
          case PayloadFailed(_) => []
          case End(end) => KeysIn(s, end, post)
      else
        match UnknownEnd(s, i, post)
        case PayloadFailed(_) => []
        case End(k) => KeysIn(s, k, post)
  }

  /** The entry loop as "Last One Wins" would have it: the key is cleared before each read. */
  function LastKeyWins(s: bytes, i: nat, post: nat, key: uint64, value: bytes): Entry
    requires |s| < TWO_TO_THE_63 && i <= |s| && post <= |s|
    decreases |s| - i
  {
    if i >= post then Entry(key, value) else
    match VarintAt(s, i, 0, 0)
    case Bad(e) => EntryFailed(e)
    case Ok(wire, j) =>
      if FieldNumber(wire) == 1 then
        match VarintAt(s, j, 0, 0)
        case Bad(e) => EntryFailed(e)
        case Ok(k, next) => LastKeyWins(s, next, post, k, value)
      else if FieldNumber(wire) == 2 then
        match VarintAt(s, j, 0, 0)
        case Bad(e) => EntryFailed(e)
        case Ok(length, k) =>
          match DelimitedEnd(s, k, length)
          case PayloadFailed(e) => EntryFailed(e)
          case End(end) => LastKeyWins(s, end, post, key, s[k..end])
      else
        match UnknownEnd(s, i, post)
        case PayloadFailed(e) => EntryFailed(e)
        case End(k) => LastKeyWins(s, k, post, key, value)
  }

  function OrAll(acc: uint64, keys: seq<uint64>): uint64
    decreases |keys|
  {
    if keys == [] then acc else
    OrStaysInWord(acc, keys[0]);
    OrAll(BitOr(acc, keys[0]), keys[1..])
  }

  function LastOf(key: uint64, keys: seq<uint64>): uint64 {
    if keys == [] then key else keys[|keys| - 1]
  }

  function WithKey(e: Entry, key: uint64): Entry {
    if e.Entry? then e.(key := key) else e
  }

  lemma LastOfTail(key: uint64, keys: seq<uint64>)
    requires keys != []
    ensures LastOf(keys[0], keys[1..]) == LastOf(key, keys)
  {
  }

  /** One key field, read into the accumulator and read on its own. */
  lemma KeyRead(s: bytes, j: nat, acc: uint64)
    ensures var p := VarintAt(s, j, 0, 0);
            && (p.Bad? ==> VarintAt(s, j, 0, acc) == p)
            && (p.Ok? ==> BitOr(acc, p.value) < TWO_TO_THE_64 && VarintAt(s, j, 0, acc) == Ok(BitOr(acc, p.value), p.next))
  {
    VarintOrsIntoAccumulator(s, j, 0, acc, 0);
    BitOrWithZero(acc);
  }

  /**
   "Last One Wins" inside a map entry.  Whatever fields the body holds, the decoder and one that clears the key fail alike and
   find the same value; the key found is the bitwise or of all keys in the body, where the clearing decoder finds the last.
   */
  lemma {:induction false} KeysAreOred(s: bytes, i: nat, post: nat, acc: uint64, key: uint64, value: bytes)
    requires |s| < TWO_TO_THE_63 && i <= |s| && post <= |s|
    ensures var e := LastKeyWins(s, i, post, key, value);
            && EntryFrom(s, i, post, acc, value) == WithKey(e, OrAll(acc, KeysIn(s, i, post)))
            && e == WithKey(e, LastOf(key, KeysIn(s, i, post)))
    decreases |s| - i
  {
    hide VarintAt, UnknownEnd, DelimitedEnd, FieldNumber, BitOr;
    if i < post && VarintAt(s, i, 0, 0).Ok? {
      var Ok(wire, j) := VarintAt(s, i, 0, 0);
      if FieldNumber(wire) == 1 {
        KeyRead(s, j, acc);
        if VarintAt(s, j, 0, 0).Ok? {
          var Ok(k, next) := VarintAt(s, j, 0, 0);
          KeysAreOred(s, next, post, BitOr(acc, k), k, value);
          LastOfTail(key, KeysIn(s, i, post));
        }
      } else if FieldNumber(wire) == 2 {
        if VarintAt(s, j, 0, 0).Ok? {
          var Ok(length, k) := VarintAt(s, j, 0, 0);
          var d := DelimitedEnd(s, k, length);
          if d.End? {
            KeysAreOred(s, d.index, post, acc, key, s[k..d.index]);
          }
        }
      } else {
        var u := UnknownEnd(s, i, post);
        if u.End? {
          KeysAreOred(s, u.index, post, acc, key, value);
        }
      }
    }
  }

  /** a's bits are all set in b: a &^ b == 0. */
  predicate BitsWithin(a: nat, b: nat) {
    a == 0 || ((a % 2 == 1 ==> b % 2 == 1) && BitsWithin(a / 2, b / 2))
  }

  lemma {:induction false} WithinSelf(a: nat)
    ensures BitsWithin(a, a)
  {
    if a != 0 {
      WithinSelf(a / 2);
    }
  }

  lemma {:induction false} OrWithin(a: nat, b: nat, c: nat)
    ensures BitsWithin(BitOr(a, b), c) <==> BitsWithin(a, c) && BitsWithin(b, c)
    decreases a + b
  {
    if a != 0 && b != 0 {
      BitOrNonZero(a, b);
      BitOrHalves(a, b);
      OrWithin(a / 2, b / 2, c / 2);
    }
  }

  lemma {:induction false} WithinBoth(a: nat, b: nat)
    requires BitsWithin(a, b) && BitsWithin(b, a)
    ensures a == b
    decreases a + b
  {
    if a != 0 || b != 0 {
      WithinBoth(a / 2, b / 2);
    }
  }

  ghost predicate EachWithin(keys: seq<uint64>, c: nat) {
    forall k <- keys :: BitsWithin(k, c)
  }

  lemma {:induction false} AllWithin(acc: uint64, keys: seq<uint64>, c: nat)
    ensures BitsWithin(OrAll(acc, keys), c) <==> BitsWithin(acc, c) && EachWithin(keys, c)
    decreases |keys|
  {
    if keys != [] {
      OrWithin(acc, keys[0], c);
      OrStaysInWord(acc, keys[0]);
      AllWithin(BitOr(acc, keys[0]), keys[1..], c);
      assert keys == [keys[0]] + keys[1..];
      assert EachWithin(keys, c) <==> BitsWithin(keys[0], c) && EachWithin(keys[1..], c);
    }
  }

  /** The or of a list is its last element exactly when every element's bits lie within the last. */
  lemma OrIsLast(keys: seq<uint64>)
    requires keys != []
    ensures OrAll(0, keys) == LastOf(0, keys) <==> EachWithin(keys, LastOf(0, keys))
  {
    hide OrAll, BitsWithin;
    var last, all := LastOf(0, keys), OrAll(0, keys);
    assert last in keys;
    AllWithin(0, keys, last);
    AllWithin(0, keys, all);
    WithinSelf(last);
    WithinSelf(all);
    assert BitsWithin(0, last) && BitsWithin(0, all) by { ZeroWithin(last); ZeroWithin(all); }
    if EachWithin(keys, last) {
      WithinBoth(last, all);
    }
  }

  lemma ZeroWithin(a: nat)
    ensures BitsWithin(0, a)
  {
  }

  /**
   For every entry body: the decoder agrees with the one that lets the last key win exactly when it fails, or the bits of every
   key in the body lie within the last one.
   */
  lemma LastKeyWinsExactly(s: bytes, i: nat, post: nat)
    requires |s| < TWO_TO_THE_63 && i <= |s| && post <= |s|
    ensures var keys := KeysIn(s, i, post);
            EntryFrom(s, i, post, 0, []) == LastKeyWins(s, i, post, 0, [])
            <==> EntryFrom(s, i, post, 0, []).EntryFailed? || EachWithin(keys, LastOf(0, keys))
  {
    hide EntryFrom, LastKeyWins, KeysIn, BitsWithin;
    KeysAreOred(s, i, post, 0, 0, []);
    var keys := KeysIn(s, i, post);
    if keys != [] {
      hide OrAll;
      OrIsLast(keys);
    }
  }

  /** Key 1 and then key 2 in one entry decode to key 3. */
  lemma RepeatedKeyExample()
    ensures EntryFrom([0x08, 1, 0x08, 2], 0, 4, 0, []) == Entry(3, [])
  {
    hide EntryFrom;
    var s: bytes := [0x08, 1, 0x08, 2];
    assert BitOr(0, 1) == 1 && BitOr(1, 2) == 2 * BitOr(0, 1) + 1 == 3;
    assert s[1..2] == [1] == VarintBytes(1) && s[3..4] == [2] == VarintBytes(2);
    hide BitOr, VarintBytes;
    KeyFieldStep(s, 0, 2, 1, 0, []);
    KeyFieldStep(s, 2, 4, 2, 1, []);
    EntryEnds(s, 3, []);
  }
}
