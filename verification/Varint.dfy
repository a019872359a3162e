/**
 Base-128 varints as the generated Protocol Buffers code reads and writes them
 (Protocol Buffers Encoding, section "Base 128 Varints").

 Bytes and 64-bit words are integers in range.  For an unsigned x, `x & 0x7f` is `x % 128`, `x | 0x80` of a
 seven-bit x is `x + 128`, `x >> 7` is `x / 128`, and `x << n` is `Shl(x, n)`, which drops the bits above 2^64.
 `|=` is kept as a bitwise or (`BitOr`), because one accumulator of the decoder is not reset between two reads.
 */
module Varint {

  const TWO_TO_THE_63: int := 0x8000_0000_0000_0000
  const TWO_TO_THE_64: int := 0x1_0000_0000_0000_0000

  type byte = x: int | 0 <= x < 0x100
  type uint64 = x: int | 0 <= x < TWO_TO_THE_64
  type bytes = seq<byte>

  datatype Error =
    | IntOverflow
    | UnexpectedEOF
    | InvalidLength
    | EndGroupForNonGroup
    | IllegalTag
    | WrongWireType
    | UnexpectedEndOfGroup
    | IllegalWireType

  /** Either a value together with the index after it, or an error. */
  datatype Parsed = Ok(value: uint64, next: nat) | Bad(error: Error)

  // ---------------------------------------------------------------- bit arithmetic

  function Pow2(n: nat): (p: nat)
    ensures p > 0
  {
    if n == 0 then 1 else 2 * Pow2(n - 1)
  }

  /** x << n on a 64-bit word. */
  function Shl(x: nat, n: nat): uint64 {
    (x * Pow2(n)) % TWO_TO_THE_64
  }

  /** Bitwise or. */
  function BitOr(a: nat, b: nat): nat
    decreases a + b
  {
    if a == 0 then b
    else if b == 0 then a
    else 2 * BitOr(a / 2, b / 2) + (if a % 2 == 1 || b % 2 == 1 then 1 else 0)
  }

  /** The two's complement reading of a 64-bit word: int(x), int64(x). */
  function AsInt64(x: uint64): int {
    if x < TWO_TO_THE_63 then x else x - TWO_TO_THE_64
  }

  /** Signed 64-bit addition of two non-negative numbers, with wrap-around. */
  function AddInt64(a: nat, b: nat): int
    requires a < TWO_TO_THE_63 && b < TWO_TO_THE_63
  {
    if a + b < TWO_TO_THE_63 then a + b else a + b - TWO_TO_THE_64
  }

  lemma {:induction false} BitOrWithZero(a: nat)
    ensures BitOr(a, 0) == BitOr(0, a) == a
  {
  }

  lemma {:induction false} BitOrCommutes(a: nat, b: nat)
    ensures BitOr(a, b) == BitOr(b, a)
    decreases a + b
  {
    if a != 0 && b != 0 {
      BitOrCommutes(a / 2, b / 2);
    }
  }

  lemma {:induction false} BitOrHalves(a: nat, b: nat)
    ensures BitOr(a, b) / 2 == BitOr(a / 2, b / 2)
    ensures BitOr(a, b) % 2 == (if a % 2 == 1 || b % 2 == 1 then 1 else 0)
  {
  }

  lemma {:induction false} BitOrAssociates(a: nat, b: nat, c: nat)
    ensures BitOr(BitOr(a, b), c) == BitOr(a, BitOr(b, c))
    decreases a + b + c
  {
    BitOrWithZero(a);
    BitOrWithZero(c);
    if a != 0 && b != 0 && c != 0 {
      BitOrHalves(a, b);
      BitOrHalves(b, c);
      BitOrAssociates(a / 2, b / 2, c / 2);
      BitOrNonZero(a, b);
      BitOrNonZero(b, c);
    }
  }

  lemma {:induction false} BitOrNonZero(a: nat, b: nat)
    requires a != 0 || b != 0
    ensures BitOr(a, b) != 0
    decreases a + b
  {
    if a != 0 && b != 0 && (a / 2 != 0 || b / 2 != 0) {
      BitOrNonZero(a / 2, b / 2);
    }
  }

  /** Or-ing in bits above the ones already present is addition. */
  lemma {:induction false} BitOrIsSum(low: nat, high: nat, n: nat)
    requires low < Pow2(n)
    ensures BitOr(low, high * Pow2(n)) == low + high * Pow2(n)
    decreases n
  {
    if n > 0 && low != 0 && high != 0 {
      var half := high * Pow2(n - 1);
      assert high * Pow2(n) == 2 * half;
      assert half > 0;
      BitOrIsSum(low / 2, high, n - 1);
      BitOrHalves(low, 2 * half);
    } else if n > 0 {
      assert high == 0 ==> high * Pow2(n) == 0;
    }
  }

  lemma {:induction false} BitOrBelow(a: nat, b: nat, n: nat)
    requires a < Pow2(n) && b < Pow2(n)
    ensures BitOr(a, b) < Pow2(n)
    decreases n
  {
    if n > 0 && a != 0 && b != 0 {
      BitOrBelow(a / 2, b / 2, n - 1);
    }
  }

  lemma Pow2Of64()
    ensures Pow2(64) == TWO_TO_THE_64
  {
    assert Pow2(4) == 16;
    hide Pow2;
    Pow2Adds(4, 4);
    assert Pow2(8) == 0x100;
    Pow2Adds(8, 8);
    assert Pow2(16) == 0x1_0000;
    Pow2Adds(16, 16);
    assert Pow2(32) == 0x1_0000_0000;
    Pow2Adds(32, 32);
  }

  lemma {:induction false} Pow2Adds(m: nat, n: nat)
    ensures Pow2(m + n) == Pow2(m) * Pow2(n)
  {
    if m > 0 {
      Pow2Adds(m - 1, n);
    }
  }

  lemma {:induction false} Pow2Grows(m: nat, n: nat)
    requires m <= n
    ensures Pow2(m) <= Pow2(n)
  {
    if m < n {
      Pow2Grows(m, n - 1);
    }
  }

  lemma OrStaysInWord(a: uint64, b: uint64)
    ensures BitOr(a, b) < TWO_TO_THE_64
  {
    Pow2Of64();
    BitOrBelow(a, b, 64);
  }

  // ---------------------------------------------------------------- writing

  /** The wire form of v: seven bits a byte, least significant group first, the top bit set on all but the last. */
  function VarintBytes(v: nat): (s: bytes)
    ensures |s| > 0
  {
    if v < 128 then [v] else [v % 128 + 128] + VarintBytes(v / 128)
  }

  /** math/bits.Len64. */
  function Len64(x: nat): nat {
    if x == 0 then 0 else 1 + Len64(x / 2)
  }

  /** sov: the size computation of the generated code, (bits.Len64(x|1) + 6) / 7. */
  function Sov(x: uint64): nat {
    (Len64(BitOr(x, 1)) + 6) / 7
  }

  lemma {:induction false} Len64OfShifted(x: nat)
    requires x >= 128
    ensures Len64(x) == 7 + Len64(x / 128)
  {
    assert x / 2 / 2 / 2 / 2 / 2 / 2 / 2 == x / 128;
    Len64Step(x); Len64Step(x / 2); Len64Step(x / 2 / 2); Len64Step(x / 2 / 2 / 2);
    Len64Step(x / 2 / 2 / 2 / 2); Len64Step(x / 2 / 2 / 2 / 2 / 2); Len64Step(x / 2 / 2 / 2 / 2 / 2 / 2);
  }

  lemma Len64Step(x: nat)
    requires x > 0
    ensures Len64(x) == 1 + Len64(x / 2)
  {
  }

  lemma {:induction false} Len64OfSmall(x: nat)
    requires 0 < x < 128
    ensures 1 <= Len64(x) <= 7
  {
    if x > 1 {
      Len64Step(x);
      if x / 2 > 1 { Len64Step(x / 2); if x / 4 > 1 { Len64Step(x / 4); if x / 8 > 1 { Len64Step(x / 8);
        if x / 16 > 1 { Len64Step(x / 16); if x / 32 > 1 { Len64Step(x / 32); } } } } }
    }
  }

  /** The number of seven-bit groups, via the bit length. */
  lemma {:induction false} GroupsOfVarint(v: nat)
    requires v > 0
    ensures |VarintBytes(v)| == (Len64(v) + 6) / 7
  {
    if v >= 128 {
      GroupsOfVarint(v / 128);
      Len64OfShifted(v);
    } else {
      Len64OfSmall(v);
    }
  }

  lemma {:induction false} Len64OrOne(x: nat)
    requires x > 0
    ensures Len64(BitOr(x, 1)) == Len64(x)
  {
    BitOrHalves(x, 1);
    BitOrWithZero(x / 2);
    BitOrNonZero(x, 1);
    Len64Step(BitOr(x, 1));
    Len64Step(x);
  }

  /** The size the generated code reserves for a varint is the number of bytes its wire form has. */
  lemma SovIsVarintLength(x: uint64)
    ensures Sov(x) == |VarintBytes(x)|
  {
    if x > 0 {
      Len64OrOne(x);
      GroupsOfVarint(x);
    } else {
      assert BitOr(0, 1) == 1;
      assert Len64(1) == 1 + Len64(0);
    }
  }

  lemma {:induction false} VarintLength(v: nat, n: nat)
    requires n > 0 && v < Pow2(7 * n)
    ensures |VarintBytes(v)| <= n
    decreases n
  {
    if v >= 128 {
      if n == 1 {
        Pow2Plus7(0);
      } else {
        Pow2Plus7(7 * (n - 1));
        VarintLength(v / 128, n - 1);
      }
    }
  }

  /** A 64-bit word takes at most ten bytes. */
  lemma AtMostTenBytes(v: uint64)
    ensures |VarintBytes(v)| <= 10
  {
    hide VarintBytes;
    Pow2Of64();
    Pow2Grows(64, 70);
    VarintLength(v, 10);
  }

  /**
   encodeVarintVoteExtensions and encodeVarintCurrencyPair: reserve Sov(v) bytes in front of `offset`, fill them
   left to right, and return their start.
   */
  method EncodeVarint(dAtA: array<byte>, offset: nat, v: uint64) returns (base: nat)
    requires Sov(v) <= offset <= dAtA.Length
    modifies dAtA
    ensures base == offset - Sov(v)
    ensures dAtA[base..] == VarintBytes(v) + old(dAtA[offset..])
    ensures forall j :: 0 <= j < base ==> dAtA[j] == old(dAtA[j])
  {
    hide VarintBytes, Sov;
    SovIsVarintLength(v);
    ghost var tail := dAtA[offset..];
    ghost var done: bytes := [];
    var at := offset - Sov(v);
    base := at;
    var rest := v;
    while rest >= 128
      invariant base <= at && at + |VarintBytes(rest)| == offset
      invariant at == base + |done| && done + VarintBytes(rest) == VarintBytes(v)
      invariant forall j :: 0 <= j < |done| ==> dAtA[base + j] == done[j]
      invariant forall j :: offset <= j < dAtA.Length ==> dAtA[j] == old(dAtA[j])
      invariant forall j :: 0 <= j < base ==> dAtA[j] == old(dAtA[j])
      decreases rest
    {
      NextGroup(rest);
      assert done + VarintBytes(rest) == (done + [rest % 128 + 128]) + VarintBytes(rest / 128);
      dAtA[at] := rest % 128 + 128;
      at := at + 1;
      done := done + [rest % 128 + 128];
      rest := rest / 128;
    }
    NextGroup(rest);
    dAtA[at] := rest;
    Joined(dAtA[base..], done, rest, tail);
  }

  lemma Joined(s: bytes, front: bytes, b: byte, tail: bytes)
    requires |s| == |front| + 1 + |tail|
    requires forall j :: 0 <= j < |front| ==> s[j] == front[j]
    requires s[|front|] == b
    requires forall j :: 0 <= j < |tail| ==> s[|front| + 1 + j] == tail[j]
    ensures s == front + [b] + tail
  {
  }

  lemma NextGroup(v: uint64)
    ensures VarintBytes(v) == if v < 128 then [v] else [v % 128 + 128] + VarintBytes(v / 128)
  {
  }

  // ---------------------------------------------------------------- reading

  /** One step of the decoding loop: the next value of an accumulator that has b's low seven bits or-ed in. */
  function Accumulate(acc: uint64, b: byte, shift: nat): uint64 {
    OrStaysInWord(acc, Shl(b % 128, shift));
    BitOr(acc, Shl(b % 128, shift))
  }

  /** The varint read at index i, or-ed into acc from bit `shift` upwards. */
  function VarintAt(s: bytes, i: nat, shift: nat, acc: uint64): (p: Parsed)
    ensures p.Ok? ==> i < p.next <= |s|
    decreases |s| - i
  {
    if shift >= 64 then Bad(IntOverflow)
    else if i >= |s| then Bad(UnexpectedEOF)
    else
      var acc' := Accumulate(acc, s[i], shift);
      if s[i] < 128 then Ok(acc', i + 1) else VarintAt(s, i + 1, shift + 7, acc')
  }

  /** The varint loop that the generated decoder repeats for every tag, key and length. */
  method ReadVarint(dAtA: bytes, start: nat, init: uint64) returns (p: Parsed)
    ensures p == VarintAt(dAtA, start, 0, init)
  {
    var iNdEx, shift, acc: uint64 := start, 0, init;
    while true
      invariant start <= iNdEx
      invariant VarintAt(dAtA, start, 0, init) == VarintAt(dAtA, iNdEx, shift, acc)
      decreases |dAtA| - iNdEx
    {
      if shift >= 64 {
        return Bad(IntOverflow);
      }
      if iNdEx >= |dAtA| {
        return Bad(UnexpectedEOF);
      }
      var b := dAtA[iNdEx];
      iNdEx := iNdEx + 1;
      acc := Accumulate(acc, b, shift);
      if b < 128 {
        return Ok(acc, iNdEx);
      }
      shift := shift + 7;
    }
  }

  // ---------------------------------------------------------------- reading undoes writing

  lemma MulMonotone(x: nat, y: nat, p: nat)
    requires x <= y
    ensures 0 <= x * p <= y * p
  {
  }

  lemma LowGroup(rest: nat, p: nat)
    ensures rest * p == rest / 128 * (128 * p) + rest % 128 * p
    ensures 0 <= rest % 128 * p <= rest * p
  {
  }

  lemma ShiftFits(shift: nat, acc: nat, rest: nat)
    requires rest > 0 && acc + rest * Pow2(shift) < TWO_TO_THE_64
    ensures shift < 64
  {
    if shift >= 64 {
      Pow2Of64();
      Pow2Grows(64, shift);
      MulMonotone(1, rest, Pow2(shift));
    }
  }

  lemma Pow2Plus7(n: nat)
    ensures Pow2(n + 7) == 128 * Pow2(n)
  {
    Pow2Adds(7, n);
    assert Pow2(7) == 128;
  }

  lemma ShlExact(x: nat, n: nat)
    requires x * Pow2(n) < TWO_TO_THE_64
    ensures Shl(x, n) == x * Pow2(n)
  {
  }

  /** One group: seven bits land above the bits already read. */
  lemma AccumulateAdds(acc: uint64, b: byte, shift: nat)
    requires acc < Pow2(shift)
    requires acc + b % 128 * Pow2(shift) < TWO_TO_THE_64
    ensures Accumulate(acc, b, shift) == acc + b % 128 * Pow2(shift)
    ensures acc + b % 128 * Pow2(shift) < Pow2(shift + 7)
  {
    var low := b % 128;
    assert Accumulate(acc, b, shift) == acc + low * Pow2(shift) by {
      ShlExact(low, shift);
      BitOrIsSum(acc, low, shift);
    }
    assert acc + low * Pow2(shift) < Pow2(shift + 7) by {
      Pow2Plus7(shift);
      MulMonotone(low, 127, Pow2(shift));
    }
  }

  /** The lowest group of a number and the groups above it. */
  lemma GroupSplit(shift: nat, acc: nat, rest: nat)
    ensures acc + rest % 128 * Pow2(shift) <= acc + rest * Pow2(shift)
    ensures (acc + rest % 128 * Pow2(shift)) + rest / 128 * Pow2(shift + 7) == acc + rest * Pow2(shift)
  {
    LowGroup(rest, Pow2(shift));
    Pow2Plus7(shift);
  }

  /** Reading the remaining groups of a number of which the low `shift` bits have been read already. */
  lemma {:induction false} VarintGroupsRead(s: bytes, i: nat, shift: nat, acc: uint64, rest: nat)
    requires acc < Pow2(shift)
    requires acc + rest * Pow2(shift) < TWO_TO_THE_64
    requires shift == 0 || rest > 0
    requires i + |VarintBytes(rest)| <= |s| && s[i..i + |VarintBytes(rest)|] == VarintBytes(rest)
    ensures VarintAt(s, i, shift, acc) == Ok(acc + rest * Pow2(shift), i + |VarintBytes(rest)|)
    decreases rest
  {
    hide Pow2, Accumulate;
    var b := s[i];
    assert b == VarintBytes(rest)[0];
    assert b % 128 == rest % 128;
    if rest > 0 {
      ShiftFits(shift, acc, rest);
    }
    GroupSplit(shift, acc, rest);
    AccumulateAdds(acc, b, shift);
    if rest >= 128 {
      var tail := VarintBytes(rest / 128);
      assert VarintBytes(rest)[1..] == tail;
      assert s[i + 1..i + 1 + |tail|] == s[i..i + |VarintBytes(rest)|][1..];
      VarintGroupsRead(s, i + 1, shift + 7, Accumulate(acc, b, shift), rest / 128);
    }
  }

  /** Reading back a varint gives the number that was written and stops right after its last byte. */
  lemma VarintRoundTrip(s: bytes, i: nat, v: uint64)
    requires i + |VarintBytes(v)| <= |s| && s[i..i + |VarintBytes(v)|] == VarintBytes(v)
    ensures VarintAt(s, i, 0, 0) == Ok(v, i + |VarintBytes(v)|)
  {
    VarintGroupsRead(s, i, 0, 0, v);
  }

  /** A read that starts from a non-zero accumulator ors the number it reads into it. */
  lemma {:induction false} VarintOrsIntoAccumulator(s: bytes, i: nat, shift: nat, first: uint64, acc: uint64)
    ensures BitOr(first, acc) < TWO_TO_THE_64
    ensures match VarintAt(s, i, shift, acc)
            case Bad(e) => VarintAt(s, i, shift, BitOr(first, acc)) == Bad(e)
            case Ok(v, next) =>
              BitOr(first, v) < TWO_TO_THE_64 &&
              VarintAt(s, i, shift, BitOr(first, acc)) == Ok(BitOr(first, v), next)
    decreases |s| - i
  {
    OrStaysInWord(first, acc);
    if shift < 64 && i < |s| {
      var acc' := Accumulate(acc, s[i], shift);
      OrStaysInWord(first, acc');
      BitOrAssociates(first, acc, Shl(s[i] % 128, shift));
      if s[i] >= 128 {
        VarintOrsIntoAccumulator(s, i + 1, shift + 7, first, acc');
      }
    }
  }

  // ---------------------------------------------------------------- locality

  /** A successful read does not depend on what follows the input. */
  lemma {:induction false} VarintIgnoresSuffix(s: bytes, t: bytes, i: nat, shift: nat, acc: uint64)
    requires VarintAt(s, i, shift, acc).Ok?
    ensures VarintAt(s + t, i, shift, acc) == VarintAt(s, i, shift, acc)
    decreases |s| - i
  {
    if s[i] >= 128 {
      VarintIgnoresSuffix(s, t, i + 1, shift + 7, Accumulate(acc, s[i], shift));
    }
  }

  function Moved(p: Parsed, n: nat): Parsed {
    match p
    case Ok(v, next) => Ok(v, next + n)
    case Bad(e) => Bad(e)
  }

  /** A read does not depend on what precedes it, except for the index. */
  lemma {:induction false} VarintIgnoresPrefix(s: bytes, t: bytes, j: nat, shift: nat, acc: uint64)
    ensures VarintAt(s + t, |s| + j, shift, acc) == Moved(VarintAt(t, j, shift, acc), |s|)
    decreases |t| - j
  {
    if shift < 64 && j < |t| && t[j] >= 128 {
      VarintIgnoresPrefix(s, t, j + 1, shift + 7, Accumulate(acc, t[j], shift));
    }
  }

  // ---------------------------------------------------------------- the wire form, byte by byte

  /** Byte k holds bits 7k to 7k + 6; the top bit is set on all bytes but the last; the last group is not zero unless it is the only one. */
  lemma {:induction false} GroupOfVarint(v: nat, k: nat)
    requires k < |VarintBytes(v)|
    ensures VarintBytes(v)[k] % 128 == v / Pow2(7 * k) % 128
    ensures VarintBytes(v)[k] >= 128 <==> k + 1 < |VarintBytes(v)|
    ensures k > 0 ==> v / Pow2(7 * k) > 0
  {
    if k > 0 {
      GroupOfVarint(v / 128, k - 1);
      Pow2Plus7(7 * (k - 1));
      DivTwice(v, Pow2(7 * (k - 1)));
      if k == 1 {
        assert Pow2(0) == 1;
      }
    } else {
      assert Pow2(0) == 1;
    }
  }

  lemma DivTwice(v: nat, p: nat)
    requires p > 0
    ensures v / (128 * p) == v / 128 / p
  {
    var q := v / 128 / p;
    assert q * p <= v / 128 < (q + 1) * p;
    assert q * (128 * p) <= v < (q + 1) * (128 * p);
    QuotientIs(v, 128 * p, q);
  }

  lemma QuotientIs(v: nat, d: nat, q: nat)
    requires d > 0 && q * d <= v < (q + 1) * d
    ensures v / d == q
  {
    var r := v / d;
    assert r * d <= v < (r + 1) * d;
    if r < q {
      MulMonotone(r + 1, q, d);
    } else if r > q {
      MulMonotone(q + 1, r, d);
    }
  }

  lemma VarintExample()
    ensures VarintBytes(0) == [0] && VarintBytes(127) == [0x7f] && VarintBytes(128) == [0x80, 0x01] && VarintBytes(300) == [0xac, 0x02]
  {
    assert VarintBytes(300) == [300 % 128 + 128] + VarintBytes(2);
  }

  /** The number that seven-bit groups spell, least significant first. */
  function GroupsValue(s: bytes): nat {
    if s == [] then 0 else s[0] % 128 + 128 * GroupsValue(s[1..])
  }

  /** From i on, the first byte without the top bit is the n-th, and it is among the first `limit`. */
  predicate EndsAfter(s: bytes, i: nat, n: nat, limit: nat) {
    n < limit && i + n < |s| && s[i + n] < 128 && forall m :: i <= m < i + n ==> s[m] >= 128
  }

  /** Group m of a varint, for all but the tenth. */
  lemma LowGroupRead(acc: uint64, b: byte, m: nat)
    requires m < 9 && acc < Pow2(7 * m)
    ensures Accumulate(acc, b, 7 * m) == acc + b % 128 * Pow2(7 * m)
    ensures Accumulate(acc, b, 7 * m) < Pow2(7 * (m + 1))
  {
    hide Pow2, Accumulate;
    Pow2Of64();
    Pow2Grows(7 * m + 7, 64);
    Pow2Plus7(7 * m);
    MulMonotone(b % 128, 127, Pow2(7 * m));
    AccumulateAdds(acc, b, 7 * m);
  }

  lemma Pow2Of63()
    ensures Pow2(63) == TWO_TO_THE_63
  {
    Pow2Of64();
    assert Pow2(64) == 2 * Pow2(63);
  }

  lemma TopBitLeft(acc: nat, x: nat)
    requires acc < TWO_TO_THE_63
    ensures (acc + x * TWO_TO_THE_63) % TWO_TO_THE_64 == acc + x % 2 * TWO_TO_THE_63
  {
    var q, r := x / 2, x % 2;
    assert acc + x * TWO_TO_THE_63 == q * TWO_TO_THE_64 + (acc + r * TWO_TO_THE_63);
    assert 0 <= acc + r * TWO_TO_THE_63 < TWO_TO_THE_64;
  }

  /** Of the tenth group only the lowest bit fits. */
  lemma TenthGroupRead(acc: uint64, b: byte)
    requires acc < Pow2(63)
    ensures Accumulate(acc, b, 63) == (acc + b % 128 * Pow2(63)) % TWO_TO_THE_64
  {
    hide Pow2, BitOr;
    Pow2Of63();
    TopBitLeft(acc, b % 128);
    TopBitLeft(0, b % 128);
    BitOrIsSum(acc, b % 128 % 2, 63);
  }

  lemma GroupShift(b: nat, rest: nat, p: nat)
    ensures b * p + rest * (128 * p) == (b + 128 * rest) * p
  {
  }

  lemma {:induction false} GroupsRead(s: bytes, i: nat, n: nat, m: nat, acc: uint64)
    requires m < 10 && acc < Pow2(7 * m) && EndsAfter(s, i, n, 10 - m)
    ensures VarintAt(s, i, 7 * m, acc) == Ok((acc + GroupsValue(s[i..i + n + 1]) * Pow2(7 * m)) % TWO_TO_THE_64, i + n + 1)
    decreases n
  {
    hide Accumulate, Pow2;
    var b, p := s[i], Pow2(7 * m);
    var acc' := Accumulate(acc, b, 7 * m);
    assert s[i..i + n + 1][0] == b && s[i..i + n + 1][1..] == s[i + 1..i + n + 1];
    var rest := GroupsValue(s[i + 1..i + n + 1]);
    GroupShift(b % 128, rest, p);
    if m == 9 {
      TenthGroupRead(acc, b);
    } else {
      LowGroupRead(acc, b, m);
    }
    if n > 0 {
      Pow2Plus7(7 * m);
      GroupsRead(s, i + 1, n - 1, m + 1, acc');
    } else {
      assert rest == 0;
    }
  }

  lemma {:induction false} NoEndRead(s: bytes, i: nat, m: nat, acc: uint64)
    requires m <= 10 && i <= |s|
    requires forall k :: i <= k < |s| && k < i + 10 - m ==> s[k] >= 128
    ensures VarintAt(s, i, 7 * m, acc) == Bad(if i + 10 - m <= |s| then IntOverflow else UnexpectedEOF)
    decreases 10 - m
  {
    hide Accumulate;
    if m < 10 && i < |s| {
      NoEndRead(s, i + 1, m + 1, Accumulate(acc, s[i], 7 * m));
    }
  }

  /**
   What a read gives, exactly.  If one of the next ten bytes has no top bit, the groups up to the first such byte, modulo 2^64, and the index
   after it; otherwise an overflow if there are ten bytes, and the end of the input if there are fewer.
   */
  lemma ReadExactly(s: bytes, i: nat)
    requires i <= |s|
    ensures forall n: nat :: EndsAfter(s, i, n, 10) ==> VarintAt(s, i, 0, 0) == Ok(GroupsValue(s[i..i + n + 1]) % TWO_TO_THE_64, i + n + 1)
    ensures (forall k :: i <= k < |s| && k < i + 10 ==> s[k] >= 128)
            ==> VarintAt(s, i, 0, 0) == Bad(if i + 10 <= |s| then IntOverflow else UnexpectedEOF)
    ensures (exists n: nat :: EndsAfter(s, i, n, 10)) || (forall k :: i <= k < |s| && k < i + 10 ==> s[k] >= 128)
  {
    hide VarintAt;
    assert Pow2(0) == 1;
    forall n: nat | EndsAfter(s, i, n, 10)
      ensures VarintAt(s, i, 0, 0) == Ok(GroupsValue(s[i..i + n + 1]) % TWO_TO_THE_64, i + n + 1)
    {
      GroupsRead(s, i, n, 0, 0);
    }
    if forall k :: i <= k < |s| && k < i + 10 ==> s[k] >= 128 {
      NoEndRead(s, i, 0, 0);
    } else {
      var k :| i <= k < |s| && k < i + 10 && s[k] < 128;
      var n := FirstEnd(s, i, k);
      assert EndsAfter(s, i, n, 10);
    }
  }

  lemma {:induction false} FirstEnd(s: bytes, i: nat, k: nat) returns (n: nat)
    requires i <= k < |s| && s[k] < 128
    ensures n <= k - i && s[i + n] < 128 && forall m :: i <= m < i + n ==> s[m] >= 128
    decreases k - i
  {
    if s[i] < 128 {
      n := 0;
    } else {
      n := FirstEnd(s, i + 1, k);
      n := n + 1;
    }
  }
}
