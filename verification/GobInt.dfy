/**
 The gob form of a big.Int: a byte holding version and sign, then the magnitude in big-endian order without leading
 zeros.  It is how every price travels inside a vote extension.
 */
module GobInt {
  import opened Varint
  import opened Wrappers

  datatype GobError = UnsupportedVersion

  function BigEndian(n: nat): bytes {
    if n == 0 then [] else BigEndian(n / 256) + [n % 256]
  }

  function FromBigEndian(b: bytes): nat {
    if b == [] then 0 else 256 * FromBigEndian(b[..|b| - 1]) + b[|b| - 1]
  }

  function Magnitude(x: int): nat {
    if x < 0 then -x else x
  }

  function GobEncode(x: int): bytes {
    [if x < 0 then 3 else 2] + BigEndian(Magnitude(x))
  }

  function GobDecode(b: bytes): Result<int, GobError> {
    if b == [] then Success(0)
    else if b[0] / 2 != 1 then Failure(UnsupportedVersion)
    else
      var magnitude: int := FromBigEndian(b[1..]);
      Success(if b[0] % 2 == 1 then -magnitude else magnitude)
  }

  lemma {:induction false} BigEndianInverse(n: nat)
    ensures FromBigEndian(BigEndian(n)) == n
  {
    if n > 0 {
      BigEndianInverse(n / 256);
      var b := BigEndian(n);
      assert b[..|b| - 1] == BigEndian(n / 256);
    }
  }

  lemma GobRoundTrip(x: int)
    ensures GobDecode(GobEncode(x)) == Success(x)
  {
    BigEndianInverse(Magnitude(x));
    assert GobEncode(x)[1..] == BigEndian(Magnitude(x));
  }

  function Pow256(k: nat): nat {
    if k == 0 then 1 else 256 * Pow256(k - 1)
  }

  lemma {:induction false} BigEndianLength(n: nat, k: nat)
    ensures |BigEndian(n)| <= k <==> n < Pow256(k)
  {
    if n > 0 && k > 0 {
      BigEndianLength(n / 256, k - 1);
      assert n / 256 < Pow256(k - 1) <==> n < 256 * Pow256(k - 1);
    } else if n > 0 {
      assert |BigEndian(n)| > 0;
    } else {
      Pow256Positive(k);
    }
  }

  lemma {:induction false} Pow256Positive(k: nat)
    ensures Pow256(k) > 0
  {
    if k > 0 {
      Pow256Positive(k - 1);
    }
  }

  lemma {:induction false} FromBigEndianBound(b: bytes)
    ensures FromBigEndian(b) < Pow256(|b|)
  {
    if b != [] {
      FromBigEndianBound(b[..|b| - 1]);
    }
  }

  lemma {:induction false} Pow256Grows(j: nat, k: nat)
    requires j <= k
    ensures Pow256(j) <= Pow256(k)
  {
    if j < k {
      Pow256Grows(j, k - 1);
    }
  }

  /** What k bytes decode to has a magnitude of at most k - 1 bytes. */
  lemma DecodedMagnitude(b: bytes, k: nat)
    requires 0 < |b| <= k && GobDecode(b).Success?
    ensures Magnitude(GobDecode(b).value) < Pow256(k - 1)
  {
    FromBigEndianBound(b[1..]);
    Pow256Grows(|b| - 1, k - 1);
  }

  /** The encoding stays within a given number of bytes exactly when the magnitude fits in one byte less. */
  lemma GobLength(x: int, k: nat)
    requires k > 0
    ensures |GobEncode(x)| <= k <==> Magnitude(x) < Pow256(k - 1)
  {
    BigEndianLength(Magnitude(x), k - 1);
  }

  // ---------------------------------------------------------------- the form byte by byte

  /** The digit of weight 256^k. */
  function Digit(n: nat, k: nat): nat {
    Pow256Positive(k);
    n / Pow256(k) % 256
  }

  /** The k-th byte from the end of the magnitude has weight 256^k, and the first byte is not zero. */
  lemma {:induction false} BigEndianDigit(n: nat, k: nat)
    requires k < |BigEndian(n)|
    ensures BigEndian(n)[|BigEndian(n)| - 1 - k] == Digit(n, k)
    ensures BigEndian(n)[0] > 0
  {
    if k > 0 {
      BigEndianDigit(n / 256, k - 1);
      Pow256Positive(k - 1);
      DivideInTwo(n, Pow256(k - 1));
      assert Digit(n, k) == Digit(n / 256, k - 1);
    } else {
      assert Pow256(0) == 1;
      if n >= 256 {
        BigEndianDigit(n / 256, 0);
      }
    }
  }

  lemma DivideInTwo(n: nat, p: nat)
    ensures p > 0 ==> n / (256 * p) == n / 256 / p
  {
    if p > 0 {
      var q := n / 256 / p;
      assert q * p <= n / 256 < (q + 1) * p;
      assert q * (256 * p) <= n < (q + 1) * (256 * p);
      QuotientIs(n, 256 * p, q);
    }
  }

  /** Decoding fails exactly on a first byte other than 2 and 3; no bytes are zero. */
  lemma GobDecodesExactly(b: bytes)
    ensures GobDecode(b).Failure? <==> b != [] && b[0] != 2 && b[0] != 3
    ensures b != [] && b[0] == 2 ==> GobDecode(b).value == FromBigEndian(b[1..])
    ensures b != [] && b[0] == 3 ==> GobDecode(b).value + FromBigEndian(b[1..]) == 0
    ensures b == [] ==> GobDecode(b) == Success(0)
  {
  }

  lemma GobExamples()
    ensures GobEncode(0) == [2] && GobEncode(1) == [2, 1] && GobEncode(-1) == [3, 1] && GobEncode(-256) == [3, 1, 0]
    ensures GobDecode([3, 1, 0]) == Success(-256) && GobDecode([2]) == Success(0)
  {
    assert BigEndian(1) == BigEndian(0) + [1] == [1];
    assert BigEndian(256) == BigEndian(1) + [0];
    GobRoundTrip(0);
    GobRoundTrip(-256);
  }
}
