// Single bits of natural numbers: the masks and tests the bitmap code performs on Python integers.
module Bits {
  import opened Bytes

  /** `bool(n & (1 << k))`. */
  predicate Bit(n: nat, k: nat) {
    if k == 0 then n % 2 == 1 else Bit(n / 2, k - 1)
  }

  /** `n | (1 << k)`. */
  function SetBit(n: nat, k: nat): nat {
    if k == 0 then n / 2 * 2 + 1 else 2 * SetBit(n / 2, k - 1) + n % 2
  }

  function Pow2(k: nat): (p: nat)
    ensures p > 0
  {
    if k == 0 then 1 else 2 * Pow2(k - 1)
  }

  lemma {:induction false} BitOfSet(n: nat, k: nat, j: nat)
    ensures Bit(SetBit(n, k), j) <==> j == k || Bit(n, j)
  {
    if k == 0 {
      if j > 0 {
        assert SetBit(n, k) / 2 == n / 2;
      }
    } else {
      assert SetBit(n, k) / 2 == SetBit(n / 2, k - 1);
      if j > 0 {
        BitOfSet(n / 2, k - 1, j - 1);
      }
    }
  }

  lemma {:induction false} SetBitBound(n: nat, k: nat, width: nat)
    requires k < width && n < Pow2(width)
    ensures SetBit(n, k) < Pow2(width)
  {
    if k > 0 {
      SetBitBound(n / 2, k - 1, width - 1);
    }
  }

  lemma {:induction false} BitOfZero(k: nat)
    ensures !Bit(0, k)
  {
    if k > 0 {
      BitOfZero(k - 1);
    }
  }

  /** A number below 2^width is determined by its `width` low bits. */
  lemma {:induction false} BitsDetermine(a: nat, b: nat, width: nat)
    requires a < Pow2(width) && b < Pow2(width)
    requires forall k: nat :: k < width ==> Bit(a, k) == Bit(b, k)
    ensures a == b
  {
    if width > 0 {
      assert Bit(a, 0) == Bit(b, 0);
      forall k: nat | k < width - 1
        ensures Bit(a / 2, k) == Bit(b / 2, k)
      {
        assert Bit(a, k + 1) == Bit(b, k + 1);
      }
      BitsDetermine(a / 2, b / 2, width - 1);
    }
  }

  lemma {:induction false} TopBit(n: nat, k: nat)
    requires n < Pow2(k + 1)
    ensures Bit(n, k) <==> n >= Pow2(k)
  {
    if k > 0 {
      TopBit(n / 2, k - 1);
    }
  }

  lemma {:induction false} Pow256IsPow2(width: nat)
    ensures Pow256(width) == Pow2(8 * width)
  {
    if width > 0 {
      Pow256IsPow2(width - 1);
      var k := 8 * (width - 1);
      assert 8 * width == k + 8;
      Pow2Octet(k);
    }
  }

  /** The top bit of a big-endian word is the top bit of its first octet. */
  lemma {:induction false} TopBitOfOctets(s: Octets)
    requires s != []
    ensures BigEndian(s) >= Pow2(8 * |s| - 1) <==> s[0] >= 128
  {
    if |s| == 1 {
      assert s[..0] == [];
      Pow2OfSeven();
    } else {
      var t := s[..|s| - 1];
      TopBitOfOctets(t);
      var k := 8 * |t| - 1;
      assert 8 * |s| - 1 == k + 8;
      Pow2Octet(k);
    }
  }

  lemma Pow2OfSeven()
    ensures Pow2(7) == 128
  {
    assert Pow2(3) == 8;
    assert Pow2(5) == 32;
  }

  lemma {:induction false} SetBitIsAdd(n: nat, k: nat)
    ensures SetBit(n, k) == if Bit(n, k) then n else n + Pow2(k)
  {
    if k > 0 {
      SetBitIsAdd(n / 2, k - 1);
    }
  }

  lemma ZeroHasNoBits(n: nat, width: nat)
    requires n < Pow2(width) && forall k: nat :: k < width ==> !Bit(n, k)
    ensures n == 0
  {
    forall k: nat | k < width
      ensures !Bit(0, k)
    {
      BitOfZero(k);
    }
    BitsDetermine(n, 0, width);
  }

  lemma {:induction false} ZeroOctets(s: Octets)
    ensures BigEndian(s) == 0 <==> forall i :: 0 <= i < |s| ==> s[i] == 0
  {
    if s != [] {
      var t := s[..|s| - 1];
      ZeroOctets(t);
      assert forall i :: 0 <= i < |t| ==> t[i] == s[i];
    }
  }

  /** Clearing the top bit of the first octet takes its weight off the number. */
  lemma {:induction false} ClearTop(s: Octets)
    requires s != [] && s[0] >= 128
    ensures BigEndian([s[0] - 128] + s[1..]) == BigEndian(s) - Pow2(8 * |s| - 1)
  {
    var cleared: Octets := [s[0] - 128] + s[1..];
    if |s| == 1 {
      assert cleared == [s[0] - 128];
      assert s[..0] == [] && cleared[..0] == [];
      Pow2OfSeven();
    } else {
      var t := s[..|s| - 1];
      ClearTop(t);
      assert cleared[..|s| - 1] == [t[0] - 128] + t[1..];
      assert cleared[|s| - 1] == s[|s| - 1];
      var k := 8 * |t| - 1;
      assert 8 * |s| - 1 == k + 8;
      Pow2Octet(k);
    }
  }

  lemma Pow2Octet(k: nat)
    ensures Pow2(k + 8) == 256 * Pow2(k)
  {
    assert Pow2(k + 8) == 2 * Pow2(k + 7) && Pow2(k + 7) == 2 * Pow2(k + 6);
    assert Pow2(k + 6) == 2 * Pow2(k + 5) && Pow2(k + 5) == 2 * Pow2(k + 4);
    assert Pow2(k + 4) == 2 * Pow2(k + 3) && Pow2(k + 3) == 2 * Pow2(k + 2);
    assert Pow2(k + 2) == 2 * Pow2(k + 1);
  }
}
