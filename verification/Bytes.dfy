// Octet strings, the big-endian and decimal notations of the wire formats, and their inverses.
module Bytes {

  type Byte = n: nat | n < 256

  type Octets = seq<Byte>

  /** `int.from_bytes(s, "big")`. */
  function BigEndian(s: Octets): nat
  {
    if s == [] then 0 else BigEndian(s[..|s| - 1]) * 256 + s[|s| - 1]
  }

  /** `n.to_bytes(width, "big")`, for `n` below `Pow256(width)`. */
  function ToBigEndian(n: nat, width: nat): (s: Octets)
    ensures |s| == width
  {
    if width == 0 then [] else ToBigEndian(n / 256, width - 1) + [n % 256]
  }

  function Pow256(width: nat): (p: nat)
    ensures p > 0
  {
    if width == 0 then 1 else 256 * Pow256(width - 1)
  }

  lemma {:induction false} BigEndianBound(s: Octets)
    ensures BigEndian(s) < Pow256(|s|)
  {
    if s != [] {
      BigEndianBound(s[..|s| - 1]);
    }
  }

  /** A number splits into its last digit in a base and the rest, which fits one digit less. */
  lemma Split256(n: nat, p: nat)
    requires n < 256 * p
    ensures n / 256 < p && n == n / 256 * 256 + n % 256
  {
  }

  lemma BigEndianSnoc(s: Octets, b: Byte)
    ensures BigEndian(s + [b]) == BigEndian(s) * 256 + b
  {
    assert (s + [b])[..|s|] == s;
  }

  lemma {:induction false} BigEndianOfTo(n: nat, width: nat)
    requires n < Pow256(width)
    ensures BigEndian(ToBigEndian(n, width)) == n
  {
    hide BigEndian;
    if width > 0 {
      Split256(n, Pow256(width - 1));
      BigEndianOfTo(n / 256, width - 1);
      BigEndianSnoc(ToBigEndian(n / 256, width - 1), n % 256);
    } else {
      EmptyBigEndian();
    }
  }

  lemma EmptyBigEndian()
    ensures BigEndian([]) == 0
  {
  }

  lemma {:induction false} ToOfBigEndian(s: Octets)
    ensures ToBigEndian(BigEndian(s), |s|) == s
  {
    if s != [] {
      ToOfBigEndian(s[..|s| - 1]);
      assert BigEndian(s) / 256 == BigEndian(s[..|s| - 1]);
    }
  }

  // ----- decimal text ------------------------------------------------------------------

  predicate IsDigit(c: char) {
    '0' <= c <= '9'
  }

  predicate AllDigits(s: string) {
    forall i :: 0 <= i < |s| ==> IsDigit(s[i])
  }

  /** `int(s)` for a string of ASCII digits. */
  function DecimalValue(s: string): nat
    requires AllDigits(s)
  {
    if s == "" then 0
    else DecimalValue(s[..|s| - 1]) * 10 + (s[|s| - 1] as int - '0' as int)
  }

  /** The last `width` decimal digits of `n`, zero padded: `f"{n:0{width}d}"` when `n` fits. */
  function Decimal(n: nat, width: nat): (s: string)
    ensures |s| == width
    ensures AllDigits(s)
  {
    if width == 0 then "" else Decimal(n / 10, width - 1) + [('0' as int + n % 10) as char]
  }

  function Pow10(width: nat): (p: nat)
    ensures p > 0
  {
    if width == 0 then 1 else 10 * Pow10(width - 1)
  }

  lemma {:induction false} DecimalBound(s: string)
    requires AllDigits(s)
    ensures DecimalValue(s) < Pow10(|s|)
  {
    if s != "" {
      DecimalBound(s[..|s| - 1]);
    }
  }

  lemma Split10(n: nat, p: nat)
    requires n < 10 * p
    ensures n / 10 < p && n == n / 10 * 10 + n % 10
  {
  }

  lemma DecimalSnoc(s: string, c: char)
    requires AllDigits(s) && IsDigit(c)
    ensures AllDigits(s + [c]) && DecimalValue(s + [c]) == DecimalValue(s) * 10 + (c as int - '0' as int)
  {
    assert (s + [c])[..|s|] == s;
  }

  lemma {:induction false} ValueOfDecimal(n: nat, width: nat)
    requires n < Pow10(width)
    ensures DecimalValue(Decimal(n, width)) == n
  {
    hide DecimalValue;
    if width > 0 {
      Split10(n, Pow10(width - 1));
      ValueOfDecimal(n / 10, width - 1);
      DecimalSnoc(Decimal(n / 10, width - 1), ('0' as int + n % 10) as char);
    } else {
      EmptyDecimal();
    }
  }

  lemma EmptyDecimal()
    ensures DecimalValue("") == 0
  {
  }

  lemma {:induction false} DecimalOfValue(s: string)
    requires AllDigits(s)
    ensures Decimal(DecimalValue(s), |s|) == s
  {
    if s != "" {
      DecimalOfValue(s[..|s| - 1]);
      assert DecimalValue(s) / 10 == DecimalValue(s[..|s| - 1]);
      assert DecimalValue(s) % 10 == s[|s| - 1] as int - '0' as int;
    }
  }

  // ----- ASCII -------------------------------------------------------------------------

  predicate IsAscii(s: string) {
    forall i :: 0 <= i < |s| ==> s[i] as int < 128
  }

  predicate IsAsciiOctets(s: Octets) {
    forall i :: 0 <= i < |s| ==> s[i] < 128
  }

  /** `s.encode("ascii")`, defined on ASCII text. */
  function AsciiEncode(s: string): (b: Octets)
    requires IsAscii(s)
    ensures |b| == |s| && IsAsciiOctets(b)
    ensures AsciiDecode(b) == s
  {
    var b := seq(|s|, i requires 0 <= i < |s| => s[i] as int);
    assert IsAsciiOctets(b);
    b
  }

  /** `b.decode("ascii")`, defined on octets below 128. */
  function AsciiDecode(b: Octets): (s: string)
    requires IsAsciiOctets(b)
    ensures |s| == |b| && IsAscii(s)
    ensures forall i :: 0 <= i < |b| ==> s[i] == b[i] as char
  {
    seq(|b|, i requires 0 <= i < |b| => b[i] as char)
  }

  lemma AsciiRoundTrip(b: Octets)
    requires IsAsciiOctets(b)
    ensures AsciiEncode(AsciiDecode(b)) == b
  {
    assert forall i :: 0 <= i < |b| ==> AsciiEncode(AsciiDecode(b))[i] == b[i];
  }
}
