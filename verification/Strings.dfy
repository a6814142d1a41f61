// Python string methods and comparisons shared by the modules.
module Strings {
  /** `str.isspace`. */
  predicate IsSpace(c: char) {
    var n := c as int;
    || 0x09 <= n <= 0x0D || 0x1C <= n <= 0x20 || n == 0x85 || n == 0xA0 || n == 0x1680
    || 0x2000 <= n <= 0x200A || n == 0x2028 || n == 0x2029 || n == 0x202F || n == 0x205F || n == 0x3000
  }

  /** `not key.strip()`. */
  predicate IsBlank(key: string) {
    forall i :: 0 <= i < |key| ==> IsSpace(key[i])
  }

  /** `str.upper` on ASCII letters; other characters are left alone. */
  function Upper(s: string): (r: string)
    ensures |r| == |s|
  {
    seq(|s|, i requires 0 <= i < |s| => if 'a' <= s[i] <= 'z' then (s[i] as int - 32) as char else s[i])
  }

  /** Lexicographic order on code points, as Python compares strings. */
  predicate TextLess(a: string, b: string)
  {
    if b == "" then false
    else if a == "" then true
    else a[0] < b[0] || (a[0] == b[0] && TextLess(a[1..], b[1..]))
  }

  lemma {:induction false} TextLessTotal(a: string, b: string)
    ensures a == b || TextLess(a, b) || TextLess(b, a)
    ensures !(TextLess(a, b) && TextLess(b, a)) && !TextLess(a, a)
    decreases |a| + |b|
  {
    TextLessIrreflexive(a);
    if a != "" && b != "" {
      TextLessTotal(a[1..], b[1..]);
      if a[0] == b[0] && a[1..] == b[1..] {
        assert a == [a[0]] + a[1..] && b == [b[0]] + b[1..];
      }
    }
  }

  lemma {:induction false} TextLessIrreflexive(a: string)
    ensures !TextLess(a, a)
  {
    if a != "" {
      TextLessIrreflexive(a[1..]);
    }
  }

  lemma {:induction false} TextLessTransitive(a: string, b: string, c: string)
    requires TextLess(a, b) && TextLess(b, c)
    ensures TextLess(a, c)
  {
    if a != "" && a[0] == b[0] == c[0] {
      TextLessTransitive(a[1..], b[1..], c[1..]);
    }
  }

  const LOWER := "abcdefghijklmnopqrstuvwxyz"
  const UPPER := "ABCDEFGHIJKLMNOPQRSTUVWXYZ"

  /** Each lower-case letter becomes its upper-case one; everything else stays. */
  lemma UpperLetters(s: string, i: nat)
    requires i < |s|
    ensures forall k :: 0 <= k < 26 && s[i] == LOWER[k] ==> Upper(s)[i] == UPPER[k]
    ensures s[i] !in LOWER ==> Upper(s)[i] == s[i]
  {
    LettersInOrder();
    InAlphabet(s[i]);
  }

  lemma InAlphabet(c: char)
    ensures 'a' <= c <= 'z' ==> c in LOWER
  {
    LettersInOrder();
    if 'a' <= c <= 'z' {
      assert LOWER[c as int - 97] == c;
    }
  }

  lemma LettersInOrder()
    ensures |LOWER| == |UPPER| == 26
    ensures forall k :: 0 <= k < 26 ==> LOWER[k] as int == 97 + k && UPPER[k] as int == 65 + k
  {
  }

  /** The 29 code points Python strips, and no other. */
  lemma SpaceExactly(c: char)
    ensures IsSpace(c) <==> c as int in {
      9, 10, 11, 12, 13, 28, 29, 30, 31, 32, 133, 160, 5760, 8192, 8193, 8194, 8195, 8196, 8197, 8198, 8199, 8200,
      8201, 8202, 8232, 8233, 8239, 8287, 12288}
  {
  }

  /** `a` and `b` share their first `k` characters, and then `a` ends or has the lower code. */
  predicate LessAt(a: string, b: string, k: int) {
    0 <= k <= |a| && k < |b| && a[..k] == b[..k] && (k == |a| || a[k] as int < b[k] as int)
  }

  /** One text comes before another exactly when it does so after all they share. */
  lemma {:induction false} TextLessExactly(a: string, b: string)
    ensures TextLess(a, b) <==> exists k :: LessAt(a, b, k)
  {
    if a == "" && b != "" {
      assert LessAt(a, b, 0);
    } else if a != "" && b != "" {
      TextLessExactly(a[1..], b[1..]);
      if a[0] < b[0] {
        assert LessAt(a, b, 0);
      }
      if a[0] == b[0] && TextLess(a[1..], b[1..]) {
        var k :| LessAt(a[1..], b[1..], k);
        Shifted(a, b, k);
      }
      if k :| LessAt(a, b, k) {
        Shifted(a, b, k);
      }
    }
  }

  lemma Shifted(a: string, b: string, k: int)
    requires a != "" && b != ""
    ensures a[0] == b[0] && LessAt(a[1..], b[1..], k) ==> LessAt(a, b, k + 1)
    ensures LessAt(a, b, k) && k > 0 ==> a[0] == b[0] && LessAt(a[1..], b[1..], k - 1)
  {
    if a[0] == b[0] && LessAt(a[1..], b[1..], k) {
      assert a[..k + 1] == [a[0]] + a[1..][..k] && b[..k + 1] == [b[0]] + b[1..][..k];
    }
    if LessAt(a, b, k) && k > 0 {
      assert a[..k][0] == b[..k][0];
      assert a[1..][..k - 1] == a[..k][1..] && b[1..][..k - 1] == b[..k][1..];
    }
  }

  /** A text is blank when all of it is: the empty one is, a space is, and two are when both are. */
  lemma BlankExactly(a: string, b: string, c: char)
    ensures IsBlank("")
    ensures IsBlank([c]) <==> IsSpace(c)
    ensures IsBlank(a + b) <==> IsBlank(a) && IsBlank(b)
  {
    hide IsSpace;
    assert [c][0] == c;
    if IsBlank(a + b) {
      assert forall i :: 0 <= i < |a| ==> (a + b)[i] == a[i];
      assert forall i :: 0 <= i < |b| ==> (a + b)[|a| + i] == b[i];
    }
  }
}
