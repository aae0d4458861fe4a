/** Character and string helpers shared by the model: decimal digits, the
    lower-casing the application relies on, substring search and the SQL
    LIKE operator. */
module Text {
  import opened Wrappers

  /** How Java renders a possibly null string in a concatenation: null
      becomes the four letters "null". */
  function JavaText(s: Option<string>): string {
    if s.None? then "null" else s.value
  }

  predicate IsDigit(c: char) {
    '0' <= c <= '9'
  }

  predicate AllDigits(s: string) {
    forall i :: 0 <= i < |s| ==> IsDigit(s[i])
  }

  function DigitChar(d: nat): (c: char)
    requires d < 10
    ensures IsDigit(c) && c as int - '0' as int == d
  {
    ('0' as int + d) as char
  }

  function DigitValue(c: char): nat
    requires IsDigit(c)
  {
    c as int - '0' as int
  }

  function Pow10(k: nat): (r: nat)
    ensures r >= 1
  {
    if k == 0 then 1 else 10 * Pow10(k - 1)
  }

  /** The shortest decimal spelling of n, as Java's Integer.toString and
      Long.toString write a non-negative number. */
  function NatText(n: nat): (s: string)
    ensures 1 <= |s| && AllDigits(s)
    ensures n > 0 ==> s[0] != '0'
  {
    if n < 10 then [DigitChar(n)] else NatText(n / 10) + [DigitChar(n % 10)]
  }

  /** The number a string of decimal digits denotes (leading zeros allowed). */
  function DigitsValue(s: string): nat
    requires AllDigits(s)
  {
    if |s| == 0 then 0 else DigitsValue(s[..|s| - 1]) * 10 + DigitValue(s[|s| - 1])
  }

  function Zeros(k: nat): (s: string)
    ensures |s| == k && AllDigits(s)
    ensures forall i :: 0 <= i < k ==> s[i] == '0'
  {
    if k == 0 then [] else ['0'] + Zeros(k - 1)
  }

  /** Left-pads s with '0' up to width w; longer strings are left alone. */
  function PadLeft(s: string, w: nat): (r: string)
    ensures |r| == if |s| < w then w else |s|
    ensures AllDigits(s) ==> AllDigits(r)
  {
    if |s| < w then Zeros(w - |s|) + s else s
  }

  lemma {:induction false} DigitsValueAppend(a: string, b: string)
    requires AllDigits(a) && AllDigits(b)
    ensures AllDigits(a + b)
    ensures DigitsValue(a + b) == DigitsValue(a) * Pow10(|b|) + DigitsValue(b)
    decreases |b|
  {
    if |b| == 0 {
      assert a + b == a;
    } else {
      var n := |b| - 1;
      var b' := b[..n];
      var d := DigitValue(b[n]);
      DigitsValueAppend(a, b');
      assert DigitsValue(a + b) == DigitsValue(a + b') * 10 + d by {
        assert (a + b)[..|a + b| - 1] == a + b';
        assert (a + b)[|a + b| - 1] == b[n];
      }
      ShiftDigit(DigitsValue(a), Pow10(|b'|), DigitsValue(b'), d);
    }
  }

  lemma ShiftDigit(x: nat, p: nat, y: nat, d: nat)
    ensures (x * p + y) * 10 + d == x * (p * 10) + (y * 10 + d)
  {
  }

  lemma {:induction false} ZerosValue(k: nat)
    ensures DigitsValue(Zeros(k)) == 0
  {
    if k > 0 {
      DigitsValueAppend(['0'], Zeros(k - 1));
      ZerosValue(k - 1);
    }
  }

  /** Decimal spelling and reading are inverse, whatever zero padding is added. */
  lemma {:induction false} PaddedTextValue(n: nat, w: nat)
    ensures AllDigits(PadLeft(NatText(n), w))
    ensures DigitsValue(PadLeft(NatText(n), w)) == n
  {
    NatTextValue(n);
    var s := NatText(n);
    if |s| < w {
      var z := Zeros(w - |s|);
      assert PadLeft(s, w) == z + s;
      DigitsValueAppend(z, s);
      ZerosValue(w - |s|);
    }
  }

  lemma {:induction false} NatTextValue(n: nat)
    ensures DigitsValue(NatText(n)) == n
    decreases n
  {
    if n >= 10 {
      NatTextValue(n / 10);
      var s := NatText(n / 10) + [DigitChar(n % 10)];
      assert s[..|s| - 1] == NatText(n / 10);
    }
  }

  /** The spelling of n has at most k digits exactly when n < 10^k. */
  lemma {:induction false} NatTextLength(n: nat, k: nat)
    requires k >= 1
    ensures |NatText(n)| <= k <==> n < Pow10(k)
    decreases n
  {
    if n >= 10 {
      if k == 1 {
      } else {
        NatTextLength(n / 10, k - 1);
      }
    }
  }

  /** Java's String.toLowerCase on the Latin-1 range: A-Z and the accented
      capitals U+00C0..U+00DE (except the multiplication sign U+00D7) move up
      by 0x20; every other character is returned unchanged. */
  function LowerChar(c: char): (r: char)
    ensures 'A' <= c <= 'Z' ==> r as int == c as int + 32
    ensures !('A' <= c <= 'Z') && !('À' <= c <= 'Þ') ==> r == c
  {
    if 'A' <= c <= 'Z' || ('À' <= c <= 'Þ' && c != '×') then
      (c as int + 32) as char
    else
      c
  }

  function Lower(s: string): (r: string)
    ensures |r| == |s|
    ensures forall i :: 0 <= i < |s| ==> r[i] == LowerChar(s[i])
  {
    seq(|s|, i requires 0 <= i < |s| => LowerChar(s[i]))
  }

  /** sub occurs in s starting at position i. */
  predicate OccursAt(s: string, sub: string, i: int) {
    0 <= i <= |s| - |sub| && s[i..i + |sub|] == sub
  }

  /** sub occurs in s at some position. */
  predicate Contains(s: string, sub: string) {
    exists i :: 0 <= i <= |s| && OccursAt(s, sub, i)
  }

  /** SQL LIKE: '%' matches any run of characters, '_' any single one, every
      other pattern character itself. No escape character is recognised. */
  predicate Like(s: string, pattern: string)
    decreases |pattern|, |s|
  {
    if |pattern| == 0 then
      |s| == 0
    else if pattern[0] == '%' then
      Like(s, pattern[1..]) || (|s| > 0 && Like(s[1..], pattern))
    else
      |s| > 0 && (pattern[0] == '_' || pattern[0] == s[0]) && Like(s[1..], pattern[1..])
  }

  predicate NoWildcards(q: string) {
    forall i :: 0 <= i < |q| ==> q[i] != '%' && q[i] != '_'
  }

  /** A literal pattern (no wildcards) matches exactly itself. */
  lemma {:induction false} LikeLiteral(s: string, q: string)
    requires NoWildcards(q)
    ensures Like(s, q) <==> s == q
    decreases |q|
  {
    if |q| > 0 && |s| > 0 {
      LikeLiteral(s[1..], q[1..]);
      if s[1..] == q[1..] && s[0] == q[0] {
        assert s == [s[0]] + s[1..];
        assert q == [q[0]] + q[1..];
      }
    }
  }

  /** A pattern ending in '%' matches exactly when its prefix matches a prefix of s. */
  lemma {:induction false} LikePrefix(s: string, q: string)
    requires NoWildcards(q)
    ensures Like(s, q + "%") <==> |q| <= |s| && s[..|q|] == q
    decreases |q|
  {
    if |q| == 0 {
      assert q + "%" == "%";
      LikeAnything(s);
    } else {
      assert (q + "%")[1..] == q[1..] + "%";
      if |s| > 0 {
        LikePrefix(s[1..], q[1..]);
        if |q| <= |s| && s[..|q|] == q {
          assert s[1..][..|q| - 1] == s[1..|q|];
        }
        if Like(s[1..], q[1..] + "%") && q[0] == s[0] {
          assert s[..|q|] == [s[0]] + s[1..][..|q| - 1];
          assert q == [q[0]] + q[1..];
        }
      }
    }
  }

  lemma {:induction false} LikeAnything(s: string)
    ensures Like(s, "%")
    decreases |s|
  {
    assert "%"[1..] == "";
    if |s| > 0 {
      LikeAnything(s[1..]);
    }
  }

  /** The pattern '%' + q + '%' of a wildcard-free q is substring search. */
  lemma {:induction false} LikeContains(s: string, q: string)
    requires NoWildcards(q)
    ensures Like(s, "%" + q + "%") <==> Contains(s, q)
    decreases |s|
  {
    var p := "%" + q + "%";
    assert p[1..] == q + "%";
    LikePrefix(s, q);
    if |s| > 0 {
      LikeContains(s[1..], q);
      if Contains(s[1..], q) {
        var t := s[1..];
        var i :| 0 <= i <= |t| && OccursAt(t, q, i);
        assert 0 <= i <= |t| - |q| && t[i..i + |q|] == q;
        assert s[i + 1..i + 1 + |q|] == t[i..i + |q|];
        assert OccursAt(s, q, i + 1);
      }
      if Contains(s, q) {
        var i :| 0 <= i <= |s| && OccursAt(s, q, i);
        assert 0 <= i <= |s| - |q| && s[i..i + |q|] == q;
        if i > 0 {
          assert s[1..][i - 1..i - 1 + |q|] == s[i..i + |q|];
          assert OccursAt(s[1..], q, i - 1);
        } else {
          assert s[..|q|] == q;
        }
      }
      if |q| <= |s| && s[..|q|] == q {
        assert OccursAt(s, q, 0);
      }
    } else {
      if Contains(s, q) {
        var i :| 0 <= i <= |s| && OccursAt(s, q, i);
        assert |q| == 0 && s[..|q|] == q;
      }
      if |q| == 0 {
        assert OccursAt(s, q, 0);
      }
    }
  }

  /** Lexicographic order by character code; a prefix comes first. */
  predicate TextLessEq(a: string, b: string)
    decreases |a|
  {
    |a| == 0 || (|b| > 0 && (a[0] < b[0] || (a[0] == b[0] && TextLessEq(a[1..], b[1..]))))
  }

  /** Any two strings are ordered one way or the other. */
  lemma {:induction false} TextLessEqTotal(a: string, b: string)
    ensures TextLessEq(a, b) || TextLessEq(b, a)
    decreases |a|
  {
    if |a| > 0 && |b| > 0 && a[0] == b[0] {
      TextLessEqTotal(a[1..], b[1..]);
    }
  }

  lemma {:induction false} TextLessEqTransitive(a: string, b: string, c: string)
    requires TextLessEq(a, b) && TextLessEq(b, c)
    ensures TextLessEq(a, c)
    decreases |a|
  {
    if |a| > 0 && a[0] == b[0] && b[0] == c[0] {
      TextLessEqTransitive(a[1..], b[1..], c[1..]);
    }
  }

  /** Two strings ordered both ways are equal. */
  lemma {:induction false} TextLessEqAntisymmetric(a: string, b: string)
    requires TextLessEq(a, b) && TextLessEq(b, a)
    ensures a == b
    decreases |a|
  {
    if |a| > 0 {
      TextLessEqAntisymmetric(a[1..], b[1..]);
      assert a == [a[0]] + a[1..] && b == [b[0]] + b[1..];
    }
  }
}
