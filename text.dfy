/** Character classes, decimal numerals, the ordering of ids and the joining of
    HTML fragments, as the build script uses them on plain strings. */
module Text {

  /** `\d` of a JavaScript regular expression without the `u` flag. */
  predicate IsDigit(c: char) {
    '0' <= c <= '9'
  }

  /** `\w` of a JavaScript regular expression: ASCII letters, digits and `_`. */
  predicate IsWordChar(c: char) {
    IsDigit(c) || 'a' <= c <= 'z' || 'A' <= c <= 'Z' || c == '_'
  }

  predicate AllDigits(s: string) {
    forall i :: 0 <= i < |s| ==> IsDigit(s[i])
  }

  predicate AllWordChars(s: string) {
    forall i :: 0 <= i < |s| ==> IsWordChar(s[i])
  }

  // ---------------------------------------------------------------------------
  // Decimal numerals: `+y` turns a run of digits into a number, and a template
  // `${y}` turns the number back into text without leading zeros.
  // ---------------------------------------------------------------------------

  /** The numeric value of a run of decimal digits (the unary `+` on a digit string). */
  function DigitsValue(s: string): nat
    requires AllDigits(s)
  {
    if s == [] then 0
    else 10 * DigitsValue(s[..|s| - 1]) + (s[|s| - 1] - '0') as nat
  }

  /** Number-to-text conversion as a template literal performs it for a non-negative integer. */
  function NatToString(n: nat): (r: string)
    ensures AllDigits(r) && |r| >= 1
    ensures |r| == 1 || r[0] != '0'
    ensures DigitsValue(r) == n
  {
    if n < 10 then [('0' as int + n) as char]
    else
      var r := NatToString(n / 10) + [('0' as int + n % 10) as char];
      assert r[..|r| - 1] == NatToString(n / 10);
      r
  }

  /** A numeral with its leading zeros removed; a numeral of zeros only keeps one zero. */
  function StripLeadingZeros(s: string): (r: string)
    requires AllDigits(s) && |s| >= 1
    ensures |r| >= 1 && |r| <= |s| && r == s[|s| - |r|..]
    ensures |r| == 1 || r[0] != '0'
    ensures forall k :: 0 <= k < |s| - |r| ==> s[k] == '0'
  {
    if |s| > 1 && s[0] == '0' then StripLeadingZeros(s[1..]) else s
  }

  /** Leading zeros do not change a numeral's value. */
  lemma {:induction false} DigitsValueLeadingZero(s: string)
    requires AllDigits(s) && |s| >= 1 && s[0] == '0'
    ensures DigitsValue(s) == DigitsValue(s[1..])
  {
    if |s| == 1 {
      assert s[1..] == [];
    } else {
      var t := s[..|s| - 1];
      DigitsValueLeadingZero(t);
      assert t[1..] == s[1..][..|s[1..]| - 1];
    }
  }

  /** Two digit strings without leading zeros that have the same value are equal. */
  lemma {:induction false} CanonicalNumeralUnique(a: string, b: string)
    requires AllDigits(a) && |a| >= 1 && (|a| == 1 || a[0] != '0')
    requires AllDigits(b) && |b| >= 1 && (|b| == 1 || b[0] != '0')
    requires DigitsValue(a) == DigitsValue(b)
    ensures a == b
  {
    var a', b' := a[..|a| - 1], b[..|b| - 1];
    var da, db := (a[|a| - 1] - '0') as nat, (b[|b| - 1] - '0') as nat;
    assert DigitsValue(a) == 10 * DigitsValue(a') + da;
    assert DigitsValue(b) == 10 * DigitsValue(b') + db;
    assert da == db;
    if |a| == 1 && |b| == 1 {
    } else if |a| == 1 {
      PositiveValue(b');
    } else if |b| == 1 {
      PositiveValue(a');
    } else {
      CanonicalNumeralUnique(a', b');
    }
  }

  /** A numeral without leading zeros of two or more digits starts with a non-zero digit. */
  lemma {:induction false} PositiveValue(s: string)
    requires AllDigits(s) && |s| >= 1 && s[0] != '0'
    ensures DigitsValue(s) >= 1
  {
    if |s| > 1 {
      PositiveValue(s[..|s| - 1]);
    }
  }

  /** Rendering the value of a digit run gives the run without its leading zeros:
      `${+"0007"}` is `7`, `${+"2023"}` is `2023`, `${+"00"}` is `0`. */
  lemma {:induction false} RenderedValueStripsZeros(s: string)
    requires AllDigits(s) && |s| >= 1
    ensures NatToString(DigitsValue(s)) == StripLeadingZeros(s)
  {
    if |s| > 1 && s[0] == '0' {
      DigitsValueLeadingZero(s);
      RenderedValueStripsZeros(s[1..]);
    } else {
      CanonicalNumeralUnique(NatToString(DigitsValue(s)), s);
    }
  }

  // ---------------------------------------------------------------------------
  // Ordering of ids
  // ---------------------------------------------------------------------------

  /** Strict lexicographic order on characters (Unicode code points): `a` sorts before `b`. */
  predicate LexLess(a: string, b: string) {
    if |a| == 0 then |b| > 0
    else if |b| == 0 then false
    else if a[0] != b[0] then a[0] < b[0]
    else LexLess(a[1..], b[1..])
  }

  lemma {:induction false} LexLessIrreflexive(a: string)
    ensures !LexLess(a, a)
  {
    if |a| > 0 {
      LexLessIrreflexive(a[1..]);
    }
  }

  lemma {:induction false} LexLessTransitive(a: string, b: string, c: string)
    requires LexLess(a, b) && LexLess(b, c)
    ensures LexLess(a, c)
  {
    if |a| > 0 && a[0] == b[0] && b[0] == c[0] {
      LexLessTransitive(a[1..], b[1..], c[1..]);
    }
  }

  /** Any two different strings are ordered one way or the other. */
  lemma {:induction false} LexLessTotal(a: string, b: string)
    requires a != b
    ensures LexLess(a, b) || LexLess(b, a)
  {
    if |a| > 0 && |b| > 0 && a[0] == b[0] {
      assert a == [a[0]] + a[1..] && b == [b[0]] + b[1..];
      LexLessTotal(a[1..], b[1..]);
    }
  }

  /** "Not before" is transitive: the order a descending sort keeps. */
  lemma NotLessTransitive(a: string, b: string, c: string)
    requires !LexLess(a, b) && !LexLess(b, c)
    ensures !LexLess(a, c)
  {
    if LexLess(a, c) {
      if a == b {
      } else if b == c {
      } else {
        LexLessTotal(a, b);
        LexLessTotal(b, c);
        LexLessTransitive(b, a, c);
      }
    }
  }

  // ---------------------------------------------------------------------------
  // `.join('')` of mapped fragments
  // ---------------------------------------------------------------------------

  /** `parts.join('')`. */
  function Concat(parts: seq<string>): string {
    if parts == [] then "" else Concat(parts[..|parts| - 1]) + parts[|parts| - 1]
  }

  /** Joining distributes over concatenation of the fragment lists. */
  lemma {:induction false} ConcatAppend(p: seq<string>, q: seq<string>)
    ensures Concat(p + q) == Concat(p) + Concat(q)
  {
    if q == [] {
      assert p + q == p;
    } else {
      assert (p + q)[..|p + q| - 1] == p + q[..|q| - 1];
      ConcatAppend(p, q[..|q| - 1]);
    }
  }
}
