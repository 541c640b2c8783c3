/** String helpers with Python's `str` semantics, on `seq<char>`. */
module Text {

  /** `s.startswith(prefix)` */
  predicate StartsWith(s: string, prefix: string) {
    |prefix| <= |s| && s[..|prefix|] == prefix
  }

  /** `s.endswith(suffix)` */
  predicate EndsWith(s: string, suffix: string) {
    |suffix| <= |s| && s[|s| - |suffix|..] == suffix
  }

  /** A character of a suffix, read from the whole string. */
  lemma EndsWithAt(s: string, t: string, j: nat)
    requires EndsWith(s, t) && j < |t|
    ensures s[|s| - |t| + j] == t[j]
  {
    assert s[|s| - |t|..][j] == t[j];
  }

  /** A suffix of a suffix is a suffix. */
  lemma EndsWithTransitive(a: string, b: string, c: string)
    requires EndsWith(a, b) && EndsWith(b, c)
    ensures EndsWith(a, c)
  {
    assert a[|a| - |c|..] == a[|a| - |b|..][|b| - |c|..];
  }

  /** `sub` occurs in `s` starting at index `k`. */
  predicate OccursAt(s: string, sub: string, k: nat) {
    k + |sub| <= |s| && s[k..k + |sub|] == sub
  }

  /** A character of an occurrence, read from the whole string. */
  lemma OccursAtChar(s: string, sub: string, k: nat, j: nat)
    requires OccursAt(s, sub, k) && j < |sub|
    ensures s[k + j] == sub[j]
  {
    assert s[k..k + |sub|][j] == sub[j];
  }

  /** `sub` occurs in `s` at some position `k >= i`. */
  predicate ContainsFrom(s: string, sub: string, i: nat)
    decreases |s| - i
  {
    i + |sub| <= |s| && (OccursAt(s, sub, i) || ContainsFrom(s, sub, i + 1))
  }

  /** `sub in s`: substring containment (the empty string is in every string). */
  predicate Contains(s: string, sub: string) {
    ContainsFrom(s, sub, 0)
  }

  lemma {:induction false} ContainsFromWitness(s: string, sub: string, i: nat)
    requires ContainsFrom(s, sub, i)
    ensures exists k: nat :: i <= k && OccursAt(s, sub, k)
    decreases |s| - i
  {
    if !OccursAt(s, sub, i) {
      ContainsFromWitness(s, sub, i + 1);
    }
  }

  lemma {:induction false} ContainsFromIntro(s: string, sub: string, i: nat, k: nat)
    requires i <= k && OccursAt(s, sub, k)
    ensures ContainsFrom(s, sub, i)
    decreases k - i
  {
    if i < k {
      ContainsFromIntro(s, sub, i + 1, k);
    }
  }

  /** Substring containment is exactly "occurs at some position". */
  lemma ContainsIff(s: string, sub: string)
    ensures Contains(s, sub) <==> exists k: nat :: OccursAt(s, sub, k)
  {
    if Contains(s, sub) {
      ContainsFromWitness(s, sub, 0);
    }
    if exists k: nat :: OccursAt(s, sub, k) {
      var k: nat :| OccursAt(s, sub, k);
      ContainsFromIntro(s, sub, 0, k);
    }
  }

  /** A piece of a string is still found in any longer string that holds it. */
  lemma ContainsInSuperstring(pre: string, s: string, post: string, sub: string)
    requires Contains(s, sub)
    ensures Contains(pre + s + post, sub)
  {
    ContainsIff(s, sub);
    var k: nat :| OccursAt(s, sub, k);
    var t := pre + s + post;
    assert t[|pre| + k..|pre| + k + |sub|] == sub;
    assert OccursAt(t, sub, |pre| + k);
    ContainsIff(t, sub);
  }

  /** The characters `a`, `b` never stand side by side at or after index `i`. */
  predicate NoAdjacentFrom(s: string, a: char, b: char, i: nat)
    decreases |s| - i
  {
    i + 1 >= |s| || (!(s[i] == a && s[i + 1] == b) && NoAdjacentFrom(s, a, b, i + 1))
  }

  /** A string without the first two characters of `sub` side by side does not contain `sub`. */
  lemma {:induction false} NotContainsFrom(s: string, sub: string, i: nat)
    requires |sub| >= 2 && NoAdjacentFrom(s, sub[0], sub[1], i)
    ensures !ContainsFrom(s, sub, i)
    decreases |s| - i
  {
    if i + |sub| <= |s| {
      NotContainsFrom(s, sub, i + 1);
    }
  }

  lemma NotContains(s: string, sub: string)
    requires |sub| >= 2 && NoAdjacentFrom(s, sub[0], sub[1], 0)
    ensures !Contains(s, sub)
  {
    NotContainsFrom(s, sub, 0);
  }

  /** Python's `\d` restricted to ASCII digits. */
  predicate IsDigit(c: char) {
    '0' <= c <= '9'
  }

  predicate AllDigits(s: string) {
    forall i :: 0 <= i < |s| ==> IsDigit(s[i])
  }

  function DigitChar(d: nat): (c: char)
    requires d < 10
    ensures IsDigit(c) && (c as int) - ('0' as int) == d
  {
    (('0' as int) + d) as char
  }

  function DigitValue(c: char): nat
    requires IsDigit(c)
  {
    (c as int) - ('0' as int)
  }

  /** `str(n)` for a non-negative integer: decimal digits, no leading zero. */
  function DecimalString(n: nat): (s: string)
    ensures 1 <= |s| && AllDigits(s)
    ensures n > 0 ==> s[0] != '0'
    ensures n < 10 <==> |s| == 1
  {
    if n < 10 then [DigitChar(n)] else DecimalString(n / 10) + [DigitChar(n % 10)]
  }

  /** The number a string of decimal digits denotes; leading zeros are allowed. */
  function DecimalValue(s: string): nat
    requires AllDigits(s)
  {
    if s == [] then 0 else 10 * DecimalValue(s[..|s| - 1]) + DigitValue(s[|s| - 1])
  }

  /** `int(str(n)) == n`. */
  lemma {:induction false} DecimalRoundTrip(n: nat)
    ensures DecimalValue(DecimalString(n)) == n
  {
    var s := DecimalString(n);
    if n >= 10 {
      DecimalRoundTrip(n / 10);
      assert s[..|s| - 1] == DecimalString(n / 10);
    }
  }

  /** Zero digits prepended to a digit string do not change its value. */
  lemma {:induction false} LeadingZerosValue(z: nat, s: string)
    requires AllDigits(s)
    ensures AllDigits(Zeros(z) + s) && DecimalValue(Zeros(z) + s) == DecimalValue(s)
    decreases |s|
  {
    var t := Zeros(z) + s;
    assert AllDigits(t) by {
      forall i | 0 <= i < |t| ensures IsDigit(t[i]) {
        if i < z { assert t[i] == Zeros(z)[i]; } else { assert t[i] == s[i - z]; }
      }
    }
    if s == [] {
      assert t == Zeros(z);
      ZerosValue(z);
    } else {
      assert t[..|t| - 1] == Zeros(z) + s[..|s| - 1];
      LeadingZerosValue(z, s[..|s| - 1]);
    }
  }

  lemma {:induction false} ZerosValue(z: nat)
    ensures AllDigits(Zeros(z)) && DecimalValue(Zeros(z)) == 0
  {
    if z > 0 {
      assert Zeros(z)[..z - 1] == Zeros(z - 1);
      ZerosValue(z - 1);
    }
  }

  function Zeros(n: nat): (z: string)
    ensures |z| == n && forall i :: 0 <= i < n ==> z[i] == '0'
  {
    seq(n, _ => '0')
  }

  /** `s.zfill(width)`: pad on the left with '0' to `width`, keeping a leading sign first. */
  function ZFill(s: string, width: nat): (r: string)
    ensures |r| == if |s| >= width then |s| else width
  {
    if |s| >= width then s
    else if |s| > 0 && (s[0] == '+' || s[0] == '-') then [s[0]] + Zeros(width - |s|) + s[1..]
    else Zeros(width - |s|) + s
  }

  /** Zero-filling a digit string gives a digit string of the same value, ending in the original. */
  lemma ZFillDigits(s: string, width: nat)
    requires AllDigits(s)
    ensures AllDigits(ZFill(s, width))
    ensures DecimalValue(ZFill(s, width)) == DecimalValue(s)
    ensures EndsWith(ZFill(s, width), s)
  {
    if |s| < width {
      if |s| > 0 {
        assert IsDigit(s[0]);
      }
      LeadingZerosValue(width - |s|, s);
      var r := ZFill(s, width);
      assert r[|r| - |s|..] == s;
    }
  }

  /** ASCII lower-casing of one character. */
  function LowerChar(c: char): char {
    if 'A' <= c <= 'Z' then ((c as int) + 32) as char else c
  }

  /** `s.lower()` over ASCII letters. */
  function Lower(s: string): (r: string)
    ensures |r| == |s|
    ensures forall i :: 0 <= i < |s| ==> r[i] == LowerChar(s[i])
  {
    seq(|s|, i requires 0 <= i < |s| => LowerChar(s[i]))
  }

  /** Concatenation of a list of strings (`"".join(parts)`). */
  function Concat(parts: seq<string>): string {
    if parts == [] then [] else Concat(parts[..|parts| - 1]) + parts[|parts| - 1]
  }

  /** Joining a prefix of the parts gives a prefix of the joined whole. */
  lemma {:induction false} ConcatPrefix(parts: seq<string>, n: nat)
    requires n <= |parts|
    ensures StartsWith(Concat(parts), Concat(parts[..n]))
    decreases |parts|
  {
    if n < |parts| {
      var init := parts[..|parts| - 1];
      assert init[..n] == parts[..n];
      ConcatPrefix(init, n);
    } else {
      assert parts[..n] == parts;
    }
  }

  /** `s.split(sep)[-1]`: the text after the last occurrence of `sep`, or all of `s`. */
  function LastSegment(s: string, sep: char): (r: string)
    ensures |r| <= |s|
  {
    if s == [] then []
    else if s[|s| - 1] == sep then []
    else LastSegment(s[..|s| - 1], sep) + [s[|s| - 1]]
  }

  /** The last segment holds no separator, ends the string, and is preceded by a separator or nothing. */
  lemma {:induction false} LastSegmentShape(s: string, sep: char)
    ensures var r := LastSegment(s, sep);
      && EndsWith(s, r)
      && (forall i :: 0 <= i < |r| ==> r[i] != sep)
      && (|r| == |s| || s[|s| - |r| - 1] == sep)
  {
    if s != [] && s[|s| - 1] != sep {
      var init := s[..|s| - 1];
      LastSegmentShape(init, sep);
      var r0 := LastSegment(init, sep);
      var r := r0 + [s[|s| - 1]];
      assert s == init + [s[|s| - 1]];
      assert s[|s| - |r|..] == init[|init| - |r0|..] + [s[|s| - 1]];
      if |r| < |s| {
        assert s[|s| - |r| - 1] == init[|init| - |r0| - 1];
      }
    }
  }

  /** A string with no separator is its own last segment. */
  lemma {:induction false} LastSegmentWhole(s: string, sep: char)
    requires forall i :: 0 <= i < |s| ==> s[i] != sep
    ensures LastSegment(s, sep) == s
  {
    if s != [] {
      LastSegmentWhole(s[..|s| - 1], sep);
      assert s[..|s| - 1] + [s[|s| - 1]] == s;
    }
  }

  /** The last segment of `pre + sep + post`, where `post` holds no separator, is `post`. */
  lemma {:induction false} LastSegmentAfter(pre: string, sep: char, post: string)
    requires forall i :: 0 <= i < |post| ==> post[i] != sep
    ensures LastSegment(pre + [sep] + post, sep) == post
  {
    var s := pre + [sep] + post;
    if post != [] {
      var n := |post| - 1;
      assert s[..|s| - 1] == pre + [sep] + post[..n];
      LastSegmentAfter(pre, sep, post[..n]);
      assert post[..n] + [post[n]] == post;
    }
  }
}
