/** Characters and numerals of the C library, in the "C" locale. */
module Text {

  /** The character at a place in a NUL-terminated text. */
  function At(s: string, i: nat): char {
    if i < |s| then s[i] else '\0'
  }

  predicate IsDigit(c: char) { '0' <= c <= '9' }

  predicate IsAlpha(c: char) { 'a' <= c <= 'z' || 'A' <= c <= 'Z' }

  predicate IsAlnum(c: char) { IsAlpha(c) || IsDigit(c) }

  predicate IsSpace(c: char) { c == ' ' || '\t' <= c <= '\r' }

  function Lower(c: char): char {
    if 'A' <= c <= 'Z' then c - 'A' + 'a' else c
  }

  /** The classes by their codes in the ASCII table. */
  lemma Codes(c: char)
    ensures var n := c as int;
      && (IsDigit(c) <==> 48 <= n <= 57)
      && (IsAlpha(c) <==> 65 <= n <= 90 || 97 <= n <= 122)
      && (IsAlnum(c) <==> 48 <= n <= 57 || 65 <= n <= 90 || 97 <= n <= 122)
      && (IsSpace(c) <==> n == 32 || 9 <= n <= 13)
      && Lower(c) as int == if 65 <= n <= 90 then n + 32 else n
  {
  }

  /** The parts of a stretch of text made of three pieces. */
  lemma Parts(s: string, start: nat, end: nat, a: string, b: string, c: string)
    requires start <= end <= |s| && s[start..end] == a + b + c
    ensures var m, n := start + |a|, start + |a| + |b|;
      m <= n <= end == n + |c| && s[start..m] == a && s[m..n] == b && s[n..end] == c
  {
    var m, n := start + |a|, start + |a| + |b|;
    assert |s[start..end]| == |a| + |b| + |c|;
    SubSlice(s, start, end, 0, |a|);
    SubSlice(s, start, end, |a|, |a| + |b|);
    SubSlice(s, start, end, |a| + |b|, end - start);
    assert (a + b + c)[|a|..|a| + |b|] == b;
    assert (a + b + c)[|a| + |b|..end - start] == c;
  }

  lemma SubSlice(s: string, start: nat, end: nat, i: nat, j: nat)
    requires start <= end <= |s| && i <= j <= end - start
    ensures s[start..end][i..j] == s[start + i..start + j]
  {
    var whole := s[start..end];
    assert |whole[i..j]| == j - i == |s[start + i..start + j]|;
    forall k | 0 <= k < j - i ensures whole[i..j][k] == s[start + i..start + j][k] {
      assert whole[i..j][k] == whole[i + k] == s[start + (i + k)];
    }
  }

  /** The same letter in either case, or the same character. */
  predicate SameLetter(a: char, b: char) {
    a == b || ('A' <= a <= 'Z' && b as int == a as int + 32) || ('A' <= b <= 'Z' && a as int == b as int + 32)
  }

  /** The same text, but for the case of its letters. */
  predicate SameLetters(a: string, b: string) {
    |a| == |b| && forall i | 0 <= i < |a| :: SameLetter(a[i], b[i])
  }

  lemma SameLower(a: char, b: char)
    ensures SameLetter(a, b) <==> Lower(a) == Lower(b)
  {
  }

  /** The parts of a stretch of text made of three pieces in either case. */
  lemma PartsAlike(s: string, start: nat, end: nat, a: string, b: string, c: string)
    requires start <= end <= |s| && SameLetters(s[start..end], a + b + c)
    ensures var m, n := start + |a|, start + |a| + |b|;
      && m <= n <= end == n + |c|
      && SameLetters(s[start..m], a) && SameLetters(s[m..n], b) && SameLetters(s[n..end], c)
  {
    hide SameLetter;
    var m, n, whole := start + |a|, start + |a| + |b|, s[start..end];
    assert |whole| == |a| + |b| + |c|;
    forall i | 0 <= i < |a| ensures SameLetter(s[start..m][i], a[i]) { assert whole[i] == s[start..m][i]; }
    forall i | 0 <= i < |b| ensures SameLetter(s[m..n][i], b[i]) { assert whole[|a| + i] == s[m..n][i]; }
    forall i | 0 <= i < |c| ensures SameLetter(s[n..end][i], c[i]) { assert whole[|a| + |b| + i] == s[n..end][i]; }
  }

  /** A character of a stretch of text. */
  lemma Within(s: string, start: nat, end: nat, k: nat)
    requires start <= k < end <= |s|
    ensures At(s, k) == s[start..end][k - start]
  {
  }

  // ---------------------------------------------------------------- strtol

  const LONG_MAX: int := 0x7fff_ffff_ffff_ffff

  /** The value of a character as a digit, or -1. */
  function DigitOf(c: char): int {
    if '0' <= c <= '9' then c as int - '0' as int
    else if 'a' <= c <= 'z' then c as int - 'a' as int + 10
    else if 'A' <= c <= 'Z' then c as int - 'A' as int + 10
    else -1
  }

  predicate DigitIn(c: char, base: nat) { 0 <= DigitOf(c) < base }

  /** The end of the digits that start at i. */
  function DigitsEnd(s: string, i: nat, base: nat): (j: nat)
    ensures i <= j
    decreases |s| - i
  {
    if DigitIn(At(s, i), base) then DigitsEnd(s, i + 1, base) else i
  }

  /** The number that the digits from i up to j stand for. */
  function Number(s: string, i: nat, j: nat, base: nat): nat
    decreases j
  {
    if j <= i || !DigitIn(At(s, j - 1), base) then 0 else Number(s, i, j - 1, base) * base + DigitOf(At(s, j - 1))
  }

  function SkipSpace(s: string, i: nat): (j: nat)
    ensures i <= j
    decreases |s| - i
  {
    if IsSpace(At(s, i)) then SkipSpace(s, i + 1) else i
  }

  /** The prefix 0x, with a digit after it. */
  predicate Prefixed(s: string, k: nat) {
    At(s, k) == '0' && Lower(At(s, k + 1)) == 'x' && DigitIn(At(s, k + 2), 16)
  }

  /** `strtol` with a 64-bit `long`: the value, and where the conversion stopped. */
  function StrToL(s: string, start: nat, base: nat): (int, nat) {
    var i := SkipSpace(s, start);
    var k := if At(s, i) == '-' || At(s, i) == '+' then i + 1 else i;
    var from := if base == 16 && Prefixed(s, k) then k + 2 else k;
    var j := DigitsEnd(s, from, base);
    var n: int := Number(s, from, j, base);
    if j == from then (0, start)
    else if At(s, i) == '-' then (if n > LONG_MAX + 1 then -LONG_MAX - 1 else -n, j)
    else (if n > LONG_MAX then LONG_MAX else n, j)
  }

  lemma {:induction false} DigitsEndAt(s: string, i: nat, j: nat, base: nat)
    requires i <= j <= |s| && (forall k | i <= k < j :: DigitIn(s[k], base)) && !DigitIn(At(s, j), base)
    ensures DigitsEnd(s, i, base) == j
    decreases j - i
  {
    if i >= j {
    } else {
      DigitsEndAt(s, i + 1, j, base);
    }
  }

  /** Digits that nothing precedes and no digit follows are read in full. */
  lemma StrToLDigits(s: string, i: nat, j: nat, base: nat)
    requires i < j <= |s| && base <= 16 && (forall k | i <= k < j :: DigitIn(s[k], base)) && !DigitIn(At(s, j), base)
    requires base == 16 ==> Lower(At(s, j)) != 'x'
    ensures StrToL(s, i, base) == (if Number(s, i, j, base) > LONG_MAX then LONG_MAX else Number(s, i, j, base), j)
  {
    DigitsEndAt(s, i, j, base);
    assert DigitIn(s[i], base);
    assert i + 1 < j ==> DigitIn(s[i + 1], base);
  }

  lemma {:induction false} DigitsEndFurther(s: string, i: nat, j: nat, base: nat)
    requires i <= j < |s| && forall k | i <= k <= j :: DigitIn(s[k], base)
    ensures DigitsEnd(s, i, base) > j
    decreases j - i
  {
    if i == j {
    } else {
      DigitsEndFurther(s, i + 1, j, base);
    }
  }

  lemma StrToLFurther(s: string, i: nat, j: nat, base: nat)
    requires base == 10 && i <= j < |s| && forall k | i <= k <= j :: DigitIn(s[k], base)
    ensures StrToL(s, i, base).1 > j
  {
    hide Number;
    DigitsEndFurther(s, i, j, base);
    assert DigitIn(s[i], base);
  }

  /** No digits: nothing is converted. */
  lemma StrToLNothing(s: string, i: nat, base: nat)
    requires base <= 16 && !DigitIn(At(s, i), base) && !IsSpace(At(s, i)) && At(s, i) != '-' && At(s, i) != '+'
    ensures StrToL(s, i, base) == (0, i)
  {
  }

  lemma {:induction false} SkipsTo(s: string, i: nat, j: nat)
    requires i <= j && (forall k | i <= k < j :: IsSpace(At(s, k))) && !IsSpace(At(s, j))
    ensures SkipSpace(s, i) == j
    decreases j - i
  {
    if i == j {
    } else {
      SkipsTo(s, i + 1, j);
    }
  }

  /** The C standard, section 7.22.1.4: whitespace, a sign or none, for base 16 the prefix 0x or none, and digits;
      what does not fit is cut to the largest or smallest number of 64 bits. */
  lemma StrToLExact(s: string, i: nat, j: nat, k: nat, from: nat, end: nat, base: nat)
    requires i <= j <= k <= from < end <= |s| && (base == 10 || base == 16)
    requires forall m | i <= m < j :: s[m] in {' ', '\t', '\n', '\U{0B}', '\U{0C}', '\r'}
    requires s[j..k] in {"", "-", "+"} && (s[k..from] == "" || (base == 16 && s[k..from] in {"0x", "0X"}))
    requires (forall m | from <= m < end :: DigitIn(s[m], base)) && !DigitIn(At(s, end), base)
    requires s[k..from] == "" && base == 16 ==> Lower(At(s, end)) != 'x'
    ensures var digits: int := Number(s, from, end, base);
      var n := if s[j..k] == "-" then -digits else digits;
      StrToL(s, i, base)
      == (if n > 0x7fff_ffff_ffff_ffff then 0x7fff_ffff_ffff_ffff
          else if n < -0x8000_0000_0000_0000 then -0x8000_0000_0000_0000 else n, end)
  {
    hide Number, SkipSpace, DigitsEnd;
    assert DigitIn(s[from], base);
    if j < k { assert s[j..k][0] == s[j]; }
    if k < from { assert |s[k..from]| == 2 && s[k..from][0] == s[k] && s[k..from][1] == s[k + 1]; }
    SkipsTo(s, i, j);
    DigitsEndAt(s, from, end, base);
    if from + 1 < end { assert DigitIn(s[from + 1], base); }
  }

  // ---------------------------------------------------------------- the same text in two places

  /** Characters that end a token. */
  predicate Delimits(c: char) { c == '(' || c == ',' || c == ')' || c == '\0' }

  predicate SameAt(a: string, i: nat, b: string, j: nat, m: nat) {
    SameLetter(At(a, i + m), At(b, j + m))
  }

  /** The same n characters in two texts, in either case, each followed by the end of a token. */
  ghost predicate Alike(a: string, i: nat, b: string, j: nat, n: nat) {
    (forall m | 0 <= m < n :: SameAt(a, i, b, j, m)) && Delimits(At(a, i + n)) && Delimits(At(b, j + n))
  }

  lemma AlikeSlices(a: string, i: nat, b: string, j: nat, n: nat)
    requires i + n <= |a| && j + n <= |b| && SameLetters(a[i..i + n], b[j..j + n])
    requires Delimits(At(a, i + n)) && Delimits(At(b, j + n))
    ensures Alike(a, i, b, j, n)
  {
    forall m | 0 <= m < n ensures SameAt(a, i, b, j, m) {
      assert a[i..i + n][m] == a[i + m] && b[j..j + n][m] == b[j + m];
    }
  }

  lemma {:induction false} SkipSame(a: string, i: nat, b: string, j: nat, n: nat, m: nat)
    requires Alike(a, i, b, j, n) && m <= n
    ensures SkipSpace(a, i + m) - i == SkipSpace(b, j + m) - j <= n
    decreases n - m
  {
    if m >= n {
    } else {
      assert SameAt(a, i, b, j, m);
      if IsSpace(At(a, i + m)) { SkipSame(a, i, b, j, n, m + 1); }
    }
  }

  lemma {:induction false} DigitsEndSame(a: string, i: nat, b: string, j: nat, n: nat, m: nat, base: nat)
    requires Alike(a, i, b, j, n) && m <= n
    ensures DigitsEnd(a, i + m, base) - i == DigitsEnd(b, j + m, base) - j <= n
    decreases n - m
  {
    if m >= n {
    } else {
      assert SameAt(a, i, b, j, m);
      if DigitIn(At(a, i + m), base) { DigitsEndSame(a, i, b, j, n, m + 1, base); }
    }
  }

  lemma {:induction false} NumberSame(a: string, i: nat, b: string, j: nat, n: nat, p: nat, q: nat, base: nat)
    requires Alike(a, i, b, j, n) && p <= q <= n
    ensures Number(a, i + p, i + q, base) == Number(b, j + p, j + q, base)
    decreases q
  {
    if p >= q {
    } else {
      assert SameAt(a, i, b, j, q - 1);
      NumberSame(a, i, b, j, n, p, q - 1, base);
    }
  }

  /** The same, from a later place on. */
  lemma AlikeFrom(a: string, i: nat, b: string, j: nat, n: nat, q: nat)
    requires Alike(a, i, b, j, n) && q <= n
    ensures Alike(a, i + q, b, j + q, n - q)
  {
    var i', j' := i + q, j + q;
    forall k | 0 <= k < n - q ensures SameAt(a, i', b, j', k) { assert SameAt(a, i, b, j, q + k); }
  }

  lemma StrToLSame(a: string, i: nat, b: string, j: nat, n: nat, base: nat)
    requires Alike(a, i, b, j, n) && base <= 16
    ensures StrToL(a, i, base).0 == StrToL(b, j, base).0 && StrToL(a, i, base).1 - i == StrToL(b, j, base).1 - j
  {
    hide SkipSpace, DigitsEnd, Number, Alike, At, Prefixed;
    SkipSame(a, i, b, j, n, 0);
    var p := SkipSpace(a, i) - i;
    SignSame(a, i, b, j, n, p);
    var k := if At(a, i + p) == '-' || At(a, i + p) == '+' then p + 1 else p;
    PrefixSame(a, i, b, j, n, k);
    var from := if base == 16 && Prefixed(a, i + k) then k + 2 else k;
    DigitsEndSame(a, i, b, j, n, from, base);
    NumberSame(a, i, b, j, n, from, DigitsEnd(a, i + from, base) - i, base);
  }

  lemma SignSame(a: string, i: nat, b: string, j: nat, n: nat, p: nat)
    requires Alike(a, i, b, j, n) && p <= n
    ensures At(a, i + p) == '-' <==> At(b, j + p) == '-'
    ensures At(a, i + p) == '+' <==> At(b, j + p) == '+'
    ensures At(a, i + p) == '-' || At(a, i + p) == '+' ==> p < n
  {
    assert p < n ==> SameAt(a, i, b, j, p);
  }

  lemma PrefixSame(a: string, i: nat, b: string, j: nat, n: nat, k: nat)
    requires Alike(a, i, b, j, n) && k <= n
    ensures Prefixed(a, i + k) <==> Prefixed(b, j + k)
    ensures Prefixed(a, i + k) ==> k + 2 <= n
  {
    assert k < n ==> SameAt(a, i, b, j, k);
    assert k + 1 < n ==> SameAt(a, i, b, j, k + 1);
    assert k + 2 < n ==> SameAt(a, i, b, j, k + 2);
  }

  // ---------------------------------------------------------------- printed numbers

  function DigitChar(d: nat): (c: char)
    requires d < 16
    ensures DigitOf(c) == d
  {
    if d < 10 then '0' + d as char else 'a' + (d - 10) as char
  }

  /** A number in the usual notation. */
  function Digits(v: nat, base: nat): (s: string)
    requires 2 <= base <= 16
    ensures s != ""
  {
    if v < base then [DigitChar(v)] else Digits(v / base, base) + [DigitChar(v % base)]
  }

  lemma {:induction false} DigitsAreDigits(v: nat, base: nat)
    requires 2 <= base <= 16
    ensures forall k | 0 <= k < |Digits(v, base)| :: DigitIn(Digits(v, base)[k], base)
    decreases v
  {
    hide Digits, DigitChar;
    DigitsStep(v, base);
    if v < base {
    } else {
      Shrinks(v, base);
      DigitsAreDigits(v / base, base);
    }
  }

  lemma Recombine(v: nat, base: nat)
    requires base > 0
    ensures v / base * base + v % base == v
  {
  }

  lemma NumberStep(s: string, i: nat, j: nat, base: nat, d: nat)
    requires i < j && d < base <= 16 && SameLetter(At(s, j - 1), DigitChar(d))
    ensures Number(s, i, j, base) == Number(s, i, j - 1, base) * base + d
  {
  }

  lemma LastLetter(a: string, b: string, c: char)
    requires SameLetters(a, b + [c])
    ensures a != "" && SameLetters(a[..|a| - 1], b) && SameLetter(a[|a| - 1], c)
  {
    assert (b + [c])[|b|] == c;
    forall i | 0 <= i < |b| ensures SameLetter(a[i], b[i]) { assert (b + [c])[i] == b[i]; }
  }

  /** Digits in either case. */
  lemma {:induction false} NumberOfDigits(s: string, i: nat, j: nat, v: nat, base: nat)
    requires 2 <= base <= 16 && i <= j <= |s| && SameLetters(s[i..j], Digits(v, base))
    ensures Number(s, i, j, base) == v
    decreases v
  {
    hide Number, DigitChar, At, Digits, SameLetter, SameLetters;
    DigitsStep(v, base);
    if v < base {
      assert "" + [DigitChar(v)] == [DigitChar(v)];
      LastLetter(s[i..j], "", DigitChar(v));
      OneLetter(s[i..j], DigitChar(v));
      LastOf(s, i, j);
      NoNumber(s, i, base);
      NumberStep(s, i, j, base, v);
    } else {
      Shrinks(v, base);
      LastLetter(s[i..j], Digits(v / base, base), DigitChar(v % base));
      LastOf(s, i, j);
      assert s[i..j - 1] == s[i..j][..j - 1 - i];
      NumberOfDigits(s, i, j - 1, v / base, base);
      NumberStep(s, i, j, base, v % base);
      Recombine(v, base);
    }
  }

  lemma OneLetter(a: string, c: char)
    requires SameLetters(a, [c])
    ensures |a| == 1
  {
  }

  lemma Shrinks(v: nat, base: nat)
    requires 2 <= base <= v
    ensures v / base < v && v % base < base
  {
  }

  lemma DigitsStep(v: nat, base: nat)
    requires 2 <= base <= 16
    ensures v < base ==> Digits(v, base) == [DigitChar(v)]
    ensures v >= base ==> v % base < base && Digits(v, base) == Digits(v / base, base) + [DigitChar(v % base)]
  {
  }

  lemma NoNumber(s: string, i: nat, base: nat)
    ensures Number(s, i, i, base) == 0
  {
  }

  lemma LastOf(s: string, i: nat, j: nat)
    requires i < j <= |s|
    ensures At(s, j - 1) == s[i..j][j - 1 - i]
  {
  }
}
