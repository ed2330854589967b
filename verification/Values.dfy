/** Numbers and symbols in operands (src/operand.c:226-290). */
module Values {
  import opened Basics
  import opened Text

  const VSIZE_Z: nat := 1
  const VSIZE_W: nat := 2
  const VSIZE_L: nat := 3

  /** `value_t`; a symbol is given by its name. */
  datatype Value = Value(uint: Long, size: nat, symbol: Option<string>)

  /** What `getval` returns, and what it leaves in its out-parameter. */
  datatype Parsed = Parsed(ok: bool, val: Value)

  const NO_VALUE := Value(0, VSIZE_Z, None)

  predicate StartsSymbol(c: char) { IsAlpha(c) || c == '.' || c == '_' }

  /** Where the scan over the digits stops, and the size that the suffix asks for. */
  function Scan(s: string, t: nat, end: nat, base: nat): Option<(nat, nat)>
    decreases end - t
  {
    if t >= end then Some((t, VSIZE_Z))
    else if DigitIn(At(s, t), base) then Scan(s, t + 1, end, base)
    else if t + 2 == end && At(s, t) == '.' then
      if Lower(At(s, end - 1)) == 'w' then Some((t, VSIZE_W))
      else if Lower(At(s, end - 1)) == 'l' then Some((t, VSIZE_L))
      else None
    else None
  }

  /** The value of converted digits under a size; `ok` says that nothing was left over. */
  function Sized(u: Long, size: nat, ok: bool): Result<Parsed> {
    var size' := if ok && size == VSIZE_Z then if u < 0x1_0000 then VSIZE_W else VSIZE_L else size;
    var u' := if size' == VSIZE_W && u >= 0x8000_0000 then u % 0x1_0000 else u;
    if size' == VSIZE_W && u' > 0xffff then Fail(ValueOutOfBounds) else Ok(Parsed(ok, Value(u', size', None)))
  }

  /** What the text from start up to end is read as. */
  function ValueAt(s: string, start: nat, end: nat, allowSymbol: bool): Result<Parsed>
    requires start <= end <= |s|
  {
    if allowSymbol && StartsSymbol(At(s, start)) then Ok(Parsed(true, Value(0, VSIZE_L, Some(s[start..end]))))
    else
      var hex := At(s, start) == '$';
      var signed := if hex then start + 1 else start;
      var minus := At(s, signed) == '-';
      var from := if minus then signed + 1 else signed;
      var base := if hex then 16 else 10;
      match Scan(s, from, end, base)
      case None => Ok(Parsed(false, NO_VALUE))
      case Some((t, size)) =>
        var (n, e) := StrToL(s, from, base);
        Sized(Wrap32(if minus then -n else n), size, t == e)
  }

  /** `getval`. */
  method GetVal(s: string, start: nat, end: nat, allowSymbol: bool) returns (r: Result<Parsed>)
    requires start <= end <= |s|
    ensures r == ValueAt(s, start, end, allowSymbol)
  {
    hide StrToL, Wrap32, DigitIn, StartsSymbol, Lower;
    var val := NO_VALUE;
    if allowSymbol && StartsSymbol(At(s, start)) {
      return Ok(Parsed(true, Value(0, VSIZE_L, Some(s[start..end]))));
    }
    var t, base, neg := start, 10, 1;
    if At(s, t) == '$' { base, t := 16, t + 1; }
    if At(s, t) == '-' { neg, t := -1, t + 1; }
    var from := t;
    while t < end
      invariant Scan(s, from, end, base) == Scan(s, t, end, base) && val == NO_VALUE
    {
      if !DigitIn(At(s, t), base) {
        if t + 2 == end && At(s, t) == '.' {
          if Lower(At(s, end - 1)) == 'w' { val := val.(size := VSIZE_W); }
          else if Lower(At(s, end - 1)) == 'l' { val := val.(size := VSIZE_L); }
          else { return Ok(Parsed(false, val)); }
          break;
        } else { return Ok(Parsed(false, val)); }
      }
      t := t + 1;
    }
    assert Scan(s, from, end, base) == Some((t, val.size));
    var (n, e) := StrToL(s, from, base);
    val := val.(uint := Wrap32(n * neg));
    if t == e && val.size == VSIZE_Z {
      val := val.(size := if val.uint < 65536 then VSIZE_W else VSIZE_L);
    }
    if val.size == VSIZE_W && val.uint >= 0x8000_0000 { val := val.(uint := val.uint % 0x1_0000); }
    if val.size == VSIZE_W && val.uint > 65535 { return Fail(ValueOutOfBounds); }
    r := Ok(Parsed(t == e, val));
  }

  // ---------------------------------------------------------------- printed numbers

  /** A number as it is written in a source line. */
  datatype Literal = Literal(hex: bool, minus: bool, digits: nat, size: nat)

  function PrintSuffix(size: nat): string {
    if size == VSIZE_W then ".w" else if size == VSIZE_L then ".l" else ""
  }

  function Radix(l: Literal): nat {
    if l.hex then 16 else 10
  }

  function Print(l: Literal): string {
    (if l.hex then "$" else "") + (if l.minus then "-" else "") + Digits(l.digits, Radix(l)) + PrintSuffix(l.size)
  }

  /** The number a literal stands for. */
  function Meant(l: Literal): int {
    if l.minus then -(l.digits as int) else l.digits
  }

  /** The digits stand between `from` and `to`, followed by the suffix. */
  ghost predicate Laid(s: string, start: nat, end: nat, l: Literal, from: nat, stop: nat) {
    && start <= from < stop <= end <= |s|
    && from == start + (if l.hex then 1 else 0) + (if l.minus then 1 else 0)
    && (l.hex ==> At(s, start) == '$') && (l.minus ==> At(s, from - 1) == '-')
    && SameLetters(s[from..stop], Digits(l.digits, Radix(l)))
    && (forall k | from <= k < stop :: DigitIn(s[k], Radix(l)))
    && !DigitIn(At(s, stop), Radix(l)) && !IsAlnum(At(s, stop))
    && (if l.size == VSIZE_W then stop + 2 == end && At(s, stop) == '.' && Lower(At(s, stop + 1)) == 'w'
        else if l.size == VSIZE_L then stop + 2 == end && At(s, stop) == '.' && Lower(At(s, stop + 1)) == 'l'
        else stop == end)
  }

  lemma PrintedIsLaid(s: string, start: nat, end: nat, l: Literal) returns (from: nat, stop: nat)
    requires start <= end <= |s| && SameLetters(s[start..end], Print(l)) && !IsAlnum(At(s, end))
    ensures Laid(s, start, end, l, from, stop)
  {
    hide Digits, PrintSuffix;
    var prefix := (if l.hex then "$" else "") + (if l.minus then "-" else "");
    var digits, suffix := Digits(l.digits, Radix(l)), PrintSuffix(l.size);
    PartsAlike(s, start, end, prefix, digits, suffix);
    from, stop := start + |prefix|, start + |prefix| + |digits|;
    if l.hex { Within(s, start, from, start); }
    if l.minus { Within(s, start, from, from - 1); }
    DigitsAreDigits(l.digits, Radix(l));
    forall k | from <= k < stop ensures DigitIn(s[k], Radix(l)) {
      Within(s, from, stop, k);
    }
    SuffixAt(s, stop, end, l.size);
  }

  lemma SuffixAt(s: string, stop: nat, end: nat, size: nat)
    requires stop <= end <= |s| && SameLetters(s[stop..end], PrintSuffix(size)) && !IsAlnum(At(s, end))
    ensures !IsAlnum(At(s, stop)) && DigitOf(At(s, stop)) == -1
    ensures if size == VSIZE_W then stop + 2 == end && At(s, stop) == '.' && Lower(At(s, stop + 1)) == 'w'
            else if size == VSIZE_L then stop + 2 == end && At(s, stop) == '.' && Lower(At(s, stop + 1)) == 'l'
            else stop == end
  {
    var suffix := s[stop..end];
    assert |suffix| == end - stop;
    if size == VSIZE_W || size == VSIZE_L {
      assert At(s, stop) == suffix[0] && At(s, stop + 1) == suffix[1];
    }
  }

  lemma {:induction false} ScanDigits(s: string, t: nat, stop: nat, end: nat, base: nat)
    requires t <= stop <= end && forall k | t <= k < stop :: DigitIn(At(s, k), base)
    ensures Scan(s, t, end, base) == Scan(s, stop, end, base)
    decreases stop - t
  {
    if t >= stop {
    } else {
      ScanDigits(s, t + 1, stop, end, base);
    }
  }

  /** The size mark of a suffix, or none. */
  function Mark(l: Literal): nat {
    if l.size == VSIZE_W || l.size == VSIZE_L then l.size else VSIZE_Z
  }

  /** Every printed number, in either case, is read in full, digits and conversion stopping at the same place: its value
      modulo 2^32 under the size of its suffix, or under the smallest size that holds it as an unsigned
      number. */
  lemma LiteralRead(s: string, start: nat, end: nat, l: Literal, allowSymbol: bool)
    requires start <= end <= |s| && SameLetters(s[start..end], Print(l)) && !IsAlnum(At(s, end)) && l.digits <= LONG_MAX
    ensures ValueAt(s, start, end, allowSymbol) == Sized(Wrap32(Meant(l)), Mark(l), true)
  {
    hide Laid, Digits, Print, StrToL, Sized, Wrap32, Number, Scan, SameLetters;
    var from, stop := PrintedIsLaid(s, start, end, l);
    ScanLaid(s, start, end, l, from, stop);
    NumberLaid(s, start, end, l, from, stop);
    StartOf(s, start, end, l, from, stop);
  }

  lemma ScanLaid(s: string, start: nat, end: nat, l: Literal, from: nat, stop: nat)
    requires Laid(s, start, end, l, from, stop)
    ensures Scan(s, from, end, Radix(l)) == Some((stop, Mark(l)))
  {
    ScanDigits(s, from, stop, end, Radix(l));
  }

  lemma NumberLaid(s: string, start: nat, end: nat, l: Literal, from: nat, stop: nat)
    requires Laid(s, start, end, l, from, stop) && l.digits <= LONG_MAX
    ensures StrToL(s, from, Radix(l)) == (l.digits, stop)
  {
    hide StrToL, Number, Digits, SameLetters;
    NumberOfDigits(s, from, stop, l.digits, Radix(l));
    StrToLDigits(s, from, stop, Radix(l));
  }

  /** A number that is cut off among its digits is not read. */
  lemma CutNumber(s: string, start: nat, end: nat, allowSymbol: bool)
    requires start < end < |s| && forall k | start <= k <= end :: DigitIn(s[k], 10)
    ensures ValueAt(s, start, end, allowSymbol).Fail? || !ValueAt(s, start, end, allowSymbol).value.ok
  {
    hide StrToL, Wrap32;
    assert DigitIn(s[start], 10);
    ScanDigits(s, start, end, end, 10);
    StrToLFurther(s, start, end, 10);
  }

  lemma StartOf(s: string, start: nat, end: nat, l: Literal, from: nat, stop: nat)
    requires Laid(s, start, end, l, from, stop)
    ensures !StartsSymbol(At(s, start)) && (At(s, start) == '$' <==> l.hex)
    ensures from == start + (if l.hex then 1 else 0) + (if l.minus then 1 else 0)
    ensures var signed := if l.hex then start + 1 else start; (At(s, signed) == '-' <==> l.minus)
  {
    assert DigitIn(s[from], Radix(l));
  }

  /** Without a suffix every 32-bit value is read back, negative ones modulo 2^32. */
  lemma NumberRoundTrip(s: string, start: nat, end: nat, l: Literal, allowSymbol: bool)
    requires start <= end <= |s| && SameLetters(s[start..end], Print(l)) && !IsAlnum(At(s, end)) && l.digits <= LONG_MAX
    requires l.size == VSIZE_Z || l.size == VSIZE_L
    ensures var u := Wrap32(Meant(l));
      ValueAt(s, start, end, allowSymbol)
      == Ok(Parsed(true, Value(u, if l.size == VSIZE_L || u >= 0x1_0000 then VSIZE_L else VSIZE_W, None)))
  {
    hide Print, Wrap32, ValueAt;
    LiteralRead(s, start, end, l, allowSymbol);
  }

  /** With `.w` the low word is kept. It is rejected exactly from 65536 up to 2^31; of the numbers that are
      accepted, those that the word still stands for once the processor extends its sign are the signed
      16-bit numbers. */
  lemma WordSuffixExact(s: string, start: nat, end: nat, l: Literal, allowSymbol: bool)
    requires start <= end <= |s| && SameLetters(s[start..end], Print(l)) && !IsAlnum(At(s, end)) && l.digits <= LONG_MAX
    requires l.size == VSIZE_W
    ensures var r, u := ValueAt(s, start, end, allowSymbol), Wrap32(Meant(l));
      && (r.Ok? <==> u < 0x1_0000 || u >= 0x8000_0000)
      && (r.Ok? ==> r.value == Parsed(true, Value(u % 0x1_0000, VSIZE_W, None)))
      && (r.Fail? ==> r.error == ValueOutOfBounds)
      && (r.Ok? && SignExtend16(r.value.val.uint) == Meant(l) <==> -0x8000 <= Meant(l) < 0x8000)
  {
    hide Print, ValueAt;
    LiteralRead(s, start, end, l, allowSymbol);
  }

  /** `-70000.w` passes for a word, though `70000.w` does not. */
  lemma NegativeWordTruncated()
    ensures Sized(Wrap32(-70000), VSIZE_W, true) == Ok(Parsed(true, Value(61072, VSIZE_W, None)))
    ensures Sized(Wrap32(70000), VSIZE_W, true) == Fail(ValueOutOfBounds)
  {
  }

  // ---------------------------------------------------------------- the same token in two places

  lemma {:induction false} ScanSame(a: string, i: nat, b: string, j: nat, n: nat, m: nat, base: nat)
    requires Alike(a, i, b, j, n) && m <= n
    ensures match Scan(a, i + m, i + n, base)
            case None => Scan(b, j + m, j + n, base) == None
            case Some((t, size)) => i <= t && Scan(b, j + m, j + n, base) == Some((t - i + j, size))
    decreases n - m
  {
    if m >= n {
    } else {
      assert SameAt(a, i, b, j, m) && SameAt(a, i, b, j, n - 1);
      if DigitIn(At(a, i + m), base) { ScanSame(a, i, b, j, n, m + 1, base); }
    }
  }

  /** A token is the same number wherever it stands and in either case, and the same symbol wherever it stands. */
  lemma ValueSame(a: string, i: nat, b: string, j: nat, n: nat, allowSymbol: bool)
    requires Alike(a, i, b, j, n) && i + n <= |a| && j + n <= |b|
    requires allowSymbol && StartsSymbol(At(a, i)) ==> a[i..i + n] == b[j..j + n]
    ensures ValueAt(a, i, i + n, allowSymbol) == ValueAt(b, j, j + n, allowSymbol)
  {
    hide StrToL, Scan, Sized, Wrap32;
    assert n > 0 ==> SameAt(a, i, b, j, 0);
    var p := if At(a, i) == '$' then 1 else 0;
    assert p < n ==> SameAt(a, i, b, j, p);
    var q := if At(a, i + p) == '-' then p + 1 else p;
    var base := if p == 1 then 16 else 10;
    ScanSame(a, i, b, j, n, q, base);
    AlikeFrom(a, i, b, j, n, q);
    StrToLSame(a, i + q, b, j + q, n - q, base);
  }
}
