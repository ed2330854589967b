/** Register names with size and scale (src/operand.c:83-219). */
module Registers {
  import opened Basics
  import opened Text

  const REG_ERR: int := -1
  const REG_D0: int := 0
  const REG_A0: int := 8
  const REG_A7: int := 15
  const REG_SR: int := 24
  const REG_CCR: int := 25
  const REG_PC: int := 26
  const REG_ZPC: int := 27

  const RSIZE_DEFAULT: int := -1
  const RSIZE_W: int := 0
  const RSIZE_L: int := 1

  /** `asmreg_t`. The scale is the exponent of 2. */
  datatype Reg = Reg(idx: int, scale: nat, size: int) {
    predicate IsData() { REG_D0 <= idx < REG_A0 }
    predicate IsAddr() { REG_A0 <= idx <= REG_A7 }
    predicate IsPc() { idx == REG_PC || idx == REG_ZPC }
    predicate IsPlain() { scale == 0 && (size == RSIZE_L || size == RSIZE_DEFAULT) }
    function Remap(size: int): Reg { if this.size == RSIZE_DEFAULT then this.(size := size) else this }
  }

  const NO_REG := Reg(REG_ERR, 0, RSIZE_DEFAULT)

  /** A value stored in an `int16_t`. */
  function Int16(x: int): int {
    (x + 0x8000) % 0x1_0000 - 0x8000
  }

  datatype Place = InReg | InSize | InScale | AtEnd

  /** `strncasecmp(word, start, n) == 0` for n characters other than NUL. */
  predicate Begins(word: string, s: string, start: nat, n: nat) {
    n <= |word| && forall i | 0 <= i < n :: Lower(At(s, start + i)) == word[i]
  }

  function Suffix(c: char): Place {
    if c == '.' then InSize else if c == '*' then InScale else AtEnd
  }

  /** The name of a register, of n characters: its index, and whether a size or scale may follow. */
  function Named(s: string, start: nat, n: nat): Option<(int, bool)> {
    if Lower(At(s, start)) == 'd' then Some((Int16(StrToL(s, start + 1, 10).0 + REG_D0), true))
    else if Lower(At(s, start)) == 'a' then Some((Int16(StrToL(s, start + 1, 10).0 + REG_A0), true))
    else if Begins("pc", s, start, n) then Some((REG_PC, false))
    else if Begins("zpc", s, start, n) then Some((REG_ZPC, false))
    else if Begins("sp", s, start, n) then Some((REG_A7, true))
    else if Begins("ccr", s, start, n) then Some((REG_CCR, false))
    else if Begins("sr", s, start, n) then Some((REG_SR, false))
    else None
  }

  /** One turn of the loop, or None where the program returns 0. */
  function Turn(s: string, start: nat, end: nat, t: nat, place: Place, r: Reg): Option<(Place, Reg)>
    requires start <= t <= end
  {
    var c := At(s, t);
    match place
    case InReg =>
      if t == end || !IsAlnum(c) then
        if t == start then None
        else
          match Named(s, start, t - start)
          case None => Some((InReg, r))
          case Some((idx, more)) => Some((if more then Suffix(c) else AtEnd, r.(idx := idx)))
      else Some((InReg, r))
    case InSize =>
      if IsAlpha(c) then
        if Lower(c) == 'w' then Some((InSize, r.(size := RSIZE_W)))
        else if Lower(c) == 'l' then Some((InSize, r.(size := RSIZE_L)))
        else None
      else Some((if c == '*' then InScale else AtEnd, r))
    case InScale =>
      if IsDigit(c) then Some((AtEnd, r.(scale := ScaleOf(c, r.scale)))) else None
    case AtEnd => if t != end then None else Some((AtEnd, r))
  }

  function ScaleOf(c: char, otherwise: nat): nat {
    if c == '1' then 0 else if c == '2' then 1 else if c == '4' then 2 else if c == '8' then 3 else otherwise
  }

  function From(s: string, start: nat, end: nat, t: nat, place: Place, r: Reg): Option<Reg>
    requires start <= t
    decreases end + 1 - t
  {
    if t > end then if r.idx != REG_ERR then Some(r) else None
    else
      match Turn(s, start, end, t, place, r)
      case None => None
      case Some((place', r')) => From(s, start, end, t + 1, place', r')
  }

  /** The register that the text from start up to end is read as. */
  function RegisterAt(s: string, start: nat, end: nat): Option<Reg> {
    if end <= start then None else From(s, start, end, start, InReg, NO_REG)
  }

  /** `getreg`. */
  method GetReg(s: string, start: nat, end: nat) returns (ok: bool, reg: Reg)
    ensures match RegisterAt(s, start, end) { case Some(r) => ok && reg == r case None => !ok }
  {
    hide Named;
    reg := NO_REG;
    if end <= start { return false, reg; }
    var t := start;
    var place := InReg;
    while t <= end
      invariant start <= t <= end + 1
      invariant From(s, start, end, t, place, reg) == RegisterAt(s, start, end)
      decreases end + 1 - t
    {
      var c := At(s, t);
      match place {
        case InReg =>
          if t == end || !IsAlnum(c) {
            if t == start { return false, reg; }
            var named := Named(s, start, t - start);
            if named.Some? {
              reg := reg.(idx := named.value.0);
              place := if named.value.1 then Suffix(c) else AtEnd;
            }
          }
        case InSize =>
          if IsAlpha(c) {
            if Lower(c) == 'w' { reg := reg.(size := RSIZE_W); }
            else if Lower(c) == 'l' { reg := reg.(size := RSIZE_L); }
            else { return false, reg; }
          } else {
            place := if c == '*' then InScale else AtEnd;
          }
        case InScale =>
          if !IsDigit(c) { return false, reg; }
          reg := reg.(scale := ScaleOf(c, reg.scale));
          place := AtEnd;
        case AtEnd =>
          if t != end { return false, reg; }
      }
      t := t + 1;
    }
    ok := reg.idx != REG_ERR;
  }

  // ---------------------------------------------------------------- written registers

  /** The registers that can be written: data and address registers with any size and scale, and the others
      without. */
  predicate Writable(r: Reg) {
    && r.scale < 4 && (r.size == RSIZE_DEFAULT || r.size == RSIZE_W || r.size == RSIZE_L)
    && (0 <= r.idx <= REG_A7 || (REG_SR <= r.idx <= REG_ZPC && r.scale == 0 && r.size == RSIZE_DEFAULT))
  }

  /** Those that an address can have. */
  predicate Printable(r: Reg) {
    Writable(r) && r.idx != REG_SR && r.idx != REG_CCR
  }

  /** The names of the registers; the stack pointer is a7. */
  predicate Names(name: string, idx: int) {
    || (0 <= idx < 8 && name == ['d', DigitChar(idx)])
    || (8 <= idx < 16 && name == ['a', DigitChar(idx - 8)])
    || (idx == 15 && name == "sp")
    || (idx == REG_PC && name == "pc")
    || (idx == REG_ZPC && name == "zpc")
    || (idx == REG_SR && name == "sr")
    || (idx == REG_CCR && name == "ccr")
  }

  function PrintSize(size: int): string {
    if size == RSIZE_W then ".w" else if size == RSIZE_L then ".l" else ""
  }

  /** How a scale is written. Digits that are no scale count as 1. */
  predicate Scales(t: string, scale: nat) {
    || (t == "" && scale == 0)
    || (|t| == 2 && t[0] == '*' && '0' <= t[1] <= '9'
        && scale == match t[1] case '2' => 1 case '4' => 2 case '8' => 3 case _ => 0)
  }

  /** A register as it is written, in either case: name, size and scale. */
  ghost predicate Spelled(tok: string, r: Reg, name: string, times: string) {
    Names(name, r.idx) && Scales(times, r.scale) && SameLetters(tok, name + PrintSize(r.size) + times)
    && (r.idx > REG_A7 ==> times == "")
  }

  ghost predicate Spells(tok: string, r: Reg) {
    Writable(r) && exists name, times :: Spelled(tok, r, name, times)
  }

  lemma {:induction false} SkipName(s: string, start: nat, end: nat, t: nat, n: nat, r: Reg)
    requires start <= t <= n <= end && forall k | t <= k < n :: IsAlnum(At(s, k))
    ensures From(s, start, end, t, InReg, r) == From(s, start, end, n, InReg, r)
    decreases n - t
  {
    if t >= n {
    } else {
      SkipName(s, start, end, t + 1, n, r);
    }
  }

  /** The name ends at n: the index is known, and the suffix comes next. */
  lemma NameRead(s: string, start: nat, end: nat, n: nat)
    requires start < n <= end && (forall k | start <= k < n :: IsAlnum(At(s, k))) && (n == end || !IsAlnum(At(s, n)))
    requires Named(s, start, n - start).Some?
    ensures var (idx, more) := Named(s, start, n - start).value;
      RegisterAt(s, start, end)
      == From(s, start, end, n + 1, if more then Suffix(At(s, n)) else AtEnd, NO_REG.(idx := idx))
  {
    hide Named;
    SkipName(s, start, end, start, n, NO_REG);
  }

  /** A name in the text: its characters, and what it names. */
  lemma NamedWritten(s: string, start: nat, name: string, idx: int)
    requires Names(name, idx) && start + |name| <= |s| && SameLetters(s[start..start + |name|], name)
    requires !IsDigit(At(s, start + |name|))
    ensures Named(s, start, |name|) == Some((idx, idx <= REG_A7))
    ensures name != "" && forall k | start <= k < start + |name| :: IsAlnum(At(s, k))
  {
    hide Named;
    forall k | start <= k < start + |name| ensures IsAlnum(At(s, k)) && Lower(At(s, k)) == Lower(name[k - start]) {
      Within(s, start, start + |name|, k);
      NameLetter(name, idx, k - start);
    }
    if idx <= REG_A7 && name != "sp" {
      NamedNumber(s, start, name, idx);
    } else {
      forall i | 0 <= i < |name| ensures Lower(At(s, start + i)) == Lower(name[i]) {
        Within(s, start, start + |name|, start + i);
      }
      NamedOther(s, start, name, idx);
    }
  }

  lemma NameLetter(name: string, idx: int, i: nat)
    requires Names(name, idx) && i < |name|
    ensures IsAlnum(name[i])
  {
  }

  lemma NamedNumber(s: string, start: nat, name: string, idx: int)
    requires Names(name, idx) && idx <= REG_A7 && name != "sp"
    requires start + 2 <= |s| && SameLetters(s[start..start + 2], name) && !IsDigit(At(s, start + 2))
    ensures Named(s, start, 2) == Some((idx, true))
  {
    hide SkipSpace, DigitsEnd, Number, StrToL;
    var d := if idx < REG_A0 then idx else idx - REG_A0;
    assert Digits(d, 10) == [DigitChar(d)];
    assert s[start..start + 2][0] == At(s, start) && s[start..start + 2][1] == At(s, start + 1);
    assert s[start + 1..start + 2] == [At(s, start + 1)];
    NumberOfDigits(s, start + 1, start + 2, d, 10);
    StrToLDigits(s, start + 1, start + 2, 10);
  }

  lemma NamedOther(s: string, start: nat, name: string, idx: int)
    requires Names(name, idx) && (name == "sp" || idx > REG_A7)
    requires forall i | 0 <= i < |name| :: Lower(At(s, start + i)) == Lower(name[i])
    ensures Named(s, start, |name|) == Some((idx, idx <= REG_A7))
  {
    assert Lower(At(s, start + 0)) == name[0] && Lower(At(s, start + 1)) == name[1];
    FirstOf("pc", s, start, |name|);
    FirstOf("zpc", s, start, |name|);
    FirstOf("sp", s, start, |name|);
    FirstOf("ccr", s, start, |name|);
    assert name == "sr" ==> !Begins("sp", s, start, 2) by {
      assert Begins("sp", s, start, 2) ==> Lower(At(s, start + 1)) == "sp"[1];
    }
    if |name| == 3 { assert Lower(At(s, start + 2)) == name[2]; }
  }

  lemma Next(s: string, start: nat, end: nat, t: nat, place: Place, r: Reg, place': Place, r': Reg)
    requires start <= t <= end && Turn(s, start, end, t, place, r) == Some((place', r'))
    ensures From(s, start, end, t, place, r) == From(s, start, end, t + 1, place', r')
  {
  }

  lemma Ended(s: string, start: nat, end: nat, place: Place, r: Reg)
    requires start <= end && r.idx != REG_ERR
    ensures From(s, start, end, end + 1, place, r) == Some(r)
  {
  }

  lemma Scaled(s: string, start: nat, end: nat, n: nat, r: Reg)
    requires start < n <= end && n + 2 == end && Scales(['*', At(s, n + 1)], r.scale)
    requires r.idx != REG_ERR
    ensures From(s, start, end, n + 1, InScale, r.(scale := 0)) == Some(r)
  {
    Next(s, start, end, n + 1, InScale, r.(scale := 0), AtEnd, r);
    Next(s, start, end, n + 2, AtEnd, r, AtEnd, r);
    Ended(s, start, end, AtEnd, r);
  }

  /** Size and scale behind a name. */
  lemma Suffixed(s: string, start: nat, end: nat, n: nat, r: Reg, times: string)
    requires start < n <= end <= |s| && SameLetters(s[n..end], PrintSize(r.size) + times) && !IsAlnum(At(s, end))
    requires Writable(r) && r.idx <= REG_A7 && Scales(times, r.scale)
    ensures From(s, start, end, n + 1, Suffix(At(s, n)), Reg(r.idx, 0, RSIZE_DEFAULT)) == Some(r)
  {
    hide From;
    var suffix := PrintSize(r.size) + times;
    forall k | n <= k < end ensures SameLetter(At(s, k), suffix[k - n]) {
      assert s[n..end][k - n] == At(s, k);
    }
    assert |suffix| == end - n;
    var sized := r.(scale := 0);
    if r.size != RSIZE_DEFAULT {
      assert SameLetter(At(s, n), '.') && SameLetter(At(s, n + 1), PrintSize(r.size)[1]);
      Next(s, start, end, n + 1, InSize, Reg(r.idx, 0, RSIZE_DEFAULT), InSize, sized);
      assert times != "" ==> SameLetter(At(s, n + 2), '*') && SameLetter(At(s, n + 3), times[1]);
      var place := if At(s, n + 2) == '*' then InScale else AtEnd;
      Next(s, start, end, n + 2, InSize, sized, place, sized);
      if times != "" {
        assert times == ['*', At(s, n + 3)];
        Scaled(s, start, end, n + 2, r);
      } else {
        Ended(s, start, end, place, r);
      }
    } else if times != "" {
      assert SameLetter(At(s, n), '*') && SameLetter(At(s, n + 1), times[1]);
      assert times == ['*', At(s, n + 1)];
      Scaled(s, start, end, n, r);
    } else {
      Ended(s, start, end, Suffix(At(s, n)), r);
    }
  }

  lemma SuffixStart(r: Reg, times: string)
    requires Writable(r) && Scales(times, r.scale) && (r.idx > REG_A7 ==> times == "")
    ensures var suffix := PrintSize(r.size) + times;
      && (if suffix == "" then true else suffix[0] == '.' || suffix[0] == '*')
      && (r.idx > REG_A7 ==> suffix == "")
  {
  }

  lemma NameAndSuffix(s: string, start: nat, end: nat, r: Reg, name: string, times: string)
    requires start <= end <= |s| && Writable(r) && Spelled(s[start..end], r, name, times) && !IsAlnum(At(s, end))
    ensures var n := start + |name|;
      && n <= end && SameLetters(s[start..n], name) && SameLetters(s[n..end], PrintSize(r.size) + times)
      && !IsAlnum(At(s, n)) && (r.idx > REG_A7 ==> n == end)
  {
    hide PrintSize, Scales, Names;
    SuffixStart(r, times);
    var n, suffix := start + |name|, PrintSize(r.size) + times;
    assert name + PrintSize(r.size) + times == name + suffix + "";
    PartsAlike(s, start, end, name, suffix, "");
    if n < end { assert s[n..end][0] == At(s, n); }
  }

  /** Every register is read back in every spelling: its names in either case, with size and scale, whatever stands
      around it, unless a letter or digit follows. So `sp` is a7. */
  lemma RegisterRoundTrip(s: string, start: nat, end: nat, r: Reg)
    requires start <= end <= |s| && Spells(s[start..end], r) && !IsAlnum(At(s, end))
    ensures RegisterAt(s, start, end) == Some(r)
  {
    hide Named, From, RegisterAt, Names, PrintSize, Scales, Turn;
    var name, times :| Spelled(s[start..end], r, name, times);
    var n := start + |name|;
    NameAndSuffix(s, start, end, r, name, times);
    NamedWritten(s, start, name, r.idx);
    NameRead(s, start, end, n);
    if r.idx <= REG_A7 {
      Suffixed(s, start, end, n, r, times);
    } else {
      NothingMore(s, start, end, n, r);
    }
  }

  lemma NothingMore(s: string, start: nat, end: nat, n: nat, r: Reg)
    requires start < n == end && r.idx != REG_ERR
    ensures From(s, start, end, n + 1, AtEnd, r) == Some(r)
  {
  }

  /** What may follow the name of a data or address register: a full stop and any number of size letters; a scale of
      one digit; or, instead of the scale, one more character that is not read. */
  predicate SuffixOk(w: string) {
    w == "" || (if w[0] == '.' then SizeOk(w[1..]) else EndOk(w))
  }

  predicate SizeOk(w: string) {
    if w != "" && w[0] in {'w', 'W', 'l', 'L'} then SizeOk(w[1..]) else EndOk(w) && (w != "" ==> !IsAlpha(w[0]))
  }

  predicate EndOk(w: string) {
    w == "" || (|w| == 1 && w[0] != '*') || (|w| == 2 && w[0] == '*' && '0' <= w[1] <= '9')
  }

  lemma EndRead(s: string, start: nat, end: nat, n: nat, r: Reg)
    requires start <= n < end <= |s| && r.idx != REG_ERR && !IsAlnum(At(s, end))
    ensures From(s, start, end, n + 1, if At(s, n) == '*' then InScale else AtEnd, r).Some? <==> EndOk(s[n..end])
  {
    var w := s[n..end];
    assert w[0] == At(s, n) && (n + 1 < end ==> w[1] == At(s, n + 1));
    if n + 1 == end {
    } else if At(s, n) == '*' && IsDigit(At(s, n + 1)) {
      var r' := r.(scale := ScaleOf(At(s, n + 1), r.scale));
      assert From(s, start, end, n + 1, InScale, r) == From(s, start, end, n + 2, AtEnd, r');
      assert n + 2 == end ==> From(s, start, end, n + 2, AtEnd, r') == From(s, start, end, n + 3, AtEnd, r');
    }
  }

  lemma {:induction false} SizeRead(s: string, start: nat, end: nat, n: nat, r: Reg)
    requires start <= n <= end <= |s| && r.idx != REG_ERR && !IsAlnum(At(s, end))
    ensures From(s, start, end, n, InSize, r).Some? <==> SizeOk(s[n..end])
    decreases end - n
  {
    hide EndOk;
    var w := s[n..end];
    if n == end {
      NothingLeft(w);
    } else {
      assert w[0] == At(s, n) && w[1..] == s[n + 1..end];
      if Lower(w[0]) == 'w' { SizeRead(s, start, end, n + 1, r.(size := RSIZE_W)); }
      else if Lower(w[0]) == 'l' { SizeRead(s, start, end, n + 1, r.(size := RSIZE_L)); }
      else { EndRead(s, start, end, n, r); }
    }
  }

  lemma NothingLeft(w: string)
    requires w == ""
    ensures SizeOk(w)
  {
  }

  /** Behind a name that is known, exactly these suffixes are accepted: size and scale where the register may have
      them, and behind the others at most one character, which is not read. */
  lemma SuffixExact(s: string, start: nat, end: nat, n: nat)
    requires start < n <= end <= |s| && (forall k | start <= k < n :: IsAlnum(At(s, k))) && !IsAlnum(At(s, n))
    requires Named(s, start, n - start).Some? && Named(s, start, n - start).value.0 != REG_ERR
    requires !IsAlnum(At(s, end))
    ensures RegisterAt(s, start, end).Some? <==>
      if Named(s, start, n - start).value.1 then SuffixOk(s[n..end]) else |s[n..end]| <= 1
  {
    hide Named, SizeOk, EndOk;
    NameRead(s, start, end, n);
    var (idx, more) := Named(s, start, n - start).value;
    var r := NO_REG.(idx := idx);
    if n < end {
      assert s[n..end][0] == At(s, n) && s[n..end][1..] == s[n + 1..end];
      if more && At(s, n) == '.' { SizeRead(s, start, end, n + 1, r); }
      else if more { EndRead(s, start, end, n, r); }
    }
  }

  /** A number behind d or a is taken modulo 65536, and only -1 is no register. So d8 is a0. */
  lemma NumberedRegister(s: string, start: nat, end: nat, data: bool, v: nat)
    requires start < end <= |s| && v <= LONG_MAX && !IsAlnum(At(s, end))
    requires Lower(s[start]) == (if data then 'd' else 'a') && s[start + 1..end] == Digits(v, 10)
    ensures var n := (v + if data then 0 else 8) % 0x1_0000;
      RegisterAt(s, start, end) == if n == 0xffff then None
                                   else Some(Reg(if n < 0x8000 then n else n - 0x1_0000, 0, RSIZE_DEFAULT))
  {
    hide Digits, StrToL, From, Named, Int16, IsAlnum, RegisterAt;
    NumberedName(s, start, end, data, v);
    Int16Is(v + if data then 0 else 8);
    NameRead(s, start, end, end);
    LastTurn(s, start, end, Suffix(At(s, end)), NO_REG.(idx := Named(s, start, end - start).value.0));
  }

  lemma NumberedName(s: string, start: nat, end: nat, data: bool, v: nat)
    requires start < end <= |s| && v <= LONG_MAX && !IsAlnum(At(s, end))
    requires Lower(s[start]) == (if data then 'd' else 'a') && s[start + 1..end] == Digits(v, 10)
    ensures Named(s, start, end - start) == Some((Int16(v + if data then 0 else 8), true))
    ensures forall k | start <= k < end :: IsAlnum(At(s, k))
  {
    hide Digits, StrToL, Number, Int16, SameLetters;
    DigitsAreDigits(v, 10);
    forall k | start + 1 <= k < end ensures DigitIn(s[k], 10) { Within(s, start + 1, end, k); }
    SameItself(Digits(v, 10));
    NumberOfDigits(s, start + 1, end, v, 10);
    StrToLDigits(s, start + 1, end, 10);
  }

  lemma Int16Is(x: nat)
    ensures var n := x % 0x1_0000; Int16(x) == if n < 0x8000 then n else n - 0x1_0000
  {
  }

  lemma SameItself(t: string)
    ensures SameLetters(t, t)
  {
  }

  lemma LastTurn(s: string, start: nat, end: nat, place: Place, r: Reg)
    requires start <= end
    ensures From(s, start, end, end + 1, place, r) == if r.idx != REG_ERR then Some(r) else None
  {
  }

  /** Some spellings. */
  lemma SomeRegisters()
    ensures Spells("sp", Reg(15, 0, RSIZE_DEFAULT)) && Spells("SP", Reg(15, 0, RSIZE_DEFAULT))
    ensures Spells("a0", Reg(8, 0, RSIZE_DEFAULT)) && Spells("d0", Reg(0, 0, RSIZE_DEFAULT))
    ensures Spells("sr", Reg(REG_SR, 0, RSIZE_DEFAULT)) && Spells("ccr", Reg(REG_CCR, 0, RSIZE_DEFAULT))
  {
    assert Spelled("sp", Reg(15, 0, RSIZE_DEFAULT), "sp", "");
    assert Spelled("SP", Reg(15, 0, RSIZE_DEFAULT), "sp", "");
    assert Spelled("a0", Reg(8, 0, RSIZE_DEFAULT), "a0", "");
    assert Spelled("d0", Reg(0, 0, RSIZE_DEFAULT), "d0", "");
    assert Spelled("sr", Reg(REG_SR, 0, RSIZE_DEFAULT), "sr", "");
    assert Spelled("ccr", Reg(REG_CCR, 0, RSIZE_DEFAULT), "ccr", "");
  }

  predicate OtherName(s: string, start: nat, n: nat) {
    || Begins("pc", s, start, n) || Begins("zpc", s, start, n) || Begins("sp", s, start, n)
    || Begins("ccr", s, start, n) || Begins("sr", s, start, n)
  }

  lemma FirstOf(word: string, s: string, start: nat, n: nat)
    requires n > 0
    ensures Begins(word, s, start, n) ==> |word| > 0 && Lower(At(s, start)) == word[0]
  {
    assert Begins(word, s, start, n) ==> Lower(At(s, start + 0)) == word[0];
  }

  /** Which words are taken for registers: those that start with `a` or `d`, whatever follows, unless the
      number comes out as the error mark; and the beginnings of the other names. */
  lemma WordIsRegister(s: string, start: nat, end: nat)
    requires start < end && (forall k | start <= k < end :: IsAlnum(At(s, k)))
    requires At(s, end) != '.' && At(s, end) != '*'
    ensures RegisterAt(s, start, end).Some? <==>
      || (Lower(At(s, start)) == 'd' && Int16(StrToL(s, start + 1, 10).0) != REG_ERR)
      || (Lower(At(s, start)) == 'a' && Int16(StrToL(s, start + 1, 10).0 + 8) != REG_ERR)
      || OtherName(s, start, end - start)
  {
    SkipName(s, start, end, start, end, NO_REG);
    var named := Named(s, start, end - start);
    var r := if named.None? then NO_REG else NO_REG.(idx := named.value.0);
    assert From(s, start, end, end + 1, AtEnd, r) == if r.idx != REG_ERR then Some(r) else None;
    assert From(s, start, end, end + 1, InReg, r) == if r.idx != REG_ERR then Some(r) else None;
    assert RegisterAt(s, start, end) == if r.idx != REG_ERR then Some(r) else None;
    FirstOf("pc", s, start, end - start);
    FirstOf("zpc", s, start, end - start);
    FirstOf("sp", s, start, end - start);
    FirstOf("ccr", s, start, end - start);
    FirstOf("sr", s, start, end - start);
  }

  /** A symbol called `data` cannot be written as an operand: it is read as d0. */
  lemma DataIsD0()
    ensures RegisterAt("data", 0, 4) == Some(Reg(REG_D0, 0, RSIZE_DEFAULT))
  {
    var s := "data";
    StrToLNothing(s, 1, 10);
    SkipName(s, 0, 4, 0, 4, NO_REG);
    assert From(s, 0, 4, 5, AtEnd, Reg(REG_D0, 0, RSIZE_DEFAULT)) == Some(Reg(REG_D0, 0, RSIZE_DEFAULT));
  }

  // ---------------------------------------------------------------- the same token in two places

  lemma BeginsSame(word: string, a: string, i: nat, b: string, j: nat, n: nat, m: nat)
    requires Alike(a, i, b, j, n) && m <= n
    ensures Begins(word, a, i, m) == Begins(word, b, j, m)
  {
    if m <= |word| {
      if Begins(word, a, i, m) {
        forall k | 0 <= k < m ensures Lower(At(b, j + k)) == word[k] { assert SameAt(a, i, b, j, k); }
      }
      if Begins(word, b, j, m) {
        forall k | 0 <= k < m ensures Lower(At(a, i + k)) == word[k] { assert SameAt(a, i, b, j, k); }
      }
    }
  }

  lemma NamedSame(a: string, i: nat, b: string, j: nat, n: nat, m: nat)
    requires Alike(a, i, b, j, n) && 0 < m <= n
    ensures Named(a, i, m) == Named(b, j, m)
  {
    hide StrToL, Begins;
    assert SameAt(a, i, b, j, 0);
    BeginsSame("pc", a, i, b, j, n, m);
    BeginsSame("zpc", a, i, b, j, n, m);
    BeginsSame("sp", a, i, b, j, n, m);
    BeginsSame("ccr", a, i, b, j, n, m);
    BeginsSame("sr", a, i, b, j, n, m);
    AlikeFrom(a, i, b, j, n, 1);
    StrToLSame(a, i + 1, b, j + 1, n - 1, 10);
  }

  lemma TurnSame(a: string, i: nat, b: string, j: nat, n: nat, m: nat, place: Place, r: Reg)
    requires Alike(a, i, b, j, n) && m <= n
    ensures Turn(a, i, i + n, i + m, place, r) == Turn(b, j, j + n, j + m, place, r)
  {
    hide Named;
    if m > 0 { NamedSame(a, i, b, j, n, m); }
    assert m < n ==> SameAt(a, i, b, j, m);
  }

  lemma {:induction false} FromSame(a: string, i: nat, b: string, j: nat, n: nat, m: nat, place: Place, r: Reg)
    requires Alike(a, i, b, j, n) && m <= n + 1
    ensures From(a, i, i + n, i + m, place, r) == From(b, j, j + n, j + m, place, r)
    decreases n + 1 - m
  {
    hide Turn, Alike;
    if m > n {
    } else {
      TurnSame(a, i, b, j, n, m, place, r);
      var next := Turn(a, i, i + n, i + m, place, r);
      if next.Some? { FromSame(a, i, b, j, n, m + 1, next.value.0, next.value.1); }
    }
  }

  /** A token is the same register wherever it stands. */
  lemma RegisterSame(a: string, i: nat, b: string, j: nat, n: nat)
    requires Alike(a, i, b, j, n)
    ensures RegisterAt(a, i, i + n) == RegisterAt(b, j, j + n)
  {
    FromSame(a, i, b, j, n, 0, InReg, NO_REG);
  }

  lemma {:induction false} NoNameFrom(s: string, start: nat, end: nat, t: nat)
    requires start <= t <= end + 1 && !IsAlpha(At(s, start))
    ensures From(s, start, end, t, InReg, NO_REG) == None
    decreases end + 1 - t
  {
    if t > end {
    } else {
      if t > start {
        FirstOf("pc", s, start, t - start);
        FirstOf("zpc", s, start, t - start);
        FirstOf("sp", s, start, t - start);
        FirstOf("ccr", s, start, t - start);
        FirstOf("sr", s, start, t - start);
      }
      NoNameFrom(s, start, end, t + 1);
    }
  }

  /** A register starts with a letter. */
  lemma NoLetterNoRegister(s: string, start: nat, end: nat)
    requires !IsAlpha(At(s, start))
    ensures RegisterAt(s, start, end) == None
  {
    if start < end { NoNameFrom(s, start, end, start); }
  }
}
