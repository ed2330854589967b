/** The operands of one piece: registers, registers in parentheses, immediate and absolute numbers
    (src/mangle.c:487-566), as they are written and as the processor reads them. */
module OperandForms {
  import opened Basics
  import opened Entries
  import opened Text
  import opened Registers
  import opened Values
  import opened Addressing
  import opened Operands
  import opened Selection
  import opened OperandSyntax

  /** Parentheses that open at the start, or after a minus, cut nothing off. */
  lemma WholePiece(s: string, start: nat, end: nat, left: string, tok: string, right: string)
    requires start <= end <= |s| && s[start..end] == left + tok + right && Clean(tok)
    requires || (left, right) in {("", ""), ("#", ""), ("(", ")"), ("-(", ")")}
             || (left == "(" && |right| == 2 && right[0] == ')' && !Special(right[1]))
    ensures Pieces(s, start, end) == Ok([Piece(start, end, 0)])
    ensures var m, n := start + |left|, start + |left| + |tok|;
      m < n <= end && s[start..m] == left && s[m..n] == tok && s[n..end] == right
  {
    hide CutFrom, Special, Clean;
    var k := Cut([], start, 0);
    var m, n := start + |left|, start + |left| + |tok|;
    Parts(s, start, end, left, tok, right);
    CleanNonEmpty(tok);
    TokenAt(s, m, tok);
    LeftTurn(s, start, end, left, m);
    var k' := if left == "(" || left == "-(" then k.(depth := 1) else k;
    SkipClean(s, start, end, m, n, k');
    RightTurn(s, start, end, n, k', right);
    assert [] + [Piece(start, end, 0)] == [Piece(start, end, 0)];
  }

  lemma CleanNonEmpty(tok: string)
    requires Clean(tok)
    ensures tok != ""
  {
  }

  lemma LeftTurn(s: string, start: nat, end: nat, left: string, m: nat)
    requires left in {"", "#", "(", "-("} && m == start + |left| <= end <= |s| && s[start..m] == left
    ensures CutFrom(s, start, end, start, Cut([], start, 0))
         == CutFrom(s, start, end, m, Cut([], start, if left == "(" || left == "-(" then 1 else 0))
  {
    hide CutFrom;
    var k := Cut([], start, 0);
    if left != "" {
      Within(s, start, m, start);
      CutStep(s, start, end, start, k);
      if left == "-(" {
        Within(s, start, m, start + 1);
        CutStep(s, start, end, start + 1, k);
      }
    }
  }

  lemma RightTurn(s: string, start: nat, end: nat, n: nat, k: Cut, right: string)
    requires right in {"", ")"} || (|right| == 2 && right[0] == ')' && !Special(right[1]))
    requires n + |right| == end <= |s| && s[n..end] == right && k.pieces == []
    ensures CutFrom(s, start, end, n, k) == Ok(k.(depth := k.depth - if right == "" then 0 else 1))
  {
    hide CutFrom;
    if right == "" {
      CutEnd(s, start, end, k);
    } else {
      Within(s, n, end, n);
      CutStep(s, start, end, n, k);
      if |right| == 2 {
        Within(s, n, end, n + 1);
        CutStep(s, start, end, n + 1, k.(depth := k.depth - 1));
      }
      CutEnd(s, start, end, k.(depth := k.depth - 1));
    }
  }

  /** Such an operand is the operand of its one piece. */
  lemma OnePieceOperand(s: string, start: nat, end: nat)
    requires start < end <= |s| && Pieces(s, start, end) == Ok([Piece(start, end, 0)])
    ensures OperandAt(s, start, end)
         == match Single(s, start, start, end) { case Ok(a) => Ok(Settle(a)) case Fail(e) => Fail(e) }
  {
    hide Pieces, Single;
  }

  /** A register that an address or data operand may be: no scale, and no size but long. */
  predicate Simple(r: Reg) {
    0 <= r.idx <= 15 && r.scale == 0 && (r.size == RSIZE_L || r.size == RSIZE_DEFAULT)
  }

  /** Dn and An. */
  lemma DirectMeaning(s: string, start: nat, end: nat, r: Reg, opsize: OpSize)
    requires start <= end <= |s| && Simple(r) && Spells(s[start..end], r) && !IsAlnum(At(s, end))
    ensures var arg := OperandAt(s, start, end);
      && arg.Ok? && Settled(arg.value)
      && Encoded(arg.value, opsize) == Some(if r.idx < 8 then InData(r.idx) else InAddress(r.idx - 8))
  {
    hide RegisterAt, Pieces, ValueAt, Clean, Spells;
    LoneRegister(s, start, end, r);
  }

  /** A register alone is one piece. */
  lemma LoneRegister(s: string, start: nat, end: nat, r: Reg)
    requires start <= end <= |s| && Spells(s[start..end], r) && !IsAlnum(At(s, end))
    ensures start < end && RegisterAt(s, start, end) == Some(r)
    ensures OperandAt(s, start, end)
         == match Single(s, start, start, end) { case Ok(a) => Ok(Settle(a)) case Fail(e) => Fail(e) }
  {
    hide RegisterAt, Pieces, ValueAt, Clean, Spells, OperandAt, Single;
    var tok := s[start..end];
    RegisterToken(tok, r);
    assert "" + tok + "" == tok;
    WholePiece(s, start, end, "", tok, "");
    OnePieceOperand(s, start, end);
    RegisterRoundTrip(s, start, end, r);
  }

  /** The status registers are kept as operands of their own, which no effective address encodes. */
  lemma StatusMeaning(s: string, start: nat, end: nat, r: Reg, opsize: OpSize)
    requires start <= end <= |s| && Spells(s[start..end], r) && !IsAlnum(At(s, end))
    requires r.idx == REG_SR || r.idx == REG_CCR
    ensures var arg := OperandAt(s, start, end);
      && arg.Ok? && arg.value.mode == (if r.idx == REG_SR then Sr else Ccr)
      && Settled(arg.value) && GetEa(arg.value, opsize) == Fail(InvalidAddressingMode)
  {
    hide RegisterAt, Pieces, ValueAt, Clean;
    LoneRegister(s, start, end, r);
  }

  /** (An), (An)+ and -(An). */
  lemma IndirectMeaning(s: string, start: nat, end: nat, tok: string, r: Reg, left: string, right: string,
                        opsize: OpSize)
    requires start <= end <= |s| && Simple(r) && r.idx >= 8 && Spells(tok, r) && s[start..end] == left + tok + right
    requires (left, right) in {("(", ")"), ("(", ")+"), ("-(", ")")}
    ensures var arg, n := OperandAt(s, start, end), r.idx - 8;
      && arg.Ok? && Settled(arg.value)
      && Encoded(arg.value, opsize)
         == Some(if left == "-(" then Decrement(n) else if right == ")+" then Increment(n) else Memory(An(n), None, 0))
  {
    hide RegisterAt, Pieces, ValueAt, Clean, Spells;
    var m, n := start + |left|, start + |left| + |tok|;
    RegisterToken(tok, r);
    WholePiece(s, start, end, left, tok, right);
    OnePieceOperand(s, start, end);
    Within(s, start, m, start);
    Within(s, n, end, n);
    Within(s, n, end, end - 1);
    NoLetterNoRegister(s, start, end);
    RegisterRoundTrip(s, m, n, r);
    if left == "-(" { Within(s, start, m, start + 1); }
    if right == ")" { TokenEnd(s, m, n); }
    assert Single(s, start, start, end)
        == Ok(if left == "-(" then Stepping(r, PreDecrement)
              else if right == ")+" then Stepping(r, PostIncrement)
              else Indirect(r));
  }

  /** A register alone is refused if it has a scale or a word size, or is the program counter. */
  lemma DirectRefused(s: string, start: nat, end: nat, r: Reg, opsize: OpSize)
    requires start <= end <= |s| && Printable(r) && !Simple(r) && Spells(s[start..end], r) && !IsAlnum(At(s, end))
    ensures var arg := OperandAt(s, start, end);
      arg.Ok? && Settled(arg.value) && GetEa(arg.value, opsize) == Fail(InvalidAddressingMode)
  {
    hide RegisterAt, Pieces, ValueAt, Clean, Spells;
    LoneRegister(s, start, end, r);
  }

  /** (Rn)+ and -(Rn) are refused for every other register. */
  lemma SteppingRefused(s: string, start: nat, end: nat, tok: string, r: Reg, left: string, right: string,
                        opsize: OpSize)
    requires start <= end <= |s| && !(Simple(r) && r.idx >= 8) && Spells(tok, r) && s[start..end] == left + tok + right
    requires (left, right) in {("(", ")+"), ("-(", ")")}
    ensures var arg := OperandAt(s, start, end);
      arg.Ok? && Settled(arg.value) && GetEa(arg.value, opsize) == Fail(InvalidAddressingMode)
  {
    hide RegisterAt, Pieces, ValueAt, Clean, Spells;
    var m, n := start + |left|, start + |left| + |tok|;
    RegisterToken(tok, r);
    WholePiece(s, start, end, left, tok, right);
    OnePieceOperand(s, start, end);
    Within(s, start, m, start);
    Within(s, n, end, n);
    Within(s, n, end, end - 1);
    NoLetterNoRegister(s, start, end);
    RegisterRoundTrip(s, m, n, r);
    if left == "-(" { Within(s, start, m, start + 1); }
    assert Single(s, start, start, end) == Ok(Stepping(r, if left == "-(" then PreDecrement else PostIncrement));
  }

  /** A register in parentheses is refused with anything but a plus behind it. */
  lemma IndirectRefused(s: string, start: nat, end: nat, tok: string, r: Reg, c: char, opsize: OpSize)
    requires start <= end <= |s| && Spells(tok, r) && s[start..end] == "(" + tok + [')', c]
    requires !Special(c) && c != '+'
    ensures var arg := OperandAt(s, start, end);
      arg.Ok? && Settled(arg.value) && GetEa(arg.value, opsize) == Fail(InvalidAddressingMode)
  {
    hide RegisterAt, Pieces, Clean, Spells, StrToL;
    RegisterToken(tok, r);
    WholePiece(s, start, end, "(", tok, [')', c]);
    OnePieceOperand(s, start, end);
    Within(s, start, start + 1, start);
    Within(s, end - 2, end, end - 1);
    NoLetterNoRegister(s, start, end);
    assert ValueAt(s, start, end, true) == Ok(Parsed(false, NO_VALUE));
  }

  /** A list in two pairs of parentheses is refused. */
  lemma NestedList(s: string, start: nat, end: nat, tok: string)
    requires Clean(tok) && start + |tok| + 3 <= end <= |s| && s[start..start + |tok| + 3] == "((" + tok + ","
    ensures OperandAt(s, start, end) == Fail(UnmatchedParentheses)
  {
    hide CutFrom, Special, Clean;
    var m, n := start + 2, start + 2 + |tok|;
    Parts(s, start, n + 1, "((", tok, ",");
    Within(s, start, m, start);
    Within(s, start, m, start + 1);
    Within(s, n, n + 1, n);
    TokenAt(s, m, tok);
    CutStep(s, start, end, start, Cut([], start, 0));
    CutStep(s, start, end, start + 1, Cut([], start, 1));
    SkipClean(s, start, end, m, n, Cut([], start, 2));
    CutStep(s, start, end, n, Cut([], start, 2));
  }

  /** The stack pointer: -(sp) is the predecremented a7. */
  lemma StackPointer(opsize: OpSize)
    ensures var arg := OperandAt("-(sp)", 0, 5);
      arg.Ok? && Settled(arg.value) && Encoded(arg.value, opsize) == Some(Decrement(7))
  {
    hide OperandAt, Encoded, Spells;
    SomeRegisters();
    var s := "-(sp)";
    assert s[0..5] == "-(" + "sp" + ")";
    IndirectMeaning(s, 0, 5, "sp", Reg(REG_A7, 0, RSIZE_DEFAULT), "-(", ")", opsize);
  }

  /** Any other register in parentheses: the program counter is read back, suppressed or not, but an index
      alone is lost, and a0 is addressed. */
  lemma LoneIndirectMeaning(s: string, start: nat, end: nat, tok: string, r: Reg, opsize: OpSize)
    requires start <= end <= |s| && Printable(r) && Spells(tok, r) && s[start..end] == "(" + tok + ")"
    requires r.idx < 8 || !Simple(r)
    ensures var arg := OperandAt(s, start, end);
      && arg.Ok? && Settled(arg.value)
      && Encoded(arg.value, opsize)
         == Some(Memory(if r.idx == REG_PC then Pc else if r.idx == REG_ZPC then NoPc else An(0), None, 0))
  {
    hide RegisterAt, Pieces, ValueAt, Clean, FullWords, Extension, Spells;
    var m, n := start + 1, start + 1 + |tok|;
    RegisterToken(tok, r);
    WholePiece(s, start, end, "(", tok, ")");
    OnePieceOperand(s, start, end);
    Within(s, start, m, start);
    Within(s, n, end, n);
    NoLetterNoRegister(s, start, end);
    RegisterRoundTrip(s, m, n, r);
    TokenEnd(s, m, n);
    assert Single(s, start, start, end) == Ok(Indirect(r));
    var arg := Settle(Indirect(r));
    if r.IsPc() { FullRead(arg.reg, NO_VALUE, Pc, NoPc, if r.idx == REG_ZPC then 0x80 else 0); }
    else { MissingBaseRead(arg.reg, NO_VALUE, An(0), NoAn); }
  }

  /** A token does not end in a parenthesis. */
  lemma TokenEnd(s: string, m: nat, n: nat)
    requires m < n <= |s| && Clean(s[m..n])
    ensures At(s, n - 1) != ')'
  {
    TokenAt(s, m, s[m..n]);
    assert !Special(s[n - 1]);
  }

  lemma LiteralStart(s: string, start: nat, end: nat, tok: string)
    requires start <= end <= |s| && s[start..end] == tok && Clean(tok) && !IsAlpha(At(tok, 0)) && tok[0] != '#'
    requires tok[0] == '-' ==> |tok| > 1
    ensures start < end && !IsAlpha(At(s, start)) && s[start] != '#'
    ensures s[start] != '(' && (s[start] == '-' ==> At(s, start + 1) != '(')
  {
    TokenAt(s, start, tok);
    Within(s, start, end, start);
    assert !Special(s[start]);
    if start + 1 < end { assert !Special(s[start + 1]); }
  }

  /** An absolute address, in decimal or hexadecimal: it is what was written exactly when it is not an
      unsigned word with the top bit set that was written without `.l`. */
  lemma AbsoluteMeaning(s: string, start: nat, end: nat, l: Literal, opsize: OpSize)
    requires start <= end <= |s| && SameLetters(s[start..end], Print(l)) && !IsAlnum(At(s, end))
    requires l.digits <= LONG_MAX && (l.size == VSIZE_Z || l.size == VSIZE_L)
    ensures var arg, u := OperandAt(s, start, end), Wrap32(Meant(l));
      && arg.Ok? && Settled(arg.value)
      && (Encoded(arg.value, opsize) == Some(Absolute(u)) <==> !(l.size == VSIZE_Z && 0x8000 <= u < 0x1_0000))
  {
    hide Print, RegisterAt, Pieces, ValueAt, Clean, Wrap32, Encoded, SameLetters;
    var tok := s[start..end];
    LiteralToken(tok, l);
    LiteralClean(tok, l);
    assert "" + tok + "" == tok;
    WholePiece(s, start, end, "", tok, "");
    OnePieceOperand(s, start, end);
    LiteralStart(s, start, end, tok);
    NoLetterNoRegister(s, start, end);
    NumberRoundTrip(s, start, end, l, true);
    var v := LiteralValue(l);
    var arg := Settle(BLANK.(value := v, mode := if v.size == VSIZE_W then AbsoluteShort else AbsoluteLong));
    assert OperandAt(s, start, end) == Ok(arg);
    AbsoluteExact(arg, opsize);
  }

  /** An immediate number: accepted exactly when the operation size holds it as a signed number, and then
      read back as written. Without a size nothing is encoded. */
  lemma ImmediateMeaning(s: string, start: nat, end: nat, tok: string, l: Literal, opsize: OpSize)
    requires start <= end <= |s| && s[start..end] == "#" + tok && SameLetters(tok, Print(l)) && !IsAlnum(At(s, end))
    requires l.digits <= LONG_MAX && (l.size == VSIZE_Z || l.size == VSIZE_L)
    ensures var arg, u := OperandAt(s, start, end), Wrap32(Meant(l));
      var fits := match opsize
                  case OsByte => -128 <= Signed32(u) <= 127
                  case OsWord => -32768 <= Signed32(u) <= 32767
                  case _ => true;
      && arg.Ok? && Settled(arg.value)
      && (fits <==> GetEa(arg.value, opsize).Ok?) && (opsize == OsDefault ==> GetEa(arg.value, opsize) == Ok(None))
      && (fits && opsize != OsDefault ==>
            Encoded(arg.value, opsize) == Some(Constant(if opsize == OsLong then u else Signed32(u))))
  {
    hide Print, RegisterAt, Pieces, ValueAt, Clean, Wrap32, Encoded, GetEa, SameLetters;
    LiteralToken(tok, l);
    LiteralClean(tok, l);
    assert "#" + tok + "" == "#" + tok;
    WholePiece(s, start, end, "#", tok, "");
    OnePieceOperand(s, start, end);
    Within(s, start, start + 1, start);
    NoLetterNoRegister(s, start, end);
    NumberRoundTrip(s, start + 1, end, l, true);
    var arg := Settle(BLANK.(value := LiteralValue(l), mode := Immediate));
    assert OperandAt(s, start, end) == Ok(arg);
    ImmediateExact(arg, opsize);
  }

  /** A comma alone is read as the absolute address zero. */
  lemma LoneComma(s: string, start: nat, opsize: OpSize)
    requires start < |s| && s[start] == ','
    ensures var arg := OperandAt(s, start, start + 1);
      arg.Ok? && Settled(arg.value) && GetEa(arg.value, opsize) == Ok(Some(Ea(7, 0, [0], None)))
  {
    hide Pieces, ValueAt, Several, Single, GetEa;
    CommaPieces(s, start);
    NothingRead(s, start);
    EmptySingle(s, start);
    ZeroEncoded(opsize);
  }

  lemma EmptySingle(s: string, start: nat)
    requires start < |s|
    ensures Single(s, start, start, start) == Valued(ValueAt(s, start, start, true), AbsoluteShort, AbsoluteLong)
  {
    hide ValueAt, RegisterAt;
  }

  lemma ZeroEncoded(opsize: OpSize)
    ensures var arg := Settle(BLANK.(mode := AbsoluteShort, value := Value(0, VSIZE_W, None)));
      Settled(arg) && GetEa(arg, opsize) == Ok(Some(Ea(7, 0, [0], None)))
  {
  }

  lemma CommaPieces(s: string, start: nat)
    requires start < |s| && s[start] == ','
    ensures Pieces(s, start, start + 1) == Ok([Piece(start, start, 0)])
  {
    hide CutFrom;
    var k, ps := Cut([], start, 0), [Piece(start, start, 0)];
    CutStep(s, start, start + 1, start, k);
    CutEnd(s, start, start + 1, Cut(ps, start + 1, 0));
    assert k.pieces + [Piece(start, start, 0)] == ps;
  }

  lemma NothingRead(s: string, start: nat)
    requires start < |s| && s[start] == ','
    ensures ValueAt(s, start, start, true) == Ok(Parsed(true, Value(0, VSIZE_W, None)))
  {
    hide StrToL, Wrap32;
    StrToLNothing(s, start, 10);
    WrapSmall(0);
  }

  // ---------------------------------------------------------------- symbols

  /** A token that names a symbol. */
  predicate Symbolic(tok: string) {
    Clean(tok) && StartsSymbol(tok[0])
  }

  /** A symbol alone is the longword that pass 2 fills with its address. */
  lemma SymbolMeaning(s: string, start: nat, end: nat, tok: string, opsize: OpSize)
    requires start <= end <= |s| && s[start..end] == tok && Symbolic(tok) && RegisterAt(s, start, end) == None
    ensures var arg := OperandAt(s, start, end);
      && arg.Ok? && Settled(arg.value) && GetEa(arg.value, opsize) == Ok(Some(Ea(7, 1, [0, 0], Some(tok))))
  {
    hide RegisterAt, Pieces, Clean, Special;
    CleanNonEmpty(tok);
    assert "" + tok + "" == tok;
    WholePiece(s, start, end, "", tok, "");
    OnePieceOperand(s, start, end);
    Within(s, start, end, start);
  }

  /** A symbol as immediate operand is kept for pass 2 exactly when the operation size is long; with the other
      sizes it is dropped without an error, and a zero is encoded. */
  lemma ImmediateSymbolExact(s: string, start: nat, end: nat, tok: string, opsize: OpSize)
    requires start <= end <= |s| && s[start..end] == "#" + tok && Symbolic(tok) && opsize != OsDefault
    ensures var arg := OperandAt(s, start, end);
      && arg.Ok? && Settled(arg.value)
      && GetEa(arg.value, opsize)
         == Ok(Some(if opsize == OsLong then Ea(7, 4, [0, 0], Some(tok)) else Ea(7, 4, [0], None)))
  {
    hide RegisterAt, Pieces, Clean, Special;
    CleanNonEmpty(tok);
    assert "#" + tok + "" == "#" + tok;
    WholePiece(s, start, end, "#", tok, "");
    OnePieceOperand(s, start, end);
    Within(s, start, start + 1, start);
    Within(s, start + 1, end, start + 1);
    NoLetterNoRegister(s, start, end);
    assert ValueAt(s, start + 1, end, true) == Ok(Parsed(true, Value(0, VSIZE_L, Some(tok))));
  }

  lemma SymbolToken(tok: string)
    requires Symbolic(tok) && ReadToken(tok).Numeral?
    ensures ReadToken(tok) == Numeral(Ok(Parsed(true, Value(0, VSIZE_L, Some(tok))))) && tok != "-"
  {
    hide RegisterAt;
    assert tok[0..|tok|] == tok;
  }

  /** A symbol as displacement, in either syntax: it is kept for pass 2 exactly when its base is the program
      counter and there is no index; everywhere else it is dropped without an error. */
  lemma SymbolDisplacementExact(s: string, start: nat, end: nat, tok: string, ts: seq<string>, regs: seq<Reg>,
                                base: Reg, index: Option<Reg>, opsize: OpSize)
    requires start <= end <= |s| && Symbolic(tok) && ReadToken(tok).Numeral?
    requires Pair(base, index) && Order(regs, base, index) && SpellAll(ts, regs)
    requires ts != [] && Writes(s[start..end], tok, ts)
    ensures var arg := OperandAt(s, start, end);
      && arg.Ok? && Settled(arg.value) && GetEa(arg.value, opsize).Ok? && GetEa(arg.value, opsize).value.Some?
      && var ea := GetEa(arg.value, opsize).value.value;
      && (ea.sym == Some(tok) <==> base.idx == REG_PC && index.None?)
      && (ea.sym.Some? ==> ea == Ea(7, 2, [0], Some(tok)))
  {
    hide OperandAt, SortTokens, ReadToken, Clean, Spells, TokenOperand, Join, BriefWord, FullWords;
    SymbolToken(tok);
    NumeralTokens(tok, Value(0, VSIZE_L, Some(tok)), ts, regs, base, index);
    DisplacementAnywhere(tok, ts);
    SameOperand(tok, ts);
    if s[start..end] == Outside(tok, ts) { OutsideOperand(s, start, end, tok, ts); }
    else if s[start..end] == Enclosed([tok] + ts) { InsideOperand(s, start, end, [tok] + ts); }
    else { InsideOperand(s, start, end, ts + [tok]); }
    SelectSettled(Roles(Some(base), index), Value(0, VSIZE_L, Some(tok)), true);
  }
}
