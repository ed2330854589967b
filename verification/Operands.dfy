/** Operands: cutting them into pieces and choosing an addressing mode (src/mangle.c:318-670). */
module Operands {
  import opened Basics
  import opened Text
  import opened Registers
  import opened Values
  import opened Addressing

  // ---------------------------------------------------------------- pieces

  /** A stretch of an operand, and the depth of parentheses in which it was closed. */
  datatype Piece = Piece(from: nat, end: nat, depth: int)

  /** The pieces closed so far, the start of the next one, and the depth of parentheses. */
  datatype Cut = Cut(pieces: seq<Piece>, cur: nat, depth: int)

  const MAX_PIECES := 5

  /** Close a piece before t and start another. There is room for five starts. */
  function Close(k: Cut, t: nat): Result<Cut> {
    if |k.pieces| + 1 >= MAX_PIECES then Fail(BufferOverrun)
    else Ok(Cut(k.pieces + [Piece(k.cur, t, k.depth)], t + 1, k.depth))
  }

  /** A minus alone before the parenthesis, as in -(An). */
  predicate Predecrement(k: Cut, s: string, start: nat, t: nat) {
    k.pieces == [] && t == start + 1 && At(s, start) == '-'
  }

  function CutTurn(s: string, start: nat, t: nat, k: Cut): Result<Cut> {
    var c := At(s, t);
    if c == '(' then
      var k' :- if k.depth == 0 && k.cur != t && !Predecrement(k, s, start, t) then Close(k, t) else Ok(k);
      Ok(k'.(depth := k'.depth + 1))
    else if c == ')' then
      var k' :- if k.pieces != [] then Close(k, t) else Ok(k);
      Ok(k'.(depth := k'.depth - 1))
    else if c == ',' then
      if k.depth > 1 then Fail(UnmatchedParentheses)
      else Close(if k.pieces == [] && At(s, k.cur) == '(' then k.(cur := k.cur + 1) else k, t)
    else Ok(k)
  }

  function CutFrom(s: string, start: nat, end: nat, t: nat, k: Cut): Result<Cut>
    decreases end - t
  {
    if t >= end then Ok(k)
    else
      var k' :- CutTurn(s, start, t, k);
      CutFrom(s, start, end, t + 1, k')
  }

  /** All pieces, the last of them up to the end. */
  function Finished(k: Cut, end: nat): seq<Piece> {
    if k.cur != end then k.pieces + [Piece(k.cur, end, k.depth)] else k.pieces
  }

  /** The pieces of the operand from start up to end. */
  function Pieces(s: string, start: nat, end: nat): Result<seq<Piece>> {
    var k :- CutFrom(s, start, end, start, Cut([], start, 0));
    if k.depth != 0 then Fail(UnmatchedParentheses) else Ok(Finished(k, end))
  }

  /** Pieces lie inside the operand. */
  predicate Inside(ps: seq<Piece>, start: nat, end: nat) {
    forall i | 0 <= i < |ps| :: start <= ps[i].from <= ps[i].end <= end
  }

  lemma {:induction false} CutInside(s: string, start: nat, end: nat, t: nat, k: Cut)
    requires start <= t <= end && start <= k.cur <= t && Inside(k.pieces, start, t)
    ensures CutFrom(s, start, end, t, k).Ok? ==>
      var k' := CutFrom(s, start, end, t, k).value; start <= k'.cur <= end && Inside(k'.pieces, start, end)
    decreases end - t
  {
    if t >= end || CutTurn(s, start, t, k).Fail? {
    } else {
      var k' := CutTurn(s, start, t, k).value;
      assert At(s, t) == ',' && At(s, k.cur) == '(' ==> k.cur + 1 <= t;
      assert start <= k'.cur <= t + 1 && Inside(k'.pieces, start, t + 1);
      CutInside(s, start, end, t + 1, k');
    }
  }

  lemma PiecesInside(s: string, start: nat, end: nat)
    requires start <= end
    ensures Pieces(s, start, end).Ok? ==> Inside(Pieces(s, start, end).value, start, end)
  {
    CutInside(s, start, end, start, Cut([], start, 0));
  }

  // ---------------------------------------------------------------- one piece

  const BLANK := Operand(ModeError, NO_REG, NO_REG, NO_VALUE)

  function Back(e: nat, n: nat): nat { if e >= n then e - n else 0 }

  /** A register standing alone. */
  function Direct(r: Reg): Operand {
    if r.IsData() && r.IsPlain() then BLANK.(mode := DataDirect, reg := r.Remap(RSIZE_L))
    else if r.IsAddr() && r.IsPlain() then BLANK.(mode := AddrDirect, areg := r.Remap(RSIZE_L))
    else if r.idx == REG_CCR then BLANK.(mode := Ccr)
    else if r.idx == REG_SR then BLANK.(mode := Sr)
    else BLANK
  }

  /** A register in parentheses. */
  function Indirect(r: Reg): Operand {
    if r.IsPlain() && r.IsAddr() then BLANK.(mode := AddrIndirect, areg := r)
    else if r.IsPc() then BLANK.(mode := PcIndexBase, areg := r)
    else if r.IsAddr() || r.IsData() then BLANK.(mode := AddrIndexBase, reg := r)
    else BLANK
  }

  function Stepping(r: Reg, mode: Mode): Operand {
    if r.IsAddr() && r.IsPlain() then BLANK.(mode := mode, areg := r) else BLANK
  }

  function Valued(r: Result<Parsed>, mode: Mode, long: Mode): Result<Operand> {
    var p :- r;
    Ok(BLANK.(value := p.val, mode := if !p.ok then ModeError else if p.val.size == VSIZE_W then mode else long))
  }

  /** An operand of one piece. An empty piece stands before a comma and is read as a number. */
  function Single(s: string, start: nat, from: nat, e: nat): Result<Operand>
    requires from <= e <= |s|
  {
    if from == e then Valued(ValueAt(s, from, e, true), AbsoluteShort, AbsoluteLong)
    else
    var plain, inc := RegisterAt(s, from, e), RegisterAt(s, from + 1, Back(e, 2));
    var dec, ind := RegisterAt(s, from + 2, e - 1), RegisterAt(s, from + 1, e - 1);
    if plain.Some? then Ok(Direct(plain.value))
    else if s[from] == '#' then Valued(ValueAt(s, from + 1, e, true), Immediate, Immediate)
    else if At(s, start) == '(' && inc.Some? && At(s, Back(e, 2)) == ')' && s[e - 1] == '+' then
      Ok(Stepping(inc.value, PostIncrement))
    else if s[from] == '-' && At(s, from + 1) == '(' && dec.Some? && s[e - 1] == ')' then
      Ok(Stepping(dec.value, PreDecrement))
    else if s[from] == '(' && ind.Some? && s[e - 1] == ')' then Ok(Indirect(ind.value))
    else Valued(ValueAt(s, from, e, true), AbsoluteShort, AbsoluteLong)
  }

  // ---------------------------------------------------------------- two or three pieces

  /** What a piece is read as. */
  datatype Reading = Register(reg: Reg) | Numeral(value: Result<Parsed>)

  function ReadPiece(s: string, p: Piece): Reading
    requires p.from <= p.end <= |s|
  {
    match RegisterAt(s, p.from, p.end)
    case Some(r) => Register(r)
    case None => Numeral(ValueAt(s, p.from, p.end, true))
  }

  /** Registers and displacement found so far. A number that cannot be read leaves its traces in the
      displacement, but is not counted. */
  datatype Found = Found(regs: seq<Reg>, disp: Value, counted: bool)

  function Sort(f: Found, reading: Reading, depth: int): Result<Found> {
    match reading
    case Register(r) =>
      if depth == 0 then Fail(InvalidAddressingMode)
      else if !(r.IsData() || r.IsAddr() || r.IsPc()) then Fail(InvalidRegister)
      else if |f.regs| > 1 then Fail(TooManyRegisters)
      else Ok(f.(regs := f.regs + [r]))
    case Numeral(Fail(e)) => Fail(e)
    case Numeral(Ok(p)) =>
      if p.ok && f.counted then Fail(TooManyDisplacements)
      else if f.counted then Ok(f)
      else Ok(f.(disp := p.val, counted := p.ok))
  }

  function SortFrom(s: string, ps: seq<Piece>, i: nat, f: Found): Result<Found>
    requires i <= |ps| && forall j | 0 <= j < |ps| :: ps[j].from <= ps[j].end <= |s|
    decreases |ps| - i
  {
    if i == |ps| then Ok(f)
    else
      var f' :- Sort(f, ReadPiece(s, ps[i]), ps[i].depth);
      SortFrom(s, ps, i + 1, f')
  }

  /** The register used as address, and the one used as index. */
  datatype Roles = Roles(address: Option<Reg>, index: Option<Reg>)

  predicate Addresses(r: Reg) { (r.IsAddr() && r.IsPlain()) || r.IsPc() }

  function Assign(k: Roles, r: Reg): Result<Roles> {
    if Addresses(r) && k.address.None? then Ok(k.(address := Some(r)))
    else if k.index.None? then Ok(k.(index := Some(r)))
    else Fail(TooManyRegisters)
  }

  function AssignFrom(regs: seq<Reg>, i: nat, k: Roles): Result<Roles>
    requires i <= |regs|
    decreases |regs| - i
  {
    if i == |regs| then Ok(k)
    else
      var k' :- Assign(k, regs[i]);
      AssignFrom(regs, i + 1, k')
  }

  /** The addressing mode for the registers and the displacement found. */
  function Select(k: Roles, disp: Value, counted: bool): Operand {
    var pc := k.address.Some? && k.address.value.IsPc();
    var v := Signed32(disp.uint);
    var areg := if k.address.Some? then k.address.value else NO_REG;
    var reg := if k.index.Some? then k.index.value else NO_REG;
    if k.address.Some? && k.index.None? && counted && -32768 <= v <= 32767 then
      Operand(if pc then PcDisplace else AddrDisplace, areg, NO_REG, disp)
    else if counted && !(-128 <= v <= 127) then Operand(if pc then PcIndexBase else AddrIndexBase, areg, reg, disp)
    else Operand(if pc then PcIndex8 else AddrIndex8, areg, reg, disp)
  }

  function Several(s: string, ps: seq<Piece>): Result<Operand>
    requires forall j | 0 <= j < |ps| :: ps[j].from <= ps[j].end <= |s|
  {
    var f :- SortFrom(s, ps, 0, Found([], NO_VALUE, false));
    var k :- AssignFrom(f.regs, 0, Roles(None, None));
    Ok(Select(k, f.disp, f.counted))
  }

  function Settle(arg: Operand): Operand {
    arg.(areg := arg.areg.Remap(RSIZE_L), reg := arg.reg.Remap(RSIZE_W))
  }

  /** The operand that the text from start up to end is read as, which has no bit field. */
  function OperandAt(s: string, start: nat, end: nat): Result<Operand>
    requires start <= end <= |s|
  {
    if start == end then Fail(InvalidArgument)
    else
      var ps :- Pieces(s, start, end);
      PiecesInside(s, start, end);
      var arg :- if |ps| == 1 then Single(s, start, ps[0].from, ps[0].end)
                 else if |ps| == 2 || |ps| == 3 then Several(s, ps)
                 else Ok(BLANK);
      Ok(Settle(arg))
  }

  // ---------------------------------------------------------------- bit fields

  /** The place of the first brace, or the end. */
  function BraceAt(s: string, t: nat, end: nat): (b: nat)
    requires t <= end
    ensures t <= b <= end && (b < end ==> At(s, b) == '{') && forall k | t <= k < b :: At(s, k) != '{'
    decreases end - t
  {
    if t == end || At(s, t) == '{' then t else BraceAt(s, t + 1, end)
  }

  /** Offset and width of a bit field; numbers from 32 on stand for data registers. */
  datatype BitField = BitField(offset: Value, width: Value)

  const UNSPECIFIED := Value(0xffff_ffff, VSIZE_L, None)
  const NO_FIELD := BitField(UNSPECIFIED, UNSPECIFIED)
  const BF_REGISTER := 32

  /** What one part of a bit field is read as. */
  function FieldPart(s: string, from: nat, t: nat, was: Value): Result<Value>
    requires from <= t <= |s|
  {
    var r := RegisterAt(s, from, t);
    if r.Some? && r.value.IsData() then Ok(was.(uint := r.value.idx - REG_D0 + BF_REGISTER))
    else
      var p :- ValueAt(s, from, t, true);
      if p.ok then Ok(p.val) else Fail(InvalidBitfield)
  }

  datatype FieldState = InOffset | InWidth | FieldEnd

  /** A bit field from t on; its current part starts at `from`. */
  function FieldFrom(s: string, from: nat, t: nat, end: nat, k: FieldState, f: BitField): Result<BitField>
    requires from <= t && end <= |s|
    decreases end - t
  {
    if t >= end then if k == FieldEnd then Ok(f) else Fail(InvalidBitfield)
    else
      match k
      case InOffset =>
        if IsAlnum(At(s, t)) then FieldFrom(s, from, t + 1, end, k, f)
        else if At(s, t) == ':' then
          var v :- FieldPart(s, from, t, f.offset);
          FieldFrom(s, t + 1, t + 1, end, InWidth, f.(offset := v))
        else Fail(InvalidBitfield)
      case InWidth =>
        if IsAlnum(At(s, t)) then FieldFrom(s, from, t + 1, end, k, f)
        else if At(s, t) == '}' then
          var v :- FieldPart(s, from, t, f.width);
          FieldFrom(s, from, t + 1, end, FieldEnd, f.(width := v))
        else Fail(InvalidBitfield)
      case FieldEnd => Fail(InvalidBitfield)
  }

  /** The bit field of an operand whose first brace, if any, is at b. */
  function FieldAt(s: string, b: nat, end: nat): Result<BitField>
    requires b <= end <= |s|
  {
    if At(s, b) == '{' then FieldFrom(s, b + 1, b + 1, end, InOffset, NO_FIELD) else Ok(NO_FIELD)
  }

  /** The operand and the bit field that the text from start up to end is read as. */
  function WholeAt(s: string, start: nat, end: nat): Result<(Operand, BitField)>
    requires start <= end <= |s|
  {
    if start == end then Fail(InvalidArgument)
    else
      var b := BraceAt(s, start, end);
      var k :- CutFrom(s, start, b, start, Cut([], start, 0));
      var f :- FieldAt(s, b, end);
      if start == b then Fail(InvalidOperand)
      else if k.depth != 0 then Fail(UnmatchedParentheses)
      else
        var arg :- OperandAt(s, start, b);
        Ok((arg, f))
  }

  /** Without a brace there is no bit field. */
  lemma NoBrace(s: string, start: nat, end: nat)
    requires start <= end <= |s| && forall k | start <= k <= end :: At(s, k) != '{'
    ensures WholeAt(s, start, end)
         == match OperandAt(s, start, end) { case Ok(arg) => Ok((arg, NO_FIELD)) case Fail(e) => Fail(e) }
    ensures NO_FIELD.offset.uint == NO_FIELD.width.uint == 0xffff_ffff
  {
    hide Several, Single, CutFrom;
    assert BraceAt(s, start, end) == end;
  }

  lemma {:induction false} FieldWord(s: string, from: nat, t: nat, n: nat, end: nat, k: FieldState, f: BitField)
    requires from <= t <= n <= end <= |s| && k != FieldEnd && forall m | t <= m < n :: IsAlnum(s[m])
    ensures FieldFrom(s, from, t, end, k, f) == FieldFrom(s, from, n, end, k, f)
    decreases n - t
  {
    if t == n {
    } else {
      FieldWord(s, from, t + 1, n, end, k, f);
    }
  }

  /** What stands in braces from b on: a first word up to m and, behind a colon, a second up to n. */
  predicate FieldWords(s: string, b: nat, m: nat, n: nat, end: nat) {
    && b < m <= n <= end <= |s| && s[b] == '{'
    && (forall k | b < k < m :: IsAlnum(s[k])) && (m < end ==> !IsAlnum(s[m]))
    && (if m < end && s[m] == ':'
        then m < n && (forall k | m < k < n :: IsAlnum(s[k])) && (n < end ==> !IsAlnum(s[n]))
        else n == m)
  }

  /** The bit field that they are read as: a colon and a closing brace must follow them, and nothing else. */
  function FieldRead(s: string, b: nat, m: nat, n: nat, end: nat): Result<BitField>
    requires FieldWords(s, b, m, n, end)
  {
    if n == m then Fail(InvalidBitfield)
    else
      var offset :- FieldPart(s, b + 1, m, UNSPECIFIED);
      if n == end || s[n] != '}' then Fail(InvalidBitfield)
      else
        var width :- FieldPart(s, m + 1, n, UNSPECIFIED);
        if n + 1 < end then Fail(InvalidBitfield) else Ok(BitField(offset, width))
  }

  /** A bit field is made of two words in braces with a colon between them, offset and width; everything else in
      braces is refused. */
  lemma FieldExact(s: string, b: nat, m: nat, n: nat, end: nat)
    requires FieldWords(s, b, m, n, end)
    ensures FieldAt(s, b, end) == FieldRead(s, b, m, n, end)
  {
    hide FieldPart, FieldFrom;
    FieldWord(s, b + 1, b + 1, m, end, InOffset, NO_FIELD);
    FieldStep(s, b + 1, m, end, InOffset, NO_FIELD);
    if n > m && FieldPart(s, b + 1, m, UNSPECIFIED).Ok? {
      var f := NO_FIELD.(offset := FieldPart(s, b + 1, m, UNSPECIFIED).value);
      FieldWord(s, m + 1, m + 1, n, end, InWidth, f);
      FieldStep(s, m + 1, n, end, InWidth, f);
      if n < end && FieldPart(s, m + 1, n, UNSPECIFIED).Ok? {
        FieldStep(s, m + 1, n + 1, end, FieldEnd, f.(width := FieldPart(s, m + 1, n, UNSPECIFIED).value));
      }
    }
  }

  /** Behind an operand the operand is what it is without the field. */
  lemma BitFieldExact(s: string, start: nat, b: nat, m: nat, n: nat, end: nat)
    requires start < b < end <= |s| && (forall k | start <= k < b :: s[k] != '{') && FieldWords(s, b, m, n, end)
    requires OperandAt(s, start, b).Ok?
    ensures WholeAt(s, start, end) ==
      match FieldRead(s, b, m, n, end) case Ok(f) => Ok((OperandAt(s, start, b).value, f)) case Fail(e) => Fail(e)
  {
    hide FieldPart, FieldFrom, FieldRead, CutFrom, Single, Several;
    assert BraceAt(s, start, end) == b by { FirstBrace(s, start, b, end); }
    FieldExact(s, b, m, n, end);
  }

  /** Nothing at all, and a bit field without an operand, are refused. */
  lemma NoOperand(s: string, start: nat, end: nat)
    requires start <= end <= |s| && (start < end ==> s[start] == '{')
    ensures WholeAt(s, start, end) ==
      if start == end then Fail(InvalidArgument)
      else match FieldAt(s, start, end) case Ok(_) => Fail(InvalidOperand) case Fail(e) => Fail(e)
  {
    hide FieldFrom;
  }

  lemma {:induction false} FirstBrace(s: string, t: nat, b: nat, end: nat)
    requires t <= b < end <= |s| && s[b] == '{' && forall k | t <= k < b :: s[k] != '{'
    ensures BraceAt(s, t, end) == b
    decreases b - t
  {
    if t == b {
    } else {
      FirstBrace(s, t + 1, b, end);
    }
  }

  /** A plain number of at most sixteen bits. */
  predicate Small(l: Literal) {
    l.digits < 0x1_0000 && l.size == VSIZE_Z && !l.hex && !l.minus
  }

  /** Data registers and plain numbers as parts of a bit field. */
  lemma FieldPartRead(s: string, from: nat, t: nat, r: Reg, l: Literal)
    requires from <= t <= |s| && !IsAlnum(At(s, t))
    ensures r.IsData() && Spells(s[from..t], r) ==>
      FieldPart(s, from, t, UNSPECIFIED) == Ok(UNSPECIFIED.(uint := r.idx + 32))
    ensures SameLetters(s[from..t], Print(l)) && Small(l) ==>
      FieldPart(s, from, t, UNSPECIFIED) == Ok(Value(l.digits, VSIZE_W, None))
  {
    hide RegisterAt, ValueAt, Spells, Print, SameLetters;
    if r.IsData() && Spells(s[from..t], r) { RegisterRoundTrip(s, from, t, r); }
    if SameLetters(s[from..t], Print(l)) && Small(l) {
      NumberRoundTrip(s, from, t, l, true);
      NumberNoRegister(s, from, t, l);
      WrapSmall(l.digits);
    }
  }

  /** A word that starts with a digit and is no number is refused. */
  lemma FieldPartRefused(s: string, from: nat, m: nat, t: nat)
    requires from <= m < t <= |s| && (forall k | from <= k < m :: IsDigit(s[k])) && IsAlpha(s[m]) && from < m
    ensures FieldPart(s, from, t, UNSPECIFIED) == Fail(InvalidBitfield)
  {
    hide RegisterAt, StrToL;
    NoLetterNoRegister(s, from, t);
    ScanDigits(s, from, m, t, 10);
    assert Scan(s, m, t, 10) == None;
  }

  lemma NumberNoRegister(s: string, from: nat, t: nat, l: Literal)
    requires from <= t <= |s| && SameLetters(s[from..t], Print(l)) && !IsAlnum(At(s, t)) && !l.hex && !l.minus
    ensures RegisterAt(s, from, t) == None
  {
    hide RegisterAt, Digits;
    var at, stop := PrintedIsLaid(s, from, t, l);
    assert DigitIn(s[at], 10);
    NoLetterNoRegister(s, from, t);
  }

  // ---------------------------------------------------------------- writes behind the arrays

  /** Reading pieces i and on writes behind the array of two registers, when two have been found before, or
      behind the array of one displacement, when one has been counted before. */
  predicate StraysFrom(s: string, ps: seq<Piece>, i: nat, f: Found)
    requires i <= |ps| && forall j | 0 <= j < |ps| :: ps[j].from <= ps[j].end <= |s|
    decreases |ps| - i
  {
    i < |ps| &&
      var reading := ReadPiece(s, ps[i]);
      || |f.regs| > 1
      || (f.counted && !reading.Register?)
      || (Sort(f, reading, ps[i].depth).Ok? && StraysFrom(s, ps, i + 1, Sort(f, reading, ps[i].depth).value))
  }

  /** A piece that is taken as a register, that is counted as the displacement, and that is at least passed
      over. */
  predicate Taken(s: string, p: Piece)
    requires p.from <= p.end <= |s|
  {
    var r := RegisterAt(s, p.from, p.end);
    p.depth != 0 && r.Some? && (r.value.IsData() || r.value.IsAddr() || r.value.IsPc())
  }

  predicate Counts(s: string, p: Piece)
    requires p.from <= p.end <= |s|
  {
    var v := ValueAt(s, p.from, p.end, true);
    RegisterAt(s, p.from, p.end).None? && v.Ok? && v.value.ok
  }

  predicate Passed(s: string, p: Piece)
    requires p.from <= p.end <= |s|
  {
    var v := ValueAt(s, p.from, p.end, true);
    RegisterAt(s, p.from, p.end).None? && v.Ok? && !v.value.ok
  }

  /** The stray write happens exactly when a piece is read after two registers, or one that is no register
      after a displacement that was counted. */
  lemma StraysExact(s: string, ps: seq<Piece>)
    requires 2 <= |ps| <= 3 && forall j | 0 <= j < |ps| :: ps[j].from <= ps[j].end <= |s|
    ensures StraysFrom(s, ps, 0, Found([], NO_VALUE, false)) <==>
      || (Counts(s, ps[0]) && RegisterAt(s, ps[1].from, ps[1].end).None?)
      || (|ps| == 3 && Taken(s, ps[0]) && Taken(s, ps[1]))
      || (|ps| == 3 && RegisterAt(s, ps[2].from, ps[2].end).None?
          && ((Counts(s, ps[0]) && Taken(s, ps[1])) || ((Taken(s, ps[0]) || Passed(s, ps[0])) && Counts(s, ps[1]))))
  {
    hide RegisterAt, ValueAt, Sort, StraysFrom;
    var f0 := Found([], NO_VALUE, false);
    SortIs(f0, s, ps[0]);
    StraysStep(s, ps, 0, f0);
    var r0 := Sort(f0, ReadPiece(s, ps[0]), ps[0].depth);
    if r0.Ok? {
      SortIs(r0.value, s, ps[1]);
      StraysStep(s, ps, 1, r0.value);
      var r1 := Sort(r0.value, ReadPiece(s, ps[1]), ps[1].depth);
      if r1.Ok? {
        if |ps| == 2 {
          StraysDone(s, ps, r1.value);
        } else {
          LastStrays(s, ps, r1.value);
        }
      }
    }
  }

  lemma LastStrays(s: string, ps: seq<Piece>, f: Found)
    requires |ps| == 3 && forall j | 0 <= j < |ps| :: ps[j].from <= ps[j].end <= |s|
    ensures StraysFrom(s, ps, 2, f) <==> |f.regs| > 1 || (f.counted && RegisterAt(s, ps[2].from, ps[2].end).None?)
  {
    hide RegisterAt, ValueAt, Sort, StraysFrom;
    StraysStep(s, ps, 2, f);
    SortIs(f, s, ps[2]);
    var r := Sort(f, ReadPiece(s, ps[2]), ps[2].depth);
    if r.Ok? { StraysDone(s, ps, r.value); }
  }

  /** What reading one more piece does to the counters. */
  lemma SortIs(f: Found, s: string, p: Piece)
    requires p.from <= p.end <= |s|
    ensures var r := Sort(f, ReadPiece(s, p), p.depth);
      && (Taken(s, p) && |f.regs| <= 1 ==> r.Ok? && |r.value.regs| == |f.regs| + 1 && r.value.counted == f.counted)
      && (Counts(s, p) && !f.counted ==> r.Ok? && r.value.regs == f.regs && r.value.counted)
      && (Passed(s, p) ==> r.Ok? && r.value.regs == f.regs && r.value.counted == f.counted)
      && (r.Ok? ==> Taken(s, p) || Counts(s, p) || Passed(s, p))
      && (ReadPiece(s, p).Register? <==> RegisterAt(s, p.from, p.end).Some?)
      && (Counts(s, p) || Passed(s, p) ==> RegisterAt(s, p.from, p.end).None?)
      && (Taken(s, p) ==> RegisterAt(s, p.from, p.end).Some?)
  {
    hide RegisterAt, ValueAt;
  }

  /** The local copy of the operand has room for 255 characters. */
  const COPY_ROOM := 255

  /** `opmangle` writes outside one of its arrays, other than by a sixth piece. */
  predicate Strays(s: string, start: nat, end: nat)
    requires start <= end <= |s|
  {
    || end - start > COPY_ROOM
    || (var b := BraceAt(s, start, end);
        FieldAt(s, b, end).Ok? && start < b && Pieces(s, start, b).Ok? && StraysIn(s, start, b))
  }

  predicate StraysIn(s: string, start: nat, b: nat)
    requires start <= b <= |s| && Pieces(s, start, b).Ok?
  {
    var ps := Pieces(s, start, b).value;
    PiecesInside(s, start, b);
    2 <= |ps| <= 3 && StraysFrom(s, ps, 0, Found([], NO_VALUE, false))
  }

  // ---------------------------------------------------------------- the program

  /** The splitter loop, up to a brace. Starts and ends go into arrays of five. */
  method Split(s: string, start: nat, end: nat) returns (r: Result<seq<Piece>>, b: nat, depth: int)
    requires start <= end <= |s|
    ensures b == BraceAt(s, start, end)
    ensures r.Fail? ==> CutFrom(s, start, b, start, Cut([], start, 0)) == Fail(r.error)
    ensures r.Ok? ==> CutFrom(s, start, b, start, Cut([], start, 0)).Ok?
    ensures r.Ok? ==> r.value == Finished(CutFrom(s, start, b, start, Cut([], start, 0)).value, b)
    ensures r.Ok? ==> depth == CutFrom(s, start, b, start, Cut([], start, 0)).value.depth
  {
    hide At, CutFrom, BraceAt;
    b := BraceAt(s, start, end);
    var args := new Piece[MAX_PIECES](_ => Piece(0, 0, 0));
    var ofs: nat, stack: int, t: nat, cur: nat := 0, 0, start, start;
    while t < end && At(s, t) != '{'
      invariant start <= t <= b && ofs < MAX_PIECES && b == BraceAt(s, start, end)
      invariant CutFrom(s, start, b, t, Cut(args[..ofs], cur, stack)) == CutFrom(s, start, b, start, Cut([], start, 0))
    {
      ghost var k := Cut(args[..ofs], cur, stack);
      CutStep(s, start, b, t, k);
      var c := At(s, t);
      if c == '(' {
        if stack == 0 && cur != t {
          if !(ofs == 0 && t == start + 1 && At(s, start) == '-') {
            args[ofs] := Piece(cur, t, stack);
            if ofs + 1 == MAX_PIECES { return Fail(BufferOverrun), b, stack; }
            ofs, cur := ofs + 1, t + 1;
            assert args[..ofs] == k.pieces + [Piece(k.cur, t, k.depth)];
          }
        }
        stack := stack + 1;
      } else if c == ')' {
        if ofs != 0 {
          args[ofs] := Piece(cur, t, stack);
          if ofs + 1 == MAX_PIECES { return Fail(BufferOverrun), b, stack; }
          ofs, cur := ofs + 1, t + 1;
          assert args[..ofs] == k.pieces + [Piece(k.cur, t, k.depth)];
        }
        stack := stack - 1;
      } else if c == ',' {
        if stack > 1 { return Fail(UnmatchedParentheses), b, stack; }
        if ofs == 0 && At(s, cur) == '(' { cur := cur + 1; }
        args[ofs] := Piece(cur, t, stack);
        if ofs + 1 == MAX_PIECES { return Fail(BufferOverrun), b, stack; }
        ofs, cur := ofs + 1, t + 1;
        assert args[..ofs] == k.pieces + [args[ofs - 1]];
      }
      assert CutTurn(s, start, t, k) == Ok(Cut(args[..ofs], cur, stack));
      t := t + 1;
    }
    ghost var k := Cut(args[..ofs], cur, stack);
    CutEnd(s, start, b, k);
    if cur != t {
      args[ofs] := Piece(cur, t, stack);
      ofs := ofs + 1;
      assert args[..ofs] == k.pieces + [Piece(cur, t, stack)];
    }
    r, depth := Ok(args[..ofs]), stack;
  }

  lemma CutStep(s: string, start: nat, end: nat, t: nat, k: Cut)
    requires t < end
    ensures CutFrom(s, start, end, t, k) ==
      match CutTurn(s, start, t, k) { case Ok(k') => CutFrom(s, start, end, t + 1, k') case Fail(e) => Fail(e) }
  {
  }

  lemma CutEnd(s: string, start: nat, end: nat, k: Cut)
    ensures CutFrom(s, start, end, end, k) == Ok(k)
  {
  }

  /** A number operand: immediate or absolute. */
  method NumberOperand(s: string, from: nat, e: nat, mode: Mode, long: Mode) returns (r: Result<Operand>)
    requires from <= e <= |s|
    ensures r == Valued(ValueAt(s, from, e, true), mode, long)
  {
    var parsed := GetVal(s, from, e, true);
    if parsed.Fail? { return Fail(parsed.error); }
    var arg := BLANK.(value := parsed.value.val);
    if parsed.value.ok { arg := arg.(mode := if arg.value.size == VSIZE_W then mode else long); }
    r := Ok(arg);
  }

  /** The case of one piece. */
  method One(s: string, start: nat, from: nat, e: nat) returns (r: Result<Operand>)
    requires from <= e <= |s|
    ensures r == Single(s, start, from, e)
  {
    hide RegisterAt, ValueAt, Direct, Indirect, Stepping, Valued;
    if from == e {
      r := NumberOperand(s, from, e, AbsoluteShort, AbsoluteLong);
      return;
    }
    var ok, reg := GetReg(s, from, e);
    if ok { return Ok(Direct(reg)); }
    if s[from] == '#' {
      r := NumberOperand(s, from + 1, e, Immediate, Immediate);
      return;
    }
    if At(s, start) == '(' {
      ok, reg := GetReg(s, from + 1, Back(e, 2));
      if ok && At(s, Back(e, 2)) == ')' && s[e - 1] == '+' { return Ok(Stepping(reg, PostIncrement)); }
    }
    if s[from] == '-' && At(s, from + 1) == '(' {
      ok, reg := GetReg(s, from + 2, e - 1);
      if ok && s[e - 1] == ')' { return Ok(Stepping(reg, PreDecrement)); }
    }
    if s[from] == '(' {
      ok, reg := GetReg(s, from + 1, e - 1);
      if ok && s[e - 1] == ')' { return Ok(Indirect(reg)); }
    }
    r := NumberOperand(s, from, e, AbsoluteShort, AbsoluteLong);
  }

  /** One part of a bit field. */
  method ReadPart(s: string, from: nat, t: nat, was: Value) returns (r: Result<Value>)
    requires from <= t <= |s|
    ensures r == FieldPart(s, from, t, was)
  {
    hide RegisterAt, ValueAt;
    var ok, reg := GetReg(s, from, t);
    if ok && reg.IsData() { return Ok(was.(uint := reg.idx - REG_D0 + BF_REGISTER)); }
    var parsed := GetVal(s, from, t, true);
    if parsed.Fail? { return Fail(parsed.error); }
    r := if parsed.value.ok then Ok(parsed.value.val) else Fail(InvalidBitfield);
  }

  lemma FieldStep(s: string, from: nat, t: nat, end: nat, k: FieldState, f: BitField)
    requires from <= t && end <= |s|
    ensures t >= end ==> FieldFrom(s, from, t, end, k, f) == if k == FieldEnd then Ok(f) else Fail(InvalidBitfield)
    ensures t < end && k == FieldEnd ==> FieldFrom(s, from, t, end, k, f) == Fail(InvalidBitfield)
    ensures t < end && k != FieldEnd && IsAlnum(At(s, t)) ==>
      FieldFrom(s, from, t, end, k, f) == FieldFrom(s, from, t + 1, end, k, f)
    ensures t < end && k != FieldEnd && !IsAlnum(At(s, t)) && At(s, t) != (if k == InOffset then ':' else '}') ==>
      FieldFrom(s, from, t, end, k, f) == Fail(InvalidBitfield)
    ensures t < end && k == InOffset && At(s, t) == ':' ==> var v := FieldPart(s, from, t, f.offset);
      FieldFrom(s, from, t, end, k, f)
      == if v.Fail? then Fail(v.error) else FieldFrom(s, t + 1, t + 1, end, InWidth, f.(offset := v.value))
    ensures t < end && k == InWidth && At(s, t) == '}' ==> var v := FieldPart(s, from, t, f.width);
      FieldFrom(s, from, t, end, k, f)
      == if v.Fail? then Fail(v.error) else FieldFrom(s, from, t + 1, end, FieldEnd, f.(width := v.value))
  {
  }

  /** The loop over a bit field. */
  method ReadField(s: string, b: nat, end: nat) returns (r: Result<BitField>)
    requires b <= end <= |s|
    ensures r == FieldAt(s, b, end)
  {
    hide FieldFrom, FieldPart, IsAlnum;
    if At(s, b) != '{' { return Ok(NO_FIELD); }
    var f, k, t: nat, from: nat := NO_FIELD, InOffset, b + 1, b + 1;
    while t < end
      invariant from <= t
      invariant FieldFrom(s, from, t, end, k, f) == FieldFrom(s, b + 1, b + 1, end, InOffset, NO_FIELD)
      decreases end - t
    {
      FieldStep(s, from, t, end, k, f);
      if k == FieldEnd { return Fail(InvalidBitfield); }
      if !IsAlnum(At(s, t)) {
        if At(s, t) != (if k == InOffset then ':' else '}') { return Fail(InvalidBitfield); }
        var part := ReadPart(s, from, t, if k == InOffset then f.offset else f.width);
        if part.Fail? { return Fail(part.error); }
        if k == InOffset { f, k, from := f.(offset := part.value), InWidth, t + 1; }
        else { f, k := f.(width := part.value), FieldEnd; }
      }
      t := t + 1;
    }
    FieldStep(s, from, t, end, k, f);
    r := if k == FieldEnd then Ok(f) else Fail(InvalidBitfield);
  }

  /** The loop over two or three pieces. There is room for two registers and one displacement: `stray` says
      that a piece was read into the place behind them, which here is a cell that nothing else uses. */
  method Gather(s: string, ps: seq<Piece>) returns (r: Result<Found>, stray: bool)
    requires |ps| <= 3 && forall j | 0 <= j < |ps| :: ps[j].from <= ps[j].end <= |s|
    ensures r == SortFrom(s, ps, 0, Found([], NO_VALUE, false))
    ensures stray == StraysFrom(s, ps, 0, Found([], NO_VALUE, false))
  {
    hide RegisterAt, ValueAt, SortFrom, StraysFrom;
    var regs := new Reg[3](_ => NO_REG);
    var disp := new Value[2](_ => NO_VALUE);
    var rcount, dcount, i := 0, 0, 0;
    stray := false;
    ghost var whole := StraysFrom(s, ps, 0, Found([], NO_VALUE, false));
    while i < |ps|
      invariant i <= |ps| && rcount <= 2 && dcount <= 1
      invariant SortFrom(s, ps, i, Found(regs[..rcount], disp[0], dcount == 1))
             == SortFrom(s, ps, 0, Found([], NO_VALUE, false))
      invariant stray ==> whole
      invariant !stray ==> StraysFrom(s, ps, i, Found(regs[..rcount], disp[0], dcount == 1)) == whole
    {
      ghost var f := Found(regs[..rcount], disp[0], dcount == 1);
      SortStep(s, ps, i, f);
      StraysStep(s, ps, i, f);
      var ok, reg := GetReg(s, ps[i].from, ps[i].end);
      stray := stray || rcount == 2 || (dcount == 1 && !ok);
      if ok {
        if ps[i].depth == 0 { return Fail(InvalidAddressingMode), stray; }
        if !(reg.IsData() || reg.IsAddr() || reg.IsPc()) { return Fail(InvalidRegister), stray; }
        regs[rcount] := reg;
        rcount := rcount + 1;
        if rcount > 2 { return Fail(TooManyRegisters), stray; }
        assert regs[..rcount] == f.regs + [reg];
      } else {
        var parsed := GetVal(s, ps[i].from, ps[i].end, true);
        if parsed.Fail? { return Fail(parsed.error), stray; }
        disp[dcount] := parsed.value.val;
        if parsed.value.ok {
          dcount := dcount + 1;
          if dcount > 1 { return Fail(TooManyDisplacements), stray; }
        }
        assert regs[..rcount] == f.regs;
      }
      i := i + 1;
    }
    SortDone(s, ps, Found(regs[..rcount], disp[0], dcount == 1));
    StraysDone(s, ps, Found(regs[..rcount], disp[0], dcount == 1));
    r := Ok(Found(regs[..rcount], disp[0], dcount == 1));
  }

  lemma StraysDone(s: string, ps: seq<Piece>, f: Found)
    requires forall j | 0 <= j < |ps| :: ps[j].from <= ps[j].end <= |s|
    ensures !StraysFrom(s, ps, |ps|, f)
  {
  }

  lemma StraysStep(s: string, ps: seq<Piece>, i: nat, f: Found)
    requires i < |ps| && forall j | 0 <= j < |ps| :: ps[j].from <= ps[j].end <= |s|
    ensures StraysFrom(s, ps, i, f) ==
      var reading := ReadPiece(s, ps[i]);
      (|f.regs| > 1 || (f.counted && !reading.Register?)
       || (Sort(f, reading, ps[i].depth).Ok? && StraysFrom(s, ps, i + 1, Sort(f, reading, ps[i].depth).value)))
  {
  }

  lemma SortStep(s: string, ps: seq<Piece>, i: nat, f: Found)
    requires i < |ps| && forall j | 0 <= j < |ps| :: ps[j].from <= ps[j].end <= |s|
    ensures SortFrom(s, ps, i, f) ==
      match Sort(f, ReadPiece(s, ps[i]), ps[i].depth)
      case Ok(f') => SortFrom(s, ps, i + 1, f')
      case Fail(e) => Fail(e)
  {
  }

  lemma SortDone(s: string, ps: seq<Piece>, f: Found)
    requires forall j | 0 <= j < |ps| :: ps[j].from <= ps[j].end <= |s|
    ensures SortFrom(s, ps, |ps|, f) == Ok(f)
  {
  }

  function RegAt(regs: seq<Reg>, i: int): Option<Reg>
    requires i < |regs|
  {
    if i < 0 then None else Some(regs[i])
  }

  /** The loop that tells the address register from the index register. */
  method Choose(regs: seq<Reg>) returns (r: Result<Roles>)
    ensures r == AssignFrom(regs, 0, Roles(None, None))
  {
    var index, address, i := -1, -1, 0;
    while i < |regs|
      invariant 0 <= i <= |regs| && -1 <= index < i && -1 <= address < i
      invariant AssignFrom(regs, i, Roles(RegAt(regs, address), RegAt(regs, index)))
             == AssignFrom(regs, 0, Roles(None, None))
    {
      if Addresses(regs[i]) {
        if address < 0 { address := i; }
        else if index < 0 { index := i; }
        else { return Fail(TooManyRegisters); }
      } else {
        if index < 0 { index := i; }
        else { return Fail(TooManyRegisters); }
      }
      i := i + 1;
    }
    r := Ok(Roles(RegAt(regs, address), RegAt(regs, index)));
  }

  /** The pieces of an operand, and then what they are read as. */
  method Classify(s: string, start: nat, b: nat, ps: seq<Piece>) returns (r: Result<Operand>, stray: bool)
    requires start < b <= |s| && Pieces(s, start, b) == Ok(ps)
    ensures r == OperandAt(s, start, b) && stray == StraysIn(s, start, b)
  {
    hide Single, SortFrom, AssignFrom, Select, Pieces, Inside, StraysFrom;
    var arg := BLANK;
    stray := false;
    PiecesAt(s, start, b);
    if |ps| == 1 {
      var one := One(s, start, ps[0].from, ps[0].end);
      if one.Fail? { return one, stray; }
      arg := one.value;
    } else if |ps| == 2 || |ps| == 3 {
      var f: Result<Found>;
      f, stray := Gather(s, ps);
      if f.Fail? { return Fail(f.error), stray; }
      var k := Choose(f.value.regs);
      if k.Fail? { return Fail(k.error), stray; }
      arg := Select(k.value, f.value.disp, f.value.counted);
    }
    r := Ok(Settle(arg));
  }

  lemma PiecesIs(s: string, start: nat, b: nat, k: Cut)
    requires start < b <= |s| && CutFrom(s, start, b, start, Cut([], start, 0)) == Ok(k)
    ensures Pieces(s, start, b) == if k.depth != 0 then Fail(UnmatchedParentheses) else Ok(Finished(k, b))
  {
  }

  /** `opmangle`. `stray` says that something was written outside an array on the way; the result is what the
      program goes on with if nothing else was hit by it. */
  method OpMangle(s: string, start: nat, end: nat) returns (r: Result<(Operand, BitField)>, stray: bool)
    requires start <= end <= |s|
    ensures r == WholeAt(s, start, end) && stray == Strays(s, start, end)
  {
    hide Pieces, FieldAt, OperandAt, StraysIn, CutFrom;
    stray := end - start > COPY_ROOM;
    if end == start {
      EmptyStrays(s, start);
      return Fail(InvalidArgument), stray;
    }
    var cut, b, depth := Split(s, start, end);
    CutPieces(s, start, b);
    if cut.Fail? { return Fail(cut.error), stray; }
    ghost var k := CutFrom(s, start, b, start, Cut([], start, 0)).value;
    var field := ReadField(s, b, end);
    if field.Fail? { return Fail(field.error), stray; }
    if b == start { return Fail(InvalidOperand), stray; }
    PiecesIs(s, start, b, k);
    if depth != 0 {
      DeepOperand(s, start, b);
      return Fail(UnmatchedParentheses), stray;
    }
    var arg, outside := Classify(s, start, b, cut.value);
    stray := stray || outside;
    r := if arg.Ok? then Ok((arg.value, field.value)) else Fail(arg.error);
  }

  lemma EmptyStrays(s: string, start: nat)
    requires start <= |s|
    ensures !Strays(s, start, start)
  {
  }

  lemma CutPieces(s: string, start: nat, b: nat)
    requires start <= b <= |s|
    ensures CutFrom(s, start, b, start, Cut([], start, 0)).Fail? ==> Pieces(s, start, b).Fail?
  {
  }

  lemma DeepOperand(s: string, start: nat, b: nat)
    requires start < b <= |s| && Pieces(s, start, b) == Fail(UnmatchedParentheses)
    ensures OperandAt(s, start, b) == Fail(UnmatchedParentheses)
  {
  }

  lemma PiecesAt(s: string, start: nat, end: nat)
    requires start <= end <= |s|
    ensures Pieces(s, start, end).Ok? ==>
      forall i | 0 <= i < |Pieces(s, start, end).value| ::
        Pieces(s, start, end).value[i].from <= Pieces(s, start, end).value[i].end <= |s|
  {
    PiecesInside(s, start, end);
  }
}
