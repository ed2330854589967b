/** The two ways of writing an operand, d(An,Xn) and (d,An,Xn) or (An,Xn,d), are the same (README:51). */
module OperandSyntax {
  import opened Basics
  import opened Text
  import opened Registers
  import opened Values
  import opened Addressing
  import opened Operands
  import opened Selection

  // ---------------------------------------------------------------- lists of tokens

  predicate Special(c: char) { Delimits(c) || c == '{' }

  /** A token without characters that structure an operand. */
  predicate Clean(tok: string) {
    tok != "" && forall i | 0 <= i < |tok| :: !Special(tok[i])
  }

  predicate AllClean(ts: seq<string>) { forall i | 0 <= i < |ts| :: Clean(ts[i]) }

  function Join(ts: seq<string>): string
    requires ts != []
  {
    if |ts| == 1 then ts[0] else ts[0] + "," + Join(ts[1..])
  }

  /** The pieces of a list of tokens that starts at t. */
  function PiecesOf(t: nat, ts: seq<string>): seq<Piece>
    decreases |ts|
  {
    if ts == [] then [] else [Piece(t, t + |ts[0]|, 1)] + PiecesOf(t + |ts[0]| + 1, ts[1..])
  }

  lemma {:induction false} SkipClean(s: string, start: nat, end: nat, t: nat, n: nat, k: Cut)
    requires t <= n <= end <= |s| && forall m | t <= m < n :: !Special(s[m])
    ensures CutFrom(s, start, end, t, k) == CutFrom(s, start, end, n, k)
    decreases n - t
  {
    if t >= n {
    } else {
      assert !Special(s[t]);
      SkipClean(s, start, end, t + 1, n, k);
    }
  }

  /** A token in the text. */
  lemma TokenAt(s: string, t: nat, tok: string)
    requires t + |tok| <= |s| && s[t..t + |tok|] == tok && Clean(tok)
    ensures forall m | t <= m < t + |tok| :: !Special(s[m])
  {
    forall m | t <= m < t + |tok| ensures !Special(s[m]) {
      Within(s, t, t + |tok|, m);
    }
  }

  /** The tokens of a list, one after the other: this is how the text of a list looks. */
  ghost predicate ListAt(s: string, t: nat, end: nat, ts: seq<string>)
    decreases |ts|
  {
    && ts != [] && t + |ts[0]| < end <= |s| && s[t..t + |ts[0]|] == ts[0]
    && (if |ts| == 1 then s[t + |ts[0]|] == ')' && end == t + |ts[0]| + 1
        else s[t + |ts[0]|] == ',' && ListAt(s, t + |ts[0]| + 1, end, ts[1..]))
  }

  lemma {:induction false} JoinIsList(s: string, t: nat, end: nat, ts: seq<string>)
    requires ts != [] && t <= end <= |s| && s[t..end] == Join(ts) + ")"
    ensures ListAt(s, t, end, ts)
    decreases |ts|
  {
    if |ts| == 1 {
      assert s[t..end] == ts[0] + ")" + "";
      Parts(s, t, end, ts[0], ")", "");
      Within(s, t, end, t + |ts[0]|);
    } else {
      var rest := Join(ts[1..]) + ")";
      assert s[t..end] == ts[0] + "," + rest;
      Parts(s, t, end, ts[0], ",", rest);
      Within(s, t + |ts[0]|, t + |ts[0]| + 1, t + |ts[0]|);
      JoinIsList(s, t + |ts[0]| + 1, end, ts[1..]);
    }
  }

  /** A token followed by a comma or a parenthesis becomes a piece. */
  lemma CutToken(s: string, start: nat, end: nat, t: nat, n: nat, k: Cut)
    requires t <= n < end <= |s| && (forall m | t <= m < n :: !Special(s[m])) && |k.pieces| + 1 < MAX_PIECES
    requires k.depth == 1 && (s[n] == ',' || (s[n] == ')' && k.pieces != []))
    ensures var cur := if k.pieces == [] && At(s, k.cur) == '(' then k.cur + 1 else k.cur;
      CutFrom(s, start, end, t, k)
      == CutFrom(s, start, end, n + 1, Cut(k.pieces + [Piece(cur, n, 1)], n + 1, if s[n] == ')' then 0 else 1))
  {
    hide CutFrom, Special;
    SkipClean(s, start, end, t, n, k);
    CutStep(s, start, end, n, k);
  }

  /** Inside parentheses every token becomes a piece. */
  lemma {:induction false} CutList(s: string, start: nat, end: nat, t: nat, ps: seq<Piece>, ts: seq<string>)
    requires ListAt(s, t, end, ts) && AllClean(ts) && ps != [] && |ps| + |ts| < MAX_PIECES
    ensures CutFrom(s, start, end, t, Cut(ps, t, 1)) == Ok(Cut(ps + PiecesOf(t, ts), end, 0))
    decreases |ts|
  {
    hide CutFrom, CutTurn, Special, Clean, Join;
    var n, k := t + |ts[0]|, Cut(ps, t, 1);
    var ps' := ps + [Piece(t, n, 1)];
    TokenAt(s, t, ts[0]);
    CutToken(s, start, end, t, n, k);
    if |ts| == 1 {
      OnePiece(t, ts);
      CutEnd(s, start, end, Cut(ps', end, 0));
    } else {
      CutList(s, start, end, n + 1, ps', ts[1..]);
      assert ps' + PiecesOf(n + 1, ts[1..]) == ps + ([Piece(t, n, 1)] + PiecesOf(n + 1, ts[1..]));
    }
  }

  lemma OnePiece(t: nat, ts: seq<string>)
    requires |ts| == 1
    ensures PiecesOf(t, ts) == [Piece(t, t + |ts[0]|, 1)]
  {
  }

  // ---------------------------------------------------------------- both forms

  /** d(x,...) */
  function Outside(d: string, ts: seq<string>): string
    requires ts != []
  {
    d + "(" + (Join(ts) + ")")
  }

  /** (x,...) */
  function Enclosed(ts: seq<string>): string
    requires ts != []
  {
    "(" + (Join(ts) + ")")
  }

  lemma OutsidePieces(s: string, start: nat, end: nat, d: string, ts: seq<string>)
    requires start <= end <= |s| && ts != [] && s[start..end] == Outside(d, ts)
    requires Clean(d) && d != "-" && AllClean(ts) && |ts| < 4
    ensures Pieces(s, start, end) == Ok([Piece(start, start + |d|, 0)] + PiecesOf(start + |d| + 1, ts))
    ensures ListAt(s, start + |d| + 1, end, ts) && s[start..start + |d|] == d && At(s, start + |d|) == '('
  {
    hide CutFrom, Special, Clean, Join, PiecesOf, ListAt;
    var t, k := start + |d|, Cut([], start, 0);
    OutsideParts(s, start, end, d, ts);
    SkipClean(s, start, end, start, t, k);
    CutStep(s, start, end, t, k);
    assert k.pieces + [Piece(start, t, 0)] == [Piece(start, t, 0)];
    CutList(s, start, end, t + 1, [Piece(start, t, 0)], ts);
  }

  lemma OutsideParts(s: string, start: nat, end: nat, d: string, ts: seq<string>)
    requires start <= end <= |s| && ts != [] && s[start..end] == Outside(d, ts) && Clean(d) && d != "-"
    ensures var t := start + |d|;
      && start < t < end && s[start..t] == d && s[t] == '(' && ListAt(s, t + 1, end, ts)
      && (forall m | start <= m < t :: !Special(s[m])) && !Predecrement(Cut([], start, 0), s, start, t)
  {
    hide Join, ListAt;
    var t := start + |d|;
    Parts(s, start, end, d, "(", Join(ts) + ")");
    Within(s, t, t + 1, t);
    TokenAt(s, start, d);
    JoinIsList(s, t + 1, end, ts);
    if |d| == 1 { Within(s, start, t, start); }
  }

  lemma WithinPieces(s: string, start: nat, end: nat, ts: seq<string>)
    requires start <= end <= |s| && |ts| >= 2 && s[start..end] == Enclosed(ts)
    requires AllClean(ts) && |ts| < MAX_PIECES
    ensures Pieces(s, start, end) == Ok(PiecesOf(start + 1, ts)) && ListAt(s, start + 1, end, ts)
  {
    hide CutFrom, Special, Clean, Join, PiecesOf, CutTurn, ListAt;
    var t, n := start + 1, start + 1 + |ts[0]|;
    WithinParts(s, start, end, ts);
    OpenStep(s, start, end);
    ListParts(s, t, end, ts);
    TokenAt(s, t, ts[0]);
    CutToken(s, start, end, t, n, Cut([], start, 1));
    assert [] + [Piece(t, n, 1)] == [Piece(t, n, 1)];
    CutList(s, start, end, n + 1, [Piece(t, n, 1)], ts[1..]);
    MorePieces(t, ts);
  }

  lemma ListParts(s: string, t: nat, end: nat, ts: seq<string>)
    requires ListAt(s, t, end, ts) && |ts| >= 2
    ensures var n := t + |ts[0]|; n < end <= |s| && s[t..n] == ts[0] && s[n] == ',' && ListAt(s, n + 1, end, ts[1..])
  {
  }

  lemma OpenStep(s: string, start: nat, end: nat)
    requires start < end && At(s, start) == '('
    ensures CutFrom(s, start, end, start, Cut([], start, 0)) == CutFrom(s, start, end, start + 1, Cut([], start, 1))
  {
    hide CutFrom;
    CutStep(s, start, end, start, Cut([], start, 0));
  }

  lemma MorePieces(t: nat, ts: seq<string>)
    requires ts != []
    ensures PiecesOf(t, ts) == [Piece(t, t + |ts[0]|, 1)] + PiecesOf(t + |ts[0]| + 1, ts[1..])
  {
  }

  lemma WithinParts(s: string, start: nat, end: nat, ts: seq<string>)
    requires start <= end <= |s| && ts != [] && s[start..end] == Enclosed(ts)
    ensures start < end && s[start] == '(' && ListAt(s, start + 1, end, ts)
  {
    hide Join, ListAt;
    assert s[start..end] == "(" + (Join(ts) + ")") + "";
    Parts(s, start, end, "(", Join(ts) + ")", "");
    Within(s, start, start + 1, start);
    JoinIsList(s, start + 1, end, ts);
  }

  // ---------------------------------------------------------------- readings

  /** What a token is read as, standing alone. */
  function ReadToken(tok: string): Reading {
    ReadPiece(tok, Piece(0, |tok|, 0))
  }

  lemma PieceIsToken(s: string, p: Piece, tok: string)
    requires p.from <= p.end <= |s| && s[p.from..p.end] == tok && Delimits(At(s, p.end))
    ensures ReadPiece(s, p) == ReadToken(tok)
  {
    assert tok[0..|tok|] == tok;
    AlikeSlices(s, p.from, tok, 0, |tok|);
    RegisterSame(s, p.from, tok, 0, |tok|);
    ValueSame(s, p.from, tok, 0, |tok|, true);
  }

  function SortTokens(f: Found, ts: seq<string>): Result<Found>
    decreases |ts|
  {
    if ts == [] then Ok(f)
    else
      var f' :- Sort(f, ReadToken(ts[0]), 1);
      SortTokens(f', ts[1..])
  }

  ghost predicate Bounded(s: string, ps: seq<Piece>) {
    forall j | 0 <= j < |ps| :: ps[j].from <= ps[j].end <= |s|
  }

  lemma {:induction false} SortList(s: string, t: nat, end: nat, ps: seq<Piece>, i: nat, ts: seq<string>, f: Found)
    requires Bounded(s, ps) && i <= |ps| && ps[i..] == PiecesOf(t, ts) && ListAt(s, t, end, ts)
    ensures SortFrom(s, ps, i, f) == SortTokens(f, ts)
    decreases |ts|
  {
    hide Sort, ReadPiece, SortFrom, SortTokens;
    var n := t + |ts[0]|;
    MorePieces(t, ts);
    assert i < |ps| && ps[i] == ps[i..][0] == Piece(t, n, 1);
    assert ps[i + 1..] == ps[i..][1..] == PiecesOf(n + 1, ts[1..]);
    PieceIsToken(s, ps[i], ts[0]);
    SortStep(s, ps, i, f);
    SortTokensStep(f, ts);
    var f' := Sort(f, ReadToken(ts[0]), 1);
    if f'.Fail? {
    } else {
      if |ts| == 1 {
        assert PiecesOf(n + 1, ts[1..]) == [];
        SortDone(s, ps, f'.value);
        SortTokensDone(f'.value);
      } else {
        SortList(s, n + 1, end, ps, i + 1, ts[1..], f'.value);
      }
    }
  }

  lemma SortTokensStep(f: Found, ts: seq<string>)
    requires ts != []
    ensures SortTokens(f, ts) ==
      match Sort(f, ReadToken(ts[0]), 1) { case Ok(f') => SortTokens(f', ts[1..]) case Fail(e) => Fail(e) }
  {
  }

  lemma SortTokensDone(f: Found)
    ensures SortTokens(f, []) == Ok(f)
  {
  }

  const NOTHING := Found([], NO_VALUE, false)

  /** The operand made of a list of tokens in parentheses. */
  function TokenOperand(ts: seq<string>): Result<Operand> {
    var f :- SortTokens(NOTHING, ts);
    var k :- AssignFrom(f.regs, 0, Roles(None, None));
    Ok(Settle(Select(k, f.disp, f.counted)))
  }

  lemma {:induction false} PiecesBounded(s: string, t: nat, end: nat, ts: seq<string>)
    requires ListAt(s, t, end, ts)
    ensures |PiecesOf(t, ts)| == |ts| && Bounded(s, PiecesOf(t, ts))
    decreases |ts|
  {
    MorePieces(t, ts);
    if |ts| <= 1 {
    } else {
      PiecesBounded(s, t + |ts[0]| + 1, end, ts[1..]);
    }
  }

  lemma InsideOperand(s: string, start: nat, end: nat, ts: seq<string>)
    requires start <= end <= |s| && 2 <= |ts| <= 3 && s[start..end] == Enclosed(ts) && AllClean(ts)
    ensures OperandAt(s, start, end) == TokenOperand(ts)
  {
    hide Pieces, PiecesOf, SortFrom, SortTokens, AssignFrom, Select, Join, ListAt, AllClean, Bounded, Single;
    WithinPieces(s, start, end, ts);
    var ps := PiecesOf(start + 1, ts);
    PiecesBounded(s, start + 1, end, ts);
    assert ps[0..] == ps;
    SortList(s, start + 1, end, ps, 0, ts, NOTHING);
    SeveralIs(s, ps);
  }

  lemma SeveralIs(s: string, ps: seq<Piece>)
    requires Bounded(s, ps)
    ensures Several(s, ps) ==
      match SortFrom(s, ps, 0, NOTHING)
      case Fail(e) => Fail(e)
      case Ok(f) =>
        match AssignFrom(f.regs, 0, Roles(None, None))
        case Fail(e) => Fail(e)
        case Ok(k) => Ok(Select(k, f.disp, f.counted))
  {
  }

  /** A register outside the parentheses is refused; a displacement is the same as inside. */
  lemma OutsideOperand(s: string, start: nat, end: nat, d: string, ts: seq<string>)
    requires start <= end <= |s| && 1 <= |ts| <= 2 && s[start..end] == Outside(d, ts)
    requires Clean(d) && d != "-" && AllClean(ts)
    ensures OperandAt(s, start, end)
         == if ReadToken(d).Register? then Fail(InvalidAddressingMode) else TokenOperand([d] + ts)
  {
    hide Pieces, PiecesOf, SortFrom, SortTokens, AssignFrom, Select, Join, ListAt, AllClean, Clean, Bounded, Single,
         ReadPiece;
    OutsidePieces(s, start, end, d, ts);
    var t := start + |d|;
    var rest := PiecesOf(t + 1, ts);
    var ps := [Piece(start, t, 0)] + rest;
    PiecesBounded(s, t + 1, end, ts);
    BoundedCons(s, ps[0], rest);
    SeveralIs(s, ps);
    SortStep(s, ps, 0, NOTHING);
    PieceIsToken(s, ps[0], d);
    SortTokensStep(NOTHING, [d] + ts);
    assert ([d] + ts)[1..] == ts && ps[1..] == rest;
    var f := Sort(NOTHING, ReadToken(d), 1);
    if f.Ok? { SortList(s, t + 1, end, ps, 1, ts, f.value); }
  }

  lemma BoundedCons(s: string, p: Piece, ps: seq<Piece>)
    requires Bounded(s, ps) && p.from <= p.end <= |s|
    ensures Bounded(s, [p] + ps)
  {
  }

  /** Tokens that are read as registers an operand may have. */
  predicate AllRegisters(ts: seq<string>) {
    forall i | 0 <= i < |ts| :: ReadToken(ts[i]).Register? && UsableReg(ReadToken(ts[i]).reg)
  }

  predicate UsableReg(r: Reg) { r.IsData() || r.IsAddr() || r.IsPc() }

  /** The place of the displacement among the registers does not matter. */
  lemma DisplacementAnywhere(d: string, ts: seq<string>)
    requires 1 <= |ts| <= 2 && AllRegisters(ts) && ReadToken(d).Numeral?
    ensures SortTokens(NOTHING, [d] + ts) == SortTokens(NOTHING, ts + [d])
  {
    hide ReadToken, SortTokens;
    var x := ReadToken(ts[0]).reg;
    var v := ReadToken(d).value;
    SortTokensStep(NOTHING, [d] + ts);
    SortTokensStep(NOTHING, ts + [d]);
    assert ([d] + ts)[1..] == ts && (ts + [d])[1..] == ts[1..] + [d] && (ts + [d])[0] == ts[0];
    var fd := Found([], if v.Ok? then v.value.val else NO_VALUE, v.Ok? && v.value.ok);
    SortTokensStep(fd, ts);
    SortTokensStep(Found([x], NO_VALUE, false), ts[1..] + [d]);
    if |ts| == 1 {
      assert ts[1..] + [d] == [d] && ts[1..] == [] && [d][1..] == [];
      assert [] + [x] == [x];
      SortTokensDone(fd.(regs := [x]));
    } else {
      var y := ReadToken(ts[1]).reg;
      assert ts[1..][0] == ts[1] && ts[1..][1..] == [] && (ts[1..] + [d])[1..] == [d] && [d][1..] == [];
      SortTokensStep(fd.(regs := [x]), ts[1..]);
      SortTokensStep(Found([x, y], NO_VALUE, false), [d]);
      assert [] + [x] == [x] && [x] + [y] == [x, y];
      SortTokensDone(fd.(regs := [x, y]));
    }
  }

  // ---------------------------------------------------------------- lists that are refused

  predicate IsValue(tok: string) {
    ReadToken(tok).Numeral? && ReadToken(tok).value.Ok? && ReadToken(tok).value.value.ok
  }

  predicate IsUsable(tok: string) { ReadToken(tok).Register? && UsableReg(ReadToken(tok).reg) }

  predicate IsStatus(tok: string) { ReadToken(tok).Register? && !UsableReg(ReadToken(tok).reg) }

  lemma SortedFirst(f: Found, ts: seq<string>)
    requires ts != [] && |f.regs| <= 2
    ensures IsStatus(ts[0]) ==> SortTokens(f, ts) == Fail(InvalidRegister)
    ensures IsValue(ts[0]) && f.counted ==> SortTokens(f, ts) == Fail(TooManyDisplacements)
    ensures IsUsable(ts[0]) && |f.regs| == 2 ==> SortTokens(f, ts) == Fail(TooManyRegisters)
    ensures IsUsable(ts[0]) && |f.regs| < 2 ==>
      SortTokens(f, ts) == SortTokens(f.(regs := f.regs + [ReadToken(ts[0]).reg]), ts[1..])
    ensures IsValue(ts[0]) && !f.counted ==>
      SortTokens(f, ts) == SortTokens(f.(disp := ReadToken(ts[0]).value.value.val, counted := true), ts[1..])
  {
    hide SortTokens, ReadToken;
    SortTokensStep(f, ts);
  }

  /** Two displacements, three registers, and status registers are refused, wherever they stand in the list. */
  lemma ListRefused(a: string, b: string, c: string)
    ensures IsStatus(a) ==> SortTokens(NOTHING, [a, b, c]) == SortTokens(NOTHING, [a, b]) == Fail(InvalidRegister)
    ensures (IsValue(a) || IsUsable(a)) && IsStatus(b) ==>
      SortTokens(NOTHING, [a, b, c]) == SortTokens(NOTHING, [a, b]) == Fail(InvalidRegister)
    ensures IsValue(a) && IsValue(b) ==>
      SortTokens(NOTHING, [a, b, c]) == SortTokens(NOTHING, [a, b]) == Fail(TooManyDisplacements)
    ensures (IsValue(a) && IsUsable(b) && IsValue(c)) || (IsUsable(a) && IsValue(b) && IsValue(c)) ==>
      SortTokens(NOTHING, [a, b, c]) == Fail(TooManyDisplacements)
    ensures IsUsable(a) && IsUsable(b) && IsUsable(c) ==> SortTokens(NOTHING, [a, b, c]) == Fail(TooManyRegisters)
    ensures (IsUsable(a) && IsUsable(b)) || (IsUsable(a) && IsValue(b)) || (IsValue(a) && IsUsable(b)) ==>
      (IsStatus(c) ==> SortTokens(NOTHING, [a, b, c]) == Fail(InvalidRegister))
  {
    hide SortTokens, ReadToken, UsableReg;
    var ts, us := [a, b, c], [a, b];
    assert ts[1..] == [b, c] && us[1..] == [b] && [b, c][1..] == [c];
    SortedFirst(NOTHING, ts);
    SortedFirst(NOTHING, us);
    var f := if IsUsable(a) then NOTHING.(regs := NOTHING.regs + [ReadToken(a).reg])
             else if IsValue(a) then NOTHING.(disp := ReadToken(a).value.value.val, counted := true) else NOTHING;
    SortedFirst(f, [b, c]);
    SortedFirst(f, [b]);
    if IsUsable(b) { SortedFirst(f.(regs := f.regs + [ReadToken(b).reg]), [c]); }
    if IsValue(b) { SortedFirst(f.(disp := ReadToken(b).value.value.val, counted := true), [c]); }
  }

  /** Two registers neither of which can be the base are refused. */
  lemma NoBaseRefused(x: Reg, y: Reg)
    requires IsIndex(x) && IsIndex(y) && !IsBase(x) && !IsBase(y)
    ensures AssignFrom([x, y], 0, Roles(None, None)) == Fail(TooManyRegisters)
  {
    var regs := [x, y];
    assert AssignFrom(regs, 1, Roles(None, Some(x))) == Fail(TooManyRegisters);
  }

  /** A list of four is no addressing mode; five and more have no room. */
  lemma LongList(s: string, start: nat, end: nat, ts: seq<string>)
    requires start <= end <= |s| && 4 <= |ts| && s[start..end] == Enclosed(ts) && AllClean(ts)
    ensures |ts| == 4 ==> OperandAt(s, start, end) == Ok(Settle(BLANK))
    ensures |ts| > 4 ==> OperandAt(s, start, end) == Fail(BufferOverrun)
  {
    hide Pieces, PiecesOf, Join, ListAt, AllClean, Clean, Special, CutFrom;
    if |ts| == 4 {
      WithinPieces(s, start, end, ts);
      PiecesBounded(s, start + 1, end, ts);
    } else {
      WithinParts(s, start, end, ts);
      OpenStep(s, start, end);
      ListParts(s, start + 1, end, ts);
      FirstClean(ts);
      var t, n := start + 1, start + 1 + |ts[0]|;
      TokenAt(s, t, ts[0]);
      CutToken(s, start, end, t, n, Cut([], start, 1));
      assert [] + [Piece(t, n, 1)] == [Piece(t, n, 1)];
      CutOverrun(s, start, end, n + 1, [Piece(t, n, 1)], ts[1..]);
      NoRoomFails(s, start, end);
    }
  }

  lemma FirstClean(ts: seq<string>)
    requires AllClean(ts) && ts != []
    ensures Clean(ts[0]) && AllClean(ts[1..])
  {
  }

  lemma NoRoomFails(s: string, start: nat, end: nat)
    requires start < end <= |s| && CutFrom(s, start, end, start, Cut([], start, 0)) == Fail(BufferOverrun)
    ensures OperandAt(s, start, end) == Fail(BufferOverrun)
  {
    hide CutFrom;
  }

  /** The fifth piece cannot be closed. */
  lemma {:induction false} CutOverrun(s: string, start: nat, end: nat, t: nat, ps: seq<Piece>, ts: seq<string>)
    requires ListAt(s, t, end, ts) && AllClean(ts) && ps != [] && |ps| < MAX_PIECES <= |ps| + |ts|
    ensures CutFrom(s, start, end, t, Cut(ps, t, 1)) == Fail(BufferOverrun)
    decreases |ts|
  {
    hide CutFrom, Special, Clean, Join, AllClean;
    FirstClean(ts);
    var n, k := t + |ts[0]|, Cut(ps, t, 1);
    TokenAt(s, t, ts[0]);
    if |ps| + 1 == MAX_PIECES {
      SkipClean(s, start, end, t, n, k);
      CutStep(s, start, end, n, k);
    } else {
      CutToken(s, start, end, t, n, k);
      CutOverrun(s, start, end, n + 1, ps + [Piece(t, n, 1)], ts[1..]);
    }
  }

  // ---------------------------------------------------------------- which forms write behind the arrays

  predicate StrayTokens(f: Found, ts: seq<string>)
    decreases |ts|
  {
    ts != [] &&
      var reading := ReadToken(ts[0]);
      || |f.regs| > 1
      || (f.counted && !reading.Register?)
      || (Sort(f, reading, 1).Ok? && StrayTokens(Sort(f, reading, 1).value, ts[1..]))
  }

  lemma StrayTokensStep(f: Found, ts: seq<string>)
    requires ts != []
    ensures StrayTokens(f, ts) ==
      var reading := ReadToken(ts[0]);
      (|f.regs| > 1 || (f.counted && !reading.Register?)
       || (Sort(f, reading, 1).Ok? && StrayTokens(Sort(f, reading, 1).value, ts[1..])))
    ensures !StrayTokens(f, [])
  {
  }

  lemma {:induction false} StrayList(s: string, t: nat, end: nat, ps: seq<Piece>, i: nat, ts: seq<string>, f: Found)
    requires Bounded(s, ps) && i <= |ps| && ps[i..] == PiecesOf(t, ts) && ListAt(s, t, end, ts)
    ensures StraysFrom(s, ps, i, f) == StrayTokens(f, ts)
    decreases |ts|
  {
    hide Sort, ReadPiece, StraysFrom, StrayTokens;
    var n := t + |ts[0]|;
    MorePieces(t, ts);
    assert i < |ps| && ps[i] == ps[i..][0] == Piece(t, n, 1);
    assert ps[i + 1..] == ps[i..][1..] == PiecesOf(n + 1, ts[1..]);
    PieceIsToken(s, ps[i], ts[0]);
    StraysStep(s, ps, i, f);
    StrayTokensStep(f, ts);
    var f' := Sort(f, ReadToken(ts[0]), 1);
    if f'.Fail? {
    } else if |ts| == 1 {
      assert PiecesOf(n + 1, ts[1..]) == [];
      StraysDone(s, ps, f'.value);
      StrayTokensStep(f'.value, ts);
    } else {
      StrayList(s, n + 1, end, ps, i + 1, ts[1..], f'.value);
    }
  }

  lemma {:induction false} ListNoBrace(s: string, t: nat, end: nat, ts: seq<string>)
    requires ListAt(s, t, end, ts) && AllClean(ts)
    ensures forall k | t <= k < end :: s[k] != '{'
    decreases |ts|
  {
    hide Clean;
    var n := t + |ts[0]|;
    TokenNoBrace(s, t, ts[0]);
    if |ts| == 1 {
    } else {
      ListNoBrace(s, n + 1, end, ts[1..]);
    }
  }

  lemma TokenNoBrace(s: string, t: nat, tok: string)
    requires t + |tok| <= |s| && s[t..t + |tok|] == tok && Clean(tok)
    ensures forall m | t <= m < t + |tok| :: s[m] != '{'
  {
    TokenAt(s, t, tok);
    forall m | t <= m < t + |tok| ensures s[m] != '{' { assert !Special(s[m]); }
  }

  /** Without a brace only the length and the pieces decide. */
  lemma BareStrays(s: string, start: nat, end: nat)
    requires start < end <= |s| && Pieces(s, start, end).Ok? && forall k | start <= k <= end :: At(s, k) != '{'
    ensures Strays(s, start, end) <==> end - start > COPY_ROOM || StraysIn(s, start, end)
  {
    hide Pieces, StraysIn;
    assert BraceAt(s, start, end) == end;
  }

  lemma EnclosedNoBrace(s: string, start: nat, end: nat, ts: seq<string>)
    requires start <= end <= |s| && ts != [] && s[start..end] == Enclosed(ts) && AllClean(ts) && At(s, end) != '{'
    ensures start < end && forall k | start <= k <= end :: At(s, k) != '{'
  {
    hide Enclosed, ListAt, AllClean;
    WithinParts(s, start, end, ts);
    ListNoBrace(s, start + 1, end, ts);
    forall k | start <= k <= end ensures At(s, k) != '{' {
      if start < k < end { assert s[k] != '{'; }
    }
  }

  /** The pieces of a list in parentheses are its tokens. */
  lemma EnclosedStrays(s: string, start: nat, end: nat, ts: seq<string>)
    requires start <= end <= |s| && 2 <= |ts| <= 3 && s[start..end] == Enclosed(ts) && AllClean(ts)
    ensures Pieces(s, start, end).Ok? && (StraysIn(s, start, end) <==> StrayTokens(NOTHING, ts))
  {
    hide Pieces, PiecesOf, StraysFrom, StrayTokens, Enclosed, ListAt, AllClean, Bounded;
    WithinPieces(s, start, end, ts);
    var ps := PiecesOf(start + 1, ts);
    PiecesBounded(s, start + 1, end, ts);
    assert ps[0..] == ps;
    StrayList(s, start + 1, end, ps, 0, ts, NOTHING);
  }

  lemma InsideStrays(s: string, start: nat, end: nat, ts: seq<string>)
    requires start <= end <= |s| && 2 <= |ts| <= 3 && s[start..end] == Enclosed(ts) && AllClean(ts) && At(s, end) != '{'
    ensures Strays(s, start, end) <==> end - start > COPY_ROOM || StrayTokens(NOTHING, ts)
  {
    hide Pieces, StraysIn, StrayTokens, Enclosed, AllClean, Strays, At;
    EnclosedNoBrace(s, start, end, ts);
    EnclosedStrays(s, start, end, ts);
    BareStrays(s, start, end);
  }

  lemma OutsideStrays(s: string, start: nat, end: nat, d: string, ts: seq<string>)
    requires start <= end <= |s| && 1 <= |ts| <= 2 && s[start..end] == Outside(d, ts) && At(s, end) != '{'
    requires Clean(d) && d != "-" && AllClean(ts) && ReadToken(d).Numeral? && AllRegisters(ts)
    ensures Strays(s, start, end) <==> end - start > COPY_ROOM
  {
    hide Pieces, PiecesOf, StraysFrom, StrayTokens, Join, ListAt, AllClean, Clean, Bounded, ReadPiece, ReadToken,
         AllRegisters;
    OutsidePieces(s, start, end, d, ts);
    var t := start + |d|;
    var rest := PiecesOf(t + 1, ts);
    var ps := [Piece(start, t, 0)] + rest;
    PiecesBounded(s, t + 1, end, ts);
    BoundedCons(s, ps[0], rest);
    StraysStep(s, ps, 0, NOTHING);
    PieceIsToken(s, ps[0], d);
    FrontStrays(d, ts);
    StrayTokensStep(NOTHING, [d] + ts);
    assert ([d] + ts)[1..] == ts && ps[1..] == rest;
    var f := Sort(NOTHING, ReadToken(d), 1);
    if f.Ok? { StrayList(s, t + 1, end, ps, 1, ts, f.value); }
    TokenNoBrace(s, start, d);
    ListNoBrace(s, t + 1, end, ts);
    assert forall k | start <= k <= end :: At(s, k) != '{';
    BareStrays(s, start, end);
  }

  /** A displacement in front never leads behind the arrays. */
  lemma FrontStrays(d: string, ts: seq<string>)
    requires 1 <= |ts| <= 2 && AllRegisters(ts) && ReadToken(d).Numeral?
    ensures !StrayTokens(NOTHING, [d] + ts)
  {
    hide ReadToken, StrayTokens;
    StrayTokensStep(NOTHING, [d] + ts);
    assert ([d] + ts)[1..] == ts;
    var f := Sort(NOTHING, ReadToken(d), 1);
    if f.Ok? {
      StrayTokensStep(f.value, ts);
      var f1 := f.value.(regs := f.value.regs + [ReadToken(ts[0]).reg]);
      if |ts| == 2 {
        assert ts[1..][0] == ts[1] && ts[1..][1..] == [];
        StrayTokensStep(f1, ts[1..]);
        StrayTokensStep(f1.(regs := f1.regs + [ReadToken(ts[1]).reg]), ts);
      } else {
        assert ts[1..] == [];
        StrayTokensStep(f1, ts);
      }
    }
  }

  /** A displacement at the end does exactly behind two registers. */
  lemma BackStrays(d: string, ts: seq<string>)
    requires 1 <= |ts| <= 2 && AllRegisters(ts) && ReadToken(d).Numeral?
    ensures StrayTokens(NOTHING, ts + [d]) <==> |ts| == 2
  {
    hide ReadToken, StrayTokens;
    var x := ReadToken(ts[0]).reg;
    StrayTokensStep(NOTHING, ts + [d]);
    assert (ts + [d])[1..] == ts[1..] + [d] && (ts + [d])[0] == ts[0] && [] + [x] == [x];
    StrayTokensStep(Found([x], NO_VALUE, false), ts[1..] + [d]);
    if |ts| == 2 {
      assert (ts[1..] + [d])[0] == ts[1] && (ts[1..] + [d])[1..] == [d];
      var y := ReadToken(ts[1]).reg;
      StrayTokensStep(Found([x] + [y], NO_VALUE, false), [d]);
    } else {
      assert ts[1..] + [d] == [d] && [d][1..] == [];
      var f := Sort(Found([x], NO_VALUE, false), ReadToken(d), 1);
      if f.Ok? { StrayTokensStep(f.value, [d]); }
    }
  }

  lemma SmallTokens()
    ensures ReadToken("a0").Register? && UsableReg(ReadToken("a0").reg) && Clean("a0")
    ensures ReadToken("d0").Register? && UsableReg(ReadToken("d0").reg) && Clean("d0")
    ensures ReadToken("4").Numeral? && Clean("4")
  {
    hide ReadToken, Clean;
    var a0, d0, l := Reg(REG_A0, 0, RSIZE_DEFAULT), Reg(REG_D0, 0, RSIZE_DEFAULT), Literal(false, false, 4, VSIZE_Z);
    SomeRegisters();
    RegisterToken("a0", a0);
    RegisterToken("d0", d0);
    assert Print(l) == "4";
    LiteralToken("4", l);
  }

  lemma ThreeJoined(a: string, b: string, c: string)
    ensures Join([a, b, c]) == a + "," + (b + "," + c)
  {
    assert [a, b, c][1..] == [b, c] && [b, c][1..] == [c];
    assert Join([c]) == c;
    assert Join([b, c]) == b + "," + c;
  }

  /** The third form with two registers writes outside an array: (a0,d0,4). */
  lemma ThirdFormStrays()
    ensures Strays("(a0,d0,4)", 0, 9)
  {
    hide Strays, ReadToken, Clean, Join, StrayTokens, UsableReg;
    var s, ts := "(a0,d0,4)", ["a0", "d0"];
    SmallTokens();
    ThreeJoined("a0", "d0", "4");
    assert ts + ["4"] == ["a0", "d0", "4"];
    assert s[0..9] == Enclosed(ts + ["4"]);
    InsideStrays(s, 0, 9, ts + ["4"]);
    BackStrays("4", ts);
  }

  // ---------------------------------------------------------------- the two syntaxes

  /** The same operand in the old form d(An,Xn), and in the new form with the displacement in front or at
      the end: for every displacement that is not read as a register (a number, a symbol, or nothing that
      can be read), every one or two registers, and whatever stands around the three. In the last form with two
      registers that rests on a write behind an array that hits nothing else; the other forms do not write
      there, unless they have more than 255 characters. */
  lemma SyntaxEquivalence(a: string, a0: nat, a1: nat, b: string, b0: nat, b1: nat, c: string, c0: nat, c1: nat,
                          d: string, ts: seq<string>)
    requires a0 <= a1 <= |a| && b0 <= b1 <= |b| && c0 <= c1 <= |c|
    requires Clean(d) && d != "-" && AllClean(ts) && 1 <= |ts| <= 2
    requires ReadToken(d).Numeral? && AllRegisters(ts)
    requires a[a0..a1] == Outside(d, ts) && b[b0..b1] == Enclosed([d] + ts) && c[c0..c1] == Enclosed(ts + [d])
    ensures OperandAt(a, a0, a1) == OperandAt(b, b0, b1) == OperandAt(c, c0, c1)
    ensures At(a, a1) != '{' ==> (Strays(a, a0, a1) <==> a1 - a0 > 255)
    ensures At(b, b1) != '{' ==> (Strays(b, b0, b1) <==> b1 - b0 > 255)
    ensures At(c, c1) != '{' ==> (Strays(c, c0, c1) <==> c1 - c0 > 255 || |ts| == 2)
  {
    hide OperandAt, SortTokens, ReadToken, Clean, Strays, StrayTokens, Join;
    OutsideOperand(a, a0, a1, d, ts);
    InsideOperand(b, b0, b1, [d] + ts);
    InsideOperand(c, c0, c1, ts + [d]);
    DisplacementAnywhere(d, ts);
    FrontStrays(d, ts);
    BackStrays(d, ts);
    if At(a, a1) != '{' { OutsideStrays(a, a0, a1, d, ts); }
    if At(b, b1) != '{' { InsideStrays(b, b0, b1, [d] + ts); }
    if At(c, c1) != '{' { InsideStrays(c, c0, c1, ts + [d]); }
  }

  // ---------------------------------------------------------------- from text to the processor

  lemma RegisterToken(tok: string, r: Reg)
    requires Spells(tok, r)
    ensures ReadToken(tok) == Register(r) && Clean(tok)
  {
    hide Spells;
    assert tok[0..|tok|] == tok;
    RegisterRoundTrip(tok, 0, |tok|, r);
    RegisterClean(tok, r);
  }

  lemma RegisterClean(tok: string, r: Reg)
    requires Spells(tok, r)
    ensures Clean(tok)
  {
    var name, times :| Spelled(tok, r, name, times);
    var size := PrintSize(r.size);
    NameClean(name, r.idx);
    assert forall i | 0 <= i < |size| :: !Special(size[i]);
    assert forall i | 0 <= i < |times| :: !Special(times[i]);
    CleanAlike(tok, name + size + times);
  }

  lemma NameClean(name: string, idx: int)
    requires Names(name, idx)
    ensures Clean(name)
  {
    if idx < 16 && name != "sp" { DigitNotSpecial(if idx < REG_A0 then idx else idx - REG_A0); }
  }

  /** Letters structure nothing. */
  lemma CleanAlike(t: string, u: string)
    requires SameLetters(t, u) && Clean(u)
    ensures Clean(t) && (t[0] == u[0] || IsAlpha(u[0])) && (IsAlpha(t[0]) <==> IsAlpha(u[0]))
  {
    forall i | 0 <= i < |t| ensures !Special(t[i]) { assert SameLetter(t[i], u[i]) && !Special(u[i]); }
    assert SameLetter(t[0], u[0]);
  }

  lemma DigitNotSpecial(d: nat)
    requires d < 16
    ensures !Special(DigitChar(d)) && DigitChar(d) != '-'
  {
  }

  lemma {:induction false} DigitsClean(v: nat, base: nat)
    requires 2 <= base <= 16
    ensures Clean(Digits(v, base)) && forall i | 0 <= i < |Digits(v, base)| :: Digits(v, base)[i] != '-'
    decreases v
  {
    hide Digits, DigitChar, Special;
    DigitsStep(v, base);
    if v < base {
      DigitNotSpecial(v);
    } else {
      Shrinks(v, base);
      DigitsClean(v / base, base);
      DigitNotSpecial(v % base);
    }
  }

  /** The value of a literal with no suffix or with `.l`. */
  function LiteralValue(l: Literal): Value {
    var u := Wrap32(Meant(l));
    Value(u, if l.size == VSIZE_L || u >= 0x1_0000 then VSIZE_L else VSIZE_W, None)
  }

  lemma LiteralToken(tok: string, l: Literal)
    requires SameLetters(tok, Print(l)) && l.digits <= LONG_MAX && (l.size == VSIZE_Z || l.size == VSIZE_L)
    ensures ReadToken(tok) == Numeral(Ok(Parsed(true, LiteralValue(l)))) && Clean(tok) && tok != "-"
  {
    hide Print, ValueAt, RegisterAt, Wrap32, Special, SameLetters;
    assert tok[0..|tok|] == tok;
    NumberRoundTrip(tok, 0, |tok|, l, true);
    LiteralClean(tok, l);
    NoLetterNoRegister(tok, 0, |tok|);
  }

  lemma LiteralClean(tok: string, l: Literal)
    requires SameLetters(tok, Print(l))
    ensures Clean(tok) && tok != "-" && !IsAlpha(At(tok, 0)) && tok[0] != '#' && (tok[0] == '-' ==> |tok| > 1)
  {
    hide Special;
    PrintClean(l);
    CleanAlike(tok, Print(l));
  }

  lemma PrintClean(l: Literal)
    ensures Clean(Print(l)) && Print(l) != "-" && !IsAlpha(Print(l)[0])
    ensures Print(l)[0] != '#' && (Print(l)[0] == '-' ==> |Print(l)| > 1)
  {
    hide Digits;
    var prefix := (if l.hex then "$" else "") + (if l.minus then "-" else "");
    var digits, suffix := Digits(l.digits, Radix(l)), PrintSuffix(l.size);
    DigitsClean(l.digits, Radix(l));
    DigitsAreDigits(l.digits, Radix(l));
    assert Print(l) == prefix + digits + suffix;
    assert Print(l)[|prefix|] == digits[0];
    if prefix == "" { DecimalStart(digits); } else { assert Print(l)[0] == prefix[0]; }
  }

  lemma DecimalStart(digits: string)
    requires digits != "" && DigitIn(digits[0], 10)
    ensures !IsAlpha(digits[0]) && digits[0] != '#' && digits[0] != '-'
  {
  }

  /** The registers of an operand in the order in which they are written: a base, and possibly an index, which
      may come first unless it could be taken for the base. */
  predicate Order(regs: seq<Reg>, base: Reg, index: Option<Reg>) {
    match index
    case None => regs == [base]
    case Some(x) => regs == [base, x] || (regs == [x, base] && !IsBase(x))
  }

  /** Tokens that spell registers, one by one. */
  ghost predicate SpellAll(ts: seq<string>, regs: seq<Reg>) {
    |ts| == |regs| && forall i | 0 <= i < |regs| :: Spells(ts[i], regs[i])
  }

  /** How an operand can be written: the old form, and the two new ones. */
  predicate Writes(text: string, d: string, ts: seq<string>)
    requires ts != []
  {
    text == Outside(d, ts) || text == Enclosed([d] + ts) || text == Enclosed(ts + [d])
  }

  /** A base and an index that can be printed. */
  predicate Pair(base: Reg, index: Option<Reg>) {
    IsBase(base) && (index.Some? ==> IsIndex(index.value))
  }

  lemma PairPrintable(regs: seq<Reg>, base: Reg, index: Option<Reg>)
    requires Pair(base, index) && Order(regs, base, index)
    ensures 1 <= |regs| <= 2 && forall i | 0 <= i < |regs| :: UsableReg(regs[i])
  {
  }

  /** Registers are read back one by one. */
  lemma RegistersRead(ts: seq<string>, regs: seq<Reg>)
    requires SpellAll(ts, regs) && forall i | 0 <= i < |regs| :: UsableReg(regs[i])
    ensures AllRegisters(ts) && AllClean(ts) && forall i | 0 <= i < |regs| :: ReadToken(ts[i]) == Register(regs[i])
  {
    hide ReadToken, Clean, Spells, UsableReg;
    forall i | 0 <= i < |regs| ensures ReadToken(ts[i]) == Register(regs[i]) && Clean(ts[i]) {
      RegisterToken(ts[i], regs[i]);
    }
  }

  /** The operand made of a displacement, a base, and possibly an index. */
  lemma NumeralTokens(d: string, v: Value, ts: seq<string>, regs: seq<Reg>, base: Reg, index: Option<Reg>)
    requires ReadToken(d) == Numeral(Ok(Parsed(true, v)))
    requires Pair(base, index) && Order(regs, base, index) && SpellAll(ts, regs)
    ensures TokenOperand([d] + ts) == Ok(Settle(Select(Roles(Some(base), index), v, true)))
    ensures 1 <= |regs| <= 2 && AllRegisters(ts) && AllClean(ts)
  {
    hide ReadToken, SortTokens, Select, Clean, AssignFrom, Spells, AllRegisters;
    PairPrintable(regs, base, index);
    RegistersRead(ts, regs);
    SortTokensStep(NOTHING, [d] + ts);
    assert ([d] + ts)[1..] == ts;
    SortTokensStep(Found([], v, true), ts);
    assert [] + [regs[0]] == [regs[0]];
    if index.Some? {
      assert ts[1..][0] == ts[1] && ts[1..][1..] == [];
      SortTokensStep(Found([regs[0]], v, true), ts[1..]);
      assert [regs[0]] + [regs[1]] == regs;
      SortTokensDone(Found(regs, v, true));
      AssignTwo(base, index.value);
    } else {
      assert ts[1..] == [];
      SortTokensDone(Found([base], v, true));
      AssignOne(base);
    }
  }

  lemma AssignOne(base: Reg)
    requires IsBase(base)
    ensures AssignFrom([base], 0, Roles(None, None)) == Ok(Roles(Some(base), None))
  {
    assert AssignFrom([base], 1, Roles(Some(base), None)) == Ok(Roles(Some(base), None));
  }

  lemma AssignTwo(base: Reg, index: Reg)
    requires IsBase(base) && IsIndex(index)
    ensures AssignFrom([base, index], 0, Roles(None, None)) == Ok(Roles(Some(base), Some(index)))
    ensures !IsBase(index) ==> AssignFrom([index, base], 0, Roles(None, None)) == Ok(Roles(Some(base), Some(index)))
  {
    var regs := [base, index];
    assert AssignFrom(regs, 2, Roles(Some(base), Some(index))) == Ok(Roles(Some(base), Some(index)));
    assert AssignFrom(regs, 1, Roles(Some(base), None)) == Ok(Roles(Some(base), Some(index)));
    if !IsBase(index) {
      var flipped := [index, base];
      assert AssignFrom(flipped, 2, Roles(Some(base), Some(index))) == Ok(Roles(Some(base), Some(index)));
      assert AssignFrom(flipped, 1, Roles(None, Some(index))) == Ok(Roles(Some(base), Some(index)));
    }
  }

  /** A displacement written with or without minus, in decimal or hexadecimal, with a base and possibly an
      index in either order, in the old form or in either new one, everything in either case: what the processor
      makes of the encoded operand is what was written, exactly when the displacement is not an unsigned word with
      the top bit set that was written without `.l`. On the way something is written outside an array exactly when
      the operand is too long, or has its displacement behind two registers. */
  lemma OperandMeaning(s: string, start: nat, end: nat, d: string, l: Literal, ts: seq<string>, regs: seq<Reg>,
                       base: Reg, index: Option<Reg>, opsize: OpSize)
    requires start <= end <= |s|
    requires SameLetters(d, Print(l)) && l.digits <= LONG_MAX && (l.size == VSIZE_Z || l.size == VSIZE_L)
    requires Pair(base, index) && Order(regs, base, index) && SpellAll(ts, regs)
    requires ts != [] && Writes(s[start..end], d, ts)
    ensures var arg := OperandAt(s, start, end);
      var u := Wrap32(Meant(l));
      && arg.Ok? && Settled(arg.value)
      && (Encoded(arg.value, opsize) == Some(Wanted(Roles(Some(base), index), u))
          <==> !(l.size == VSIZE_Z && 0x8000 <= u < 0x1_0000))
      && (At(s, end) != '{' ==>
            (Strays(s, start, end) <==>
              end - start > 255 || (index.Some? && s[start..end] == Enclosed(ts + [d]))))
  {
    hide Strays, StrayTokens, OperandAt, SortTokens, ReadToken, Clean, Print, Spells, TokenOperand, Encoded,
         Select, Wrap32, Join, LiteralValue, SameLetters;
    LiteralToken(d, l);
    NumeralTokens(d, LiteralValue(l), ts, regs, base, index);
    DisplacementAnywhere(d, ts);
    SameOperand(d, ts);
    if s[start..end] == Outside(d, ts) { OutsideOperand(s, start, end, d, ts); }
    else if s[start..end] == Enclosed([d] + ts) { InsideOperand(s, start, end, [d] + ts); }
    else { InsideOperand(s, start, end, ts + [d]); }
    LiteralNumber(l);
    SelectExact(Roles(Some(base), index), LiteralValue(l), opsize);
    if At(s, end) != '{' { FormStrays(s, start, end, d, ts); }
  }

  lemma LiteralNumber(l: Literal)
    requires l.size == VSIZE_Z || l.size == VSIZE_L
    ensures var u, v := Wrap32(Meant(l)), LiteralValue(l);
      && Addressing.Number(v) && v.uint == u
      && (v.size == VSIZE_W && v.uint >= 0x8000 <==> l.size == VSIZE_Z && 0x8000 <= u < 0x1_0000)
  {
  }

  lemma FormStrays(s: string, start: nat, end: nat, d: string, ts: seq<string>)
    requires start <= end <= |s| && 1 <= |ts| <= 2 && Writes(s[start..end], d, ts) && At(s, end) != '{'
    requires Clean(d) && d != "-" && AllClean(ts) && ReadToken(d).Numeral? && AllRegisters(ts)
    ensures Strays(s, start, end) <==> end - start > COPY_ROOM || (|ts| == 2 && s[start..end] == Enclosed(ts + [d]))
  {
    hide ReadToken, Clean, Strays, StrayTokens, Join, AllRegisters;
    FrontStrays(d, ts);
    BackStrays(d, ts);
    if s[start..end] == Enclosed(ts + [d]) { InsideStrays(s, start, end, ts + [d]); }
    else if s[start..end] == Outside(d, ts) { OutsideStrays(s, start, end, d, ts); }
    else { InsideStrays(s, start, end, [d] + ts); }
  }

  lemma SameOperand(d: string, ts: seq<string>)
    requires SortTokens(NOTHING, [d] + ts) == SortTokens(NOTHING, ts + [d])
    ensures TokenOperand([d] + ts) == TokenOperand(ts + [d])
  {
  }
}
