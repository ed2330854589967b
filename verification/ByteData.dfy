/** Lines with dc.b whose operands are strings and numbers in any mixture: exactly which of them are accepted, and which
    bytes they ask for (src/mangle.c:76-283, src/mnemonics_data.c:53-131). */
module ByteData {
  import opened Basics
  import opened Text
  import opened Values
  import opened Addressing
  import opened Lines
  import opened LineSyntax
  import opened Constants
  import opened ConstantData
  import opened Directives
  import opened StringData
  import S = Store

  /** An operand: a number, as it is written, or a string. */
  datatype Part = Number(text: string, literal: Literal) | Quoted(bytes: seq<Byte>)

  function PartText(p: Part): string {
    match p case Number(t, _) => t case Quoted(bs) => QuotedText(bs)
  }

  /** Strings hold no parentheses, and no comment starts in them. */
  ghost predicate PartOk(p: Part) {
    match p
    case Number(t, l) => SameLetters(t, Print(l)) && l.digits <= LONG_MAX
    case Quoted(bs) => !Commented(bs) && forall i | 0 <= i < |bs| :: bs[i] != 40 && bs[i] != 41
  }

  ghost predicate PartsOk(ps: seq<Part>) {
    forall i | 0 <= i < |ps| :: PartOk(ps[i])
  }

  // ---------------------------------------------------------------- the operands of the line

  /** The characters of a string, escaped ones as such. */
  function Body(bs: seq<Byte>): Argument {
    if bs == [] then End
    else
      var code := EncodeByte(bs[0]);
      if |code| == 2 then Escape(code[1], Body(bs[1..])) else Char(code[0], Body(bs[1..]))
  }

  lemma {:induction false} BodyShow(bs: seq<Byte>)
    ensures Show(Body(bs)) == Encode(bs)
    decreases |bs|
  {
    if bs == [] {
    } else {
      BodyShow(bs[1..]);
      EscapesRight(bs[0]);
      var code := EncodeByte(bs[0]);
      assert if |code| == 2 then code == ['\\', code[1]] else code == [code[0]];
    }
  }

  lemma {:induction false} BodyProper(bs: seq<Byte>)
    requires forall i | 0 <= i < |bs| :: bs[i] != 40 && bs[i] != 41
    ensures Proper(Body(bs), true, true)
    decreases |bs|
  {
    if bs == [] {
    } else {
      BodyProper(bs[1..]);
      ByteChars(bs[0]);
    }
  }

  function PartArgument(p: Part): Argument {
    match p case Number(t, _) => Chars(t) case Quoted(bs) => Quotes(Body(bs), End)
  }

  lemma PartShow(p: Part)
    ensures Show(PartArgument(p)) == PartText(p)
  {
    match p
    case Number(t, _) => CharsShow(t);
    case Quoted(bs) =>
      BodyShow(bs);
      assert "\"" + Encode(bs) + ("\"" + "") == "\"" + (Encode(bs) + "\"");
  }

  lemma PartProper(p: Part)
    requires PartOk(p)
    ensures PartArgument(p) != End && Proper(PartArgument(p), false, false)
  {
    match p
    case Number(t, l) =>
      WrittenChars(Numeral(t, l));
      CharsProper(t);
    case Quoted(bs) => BodyProper(bs);
  }

  function PartArguments(ps: seq<Part>): (r: seq<Argument>)
    ensures |r| == |ps| && forall i | 0 <= i < |ps| :: r[i] == PartArgument(ps[i])
  {
    seq(|ps|, i requires 0 <= i < |ps| => PartArgument(ps[i]))
  }

  lemma PartArgumentsOk(ps: seq<Part>)
    requires PartsOk(ps)
    ensures OperandsOk(PartArguments(ps))
  {
    hide PartOk;
    forall m | 0 <= m < |ps| ensures PartArguments(ps)[m] != End && Proper(PartArguments(ps)[m], false, false) {
      PartProper(ps[m]);
    }
  }

  // ---------------------------------------------------------------- no comment among the operands

  lemma {:induction false} EncodedNoComment(s: string, i: nat, j: nat, bs: seq<Byte>)
    requires 0 < i <= j <= |s| && s[i..j] == Encode(bs) && !CommentIn(bs, BlankBefore(s, i))
    ensures NoComment(s, i, j)
    decreases |bs|
  {
    hide EncodeByte, CommentByte, BlankByte;
    if bs == [] {
    } else {
      var n := i + |EncodeByte(bs[0])|;
      assert s[i..j] == EncodeByte(bs[0]) + Encode(bs[1..]) + "";
      Parts(s, i, j, EncodeByte(bs[0]), Encode(bs[1..]), "");
      ByteNoComment(s, i, n, bs[0]);
      EncodedNoComment(s, n, j, bs[1..]);
      JoinNoComment(s, i, n, j);
    }
  }

  lemma ByteNoComment(s: string, i: nat, n: nat, b: Byte)
    requires 0 < i <= n <= |s| && s[i..n] == EncodeByte(b) && !(BlankBefore(s, i) && CommentByte(b))
    ensures i < n && NoComment(s, i, n) && (BlankBefore(s, n) <==> BlankByte(b))
  {
    hide EncodeByte, IsSpace;
    ByteChars(b);
    CharactersExact('\\');
    Within(s, i, n, i);
    if n == i + 2 { Within(s, i, n, i + 1); }
  }

  lemma PartNoComment(s: string, i: nat, j: nat, p: Part)
    requires i <= j <= |s| && s[i..j] == PartText(p) && PartOk(p)
    ensures NoComment(s, i, j)
  {
    hide Encode, Print;
    match p
    case Number(t, l) =>
      WrittenChars(Numeral(t, l));
      SolidNoComment(s, i, j, t);
    case Quoted(bs) =>
      assert s[i..j] == "\"" + Encode(bs) + "\"";
      Parts(s, i, j, "\"", Encode(bs), "\"");
      Within(s, i, i + 1, i);
      Within(s, j - 1, j, j - 1);
      CommentInExact(bs, false);
      EncodedNoComment(s, i + 1, j - 1, bs);
      JoinNoComment(s, i, i + 1, j - 1);
      JoinNoComment(s, i, j - 1, j);
  }

  lemma {:induction false} PartsNoComment(s: string, i: nat, j: nat, ps: seq<Part>, gap: string)
    requires ps != [] && PartsOk(ps) && Blank(gap) && j <= |s| && OperandsAt(s, i, j, PartArguments(ps), gap)
    ensures i <= j && NoComment(s, i, j)
    decreases |ps|
  {
    hide Show, NoComment, Blank, PartOk, PartArgument, PartText;
    var n := i + |PartText(ps[0])|;
    PartShow(ps[0]);
    assert PartOk(ps[0]);
    PartNoComment(s, i, n, ps[0]);
    if |ps| == 1 {
    } else {
      var m := n + 1 + |gap|;
      assert PartArguments(ps)[1..] == PartArguments(ps[1..]);
      CommaNoComment(s, n);
      BlankNoComment(s, n + 1, m);
      PartsNoComment(s, m, j, ps[1..], gap);
      JoinNoComment(s, i, n, n + 1);
      JoinNoComment(s, i, n + 1, m);
      JoinNoComment(s, i, m, j);
    }
  }

  // ---------------------------------------------------------------- what the operands ask for

  /** A number that can be read and fits a byte. */
  predicate PartFits(p: Part) {
    p.Number? ==> Kept(p.literal).Some? && Kept(p.literal).value <= 255
  }

  predicate AllFit(ps: seq<Part>) {
    forall i | 0 <= i < |ps| :: PartFits(ps[i])
  }

  /** The bytes of an operand. */
  function PartBytes(p: Part): seq<Byte>
    requires PartFits(p)
  {
    match p
    case Number(t, l) =>
      KeptMeant(t, l, OsByte);
      [InMemory(l)]
    case Quoted(bs) => bs
  }

  function AllBytes(ps: seq<Part>): seq<Byte>
    requires AllFit(ps)
  {
    if ps == [] then [] else assert PartFits(ps[0]); PartBytes(ps[0]) + AllBytes(ps[1..])
  }

  function PartRead(p: Part): Result<Arg> {
    match p case Number(t, l) => Reading(Numeral(t, l)) case Quoted(bs) => Ok(StringArg(QuotedText(bs)))
  }

  lemma PartIsRead(s: string, f: Field, p: Part)
    requires f.from < f.end <= |s| && s[f.from..f.end] == PartText(p) && PartOk(p) && !IsAlnum(At(s, f.end))
    ensures ArgAt(s, f.from, f.end) == PartRead(p)
  {
    hide ArgAt, Reading, QuotedText, Print, SameLetters;
    match p
    case Number(t, l) => NumeralRead(s, f, t, l);
    case Quoted(bs) => LiteralArg(s, f.from, f.end, bs);
  }

  /** The constants of one operand. */
  lemma PartItems(p: Part)
    ensures PartRead(p).Fail? ==> !PartFits(p) && PartRead(p).error == ValueOutOfBounds
    ensures PartRead(p).Ok? ==> ItemsOf(PartRead(p).value, OsByte)
                                == if PartFits(p) then Ok(ByteItems(PartBytes(p))) else Fail(ValueOutOfBounds)
  {
    match p
    case Number(t, l) =>
      if PartFits(p) {
        KeptMeant(t, l, OsByte);
        assert Asked(Reading(Numeral(t, l)).value, OsByte) == Ok([S.Constant(1, Kept(l).value, None)]);
        assert ByteItems([InMemory(l)]) == [S.Constant(1, InMemory(l), None)];
      }
    case Quoted(bs) =>
      StringRoundTrip("", bs, "");
      assert "" + QuotedText(bs) + "" == QuotedText(bs);
  }

  ghost predicate HoldsPart(s: string, f: Option<Field>, p: Part)
    requires f.Some? ==> f.value.from < f.value.end <= |s|
  {
    f.Some? && s[f.value.from..f.value.end] == PartText(p) && PartOk(p)
  }

  /** The fields from n on hold the operands. */
  ghost predicate PartsAt(s: string, fs: seq<Option<Field>>, n: nat, ps: seq<Part>) {
    && |fs| == n + |ps| && FieldsIn(s, fs) && Ended(s, fs)
    && forall m | 0 <= m < |ps| :: HoldsPart(s, fs[n + m], ps[m])
  }

  lemma FirstPart(s: string, fs: seq<Option<Field>>, n: nat, ps: seq<Part>)
    requires PartsAt(s, fs, n, ps) && ps != []
    ensures fs[n].Some? && ArgAt(s, fs[n].value.from, fs[n].value.end) == PartRead(ps[0])
    ensures PartsAt(s, fs, n + 1, ps[1..])
  {
    hide ArgAt, PartRead, PartText, PartOk;
    assert HoldsPart(s, fs[n + 0], ps[0]);
    PartIsRead(s, fs[n].value, ps[0]);
    forall m | 0 <= m < |ps| - 1 ensures HoldsPart(s, fs[n + 1 + m], ps[1..][m]) {
      assert HoldsPart(s, fs[n + (m + 1)], ps[m + 1]);
    }
  }

  /** What the operands are read as. */
  function PartsRead(ps: seq<Part>): Result<seq<Arg>> {
    if ps == [] then Ok([])
    else
      var head :- PartRead(ps[0]);
      var tail :- PartsRead(ps[1..]);
      Ok([head] + tail)
  }

  lemma {:induction false} PartsAreRead(s: string, fs: seq<Option<Field>>, n: nat, ps: seq<Part>)
    requires PartsAt(s, fs, n, ps)
    ensures |fs| == n + |ps| && FieldsIn(s, fs) && ArgsOf(s, fs, n) == PartsRead(ps)
    decreases |ps|
  {
    hide ArgAt, ArgsOf, PartRead;
    if ps == [] {
      ArgsEnd(s, fs, n);
    } else {
      FirstPart(s, fs, n, ps);
      ArgsStep(s, fs, n);
      PartsAreRead(s, fs, n + 1, ps[1..]);
    }
  }

  lemma ByteItemsJoin(a: seq<Byte>, b: seq<Byte>)
    ensures ByteItems(a) + ByteItems(b) == ByteItems(a + b)
  {
  }

  /** All operands: the bytes one after the other if all numbers fit. */
  lemma {:induction false} PartsAsk(args: seq<Arg>, i: nat, ps: seq<Part>)
    requires i <= |args| && PartsRead(ps) == Ok(args[i..])
    ensures AllItems(args, i, OsByte) == if AllFit(ps) then Ok(ByteItems(AllBytes(ps))) else Fail(ValueOutOfBounds)
    decreases |ps|
  {
    hide PartRead, PartFits, PartBytes, ItemsOf;
    if ps == [] {
    } else {
      var rest := ps[1..];
      assert args[i..][0] == args[i] && args[i..][1..] == args[i + 1..];
      assert PartsRead(ps).value[1..] == PartsRead(rest).value;
      PartItems(ps[0]);
      AllItemsStep(args, i, OsByte);
      PartsAsk(args, i + 1, rest);
      FitsEach(ps);
      if AllFit(ps) { ByteItemsJoin(PartBytes(ps[0]), AllBytes(rest)); }
    }
  }

  lemma FitsEach(ps: seq<Part>)
    requires ps != []
    ensures AllFit(ps) <==> PartFits(ps[0]) && AllFit(ps[1..])
  {
    hide PartFits;
    if PartFits(ps[0]) && AllFit(ps[1..]) {
      forall i | 0 <= i < |ps| ensures PartFits(ps[i]) { if i > 0 { assert ps[i] == ps[1..][i - 1]; } }
    }
  }

  lemma {:induction false} UnreadDoesNotFit(ps: seq<Part>)
    requires PartsRead(ps).Fail?
    ensures PartsRead(ps).error == ValueOutOfBounds && !AllFit(ps)
    decreases |ps|
  {
    hide PartRead, PartFits;
    PartItems(ps[0]);
    FitsEach(ps);
    if PartRead(ps[0]).Ok? { UnreadDoesNotFit(ps[1..]); }
  }

  // ---------------------------------------------------------------- whole lines

  /** The text up to j is a line with dc.b and these operands, and only blanks or a comment follow. */
  ghost predicate BytesLine(s: string, j: nat, l: Source, ps: seq<Part>, front: string) {
    && DcSpelled(l.mnemonic, OsByte) && HeadOk(l) && l.operands == PartArguments(ps) && PartsOk(ps)
    && FrontOk(l, front) && j <= |s| && s[..j] == PrintSource(l, front) && Tail(s, j)
  }

  lemma BytesPrinted(s: string, j: nat, l: Source, ps: seq<Part>, front: string)
    requires BytesLine(s, j, l, ps, front)
    ensures Printed(s, j, l, front)
  {
    hide PrintLabel, NoComment, Blank, JoinOperands, OperandsOk, OperandsAt, Tail, LabelOk, AnyWord, PartsOk, DcSpelled;
    PartArgumentsOk(ps);
    var m := |PrintLabel(l)| + |front| + |l.mnemonic|;
    HeadParts(s, j, l, front, PrintOperands(l));
    if ps == [] {
      NothingCommented(s, j);
    } else {
      var k := m + |l.gap|;
      assert s[m..j] == l.gap + JoinOperands(l.operands, l.after) + "";
      Parts(s, m, j, l.gap, JoinOperands(l.operands, l.after), "");
      JoinIsAt(s, k, j, l.operands, l.after);
      BlankNoComment(s, m, k);
      PartsNoComment(s, k, j, ps, l.after);
      JoinNoComment(s, m, k, j);
    }
  }

  lemma FieldsHoldParts(s: string, fs: seq<Option<Field>>, ps: seq<Part>)
    requires FieldsAre(s, fs, 2, PartArguments(ps)) && FieldsIn(s, fs) && Ended(s, fs) && PartsOk(ps)
    ensures PartsAt(s, fs, 2, ps)
  {
    hide Show, PartArgument, PartText, Ended, PartOk;
    forall m | 0 <= m < |ps| ensures HoldsPart(s, fs[2 + m], ps[m]) {
      assert FieldIs(s, fs[2 + m], PartArguments(ps)[m]);
      PartShow(ps[m]);
    }
  }

  lemma BytesCut(s: string, j: nat, l: Source, ps: seq<Part>, front: string)
    requires BytesLine(s, j, l, ps, front)
    ensures !Room(s, j, 2 + |ps|) ==> FieldsOf(s) == Fail(TooManyFields)
    ensures Room(s, j, 2 + |ps|) ==> FieldsOf(s).Ok? && var fs := FieldsOf(s).value;
      && Accepted(s, fs) && |fs| == 2 + |ps| && NameOf(s, fs) == l.name
      && DcField(s, fs[1].value, OsByte) && ArgsOf(s, fs, 2) == PartsRead(ps)
  {
    hide FieldsOf, PrintSource, Tail, Blank, ArgsOf, Ended, PartsAt, PartsOk, PartsRead, Printed, Room, DcField,
         DcSpelled;
    BytesPrinted(s, j, l, ps, front);
    LineRoundTrip(s, j, l, front);
    if Room(s, j, 2 + |ps|) {
      var fs := FieldsOf(s).value;
      AcceptedFields(s);
      FieldsEnded(s);
      FieldsHoldParts(s, fs, ps);
      PartsAreRead(s, fs, 2, ps);
      MnemonicField(s, fs, l, OsByte);
    }
  }

  /** A line with dc.b, strings and numbers is accepted exactly if there is room for its operands and every number can
      be read and is at most 255; it asks for their bytes, one after the other. */
  lemma BytesExact(s: string, j: nat, l: Source, ps: seq<Part>, front: string)
    requires BytesLine(s, j, l, ps, front)
    ensures LineOf(s) == if !Room(s, j, 2 + |ps|) then Fail(TooManyFields)
                         else if !AllFit(ps) then Fail(ValueOutOfBounds)
                         else Ok(S.Line(l.name, S.Emit(ByteItems(AllBytes(ps)))))
  {
    hide FieldsOf, ArgsOf, AllItems, DcField, NameOf, PartsRead, ActionOf, BytesLine, Room, AllFit, AllBytes;
    BytesCut(s, j, l, ps, front);
    if Room(s, j, 2 + |ps|) {
      AcceptedFields(s);
      DcAction(s, FieldsOf(s).value, OsByte);
      if PartsRead(ps).Fail? {
        UnreadDoesNotFit(ps);
      } else {
        var args := PartsRead(ps).value;
        assert args[0..] == args;
        PartsAsk(args, 0, ps);
      }
    }
  }
}
