/** Numbers and names from the source line to the code store: which constants dc accepts, and what it stores
    for them (src/mangle.c:76-283, src/mnemonics_data.c:122-153). */
module ConstantData {
  import opened Basics
  import opened Text
  import opened Values
  import opened Addressing
  import opened Lines
  import opened LineSyntax
  import opened Constants
  import opened Directives
  import S = Store

  // ---------------------------------------------------------------- where fields end

  /** What follows a field is no part of a word. */
  ghost predicate Ended(s: string, fields: seq<Option<Field>>) {
    forall j | 0 <= j < |fields| && fields[j].Some? ::
      !IsAlnum(At(s, fields[j].value.end)) && At(s, fields[j].value.end) != '.'
  }

  lemma TurnEnded(s: string, i: nat, k: Row)
    requires i < |s| && Ended(s, k.fields) && Turn(s[i], i, k).Ok?
    ensures Ended(s, Turn(s[i], i, k).value.fields)
  {
  }

  lemma {:induction false} RowsEnded(s: string, i: nat, k: Row)
    requires Ended(s, k.fields) && RowFrom(s, i, k).Ok?
    ensures Ended(s, RowFrom(s, i, k).value.0.fields) && Stops(s, RowFrom(s, i, k).value.1)
    decreases |s| - i
  {
    hide Ended, Turn;
    RowStep(s, i, k);
    if Stops(s, i) {
    } else {
      TurnEnded(s, i, k);
      RowsEnded(s, After(s, i, Escapes(s[i], k)), Turn(s[i], i, k).value);
    }
  }

  lemma FieldsEnded(s: string)
    requires FieldsOf(s).Ok?
    ensures Ended(s, FieldsOf(s).value)
  {
    hide RowFrom;
    RowsEnded(s, 0, START);
  }

  // ---------------------------------------------------------------- operands without structure

  /** A text as an operand without structure. */
  function Chars(t: string): Argument {
    if t == "" then End else Char(t[0], Chars(t[1..]))
  }

  lemma {:induction false} CharsShow(t: string)
    ensures Show(Chars(t)) == t
    decreases |t|
  {
    if t == "" {
    } else {
      CharsShow(t[1..]);
      assert [t[0]] + t[1..] == t;
    }
  }

  lemma {:induction false} CharsProper(t: string)
    requires forall i | 0 <= i < |t| :: PlainChar(t[i], false)
    ensures Proper(Chars(t), false, false)
    decreases |t|
  {
    if t == "" {
    } else {
      CharsProper(t[1..]);
    }
  }

  /** A character of a printed number. */
  predicate NumberChar(c: char) {
    c == '$' || c == '-' || c == '.' || IsAlnum(c)
  }

  lemma {:induction false} DigitsNumberChars(v: nat, base: nat)
    requires 2 <= base <= 16
    ensures forall i | 0 <= i < |Digits(v, base)| :: NumberChar(Digits(v, base)[i])
    decreases v
  {
    hide Digits, DigitChar;
    DigitsStep(v, base);
    if v < base {
      DigitNumberChar(v);
    } else {
      Shrinks(v, base);
      DigitsNumberChars(v / base, base);
      DigitNumberChar(v % base);
    }
  }

  lemma DigitNumberChar(d: nat)
    requires d < 16
    ensures NumberChar(DigitChar(d))
  {
  }

  lemma PrintedChars(l: Literal)
    ensures Print(l) != "" && forall i | 0 <= i < |Print(l)| :: NumberChar(Print(l)[i])
  {
    hide Digits;
    DigitsNumberChars(l.digits, Radix(l));
  }

  lemma PlainNumber(t: string, u: string)
    requires SameLetters(t, u) && forall i | 0 <= i < |u| :: NumberChar(u[i])
    ensures forall i | 0 <= i < |t| :: NumberChar(t[i]) && PlainChar(t[i], false)
  {
    forall i | 0 <= i < |t| ensures NumberChar(t[i]) { assert SameLetter(t[i], u[i]) && NumberChar(u[i]); }
  }

  /** An operand of dc that is no string: a number, as it is written, or a name. */
  datatype Atom = Numeral(text: string, literal: Literal) | Name(text: string)

  /** Digits that a `long` holds, in either case; names that start like a symbol and hold no separator. */
  predicate AtomOk(a: Atom) {
    match a
    case Numeral(t, l) => SameLetters(t, Print(l)) && l.digits <= LONG_MAX
    case Name(t) => t != "" && SymbolStart(t[0]) && forall i | 0 <= i < |t| :: PlainChar(t[i], false)
  }

  /** A text in which no comment starts. */
  predicate Solid(t: string) {
    t != "" && t[0] != ';' && t[0] != '*' && forall i | 0 <= i < |t| :: !IsSpace(t[i])
  }

  lemma WrittenChars(a: Atom)
    requires AtomOk(a)
    ensures a.text != "" && Solid(a.text) && forall i | 0 <= i < |a.text| :: PlainChar(a.text[i], false)
  {
    hide Print;
    if a.Numeral? {
      PrintedChars(a.literal);
      PlainNumber(a.text, Print(a.literal));
      assert NumberChar(a.text[0]);
    }
  }

  function AtomArgs(xs: seq<Atom>): (r: seq<Argument>)
    ensures |r| == |xs| && forall i | 0 <= i < |xs| :: r[i] == Chars(xs[i].text)
  {
    seq(|xs|, i requires 0 <= i < |xs| => Chars(xs[i].text))
  }

  predicate AtomsOk(xs: seq<Atom>) {
    forall i | 0 <= i < |xs| :: AtomOk(xs[i])
  }

  lemma AtomArgsOk(xs: seq<Atom>)
    requires AtomsOk(xs)
    ensures OperandsOk(AtomArgs(xs))
  {
    hide AtomOk;
    forall m | 0 <= m < |xs| ensures AtomArgs(xs)[m] != End && Proper(AtomArgs(xs)[m], false, false) {
      WrittenChars(xs[m]);
      CharsProper(xs[m].text);
    }
  }

  function SizeLetter(opsize: OpSize): string {
    match opsize case OsByte => ".b" case OsWord => ".w" case OsLong => ".l" case OsDefault => ""
  }

  /** dc with its size, in either case. */
  predicate DcSpelled(w: string, opsize: OpSize) {
    SameLetters(w, "dc" + SizeLetter(opsize))
  }

  lemma DcMnemonic(s: string, i: nat, e: nat, opsize: OpSize)
    requires i <= e <= |s| && DcSpelled(s[i..e], opsize) && !IsAlnum(At(s, e)) && At(s, e) != '.'
    ensures MnemonicAt(s, i, e).Ok? && MnemonicAt(s, i, e).value.1 == opsize
    ensures S.SameName(MnemonicAt(s, i, e).value.0, "dc")
  {
    var w := "dc" + SizeLetter(opsize);
    forall m | i <= m < e ensures SameLetter(At(s, m), w[m - i]) { Within(s, i, e, m); }
    assert e == i + |w|;
    if opsize == OsDefault {
      assert DotAt(s, e + 1, e) == e + 1;
      assert DotAt(s, e, e) == e + 1;
    } else {
      assert DotAt(s, i + 2, e) == i + 2;
    }
    assert DotAt(s, i + 1, e) == DotAt(s, i + 2, e);
    assert DotAt(s, i, e) == DotAt(s, i + 2, e);
    assert SameLetter(s[i..i + 2][0], 'd') && SameLetter(s[i..i + 2][1], 'c');
  }

  // ---------------------------------------------------------------- what dc reads and stores

  /** The value of a number, as 32 bits. */
  function Bits(l: Literal): Long {
    Wrap32(Meant(l))
  }

  /** The value that a number is read as. With `.w` it is the low word, except that values from 65536 up to
      2^31 are rejected. */
  function Kept(l: Literal): Option<Long> {
    var u := Bits(l);
    if l.size != VSIZE_W then Some(u)
    else if 0x1_0000 <= u < 0x8000_0000 then None
    else Some(u % 0x1_0000)
  }

  /** The two names that are read as the number zero: a full stop and a size letter. */
  predicate NumberLike(t: string) {
    |t| == 2 && t[0] == '.' && (Lower(t[1]) == 'w' || Lower(t[1]) == 'l')
  }

  function Reading(a: Atom): Result<Arg> {
    match a
    case Numeral(_, l) => if Kept(l).Some? then Ok(NumberArg(Kept(l).value)) else Fail(ValueOutOfBounds)
    case Name(t) => Ok(if NumberLike(t) then NumberArg(0) else StringArg(t))
  }

  function Readings(xs: seq<Atom>): Result<seq<Arg>> {
    if xs == [] then Ok([])
    else
      var head :- Reading(xs[0]);
      var tail :- Readings(xs[1..]);
      Ok([head] + tail)
  }

  lemma NumeralRead(s: string, f: Field, t: string, l: Literal)
    requires f.from < f.end <= |s| && s[f.from..f.end] == t && AtomOk(Numeral(t, l)) && !IsAlnum(At(s, f.end))
    ensures ArgAt(s, f.from, f.end) == Reading(Numeral(t, l))
  {
    hide Print, ValueAt, Wrap32;
    LiteralRead(s, f.from, f.end, l, false);
  }

  /** A name is read as a number only if it is `.w` or `.l`. */
  lemma NameRead(s: string, f: Field, t: string)
    requires f.from < f.end <= |s| && s[f.from..f.end] == t && SymbolStart(t[0])
    ensures ArgAt(s, f.from, f.end) == Reading(Name(t))
  {
    hide StrToL, Wrap32;
    Within(s, f.from, f.end, f.from);
    assert !DigitIn(At(s, f.from), 10);
    if |t| == 2 {
      Within(s, f.from, f.end, f.from + 1);
      if t[0] == '.' { StrToLNothing(s, f.from, 10); }
    }
    WrapSmall(0);
  }

  lemma AtomRead(s: string, f: Field, a: Atom)
    requires f.from < f.end <= |s| && s[f.from..f.end] == a.text && AtomOk(a) && !IsAlnum(At(s, f.end))
    ensures ArgAt(s, f.from, f.end) == Reading(a)
  {
    hide Print, ArgAt, Reading;
    match a
    case Numeral(t, l) => NumeralRead(s, f, t, l);
    case Name(t) => NameRead(s, f, t);
  }

  /** A field holds an operand. */
  ghost predicate HoldsAtom(s: string, f: Option<Field>, a: Atom)
    requires f.Some? ==> f.value.from < f.value.end <= |s|
  {
    f.Some? && s[f.value.from..f.value.end] == a.text && AtomOk(a)
  }

  /** The fields from n on hold the operands. */
  ghost predicate AtomsAt(s: string, fs: seq<Option<Field>>, n: nat, xs: seq<Atom>) {
    && |fs| == n + |xs| && FieldsIn(s, fs) && Ended(s, fs)
    && forall m | 0 <= m < |xs| :: HoldsAtom(s, fs[n + m], xs[m])
  }

  lemma FirstAtom(s: string, fs: seq<Option<Field>>, n: nat, xs: seq<Atom>)
    requires AtomsAt(s, fs, n, xs) && xs != []
    ensures fs[n].Some? && ArgAt(s, fs[n].value.from, fs[n].value.end) == Reading(xs[0])
    ensures AtomsAt(s, fs, n + 1, xs[1..])
  {
    hide ArgAt, Reading, AtomOk;
    assert HoldsAtom(s, fs[n + 0], xs[0]);
    AtomRead(s, fs[n].value, xs[0]);
    forall m | 0 <= m < |xs| - 1 ensures HoldsAtom(s, fs[n + 1 + m], xs[1..][m]) {
      assert HoldsAtom(s, fs[n + (m + 1)], xs[m + 1]);
    }
  }

  /** Printed numbers and names in the fields of a line are read as such. */
  lemma {:induction false} AtomsRead(s: string, fs: seq<Option<Field>>, n: nat, xs: seq<Atom>)
    requires AtomsAt(s, fs, n, xs)
    ensures ArgsOf(s, fs, n) == Readings(xs)
    decreases |xs|
  {
    hide ArgAt, ArgsOf, AtomsAt, Reading;
    AtomsCount(s, fs, n, xs);
    if xs == [] {
      ArgsEnd(s, fs, n);
    } else {
      FirstAtom(s, fs, n, xs);
      ArgsStep(s, fs, n);
      AtomsRead(s, fs, n + 1, xs[1..]);
    }
  }

  lemma AtomsCount(s: string, fs: seq<Option<Field>>, n: nat, xs: seq<Atom>)
    requires AtomsAt(s, fs, n, xs)
    ensures |fs| == n + |xs| && FieldsIn(s, fs)
  {
  }

  /** dc accepts unsigned numbers of its size. */
  predicate Fits(u: Long, opsize: OpSize) {
    match opsize case OsByte => u <= 255 case OsWord => u <= 65535 case _ => true
  }

  /** The constant stored for a number. */
  function ConstantOf(u: Long, opsize: OpSize): seq<S.Item> {
    match opsize
    case OsByte => [S.Constant(1, u, None)]
    case OsWord => [S.Constant(2, u, None)]
    case OsLong => [S.Constant(4, u, None)]
    case OsDefault => []
  }

  /** What an operand asks for: a number that fits, or a name in a longword. */
  function Asked(a: Arg, opsize: OpSize): Result<seq<S.Item>>
    requires a.StringArg? ==> a.text != "" && SymbolStart(a.text[0])
  {
    match a
    case NumberArg(u) => if Fits(u, opsize) then Ok(ConstantOf(u, opsize)) else Fail(ValueOutOfBounds)
    case StringArg(t) =>
      match opsize
      case OsByte => Fail(InvalidString)
      case OsWord => Fail(InvalidAddressingMode)
      case OsLong => Ok([S.Constant(4, 0, Some(t))])
      case OsDefault => Ok([])
  }

  predicate NamesIn(args: seq<Arg>) {
    forall i | 0 <= i < |args| && args[i].StringArg? :: args[i].text != "" && SymbolStart(args[i].text[0])
  }

  /** What all operands ask for, up to the first that cannot be had. */
  function AllAsked(args: seq<Arg>, opsize: OpSize): Result<seq<S.Item>>
    requires NamesIn(args)
  {
    if args == [] then Ok([])
    else
      var head :- Asked(args[0], opsize);
      var tail :- AllAsked(args[1..], opsize);
      Ok(head + tail)
  }

  lemma AskedIs(a: Arg, opsize: OpSize)
    requires a.StringArg? ==> a.text != "" && SymbolStart(a.text[0])
    ensures ItemsOf(a, opsize) == Asked(a, opsize)
  {
    if a.StringArg? && opsize == OsByte { DecodeStep(a.text, 0, Before); }
  }

  lemma {:induction false} AtomsStored(args: seq<Arg>, i: nat, opsize: OpSize)
    requires i <= |args| && NamesIn(args[i..])
    ensures AllItems(args, i, opsize) == AllAsked(args[i..], opsize)
    decreases |args| - i
  {
    hide ItemsOf, Asked;
    if i == |args| {
    } else {
      assert args[i..][0] == args[i] && args[i..][1..] == args[i + 1..];
      AskedIs(args[i], opsize);
      NamesTail(args[i..]);
      AllItemsStep(args, i, opsize);
      AtomsStored(args, i + 1, opsize);
    }
  }

  lemma NamesTail(args: seq<Arg>)
    requires NamesIn(args) && args != []
    ensures NamesIn(args[1..])
  {
  }

  lemma {:induction false} ReadingsNames(xs: seq<Atom>)
    requires AtomsOk(xs) && Readings(xs).Ok?
    ensures NamesIn(Readings(xs).value) && |Readings(xs).value| == |xs|
    ensures forall m | 0 <= m < |xs| :: Reading(xs[m]) == Ok(Readings(xs).value[m])
    decreases |xs|
  {
    hide Reading;
    if xs == [] {
    } else {
      assert AtomOk(xs[0]);
      ReadingName(xs[0]);
      ReadingsNames(xs[1..]);
    }
  }

  lemma ReadingName(a: Atom)
    requires AtomOk(a) && Reading(a).Ok?
    ensures Reading(a).value.StringArg? ==> Reading(a).value.text != "" && SymbolStart(Reading(a).value.text[0])
  {
  }

  // ---------------------------------------------------------------- no comment among the operands

  lemma SolidNoComment(s: string, i: nat, j: nat, t: string)
    requires i <= j <= |s| && s[i..j] == t && Solid(t)
    ensures NoComment(s, i, j)
  {
    forall m | i <= m < j ensures !CommentAt(s, m) {
      Within(s, i, j, m);
      if m > i { Within(s, i, j, m - 1); }
    }
  }

  /** Nothing starts a comment among solid operands. */
  lemma {:induction false} AtomsNoComment(s: string, i: nat, j: nat, xs: seq<Atom>, gap: string)
    requires xs != [] && AtomsOk(xs) && Blank(gap) && j <= |s| && OperandsAt(s, i, j, AtomArgs(xs), gap)
    ensures i <= j && NoComment(s, i, j)
    decreases |xs|
  {
    hide Show, Chars, NoComment, Blank, Solid, AtomOk;
    assert AtomOk(xs[0]);
    WrittenChars(xs[0]);
    CharsShow(xs[0].text);
    var n := i + |xs[0].text|;
    SolidNoComment(s, i, n, xs[0].text);
    if |xs| == 1 {
    } else {
      var m := n + 1 + |gap|;
      assert AtomArgs(xs)[1..] == AtomArgs(xs[1..]);
      CommaNoComment(s, n);
      BlankNoComment(s, n + 1, m);
      AtomsNoComment(s, m, j, xs[1..], gap);
      JoinNoComment(s, i, n, n + 1);
      JoinNoComment(s, i, n + 1, m);
      JoinNoComment(s, i, m, j);
    }
  }

  lemma CommaNoComment(s: string, n: nat)
    requires n < |s| && s[n] == ','
    ensures NoComment(s, n, n + 1)
  {
  }

  lemma MnemonicField(s: string, fs: seq<Option<Field>>, l: Source, opsize: OpSize)
    requires |fs| >= 2 && FieldsIn(s, fs) && Ended(s, fs) && TextOf(s, fs[1]) == Some(l.mnemonic)
    requires DcSpelled(l.mnemonic, opsize)
    ensures fs[1].Some? && DcField(s, fs[1].value, opsize)
  {
    DcMnemonic(s, fs[1].value.from, fs[1].value.end, opsize);
  }

  /** The field of dc. */
  predicate DcField(s: string, f: Field, opsize: OpSize) {
    && f.from <= f.end <= |s| && MnemonicAt(s, f.from, f.end).Ok?
    && S.SameName(MnemonicAt(s, f.from, f.end).value.0, "dc") && MnemonicAt(s, f.from, f.end).value.1 == opsize
  }

  // ---------------------------------------------------------------- whole lines

  /** The text up to j is a line whose operands are numbers and names, and only blanks or a comment follow. */
  ghost predicate OperandsLine(s: string, j: nat, l: Source, xs: seq<Atom>, front: string) {
    && HeadOk(l) && l.operands == AtomArgs(xs) && AtomsOk(xs)
    && FrontOk(l, front) && j <= |s| && s[..j] == PrintSource(l, front) && Tail(s, j)
  }

  /** Such a line with dc. */
  ghost predicate AtomsLine(s: string, j: nat, l: Source, opsize: OpSize, xs: seq<Atom>, gap: string) {
    DcSpelled(l.mnemonic, opsize) && OperandsLine(s, j, l, xs, gap)
  }

  lemma DcWord(w: string, opsize: OpSize)
    requires DcSpelled(w, opsize)
    ensures IsWord(w)
  {
    assert forall i | 0 <= i < |w| :: SameLetter(w[i], ("dc" + SizeLetter(opsize))[i]);
  }

  lemma LineNoComment(s: string, j: nat, l: Source, xs: seq<Atom>, gap: string)
    requires OperandsLine(s, j, l, xs, gap)
    ensures Printed(s, j, l, gap)
  {
    hide PrintLabel, NoComment, Blank, JoinOperands, OperandsOk, OperandsAt, Tail, LabelOk, IsWord, AnyWord, AtomsOk;
    AtomArgsOk(xs);
    var m := |PrintLabel(l)| + |gap| + |l.mnemonic|;
    HeadParts(s, j, l, gap, PrintOperands(l));
    if xs == [] {
      NothingCommented(s, j);
    } else {
      var k := m + |l.gap|;
      assert s[m..j] == l.gap + JoinOperands(l.operands, l.after) + "";
      Parts(s, m, j, l.gap, JoinOperands(l.operands, l.after), "");
      JoinIsAt(s, k, j, l.operands, l.after);
      BlankNoComment(s, m, k);
      AtomsNoComment(s, k, j, xs, l.after);
      JoinNoComment(s, m, k, j);
    }
  }

  lemma NothingCommented(s: string, j: nat)
    ensures NoComment(s, j, j)
  {
  }

  lemma FieldsHoldAtoms(s: string, fs: seq<Option<Field>>, xs: seq<Atom>)
    requires FieldsAre(s, fs, 2, AtomArgs(xs)) && FieldsIn(s, fs) && Ended(s, fs) && AtomsOk(xs)
    ensures AtomsAt(s, fs, 2, xs)
  {
    hide Show, Chars, Ended, AtomOk;
    forall m | 0 <= m < |xs| ensures HoldsAtom(s, fs[2 + m], xs[m]) {
      assert FieldIs(s, fs[2 + m], AtomArgs(xs)[m]);
      CharsShow(xs[m].text);
    }
  }

  /** A line whose operands are numbers and names is cut into its parts, and its operands are read as such. */
  lemma OperandsCut(s: string, j: nat, l: Source, xs: seq<Atom>, gap: string)
    requires OperandsLine(s, j, l, xs, gap)
    ensures !Room(s, j, 2 + |xs|) ==> FieldsOf(s) == Fail(TooManyFields)
    ensures Room(s, j, 2 + |xs|) ==> FieldsOf(s).Ok? && var fs := FieldsOf(s).value;
      && Accepted(s, fs) && |fs| == 2 + |xs| && NameOf(s, fs) == l.name && Ended(s, fs)
      && TextOf(s, fs[1]) == Some(l.mnemonic) && ArgsOf(s, fs, 2) == Readings(xs)
  {
    hide FieldsOf, PrintSource, Tail, NoComment, Blank, SourceOk, ArgsOf, Ended, AtomsAt, Stops, AtomsOk, Readings,
         Printed;
    LineNoComment(s, j, l, xs, gap);
    LineRoundTrip(s, j, l, gap);
    if Room(s, j, 2 + |xs|) {
      var fs := FieldsOf(s).value;
      AcceptedFields(s);
      FieldsEnded(s);
      FieldsHoldAtoms(s, fs, xs);
      AtomsRead(s, fs, 2, xs);
    }
  }

  lemma AtomsCut(s: string, j: nat, l: Source, opsize: OpSize, xs: seq<Atom>, gap: string)
    requires AtomsLine(s, j, l, opsize, xs, gap)
    ensures !Room(s, j, 2 + |xs|) ==> FieldsOf(s) == Fail(TooManyFields)
    ensures Room(s, j, 2 + |xs|) ==> FieldsOf(s).Ok? && var fs := FieldsOf(s).value;
      && Accepted(s, fs) && |fs| == 2 + |xs| && NameOf(s, fs) == l.name
      && DcField(s, fs[1].value, opsize) && ArgsOf(s, fs, 2) == Readings(xs)
  {
    hide FieldsOf, OperandsLine, ArgsOf, DcField, DcSpelled, Ended, Room, Readings, NameOf;
    OperandsCut(s, j, l, xs, gap);
    if Room(s, j, 2 + |xs|) { MnemonicField(s, FieldsOf(s).value, l, opsize); }
  }

  /** dc with its operands. */
  function DcOf(args: Result<seq<Arg>>, opsize: OpSize): Result<S.Action> {
    var some :- args;
    var items :- AllItems(some, 0, opsize);
    Ok(S.Emit(items))
  }

  lemma DcAction(s: string, fs: seq<Option<Field>>, opsize: OpSize)
    requires Accepted(s, fs) && |fs| >= 2 && DcField(s, fs[1].value, opsize)
    ensures ActionOf(s, fs) == DcOf(ArgsOf(s, fs, 2), opsize)
  {
    hide MnemonicAt, ArgsOf, AllItems, S.SameName;
  }

  /** What the operands of a line ask for: every one must be readable, and then admitted by the size. */
  function AskedFor(xs: seq<Atom>, opsize: OpSize): Result<seq<S.Item>>
    requires AtomsOk(xs)
  {
    var args :- Readings(xs);
    ReadingsNames(xs);
    AllAsked(args, opsize)
  }

  function Emitting(name: Option<string>, items: Result<seq<S.Item>>): Result<S.Line> {
    var some :- items;
    Ok(S.Line(name, S.Emit(some)))
  }

  /** A line with dc, numbers and names is read exactly as these operands: it is rejected if there are too many
      of them, then if a number cannot be read, then with the error of the first operand that the size does not
      admit; otherwise it asks for their constants, in order. */
  lemma AtomsExact(s: string, j: nat, l: Source, opsize: OpSize, xs: seq<Atom>, gap: string)
    requires AtomsLine(s, j, l, opsize, xs, gap)
    ensures AtomsOk(xs)
    ensures LineOf(s) == if !Room(s, j, 2 + |xs|) then Fail(TooManyFields) else Emitting(l.name, AskedFor(xs, opsize))
  {
    hide FieldsOf, ArgsOf, AllItems, DcField, DcSpelled, NameOf, Readings, AllAsked, Stops, PrintSource, Tail,
         Blank, LabelOk, ActionOf, NamesIn, AtomOk;
    AtomsCut(s, j, l, opsize, xs, gap);
    if Room(s, j, 2 + |xs|) {
      var fs := FieldsOf(s).value;
      AcceptedFields(s);
      DcAction(s, fs, opsize);
      if Readings(xs).Ok? {
        ReadingsNames(xs);
        var args := Readings(xs).value;
        assert args[0..] == args;
        AtomsStored(args, 0, opsize);
      }
    }
  }

  // ---------------------------------------------------------------- numbers alone, and longwords

  predicate AllNumerals(xs: seq<Atom>) {
    forall m | 0 <= m < |xs| :: xs[m].Numeral?
  }

  /** A number that can be read, and fits. */
  predicate Stored(a: Atom, opsize: OpSize)
    requires a.Numeral?
  {
    Kept(a.literal).Some? && Fits(Kept(a.literal).value, opsize)
  }

  function NumberItems(xs: seq<Atom>, opsize: OpSize): seq<S.Item>
    requires AllNumerals(xs) && forall m | 0 <= m < |xs| :: Stored(xs[m], opsize)
  {
    if xs == [] then []
    else
      assert Stored(xs[0], opsize);
      ConstantOf(Kept(xs[0].literal).value, opsize) + NumberItems(xs[1..], opsize)
  }

  lemma {:induction false} NumbersAsked(xs: seq<Atom>, opsize: OpSize)
    requires AllNumerals(xs) && AtomsOk(xs)
    ensures AskedFor(xs, opsize) ==
      if forall m | 0 <= m < |xs| :: Stored(xs[m], opsize) then Ok(NumberItems(xs, opsize)) else Fail(ValueOutOfBounds)
    decreases |xs|
  {
    hide Kept, Fits, ConstantOf;
    if xs == [] {
    } else {
      var rest := xs[1..];
      assert AllNumerals(rest) && AtomsOk(rest);
      NumbersAsked(rest, opsize);
      assert forall m | 0 <= m < |rest| :: rest[m] == xs[m + 1];
      if Readings(xs).Ok? { assert Readings(xs).value[1..] == Readings(rest).value; }
    }
  }

  /** A line with dc and numbers, in decimal or hexadecimal, with or without minus and size, is accepted exactly
      when every number can be read and is then an unsigned number of the size; it asks for exactly these
      constants, in order. So dc.b -1 is rejected. */
  lemma NumbersExact(s: string, j: nat, l: Source, opsize: OpSize, xs: seq<Atom>, gap: string)
    requires AtomsLine(s, j, l, opsize, xs, gap) && AllNumerals(xs)
    ensures LineOf(s) ==
      if !Room(s, j, 2 + |xs|) then Fail(TooManyFields)
      else if forall m | 0 <= m < |xs| :: Stored(xs[m], opsize) then Ok(S.Line(l.name, S.Emit(NumberItems(xs, opsize))))
      else Fail(ValueOutOfBounds)
  {
    hide AtomsLine, AskedFor, LineOf, Room, NumberItems, Stored, AtomsOk;
    AtomsExact(s, j, l, opsize, xs, gap);
    NumbersAsked(xs, opsize);
  }

  /** The longword of an operand: a number as it is read, or the address of a name. */
  function Longword(a: Atom): S.Item
    requires Reading(a).Ok?
  {
    match Reading(a).value
    case NumberArg(u) => S.Constant(4, u, None)
    case StringArg(t) => S.Constant(4, 0, Some(t))
  }

  lemma {:induction false} LongsAsked(xs: seq<Atom>)
    requires AtomsOk(xs)
    ensures AskedFor(xs, OsLong).Ok? <==> forall m | 0 <= m < |xs| :: Reading(xs[m]).Ok?
    ensures AskedFor(xs, OsLong).Fail? ==> AskedFor(xs, OsLong).error == ValueOutOfBounds
    ensures AskedFor(xs, OsLong).Ok? ==>
      && |AskedFor(xs, OsLong).value| == |xs|
      && forall m | 0 <= m < |xs| :: AskedFor(xs, OsLong).value[m] == Longword(xs[m])
    decreases |xs|
  {
    hide Reading;
    if xs == [] {
    } else {
      var rest := xs[1..];
      assert AtomOk(xs[0]) && AtomsOk(rest);
      LongsAsked(rest);
      ReadingFails(xs[0]);
      assert forall m | 0 <= m < |rest| :: rest[m] == xs[m + 1];
      if Readings(xs).Ok? { assert Readings(xs).value[1..] == Readings(rest).value; }
    }
  }

  lemma ReadingFails(a: Atom)
    ensures Reading(a).Fail? ==> Reading(a).error == ValueOutOfBounds
  {
  }

  /** A line with dc.l, numbers and names asks for one longword each, in order: the number, or the address of the
      name. The names .w and .l alone are read as the number zero. */
  lemma LongwordsExact(s: string, j: nat, l: Source, xs: seq<Atom>, gap: string)
    requires AtomsLine(s, j, l, OsLong, xs, gap) && Room(s, j, 2 + |xs|)
    ensures if forall m | 0 <= m < |xs| :: Reading(xs[m]).Ok? then
              LineOf(s).Ok? && var line := LineOf(s).value;
                line.declares == l.name && line.action.Emit? && |line.action.items| == |xs|
                && forall m | 0 <= m < |xs| :: line.action.items[m] == Longword(xs[m])
            else LineOf(s) == Fail(ValueOutOfBounds)
  {
    hide AtomsLine, AskedFor, LineOf, Room, Longword, AtomsOk, Reading;
    AtomsExact(s, j, l, OsLong, xs, gap);
    LongsAsked(xs);
  }

  /** With a size every operand asks for one constant. */
  lemma {:induction false} AskedEach(args: seq<Arg>, opsize: OpSize)
    requires NamesIn(args) && opsize != OsDefault && AllAsked(args, opsize).Ok?
    ensures |AllAsked(args, opsize).value| == |args|
    ensures forall m | 0 <= m < |args| :: Asked(args[m], opsize) == Ok([AllAsked(args, opsize).value[m]])
    decreases |args|
  {
    if args == [] {
    } else {
      NamesTail(args);
      AskedEach(args[1..], opsize);
      var items, rest := AllAsked(args, opsize).value, AllAsked(args[1..], opsize).value;
      assert items == Asked(args[0], opsize).value + rest;
      forall m | 0 <= m < |args| ensures Asked(args[m], opsize) == Ok([items[m]]) {
        if m > 0 { assert args[m] == args[1..][m - 1] && items[m] == rest[m - 1]; }
      }
    }
  }

  /** The bytes of a constant. */
  function Bytes(opsize: OpSize): nat {
    match opsize case OsByte => 1 case OsWord => 2 case OsLong => 4 case OsDefault => 0
  }

  /** The number that a literal stands for in memory: modulo 2^32, or its low word if it is written with `.w`. */
  function InMemory(l: Literal): int {
    if l.size == VSIZE_W then Meant(l) % 0x1_0000 else Meant(l) % 0x1_0000_0000
  }

  lemma KeptMeant(t: string, l: Literal, opsize: OpSize)
    requires Reading(Numeral(t, l)).Ok? && opsize != OsDefault && Asked(Reading(Numeral(t, l)).value, opsize).Ok?
    ensures Asked(Reading(Numeral(t, l)).value, opsize) == Ok([S.Constant(Bytes(opsize), InMemory(l), None)])
    ensures opsize == OsByte ==> InMemory(l) < 0x100
    ensures opsize == OsWord ==> InMemory(l) < 0x1_0000
  {
    hide Meant;
    LowWord(Meant(l));
  }

  lemma LowWord(n: int)
    ensures n % 0x1_0000_0000 % 0x1_0000 == n % 0x1_0000
  {
    var q, u := n / 0x1_0000_0000, n % 0x1_0000_0000;
    assert n == (q * 0x1_0000) * 0x1_0000 + u;
    Quotient(u, 0x1_0000, u / 0x1_0000, u % 0x1_0000);
    Quotient(n, 0x1_0000, q * 0x1_0000 + u / 0x1_0000, u % 0x1_0000);
  }

  /** An accepted line of constants asks at each number for exactly this number, in as many bytes as it says. */
  lemma NumberLine(s: string, j: nat, l: Source, opsize: OpSize, xs: seq<Atom>, gap: string, line: S.Line, q: nat)
    requires AtomsLine(s, j, l, opsize, xs, gap) && opsize != OsDefault && LineOf(s) == Ok(line)
    requires q < |xs| && xs[q].Numeral?
    ensures line.action.Emit? && |line.action.items| == |xs|
    ensures line.action.items[q] == S.Constant(Bytes(opsize), InMemory(xs[q].literal), None)
    ensures opsize == OsByte ==> InMemory(xs[q].literal) < 0x100
    ensures opsize == OsWord ==> InMemory(xs[q].literal) < 0x1_0000
  {
    hide AtomsLine, LineOf, Room, AtomsOk, Reading, Asked, AllAsked, Readings, InMemory;
    AtomsExact(s, j, l, opsize, xs, gap);
    ReadingsNames(xs);
    AskedEach(Readings(xs).value, opsize);
    KeptMeant(xs[q].text, xs[q].literal, opsize);
  }

  // ---------------------------------------------------------------- some lines

  /** A line with one operand and no label. */
  function OneLine(mnemonic: string, gap: string, a: Atom): Source {
    Source(None, false, mnemonic, gap, AtomArgs([a]), "")
  }

  lemma PrintOne(mnemonic: string, a: Atom, gap: string)
    ensures PrintSource(OneLine(mnemonic, gap, a), gap) == gap + (mnemonic + (gap + a.text))
  {
    hide Chars, Show;
    var l := OneLine(mnemonic, gap, a);
    CharsShow(a.text);
    assert l.operands == [Chars(a.text)];
    assert PrintLabel(l) == "";
    assert PrintOperands(l) == gap + a.text;
    assert "" + gap == gap;
  }

  /** A line with dc.l and one name. */
  lemma NameLineExact(t: string)
    requires AtomOk(Name(t))
    ensures LineOf(" dc.l " + t) == Ok(S.Line(None, S.Emit([Longword(Name(t))])))
  {
    hide AtomOk, LineOf, PrintSource, Longword, Reading, LabelOk;
    var s, xs := " dc.l " + t, [Name(t)];
    PrintOne("dc.l", Name(t), " ");
    assert " " + ("dc.l" + (" " + t)) == s;
    assert s[..|s|] == s;
    assert Reading(xs[0]).Ok? by { NameReads(t); }
    DcWord("dc.l", OsLong);
    LongwordsExact(s, |s|, OneLine("dc.l", " ", Name(t)), xs, " ");
    assert LineOf(s).value.action.items == [Longword(xs[0])];
  }

  lemma NameReads(t: string)
    ensures Reading(Name(t)).Ok?
  {
  }

  /** A line with tabs between its fields, and capitals. */
  lemma TabbedLine()
    ensures LineOf("\tDC.B\t$A") == Ok(S.Line(None, S.Emit([S.Constant(1, 10, None)])))
  {
    hide LineOf, Show, Chars, Print, PrintSource;
    var ten := Literal(true, false, 10, VSIZE_Z);
    var a := Numeral("$A", ten);
    var s := "\tDC.B\t$A";
    PrintedTen(a);
    PrintOne("DC.B", a, "\t");
    assert s == "\t" + ("DC.B" + ("\t" + "$A"));
    assert s[..|s|] == s;
    NumbersExact(s, |s|, OneLine("DC.B", "\t", a), OsByte, [a], "\t");
  }

  lemma PrintedTen(a: Atom)
    requires a == Numeral("$A", Literal(true, false, 10, VSIZE_Z))
    ensures Print(a.literal) == "$a" && Kept(a.literal) == Some(10) && Stored(a, OsByte)
    ensures NumberItems([a], OsByte) == [S.Constant(1, 10, None)]
  {
    assert NumberItems([a][1..], OsByte) == [];
  }

  /** A local name is handed on; a full stop with a size letter is the number zero. */
  lemma NameLines()
    ensures LineOf(" dc.l .x") == Ok(S.Line(None, S.Emit([S.Constant(4, 0, Some(".x"))])))
    ensures LineOf(" dc.l .l") == Ok(S.Line(None, S.Emit([S.Constant(4, 0, None)])))
    ensures LineOf(" dc.l .w") == Ok(S.Line(None, S.Emit([S.Constant(4, 0, None)])))
  {
    hide LineOf;
    NameLineExact(".x");
    NameLineExact(".l");
    NameLineExact(".w");
    assert " dc.l " + ".x" == " dc.l .x" && " dc.l " + ".l" == " dc.l .l" && " dc.l " + ".w" == " dc.l .w";
  }

  /** A line with 128 numbers ends the program. */
  lemma TooManyNumbers()
    ensures var xs := seq(128, _ => Numeral("0", Literal(false, false, 0, VSIZE_Z)));
      LineOf(PrintSource(Source(None, false, "dc.b", " ", AtomArgs(xs), ""), " ")) == Fail(TooManyFields)
  {
    hide LineOf, PrintSource, Print;
    var zero := Literal(false, false, 0, VSIZE_Z);
    var xs := seq(128, _ => Numeral("0", zero));
    var l := Source(None, false, "dc.b", " ", AtomArgs(xs), "");
    var s := PrintSource(l, " ");
    assert Print(zero) == "0" by { PrintedZero(zero); }
    assert s[..|s|] == s;
    AtomsExact(s, |s|, l, OsByte, xs, " ");
  }

  lemma PrintedZero(l: Literal)
    requires l == Literal(false, false, 0, VSIZE_Z)
    ensures Print(l) == "0"
  {
  }
}
