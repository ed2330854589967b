/** What the tokenizer does with a line (src/mangle.c:92-214): the fields it finds are ordered and bounded,
    and a printed line is cut into exactly its parts. */
module LineSyntax {
  import opened Basics
  import opened Text
  import opened Values
  import opened Lines

  // ---------------------------------------------------------------- every accepted line

  /** Fields lie one after the other, before the place reached. */
  ghost predicate Ordered(fields: seq<Option<Field>>, i: nat) {
    && (forall j | 0 <= j < |fields| && fields[j].Some? :: fields[j].value.from < fields[j].value.end <= i)
    && (forall j, l | 0 <= j < l < |fields| && fields[j].Some? && fields[l].Some? ::
          fields[j].value.end <= fields[l].value.from)
    && (forall j | 1 <= j < |fields| :: fields[j].Some?)
  }

  ghost predicate RowOk(k: Row, i: nat) {
    && Counted(k) && Ordered(k.fields, i)
    && (k.open.Some? ==> k.open.value < i && Ordered(k.fields, k.open.value))
  }

  lemma ClosedOrdered(fields: seq<Option<Field>>, from: nat, i: nat)
    requires Ordered(fields, from) && from < i
    ensures Ordered(fields + [Some(Field(from, i))], i)
  {
  }

  lemma LaterOrdered(fields: seq<Option<Field>>, i: nat, j: nat)
    requires Ordered(fields, i) && i <= j
    ensures Ordered(fields, j)
  {
  }

  lemma TurnOk(c: char, i: nat, k: Row, i': nat)
    requires RowOk(k, i) && Turn(c, i, k).Ok? && i < i'
    ensures RowOk(Turn(c, i, k).value, i')
  {
    hide Ordered, StartsSymbol, IsSpace;
    TurnCounted(c, i, k);
    LaterOrdered(k.fields, i, i');
    NoLabelOrdered(i);
    if k.open.Some? {
      ClosedOrdered(k.fields, k.open.value, i);
      LaterOrdered(k.fields + [Some(Field(k.open.value, i))], i, i');
    }
    if k.place == Inactive { assert k.fields + [None] == [None]; LaterOrdered([None], i, i'); }
  }

  lemma NoLabelOrdered(i: nat)
    ensures Ordered([None], i)
  {
  }

  lemma {:induction false} RowsOk(s: string, i: nat, k: Row)
    requires RowOk(k, i) && i <= |s| && RowFrom(s, i, k).Ok?
    ensures var (k', i') := RowFrom(s, i, k).value; RowOk(k', i') && i' <= |s|
    decreases |s| - i
  {
    hide RowOk, Turn;
    RowStep(s, i, k);
    if Stops(s, i) {
    } else {
      var i' := After(s, i, Escapes(s[i], k));
      TurnOk(s[i], i, k, i');
      RowsOk(s, i', Turn(s[i], i, k).value);
    }
  }

  /** On every accepted line the fields are non-empty, in order and disjoint; only the label may be
      missing; and there are at most 127 operands, which is what a signed byte can count. */
  lemma FieldCap(s: string)
    requires FieldsOf(s).Ok?
    ensures var fs := FieldsOf(s).value; Ordered(fs, |s|) && |fs| - 2 <= 127
  {
    RowsOk(s, 0, START);
    var (k, i) := RowFrom(s, 0, START).value;
    if k.open.Some? && k.open.value != i { ClosedOrdered(k.fields, k.open.value, i); }
    LaterOrdered(FieldsOf(s).value, i, |s|);
  }

  // ---------------------------------------------------------------- the characters of a line

  /** Space, tab, vertical tab and form feed stand between fields. */
  predicate Blankish(c: char) { c == ' ' || c == '\t' || c == '\U{0B}' || c == '\U{0C}' }

  /** Labels and mnemonics start with a letter, a full stop or an underscore. */
  predicate SymbolStart(c: char) {
    'a' <= c <= 'z' || 'A' <= c <= 'Z' || c == '.' || c == '_'
  }

  /** Nothing of the line counts from here on: the text ends, or the line, or a comment starts at the beginning
      of the line or behind whitespace. */
  predicate Over(s: string, i: nat) {
    || i >= |s| || s[i] == '\0' || s[i] == '\n' || s[i] == '\r'
    || ((s[i] == ';' || s[i] == '*')
        && (i == 0 || Blankish(s[i - 1]) || s[i - 1] == '\n' || s[i - 1] == '\r'))
  }

  /** These are the characters that the scan goes by. */
  lemma CharactersExact(c: char)
    ensures IsSpace(c) <==> Blankish(c) || c == '\n' || c == '\r'
    ensures StartsSymbol(c) <==> SymbolStart(c)
  {
  }

  lemma OverExact(s: string, i: nat)
    ensures Over(s, i) <==> Stops(s, i)
  {
  }

  // ---------------------------------------------------------------- printed operands

  /** An operand, structured: characters, escaped characters, balanced parentheses and strings. */
  datatype Argument =
    | End
    | Char(c: char, rest: Argument)
    | Escape(c: char, rest: Argument)
    | Parens(inner: Argument, rest: Argument)
    | Quotes(inner: Argument, rest: Argument)

  function Show(a: Argument): string {
    match a
    case End => ""
    case Char(c, rest) => [c] + Show(rest)
    case Escape(c, rest) => ['\\', c] + Show(rest)
    case Parens(inner, rest) => "(" + Show(inner) + (")" + Show(rest))
    case Quotes(inner, rest) => "\"" + Show(inner) + ("\"" + Show(rest))
  }

  /** Separators stand only inside parentheses or strings; strings do not nest. */
  predicate Proper(a: Argument, inside: bool, quoted: bool) {
    match a
    case End => true
    case Char(c, rest) => PlainChar(c, inside) && Proper(rest, inside, quoted)
    case Escape(c, rest) => c != '\0' && Proper(rest, inside, quoted)
    case Parens(inner, rest) => Proper(inner, true, quoted) && Proper(rest, inside, quoted)
    case Quotes(inner, rest) => !quoted && Proper(inner, true, true) && Proper(rest, inside, quoted)
  }

  predicate PlainChar(c: char, inside: bool) {
    && c != '(' && c != ')' && c != '"' && c != '\\' && c != '\0' && c != '\r' && c != '\n'
    && (inside || !(Blankish(c) || c == ','))
  }

  /** No comment starts in this part of the line. */
  ghost predicate NoComment(s: string, i: nat, j: nat) {
    forall m | i <= m < j :: !CommentAt(s, m)
  }

  /** In the middle of an operand: what the structure says about nesting holds. */
  predicate Midway(k: Row, inside: bool, quoted: bool) {
    && k.place == InOperands && k.open.Some? && |k.fields| <= MAX_FIELD
    && k.stack >= 0 && k.quoted == quoted && inside == (k.stack != 0 || quoted)
  }

  /** One step over a character that is not escaped. */
  lemma Step(s: string, i: nat, k: Row, c: char)
    requires i < |s| && s[i] == c && c != '\\' && c != '\0' && c != '\r' && c != '\n' && !CommentAt(s, i)
    requires k.place == InOperands && k.open.Some? && |k.fields| <= MAX_FIELD
    ensures RowFrom(s, i, k) == RowFrom(s, i + 1, Inner(c, i, k))
  {
    hide RowFrom;
    RowStep(s, i, k);
  }

  lemma EscapeStep(s: string, i: nat, k: Row)
    requires i + 1 < |s| && s[i] == '\\' && s[i + 1] != '\0'
    requires k.place == InOperands && k.open.Some? && |k.fields| <= MAX_FIELD
    ensures RowFrom(s, i, k) == RowFrom(s, i + 2, k)
  {
    hide RowFrom;
    RowStep(s, i, k);
  }

  /** A plain character in the middle of an operand. */
  lemma CharSteps(s: string, i: nat, j: nat, k: Row, c: char, rest: Argument, inside: bool, quoted: bool)
    requires i <= j <= |s| && s[i..j] == [c] + Show(rest) && PlainChar(c, inside) && Midway(k, inside, quoted)
    requires NoComment(s, i, j)
    ensures i < j && s[i + 1..j] == Show(rest) && NoComment(s, i + 1, j) && RowFrom(s, i, k) == RowFrom(s, i + 1, k)
  {
    hide RowFrom, Show, CommentAt, IsSpace;
    CharactersExact(c);
    CharParts(s, i, j, c, rest);
    Step(s, i, k, c);
  }

  lemma EscapeSteps(s: string, i: nat, j: nat, k: Row, c: char, rest: Argument, inside: bool, quoted: bool)
    requires i <= j <= |s| && s[i..j] == ['\\', c] + Show(rest) && c != '\0' && Midway(k, inside, quoted)
    requires NoComment(s, i, j)
    ensures i + 1 < j && s[i + 2..j] == Show(rest) && NoComment(s, i + 2, j) && RowFrom(s, i, k) == RowFrom(s, i + 2, k)
  {
    hide RowFrom, Show, CommentAt;
    EscapeParts(s, i, j, c, rest);
    EscapeStep(s, i, k);
  }

  /** What stands between parentheses. */
  lemma ParenSteps(s: string, i: nat, j: nat, k: Row, inner: Argument, rest: Argument, inside: bool, quoted: bool)
      returns (m: nat, k': Row)
    requires i <= j <= |s| && Midway(k, inside, quoted) && NoComment(s, i, j)
    requires s[i..j] == "(" + Show(inner) + (")" + Show(rest))
    ensures i + 1 <= m < j && s[i + 1..m] == Show(inner) && s[m + 1..j] == Show(rest)
    ensures NoComment(s, i + 1, m) && NoComment(s, m + 1, j) && Midway(k', true, quoted)
    ensures RowFrom(s, i, k) == RowFrom(s, i + 1, k') && RowFrom(s, m, k') == RowFrom(s, m + 1, k)
  {
    hide RowFrom, Show, CommentAt, IsSpace;
    m := NestParts(s, i, j, "(", inner, ")", rest);
    k' := k.(stack := k.stack + 1);
    Step(s, i, k, '(');
    Step(s, m, k', ')');
  }

  /** What stands between quotes, when no string is open. */
  lemma QuoteSteps(s: string, i: nat, j: nat, k: Row, inner: Argument, rest: Argument, inside: bool)
      returns (m: nat, k': Row)
    requires i <= j <= |s| && Midway(k, inside, false) && NoComment(s, i, j)
    requires s[i..j] == "\"" + Show(inner) + ("\"" + Show(rest))
    ensures i + 1 <= m < j && s[i + 1..m] == Show(inner) && s[m + 1..j] == Show(rest)
    ensures NoComment(s, i + 1, m) && NoComment(s, m + 1, j) && Midway(k', true, true)
    ensures RowFrom(s, i, k) == RowFrom(s, i + 1, k') && RowFrom(s, m, k') == RowFrom(s, m + 1, k)
  {
    hide RowFrom, Show, CommentAt, IsSpace;
    m := NestParts(s, i, j, "\"", inner, "\"", rest);
    k' := k.(quoted := true);
    Step(s, i, k, '"');
    Step(s, m, k', '"');
  }

  /** A proper operand is scanned over as a whole. */
  lemma {:induction false} ScanArgument(s: string, i: nat, j: nat, k: Row, a: Argument, inside: bool, quoted: bool)
    requires i <= j <= |s| && s[i..j] == Show(a) && Proper(a, inside, quoted) && Midway(k, inside, quoted)
    requires NoComment(s, i, j)
    ensures RowFrom(s, i, k) == RowFrom(s, j, k)
    decreases a
  {
    hide RowFrom, NoComment, PlainChar, Midway;
    match a
    case End =>
    case Char(c, rest) =>
      CharSteps(s, i, j, k, c, rest, inside, quoted);
      ScanArgument(s, i + 1, j, k, rest, inside, quoted);
    case Escape(c, rest) =>
      EscapeSteps(s, i, j, k, c, rest, inside, quoted);
      ScanArgument(s, i + 2, j, k, rest, inside, quoted);
    case Parens(inner, rest) =>
      var m, k' := ParenSteps(s, i, j, k, inner, rest, inside, quoted);
      ScanArgument(s, i + 1, m, k', inner, true, quoted);
      ScanArgument(s, m + 1, j, k, rest, inside, quoted);
    case Quotes(inner, rest) =>
      var m, k' := QuoteSteps(s, i, j, k, inner, rest, inside);
      ScanArgument(s, i + 1, m, k', inner, true, true);
      ScanArgument(s, m + 1, j, k, rest, inside, quoted);
  }

  lemma CharParts(s: string, i: nat, j: nat, c: char, rest: Argument)
    requires i <= j <= |s| && s[i..j] == [c] + Show(rest)
    ensures i < j && s[i] == c && s[i + 1..j] == Show(rest)
  {
    hide Show;
    assert s[i..j] == [c] + Show(rest) + "";
    Parts(s, i, j, [c], Show(rest), "");
    Within(s, i, i + 1, i);
  }

  lemma EscapeParts(s: string, i: nat, j: nat, c: char, rest: Argument)
    requires i <= j <= |s| && s[i..j] == ['\\', c] + Show(rest)
    ensures i + 1 < j && s[i] == '\\' && s[i + 1] == c && s[i + 2..j] == Show(rest)
  {
    hide Show;
    assert s[i..j] == ['\\', c] + Show(rest) + "";
    Parts(s, i, j, ['\\', c], Show(rest), "");
    Within(s, i, i + 2, i);
    Within(s, i, i + 2, i + 1);
  }

  lemma NestParts(s: string, i: nat, j: nat, left: string, inner: Argument, right: string, rest: Argument)
      returns (m: nat)
    requires i <= j <= |s| && |left| == |right| == 1 && s[i..j] == left + Show(inner) + (right + Show(rest))
    ensures i + 1 <= m < j && s[i] == left[0] && s[i + 1..m] == Show(inner) && s[m] == right[0]
    ensures s[m + 1..j] == Show(rest)
  {
    hide Show;
    m := i + 1 + |Show(inner)|;
    Parts(s, i, j, left, Show(inner), right + Show(rest));
    Within(s, i, i + 1, i);
    assert s[m..j] == right + Show(rest) + "";
    Parts(s, m, j, right, Show(rest), "");
    Within(s, m, m + 1, m);
  }

  // ---------------------------------------------------------------- printed lines

  /** What becomes of a scan that has reached i. */
  function Outcome(s: string, i: nat, k: Row): Result<seq<Option<Field>>> {
    var (k', i') :- RowFrom(s, i, k);
    if k'.quoted then Fail(UnterminatedString)
    else if k'.stack != 0 then Fail(UnmatchedParentheses)
    else Ok(if k'.open.Some? && k'.open.value != i' then CloseAt(k', i').fields else k'.fields)
  }

  /** Blanks between fields. */
  predicate Blank(t: string) {
    forall i | 0 <= i < |t| :: Blankish(t[i])
  }

  /** Characters without a blank, that start no comment. */
  predicate AnyWord(t: string) {
    && t != "" && t[0] != ';' && t[0] != '*'
    && forall i | 0 <= i < |t| :: !Blankish(t[i]) && t[i] != '\n' && t[i] != '\r' && t[i] != '\0'
  }

  /** A label, or a mnemonic that nothing stands in front of. */
  predicate IsWord(t: string) {
    AnyWord(t) && SymbolStart(t[0])
  }

  /** The rest of a line after its last field: nothing, the line end, or blanks and then a comment. */
  predicate Tail(s: string, i: nat)
    decreases |s| - i
  {
    Over(s, i) || (Blankish(s[i]) && Tail(s, i + 1))
  }

  /** The operands stand in the text from i to j, with commas and blanks between them. */
  ghost predicate OperandsAt(s: string, i: nat, j: nat, ops: seq<Argument>, gap: string)
    requires ops != []
    decreases |ops|
  {
    var n := |Show(ops[0])|;
    && i + n <= j <= |s| && s[i..i + n] == Show(ops[0])
    && (if |ops| == 1 then j == i + n
        else i + n + 1 + |gap| <= j && s[i + n] == ',' && s[i + n + 1..i + n + 1 + |gap|] == gap
             && OperandsAt(s, i + n + 1 + |gap|, j, ops[1..], gap))
  }

  /** Operands are proper and start with a character of their own. */
  ghost predicate OperandsOk(ops: seq<Argument>) {
    forall m | 0 <= m < |ops| :: ops[m] != End && Proper(ops[m], false, false)
  }

  /** A field holds an operand. */
  ghost predicate FieldIs(s: string, f: Option<Field>, a: Argument) {
    f.Some? && f.value.from <= f.value.end <= |s| && s[f.value.from..f.value.end] == Show(a)
  }

  /** The fields found from place n on are the operands. */
  ghost predicate FieldsAre(s: string, fs: seq<Option<Field>>, n: nat, ops: seq<Argument>) {
    |fs| == n + |ops| && forall m | 0 <= m < |ops| :: FieldIs(s, fs[n + m], ops[m])
  }

  /** Between two fields blanks are passed over. */
  lemma {:induction false} SkipBlanks(s: string, i: nat, j: nat, k: Row)
    requires i <= j <= |s| && Blank(s[i..j]) && k.open.None? && NoComment(s, i, j)
    requires k.place == InOperands ==> |k.fields| <= MAX_FIELD
    ensures RowFrom(s, i, k) == RowFrom(s, j, k)
    decreases j - i
  {
    hide RowFrom;
    if i >= j {
    } else {
      Within(s, i, j, i);
      assert s[i + 1..j] == s[i..j][1..];
      RowStep(s, i, k);
      BlankTurn(s[i], i, k);
      SkipBlanks(s, i + 1, j, k);
    }
  }

  lemma BlankTurn(c: char, i: nat, k: Row)
    requires IsSpace(c) && k.open.None? && (k.place == InOperands ==> |k.fields| <= MAX_FIELD)
    ensures Turn(c, i, k) == Ok(k) && !Escapes(c, k)
  {
  }

  /** Inside a label or mnemonic nothing happens. */
  lemma {:induction false} SkipWord(s: string, i: nat, j: nat, k: Row)
    requires i <= j <= |s| && (k.place == InLabel || k.place == InMnemonic) && k.open.Some? && NoComment(s, i, j)
    requires forall m | i <= m < j :: !IsSpace(s[m]) && s[m] != '\0' && (k.place == InLabel ==> s[m] != ':')
    ensures RowFrom(s, i, k) == RowFrom(s, j, k)
    decreases j - i
  {
    hide RowFrom;
    if i >= j {
    } else {
      RowStep(s, i, k);
      SkipWord(s, i + 1, j, k);
    }
  }

  /** The rest of a line changes no field. */
  lemma {:induction false} TailClosed(s: string, i: nat, k: Row)
    requires Tail(s, i) && k.open.None? && k.stack == 0 && !k.quoted && k.place != Inactive
    requires k.place == InOperands ==> |k.fields| <= MAX_FIELD
    ensures Outcome(s, i, k) == Ok(k.fields)
    decreases |s| - i
  {
    hide RowFrom, Tail;
    TailStep(s, i);
    RowStep(s, i, k);
    if Stops(s, i) {
    } else {
      BlankTurn(s[i], i, k);
      TailClosed(s, i + 1, k);
    }
  }

  lemma TailStep(s: string, i: nat)
    requires Tail(s, i)
    ensures Stops(s, i) || (i < |s| && IsSpace(s[i]) && Tail(s, i + 1))
  {
  }

  /** A field that is open when the rest begins is closed there. */
  lemma TailOpen(s: string, i: nat, k: Row)
    requires Tail(s, i) && k.open.Some? && k.open.value < i && k.stack == 0 && !k.quoted
    requires k.place == InMnemonic || (k.place == InOperands && |k.fields| < MAX_FIELD)
    ensures Outcome(s, i, k) == Ok(k.fields + [Some(Field(k.open.value, i))])
  {
    hide RowFrom, Tail;
    TailStep(s, i);
    RowStep(s, i, k);
    if !Stops(s, i) {
      assert Turn(s[i], i, k) == Ok(CloseAt(k, i));
      TailClosed(s, i + 1, CloseAt(k, i));
    }
  }

  /** Once the last field is closed, any further character ends the scan. */
  lemma NoMore(s: string, i: nat, k: Row)
    requires k.place == InOperands && |k.fields| > MAX_FIELD && !Stops(s, i)
    ensures Outcome(s, i, k) == Fail(TooManyFields)
  {
    hide RowFrom;
    RowStep(s, i, k);
  }

  /** The last field may be closed by the end of the line, or by one blank in front of it. */
  lemma TailFull(s: string, i: nat, k: Row)
    requires Tail(s, i) && k.open.Some? && k.open.value < i && k.stack == 0 && !k.quoted
    requires k.place == InOperands && |k.fields| == MAX_FIELD
    ensures Outcome(s, i, k) == if Stops(s, i) || Stops(s, i + 1) then Ok(k.fields + [Some(Field(k.open.value, i))])
                                else Fail(TooManyFields)
  {
    hide RowFrom, Tail;
    TailStep(s, i);
    RowStep(s, i, k);
    if !Stops(s, i) {
      assert Turn(s[i], i, k) == Ok(CloseAt(k, i));
      RowStep(s, i + 1, CloseAt(k, i));
    }
  }

  /** The first character opens the operand, and then counts like any other. */
  lemma OpenFirst(s: string, i: nat, k: Row, a: Argument)
    requires a != End && Proper(a, false, false) && i + |Show(a)| <= |s| && s[i..i + |Show(a)|] == Show(a)
    requires !CommentAt(s, i)
    requires k.open.None? && k.stack == 0 && !k.quoted
    requires k.place == InMnemonic || (k.place == InOperands && |k.fields| <= MAX_FIELD)
    requires |k.fields| <= MAX_FIELD
    ensures RowFrom(s, i, k) == RowFrom(s, i, k.(place := InOperands, open := Some(i)))
  {
    hide RowFrom;
    FirstChar(a);
    Within(s, i, i + |Show(a)|, i);
    RowStep(s, i, k);
    RowStep(s, i, k.(place := InOperands, open := Some(i)));
  }

  lemma FirstChar(a: Argument)
    requires a != End && Proper(a, false, false)
    ensures |Show(a)| > 0
    ensures var c := Show(a)[0]; c != ')' && !IsSpace(c) && c != ',' && c != '\0'
  {
  }

  /** The line has room for so many fields up to j: a label or nothing, the mnemonic, and 126 operands; one
      operand more if it is followed by the end of the line, or by one blank and the end. */
  predicate Room(s: string, j: nat, fields: nat) {
    fields <= 128 || (fields == 129 && (Over(s, j) || Over(s, j + 1)))
  }

  /** What follows a comma is a blank or an operand. */
  lemma AfterComma(s: string, i: nat, j: nat, gap: string, ops: seq<Argument>)
    requires ops != [] && i + |gap| <= j <= |s| && s[i..i + |gap|] == gap && OperandsAt(s, i + |gap|, j, ops, gap)
    requires OperandsOk(ops) && Blank(gap) && NoComment(s, i, j)
    ensures !Stops(s, i)
  {
    hide Show;
    if gap == "" {
      FirstChar(ops[0]);
      Within(s, i, i + |Show(ops[0])|, i);
    } else {
      Within(s, i, i + |gap|, i);
    }
  }

  /** The operands of a line, from the first on: they are the fields that are found, unless there are too
      many of them. */
  lemma {:induction false} ScanOperands(s: string, i: nat, j: nat, k: Row, ops: seq<Argument>, gap: string)
    requires ops != [] && OperandsAt(s, i, j, ops, gap) && OperandsOk(ops) && Blank(gap) && NoComment(s, i, j)
    requires Tail(s, j)
    requires k.open.None? && k.stack == 0 && !k.quoted && (k.place == InMnemonic || k.place == InOperands)
    requires |k.fields| <= MAX_FIELD
    ensures !Room(s, j, |k.fields| + |ops|) ==> Outcome(s, i, k) == Fail(TooManyFields)
    ensures Room(s, j, |k.fields| + |ops|) ==> Outcome(s, i, k).Ok? && var fs := Outcome(s, i, k).value;
      |fs| >= |k.fields| && fs[..|k.fields|] == k.fields && FieldsAre(s, fs, |k.fields|, ops)
    decreases |ops|
  {
    hide RowFrom, Show, CommentAt, Stops, Tail, NoComment, Blank, OperandsOk, FieldsAre, Outcome;
    var n := i + |Show(ops[0])|;
    var k' := k.(place := InOperands, open := Some(i));
    var closed := CloseAt(k', n);
    OverExact(s, n);
    OverExact(s, n + 1);
    NoCommentPart(s, i, j, i, n);
    OneOperand(s, i, n, k, ops);
    if |ops| == 1 {
      SameOutcome(s, i, k, n, k');
      if |k.fields| < MAX_FIELD { TailOpen(s, n, k'); } else { TailFull(s, n, k'); }
      OneField(s, k.fields, Field(i, n), ops);
    } else {
      var m := n + 1 + |gap|;
      CommaStep(s, n, k');
      NoCommentPart(s, i, j, n + 1, m);
      NoCommentPart(s, i, j, n + 1, j);
      NoCommentPart(s, i, j, m, j);
      RestOk(ops);
      if |k.fields| == MAX_FIELD {
        AfterComma(s, n + 1, j, gap, ops[1..]);
        SameOutcome(s, i, k, n + 1, closed);
        NoMore(s, n + 1, closed);
      } else {
        SkipBlanks(s, n + 1, m, closed);
        SameOutcome(s, i, k, m, closed);
        ScanOperands(s, m, j, closed, ops[1..], gap);
        if Room(s, j, |k.fields| + |ops|) { MoreFields(s, Outcome(s, i, k).value, k.fields, Field(i, n), ops); }
      }
    }
  }

  lemma RestOk(ops: seq<Argument>)
    requires ops != [] && OperandsOk(ops)
    ensures ops[0] != End && Proper(ops[0], false, false) && OperandsOk(ops[1..])
  {
  }

  lemma OneOperand(s: string, i: nat, n: nat, k: Row, ops: seq<Argument>)
    requires ops != [] && OperandsOk(ops) && n == i + |Show(ops[0])| <= |s| && s[i..n] == Show(ops[0])
    requires NoComment(s, i, n)
    requires k.open.None? && k.stack == 0 && !k.quoted && (k.place == InMnemonic || k.place == InOperands)
    requires |k.fields| <= MAX_FIELD
    ensures i < n && RowFrom(s, i, k) == RowFrom(s, n, k.(place := InOperands, open := Some(i)))
  {
    hide RowFrom, Show, CommentAt, OperandsOk;
    RestOk(ops);
    FirstChar(ops[0]);
    OpenFirst(s, i, k, ops[0]);
    ScanArgument(s, i, n, k.(place := InOperands, open := Some(i)), ops[0], false, false);
  }

  lemma OneField(s: string, before: seq<Option<Field>>, f: Field, ops: seq<Argument>)
    requires |ops| == 1 && f.from <= f.end <= |s| && s[f.from..f.end] == Show(ops[0])
    ensures (before + [Some(f)])[..|before|] == before && FieldsAre(s, before + [Some(f)], |before|, ops)
  {
  }

  lemma NoCommentPart(s: string, i: nat, j: nat, p: nat, q: nat)
    requires NoComment(s, i, j) && i <= p && q <= j
    ensures NoComment(s, p, q)
  {
  }

  lemma SameOutcome(s: string, i: nat, k: Row, j: nat, k': Row)
    requires RowFrom(s, i, k) == RowFrom(s, j, k')
    ensures Outcome(s, i, k) == Outcome(s, j, k')
  {
  }

  lemma CommaStep(s: string, i: nat, k: Row)
    requires i < |s| && s[i] == ',' && k.place == InOperands && k.open.Some? && |k.fields| <= MAX_FIELD
    requires k.stack == 0 && !k.quoted
    ensures RowFrom(s, i, k) == RowFrom(s, i + 1, CloseAt(k, i))
  {
    hide RowFrom;
    RowStep(s, i, k);
  }

  lemma MoreFields(s: string, fs: seq<Option<Field>>, before: seq<Option<Field>>, f: Field, ops: seq<Argument>)
    requires |ops| > 1 && f.from <= f.end <= |s| && s[f.from..f.end] == Show(ops[0])
    requires |fs| >= |before| + 1 && fs[..|before| + 1] == before + [Some(f)]
    requires FieldsAre(s, fs, |before| + 1, ops[1..])
    ensures fs[..|before|] == before && FieldsAre(s, fs, |before|, ops)
  {
    hide Show;
    var n := |before|;
    assert fs[..n] == fs[..n + 1][..n] && fs[n] == fs[..n + 1][n];
    forall m | 0 <= m < |ops| ensures FieldIs(s, fs[n + m], ops[m]) {
      if m > 0 { assert FieldIs(s, fs[n + 1 + (m - 1)], ops[1..][m - 1]); }
    }
  }

  function JoinOperands(ops: seq<Argument>, gap: string): string
    requires ops != []
  {
    if |ops| == 1 then Show(ops[0]) else Show(ops[0]) + "," + (gap + JoinOperands(ops[1..], gap))
  }

  lemma CommaParts(s: string, i: nat, j: nat, a: string, gap: string, rest: string)
    requires i <= j <= |s| && s[i..j] == a + "," + (gap + rest)
    ensures var n, m := i + |a|, i + |a| + 1 + |gap|;
      m <= j && s[i..n] == a && s[n] == ',' && s[n + 1..m] == gap && s[m..j] == rest
  {
    var n := i + |a|;
    Parts(s, i, j, a, ",", gap + rest);
    Within(s, n, n + 1, n);
    assert s[n + 1..j] == gap + rest + "";
    Parts(s, n + 1, j, gap, rest, "");
  }

  lemma JoinIs(ops: seq<Argument>, gap: string)
    requires |ops| > 1
    ensures JoinOperands(ops, gap) == Show(ops[0]) + "," + (gap + JoinOperands(ops[1..], gap))
  {
  }

  lemma {:induction false} JoinIsAt(s: string, i: nat, j: nat, ops: seq<Argument>, gap: string)
    requires ops != [] && i <= j <= |s| && s[i..j] == JoinOperands(ops, gap)
    ensures OperandsAt(s, i, j, ops, gap)
    decreases |ops|
  {
    hide Show;
    if |ops| <= 1 {
    } else {
      JoinIs(ops, gap);
      CommaParts(s, i, j, Show(ops[0]), gap, JoinOperands(ops[1..], gap));
      JoinIsAt(s, i + |Show(ops[0])| + 1 + |gap|, j, ops[1..], gap);
    }
  }

  /** A line as it is written: a label, if there is one, with or without a colon; the mnemonic; the operands,
      with blanks in front of them and after the commas. */
  datatype Source = Source(name: Option<string>, colon: bool, mnemonic: string, gap: string, operands: seq<Argument>,
                           after: string)

  predicate LabelOk(name: string) {
    IsWord(name) && forall i | 0 <= i < |name| :: name[i] != ':'
  }

  /** Label, mnemonic and blanks are in order. */
  predicate HeadOk(l: Source) {
    && (if l.name.Some? then LabelOk(l.name.value) else !l.colon && IsWord(l.mnemonic))
    && Blank(l.after) && AnyWord(l.mnemonic) && Blank(l.gap) && (l.operands != [] ==> l.gap != "")
  }

  ghost predicate SourceOk(l: Source) {
    HeadOk(l) && OperandsOk(l.operands)
  }

  function PrintLabel(l: Source): string {
    (if l.name.Some? then l.name.value else "") + (if l.colon then ":" else "")
  }

  function PrintOperands(l: Source): string {
    if l.operands == [] then "" else l.gap + JoinOperands(l.operands, l.after)
  }

  /** The line with blanks in front of its mnemonic. */
  function PrintSource(l: Source, front: string): string {
    PrintLabel(l) + front + (l.mnemonic + PrintOperands(l))
  }

  /** They may be missing behind a colon. */
  predicate FrontOk(l: Source, front: string) {
    Blank(front) && (front != "" || l.colon)
  }

  /** The text up to j is this line, and no comment starts among its operands. */
  ghost predicate Printed(s: string, j: nat, l: Source, front: string) {
    && SourceOk(l) && FrontOk(l, front) && j <= |s| && s[..j] == PrintSource(l, front) && Tail(s, j)
    && NoComment(s, |PrintLabel(l)| + |front| + |l.mnemonic|, j)
  }

  /** The fields of the printed line are its parts. */
  ghost predicate Cuts(s: string, fs: seq<Option<Field>>, l: Source) {
    && FieldsAre(s, fs, 2, l.operands)
    && (if l.name.None? then fs[0] == None
        else fs[0].Some? && fs[0].value.from <= fs[0].value.end <= |s|
             && s[fs[0].value.from..fs[0].value.end] == l.name.value)
    && fs[1].Some? && fs[1].value.from <= fs[1].value.end <= |s| && s[fs[1].value.from..fs[1].value.end] == l.mnemonic
  }

  lemma ScanNoLabel(s: string, gap: string, i: nat)
    requires gap != "" && Blank(gap) && i == |gap| < |s| && s[..i] == gap && StartsSymbol(s[i])
    requires NoComment(s, 0, i + 1)
    ensures RowFrom(s, 0, START) == RowFrom(s, i + 1, Row(InMnemonic, [None], Some(i), 0, false))
  {
    hide RowFrom;
    assert s[0..i] == s[..i];
    SkipBlanks(s, 0, i, START);
    RowStep(s, i, START);
    var none: seq<Option<Field>> := [];
    assert none + [None] == [None];
  }

  lemma ScanWithLabel(s: string, n: nat, l: Source, gap: string, i: nat)
    requires l.name.Some? && LabelOk(l.name.value) && (gap != "" || l.colon) && Blank(gap)
    requires n == |PrintLabel(l)| && i == n + |gap| < |s|
    requires s[0..n] == PrintLabel(l) && s[n..i] == gap && !IsSpace(s[i]) && s[i] != '\0' && NoComment(s, 0, i + 1)
    ensures RowFrom(s, 0, START)
         == RowFrom(s, i + 1, Row(InMnemonic, [Some(Field(0, |l.name.value|))], Some(i), 0, false))
  {
    hide RowFrom;
    var m := |l.name.value|;
    var k := Row(InLabel, [], Some(0), 0, false);
    var closed := Row(InLabel, [Some(Field(0, m))], None, 0, false);
    LabelAt(s, l, n);
    RowStep(s, 0, START);
    SkipWord(s, 1, m, k);
    RowStep(s, m, k);
    if !l.colon { Within(s, n, i, m); }
    assert k.fields + [Some(Field(0, m))] == [Some(Field(0, m))];
    assert s[m + 1..i] == if l.colon then s[n..i] else s[n..i][1..];
    SkipBlanks(s, m + 1, i, closed);
    RowStep(s, i, closed);
  }

  /** Up to the mnemonic: the label is found or missing. */
  lemma ScanLabel(s: string, l: Source, gap: string, i: nat)
    requires FrontOk(l, gap) && SourceOk(l) && i == |PrintLabel(l)| + |gap| < |s|
    requires s[..i] == PrintLabel(l) + gap && (l.name.None? ==> StartsSymbol(s[i])) && NoComment(s, 0, i + 1)
    requires !IsSpace(s[i]) && s[i] != '\0'
    ensures var first := if l.name.None? then None else Some(Field(0, |l.name.value|));
      RowFrom(s, 0, START) == RowFrom(s, i + 1, Row(InMnemonic, [first], Some(i), 0, false))
  {
    hide RowFrom, Blank, StartsSymbol, NoComment, LabelOk, AnyWord;
    var n := |PrintLabel(l)|;
    assert s[0..i] == PrintLabel(l) + gap + "";
    Parts(s, 0, i, PrintLabel(l), gap, "");
    if l.name.None? {
      assert PrintLabel(l) == "" && s[..i] == gap;
      ScanNoLabel(s, gap, i);
    } else {
      ScanWithLabel(s, n, l, gap, i);
    }
  }

  lemma LabelAt(s: string, l: Source, n: nat)
    requires l.name.Some? && LabelOk(l.name.value) && n == |PrintLabel(l)| <= |s| && s[0..n] == PrintLabel(l)
    ensures var m := |l.name.value|;
      && 0 < m && n == (if l.colon then m + 1 else m) && s[..m] == l.name.value && StartsSymbol(s[0])
      && (forall j | 0 <= j < m :: !IsSpace(s[j]) && s[j] != '\0' && s[j] != ':')
      && (l.colon ==> s[m] == ':')
  {
    var m := |l.name.value|;
    assert s[0..n] == l.name.value + (if l.colon then ":" else "") + "";
    Parts(s, 0, n, l.name.value, if l.colon then ":" else "", "");
    forall j | 0 <= j < m ensures s[j] == l.name.value[j] { Within(s, 0, m, j); }
    if l.colon { Within(s, m, n, m); }
  }

  /** From the mnemonic to the operands. */
  lemma ScanMnemonic(s: string, i: nat, n: nat, m: nat, first: Option<Field>, gap: string)
    requires gap != "" && Blank(gap) && i < n < m <= |s| && s[n..m] == gap && NoComment(s, i, m)
    requires forall p | i <= p < n :: !IsSpace(s[p]) && s[p] != '\0'
    ensures RowFrom(s, i + 1, Row(InMnemonic, [first], Some(i), 0, false))
         == RowFrom(s, m, Row(InMnemonic, [first, Some(Field(i, n))], None, 0, false))
  {
    hide RowFrom;
    var k := Row(InMnemonic, [first], Some(i), 0, false);
    var closed := Row(InMnemonic, [first, Some(Field(i, n))], None, 0, false);
    SkipWord(s, i + 1, n, k);
    Within(s, n, m, n);
    RowStep(s, n, k);
    assert k.fields + [Some(Field(i, n))] == closed.fields;
    assert s[n + 1..m] == s[n..m][1..];
    SkipBlanks(s, n + 1, m, closed);
  }

  lemma WordAt(s: string, i: nat, n: nat, w: string)
    requires AnyWord(w) && i + |w| == n <= |s| && s[i..n] == w
    ensures i < n && forall p | i <= p < n :: !IsSpace(s[p]) && s[p] != '\0'
  {
    forall p | i <= p < n ensures !IsSpace(s[p]) && s[p] != '\0' { Within(s, i, n, p); }
  }

  /** The mnemonic and the operands behind it. */
  lemma ScanMore(s: string, i: nat, n: nat, j: nat, first: Option<Field>, l: Source)
    requires SourceOk(l) && l.operands != [] && i < n == i + |l.mnemonic| <= j <= |s|
    requires s[i..n] == l.mnemonic && s[n..j] == l.gap + JoinOperands(l.operands, l.after)
    requires NoComment(s, i, j) && Tail(s, j)
    ensures ReadRest(s, i, j, first, l)
  {
    hide RowFrom, JoinOperands, Tail, Outcome, NoComment, Blank, AnyWord, OperandsOk, OperandsAt, FieldsAre, Room;
    var k := Row(InMnemonic, [first], Some(i), 0, false);
    var m := n + |l.gap|;
    var closed := Row(InMnemonic, [first, Some(Field(i, n))], None, 0, false);
    WordAt(s, i, n, l.mnemonic);
    NoCommentPart(s, i, j, i + 1, n);
    assert s[n..j] == l.gap + JoinOperands(l.operands, l.after) + "";
    Parts(s, n, j, l.gap, JoinOperands(l.operands, l.after), "");
    NoCommentPart(s, i, j, i, m);
    NoCommentPart(s, i, j, m, j);
    ScanMnemonic(s, i, n, m, first, l.gap);
    SameOutcome(s, i + 1, k, m, closed);
    JoinIsAt(s, m, j, l.operands, l.after);
    ScanOperands(s, m, j, closed, l.operands, l.after);
  }

  /** What is read of a mnemonic at `i` and what follows it up to `j`. */
  ghost predicate ReadRest(s: string, i: nat, j: nat, first: Option<Field>, l: Source) {
    var r := Outcome(s, i + 1, Row(InMnemonic, [first], Some(i), 0, false));
    && (!Room(s, j, 2 + |l.operands|) ==> r == Fail(TooManyFields))
    && (Room(s, j, 2 + |l.operands|) ==>
          && r.Ok? && FieldsAre(s, r.value, 2, l.operands)
          && r.value[..2] == [first, Some(Field(i, i + |l.mnemonic|))])
    && i + |l.mnemonic| <= |s| && s[i..i + |l.mnemonic|] == l.mnemonic
  }

  /** The mnemonic and what follows it. */
  lemma ScanRest(s: string, i: nat, j: nat, first: Option<Field>, l: Source)
    requires SourceOk(l) && i < j <= |s|
    requires s[i..j] == l.mnemonic + PrintOperands(l) && NoComment(s, i, j) && Tail(s, j)
    ensures ReadRest(s, i, j, first, l)
  {
    hide RowFrom, JoinOperands, Tail, Outcome, NoComment, Blank, AnyWord, OperandsOk, OperandsAt;
    var k := Row(InMnemonic, [first], Some(i), 0, false);
    var n := i + |l.mnemonic|;
    assert s[i..j] == l.mnemonic + PrintOperands(l) + "";
    Parts(s, i, j, l.mnemonic, PrintOperands(l), "");
    WordAt(s, i, n, l.mnemonic);
    if l.operands == [] {
      NoCommentPart(s, i, j, i + 1, n);
      SkipWord(s, i + 1, n, k);
      SameOutcome(s, i + 1, k, n, k);
      TailOpen(s, n, k);
      assert k.fields + [Some(Field(i, n))] == [first, Some(Field(i, n))];
    } else {
      ScanMore(s, i, n, j, first, l);
    }
  }

  lemma WordNoComment(s: string, i: nat, n: nat, w: string)
    requires AnyWord(w) && i + |w| == n <= |s| && s[i..n] == w
    ensures NoComment(s, i, n)
  {
    WordAt(s, i, n, w);
    Within(s, i, n, i);
  }

  lemma BlankNoComment(s: string, i: nat, n: nat)
    requires i <= n <= |s| && Blank(s[i..n])
    ensures NoComment(s, i, n)
  {
    forall p | i <= p < n ensures IsSpace(At(s, p)) { Within(s, i, n, p); }
  }

  /** The parts of a line up to its operands; no comment starts before these. */
  lemma HeadParts(s: string, j: nat, l: Source, gap: string, rest: string)
    requires SourceOk(l) && Blank(gap) && j <= |s| && s[..j] == PrintLabel(l) + gap + (l.mnemonic + rest)
    ensures var n, i, m := |PrintLabel(l)|, |PrintLabel(l)| + |gap|, |PrintLabel(l)| + |gap| + |l.mnemonic|;
      && m <= j && s[0..n] == PrintLabel(l) && s[n..i] == gap && s[i..m] == l.mnemonic && s[m..j] == rest
      && NoComment(s, 0, m)
  {
    hide NoComment, Blank, OperandsOk;
    var n, i, m := |PrintLabel(l)|, |PrintLabel(l)| + |gap|, |PrintLabel(l)| + |gap| + |l.mnemonic|;
    assert s[0..j] == s[..j];
    Parts(s, 0, j, PrintLabel(l), gap, l.mnemonic + rest);
    assert s[i..j] == l.mnemonic + rest + "";
    Parts(s, i, j, l.mnemonic, rest, "");
    WordNoComment(s, i, m, l.mnemonic);
    BlankNoComment(s, n, i);
    LabelNoComment(s, l, n);
    JoinNoComment(s, 0, n, i);
    JoinNoComment(s, 0, i, m);
  }

  lemma JoinNoComment(s: string, i: nat, m: nat, j: nat)
    requires NoComment(s, i, m) && NoComment(s, m, j)
    ensures NoComment(s, i, j)
  {
  }

  lemma LabelNoComment(s: string, l: Source, n: nat)
    requires SourceOk(l) && n == |PrintLabel(l)| <= |s| && s[0..n] == PrintLabel(l)
    ensures NoComment(s, 0, n)
  {
    if l.name.Some? {
      LabelAt(s, l, n);
      assert s[0..|l.name.value|] == s[..|l.name.value|];
      WordNoComment(s, 0, |l.name.value|, l.name.value);
    }
  }

  /** A printed line is cut into exactly its parts: the label if there is one, the mnemonic, which behind a label is
      any word, and each of the operands, whatever stands inside parentheses and strings and whatever comment follows,
      as long as no comment starts among the operands. It is rejected exactly when there are more than 127 operands,
      or 127 that are followed by more than one blank. */
  lemma LineRoundTrip(s: string, j: nat, l: Source, front: string)
    requires Printed(s, j, l, front)
    ensures if Room(s, j, 2 + |l.operands|)
            then FieldsOf(s).Ok? && Cuts(s, FieldsOf(s).value, l)
            else FieldsOf(s) == Fail(TooManyFields)
  {
    hide RowFrom, Stops, Tail, OperandsOk, PrintLabel, PrintOperands, NoComment, Blank, Outcome, Cuts, FieldsAre;
    var n, i, m := |PrintLabel(l)|, |PrintLabel(l)| + |front|, |PrintLabel(l)| + |front| + |l.mnemonic|;
    var first := if l.name.None? then None else Some(Field(0, |l.name.value|));
    var k := Row(InMnemonic, [first], Some(i), 0, false);
    HeadParts(s, j, l, front, PrintOperands(l));
    assert s[..i] == s[0..n] + s[n..i];
    assert s[i..j] == s[i..m] + s[m..j];
    Within(s, i, m, i);
    CharactersExact(s[i]);
    JoinNoComment(s, 0, m, j);
    NoCommentPart(s, 0, j, 0, i + 1);
    NoCommentPart(s, 0, j, i, j);
    ScanLabel(s, l, front, i);
    ScanRest(s, i, j, first, l);
    SameOutcome(s, 0, START, i + 1, k);
    FieldsOutcome(s);
    if l.name.Some? { LabelAt(s, l, n); }
    if Room(s, j, 2 + |l.operands|) { CutsWhole(s, FieldsOf(s).value, l, first, Field(i, m)); }
  }

  /** In front of the first letter, full stop or underscore nothing is opened. */
  lemma {:induction false} ScanNothing(s: string, i: nat, n: nat)
    requires i <= n <= |s| && Over(s, n) && forall m | i <= m < n :: !Over(s, m) && !SymbolStart(s[m])
    ensures RowFrom(s, i, START) == Ok((START, n))
    decreases n - i
  {
    hide RowFrom;
    OverExact(s, i);
    RowStep(s, i, START);
    if i == n {
    } else {
      CharactersExact(s[i]);
      ScanNothing(s, i + 1, n);
    }
  }

  /** A line in which no label or mnemonic starts before it ends, or before its comment, has no fields. */
  lemma NoFields(s: string, n: nat)
    requires n <= |s| && Over(s, n) && forall m | 0 <= m < n :: !Over(s, m) && !SymbolStart(s[m])
    ensures FieldsOf(s) == Ok([])
  {
    ScanNothing(s, 0, n);
  }

  /** So has a line that starts with a semicolon or an asterisk, at once or after blanks. */
  lemma CommentLine(s: string, n: nat)
    requires n < |s| && Blank(s[..n]) && (s[n] == ';' || s[n] == '*')
    ensures FieldsOf(s) == Ok([])
  {
    forall m | 0 <= m < n ensures !Over(s, m) && !SymbolStart(s[m]) { assert s[m] == s[..n][m]; }
    if n > 0 { assert s[n - 1] == s[..n][n - 1]; }
    NoFields(s, n);
  }

  lemma CutsWhole(s: string, fs: seq<Option<Field>>, l: Source, first: Option<Field>, second: Field)
    requires FieldsAre(s, fs, 2, l.operands) && fs[..2] == [first, Some(second)]
    requires second.from <= second.end <= |s| && s[second.from..second.end] == l.mnemonic
    requires if l.name.None? then first == None
             else first == Some(Field(0, |l.name.value|)) && |l.name.value| <= |s|
                  && s[..|l.name.value|] == l.name.value
    ensures Cuts(s, fs, l)
  {
    assert fs[0] == fs[..2][0] && fs[1] == fs[..2][1];
    if l.name.Some? { assert s[0..|l.name.value|] == s[..|l.name.value|]; }
  }

  lemma FieldsOutcome(s: string)
    ensures FieldsOf(s) == Outcome(s, 0, START)
  {
  }
}
