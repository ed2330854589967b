/** String constants from the source line to the bytes of the file: which byte strings can be written as a
    quoted literal of dc.b, and that they arrive (src/mangle.c:76-283, src/mnemonics_data.c:67-120,
    src/codespace.c:342-368, src/codespace.c:499-503). */
module StringData {
  import opened Basics
  import opened Entries
  import opened Text
  import opened Values
  import opened Addressing
  import opened Lines
  import opened LineSyntax
  import opened Constants
  import opened Agreement
  import opened Directives
  import opened Executable
  import P = Pass2
  import S = Store

  // ---------------------------------------------------------------- quoted literals

  function EncodeByte(b: Byte): string {
    if b == 0 then "\\0" else if b == 9 then "\\t" else if b == 13 then "\\r" else if b == 10 then "\\n"
    else if b == 34 then "\\\"" else if b == 92 then "\\\\" else [b as char]
  }

  function Encode(bs: seq<Byte>): string {
    if bs == [] then "" else EncodeByte(bs[0]) + Encode(bs[1..])
  }

  /** The literal for a byte string. */
  function QuotedText(bs: seq<Byte>): string {
    "\"" + (Encode(bs) + "\"")
  }

  /** One byte read back from its escape or from itself. */
  lemma DecodeByte(t: string, i: nat, b: Byte)
    requires i + |EncodeByte(b)| < |t| && t[i..i + |EncodeByte(b)|] == EncodeByte(b)
    ensures DecodeFrom(t, i, Inside) == Collected([b], DecodeFrom(t, i + |EncodeByte(b)|, Inside))
  {
    hide DecodeFrom;
    var code := EncodeByte(b);
    Within(t, i, i + |code|, i);
    if |code| == 2 { Within(t, i, i + 2, i + 1); }
    DecodeStep(t, i, Inside);
    EscapesRight(b);
  }

  lemma EscapesRight(b: Byte)
    ensures var code := EncodeByte(b);
      if |code| == 2 then code[0] == '\\' && Unescaped(code[1]) == b
      else |code| == 1 && ByteOf(code[0]) == b && code[0] != '\\' && code[0] != '"'
           && code[0] != '\0' && code[0] != '\r' && code[0] != '\n'
  {
  }

  /** Encoded bytes are read one by one, whatever follows. */
  lemma {:induction false} DecodeEncoded(t: string, i: nat, bs: seq<Byte>, tail: string)
    requires i <= |t| && t[i..] == Encode(bs) + tail && tail != ""
    ensures i + |Encode(bs)| < |t| && t[i + |Encode(bs)|..] == tail
    ensures DecodeFrom(t, i, Inside) == Collected(bs, DecodeFrom(t, i + |Encode(bs)|, Inside))
    decreases |bs|
  {
    hide DecodeFrom, EncodeByte;
    assert t[i..|t|] == t[i..];
    if bs == [] {
      CollectedStart(DecodeFrom(t, i, Inside));
    } else {
      var n := i + |EncodeByte(bs[0])|;
      assert t[i..|t|] == EncodeByte(bs[0]) + Encode(bs[1..]) + tail;
      Parts(t, i, |t|, EncodeByte(bs[0]), Encode(bs[1..]), tail);
      var m := n + |Encode(bs[1..])|;
      assert t[n..] == Encode(bs[1..]) + tail by { assert t[n..|t|] == t[n..m] + t[m..|t|]; }
      DecodeByte(t, i, bs[0]);
      DecodeEncoded(t, n, bs[1..], tail);
      CollectedMore([bs[0]], bs[1..], DecodeFrom(t, m, Inside));
      assert [bs[0]] + bs[1..] == bs;
    }
  }

  /** Whitespace outside the quotes. */
  predicate White(t: string) {
    forall i | 0 <= i < |t| :: Blankish(t[i]) || t[i] == '\n' || t[i] == '\r'
  }

  lemma {:induction false} DecodeWhite(t: string, i: nat, j: nat, q: Quoting)
    requires i <= j <= |t| && White(t[i..j]) && q != Inside
    ensures DecodeFrom(t, i, q) == DecodeFrom(t, j, q)
    decreases j - i
  {
    hide DecodeFrom;
    if i == j {
    } else {
      assert t[i] == t[i..j][0] && t[i..j][1..] == t[i + 1..j];
      CharactersExact(t[i]);
      DecodeStep(t, i, q);
      DecodeWhite(t, i + 1, j, q);
    }
  }

  /** A literal up to its closing quote. */
  lemma DecodeLiteral(t: string, front: string, bs: seq<Byte>, tail: string)
    requires White(front) && t == front + ("\"" + (Encode(bs) + tail)) && tail != ""
    ensures var n := |front| + 1 + |Encode(bs)|;
      && n < |t| && t[n..] == tail
      && DecodeFrom(t, 0, Before) == Collected(bs, DecodeFrom(t, n, Inside))
  {
    hide DecodeFrom, Encode, White;
    var n := |front|;
    assert t[0..n] == front && t[n] == '"';
    DecodeWhite(t, 0, n, Before);
    DecodeStep(t, n, Before);
    assert !IsSpace(t[n]);
    assert t[n + 1..] == Encode(bs) + tail;
    DecodeEncoded(t, n + 1, bs, tail);
  }

  /** Every byte string is read back from its literal, with whitespace around it. */
  lemma StringRoundTrip(front: string, bs: seq<Byte>, back: string)
    requires White(front) && White(back)
    ensures ItemsOf(StringArg(front + QuotedText(bs) + back), OsByte) == Ok(ByteItems(bs))
  {
    hide DecodeFrom, Encode, White;
    var t := front + QuotedText(bs) + back;
    assert t == front + ("\"" + (Encode(bs) + ("\"" + back)));
    DecodeLiteral(t, front, bs, "\"" + back);
    var n := |front| + 1 + |Encode(bs)|;
    assert t[n] == t[n..][0] && t[n + 1..|t|] == t[n..][1..] == back;
    DecodeStep(t, n, Inside);
    DecodeWhite(t, n + 1, |t|, Behind);
    DecodeEnd(t, |t|, Behind);
    CollectedNone(bs);
  }

  /** A literal that starts with its quote. */
  lemma DecodeQuoted(t: string, bs: seq<Byte>, tail: string)
    requires t == "\"" + (Encode(bs) + tail) && tail != ""
    ensures var n := 1 + |Encode(bs)|;
      && n < |t| && t[n..] == tail
      && DecodeFrom(t, 0, Before) == Collected(bs, DecodeFrom(t, n, Inside))
  {
    hide DecodeFrom, Encode;
    assert t == "" + ("\"" + (Encode(bs) + tail));
    DecodeLiteral(t, "", bs, tail);
  }

  lemma DecodeTrailing(t: string, n: nat)
    requires n < |t| && t[n..] == "\\"
    ensures DecodeFrom(t, n, Inside) == Fail(MisplacedEscaping)
  {
    hide DecodeFrom;
    assert |t[n..]| == 1 && t[n] == t[n..][0];
    DecodeStep(t, n, Inside);
  }

  lemma DecodeBehind(t: string, n: nat, c: char, rest: string)
    requires n < |t| && t[n..] == "\"" + ([c] + rest)
    requires !Blankish(c) && c != '\n' && c != '\r'
    ensures DecodeFrom(t, n, Inside) == Fail(InvalidString)
  {
    hide DecodeFrom;
    assert t[n] == t[n..][0] && t[n + 1] == t[n..][1] == c;
    DecodeStep(t, n, Inside);
    CharactersExact(c);
    DecodeStep(t, n + 1, Behind);
  }

  /** A literal that ends in a backslash, and one that anything but whitespace follows, are refused. */
  lemma LiteralRefused(bs: seq<Byte>, c: char, rest: string)
    requires !Blankish(c) && c != '\n' && c != '\r'
    ensures ItemsOf(StringArg("\"" + (Encode(bs) + "\\")), OsByte) == Fail(MisplacedEscaping)
    ensures ItemsOf(StringArg("\"" + (Encode(bs) + ("\"" + ([c] + rest)))), OsByte) == Fail(InvalidString)
  {
    hide DecodeFrom, Encode, Blankish;
    var n := 1 + |Encode(bs)|;
    var t := "\"" + (Encode(bs) + "\\");
    DecodeQuoted(t, bs, "\\");
    DecodeTrailing(t, n);
    var behind := "\"" + ([c] + rest);
    var u := "\"" + (Encode(bs) + behind);
    DecodeQuoted(u, bs, behind);
    DecodeBehind(u, n, c, rest);
  }

  /** A literal that is not closed is read up to its end. */
  lemma LiteralOpen(bs: seq<Byte>)
    requires bs != []
    ensures ItemsOf(StringArg("\"" + Encode(bs)), OsByte) == Ok(ByteItems(bs))
  {
    hide DecodeFrom, EncodeByte, Encode;
    var k := |bs| - 1;
    var init, last := bs[..k], bs[k];
    EncodeSnoc(init, last);
    assert bs == init + [last];
    var t := "\"" + Encode(bs);
    EscapesRight(last);
    DecodeQuoted(t, init, EncodeByte(last));
    LastByte(t, 1 + |Encode(init)|, last);
    CollectedMore(init, [last], Ok([]));
    CollectedNone(bs);
  }

  lemma LastByte(t: string, n: nat, b: Byte)
    requires n <= |t| && t[n..] == EncodeByte(b)
    ensures DecodeFrom(t, n, Inside) == Collected([b], Ok([]))
  {
    hide DecodeFrom, EncodeByte;
    assert t[n..] == t[n..|t|];
    EscapesRight(b);
    Within(t, n, |t|, n);
    if |t| == n + 2 { Within(t, n, |t|, n + 1); }
    DecodeStep(t, n, Inside);
    DecodeEnd(t, |t|, Inside);
  }

  lemma {:induction false} EncodeSnoc(bs: seq<Byte>, b: Byte)
    ensures Encode(bs + [b]) == Encode(bs) + EncodeByte(b)
    decreases |bs|
  {
    hide EncodeByte;
    if bs == [] {
      assert bs + [b] == [b] && [b][1..] == [];
      assert EncodeByte(b) + "" == EncodeByte(b);
    } else {
      assert (bs + [b])[1..] == bs[1..] + [b];
      EncodeSnoc(bs[1..], b);
      assert EncodeByte(bs[0]) + (Encode(bs[1..]) + EncodeByte(b))
          == EncodeByte(bs[0]) + Encode(bs[1..]) + EncodeByte(b);
    }
  }

  // ---------------------------------------------------------------- literals that survive the tokenizer

  /** Opening minus closing parentheses: the tokenizer counts them inside strings as well. */
  function Depth(bs: seq<Byte>): int {
    if bs == [] then 0 else (if bs[0] == 40 then 1 else if bs[0] == 41 then -1 else 0) + Depth(bs[1..])
  }

  /** Whitespace that stands for itself in a literal. */
  predicate BlankByte(b: Byte) { b == 32 || b == 11 || b == 12 }

  predicate CommentByte(b: Byte) { b == 59 || b == 42 }

  /** A comment starts in the literal: a semicolon or an asterisk after whitespace. */
  ghost predicate Commented(bs: seq<Byte>) {
    exists i :: 0 < i < |bs| && BlankByte(bs[i - 1]) && CommentByte(bs[i])
  }

  /** The same, with what stands before the literal. */
  predicate CommentIn(bs: seq<Byte>, blank: bool) {
    bs != [] && ((blank && CommentByte(bs[0])) || CommentIn(bs[1..], BlankByte(bs[0])))
  }

  lemma {:induction false} CommentInExact(bs: seq<Byte>, blank: bool)
    ensures CommentIn(bs, blank) <==> (blank && bs != [] && CommentByte(bs[0])) || Commented(bs)
    decreases |bs|
  {
    if bs == [] {
    } else {
      var rest := bs[1..];
      CommentInExact(rest, BlankByte(bs[0]));
      if Commented(rest) {
        var i :| 0 < i < |rest| && BlankByte(rest[i - 1]) && CommentByte(rest[i]);
        assert BlankByte(bs[i + 1 - 1]) && CommentByte(bs[i + 1]);
      }
      if BlankByte(bs[0]) && rest != [] && CommentByte(rest[0]) { assert BlankByte(bs[1 - 1]) && CommentByte(bs[1]); }
      if Commented(bs) {
        var i :| 0 < i < |bs| && BlankByte(bs[i - 1]) && CommentByte(bs[i]);
        if i > 1 { assert BlankByte(rest[i - 1 - 1]) && CommentByte(rest[i - 1]); }
      }
    }
  }

  /** Inside a literal. */
  predicate InLiteral(k: Row) {
    k.place == InOperands && k.open.Some? && k.quoted && |k.fields| <= MAX_FIELD
  }

  /** Blank in front of a place. */
  predicate BlankBefore(s: string, i: nat) { i > 0 && IsSpace(At(s, i - 1)) }

  lemma ByteChars(b: Byte)
    ensures var code := EncodeByte(b);
      && (|code| == 2 || (|code| == 1 && code[0] == b as char))
      && (|code| == 2 ==> code[0] == '\\' && !IsSpace(code[1]) && code[1] != '\0'
                          && b != 40 && b != 41 && !BlankByte(b) && !CommentByte(b))
      && (|code| == 1 ==> (IsSpace(code[0]) <==> BlankByte(b))
                          && (code[0] == '(' <==> b == 40) && (code[0] == ')' <==> b == 41)
                          && (code[0] == ';' || code[0] == '*' <==> CommentByte(b))
                          && code[0] != '\\' && code[0] != '"' && code[0] != '\0' && code[0] != '\r' && code[0] != '\n')
  {
  }

  /** One byte of a literal. */
  lemma ScanByte(s: string, i: nat, k: Row, b: Byte)
    requires var n := i + |EncodeByte(b)|; n <= |s| && s[i..n] == EncodeByte(b)
    requires InLiteral(k) && i > 0
    ensures var n := i + |EncodeByte(b)|;
      && (BlankBefore(s, i) && CommentByte(b) ==> RowFrom(s, i, k) == Ok((k, i)))
      && (!(BlankBefore(s, i) && CommentByte(b)) ==>
            RowFrom(s, i, k) == RowFrom(s, n, k.(stack := k.stack + if b == 40 then 1 else if b == 41 then -1 else 0)))
      && (BlankBefore(s, n) <==> BlankByte(b))
  {
    hide RowFrom, EncodeByte, IsSpace;
    var code := EncodeByte(b);
    ByteChars(b);
    Within(s, i, i + |code|, i);
    RowStep(s, i, k);
    if |code| == 2 {
      Within(s, i, i + 2, i + 1);
      EscapeStep(s, i, k);
      assert k.(stack := k.stack + 0) == k;
    } else if !(BlankBefore(s, i) && CommentByte(b)) {
      Step(s, i, k, code[0]);
    }
  }

  /** The body of a literal: either a comment cuts it short while the string is open, or it is passed over
      and its parentheses are counted. */
  lemma {:induction false} ScanBytes(s: string, i: nat, j: nat, k: Row, bs: seq<Byte>)
    requires 0 < i <= j <= |s| && s[i..j] == Encode(bs) && InLiteral(k)
    ensures CommentIn(bs, BlankBefore(s, i)) ==> RowFrom(s, i, k).Ok? && RowFrom(s, i, k).value.0.quoted
    ensures !CommentIn(bs, BlankBefore(s, i)) ==> RowFrom(s, i, k) == RowFrom(s, j, k.(stack := k.stack + Depth(bs)))
    decreases |bs|
  {
    hide RowFrom, EncodeByte, IsSpace, CommentByte, BlankByte, BlankBefore;
    if bs == [] {
    } else {
      var n := i + |EncodeByte(bs[0])|;
      assert s[i..j] == EncodeByte(bs[0]) + Encode(bs[1..]) + "";
      Parts(s, i, j, EncodeByte(bs[0]), Encode(bs[1..]), "");
      ScanByte(s, i, k, bs[0]);
      var d := if bs[0] == 40 then 1 else if bs[0] == 41 then -1 else 0;
      ScanBytes(s, n, j, k.(stack := k.stack + d), bs[1..]);
    }
  }

  /** The literal as the only operand, up to the end of the line. */
  lemma ScanLiteral(s: string, i: nat, j: nat, fields: seq<Option<Field>>, bs: seq<Byte>)
    requires 0 < i < j <= |s| && s[i..j] == QuotedText(bs) && |fields| == 2
    requires LineEnds(s, j)
    ensures Outcome(s, i, Row(InMnemonic, fields, None, 0, false))
         == if CommentIn(bs, false) then Fail(UnterminatedString)
            else if Depth(bs) != 0 then Fail(UnmatchedParentheses)
            else Ok(fields + [Some(Field(i, j))])
  {
    hide RowFrom, Encode, CommentIn, Depth;
    var k := Row(InMnemonic, fields, None, 0, false);
    var k1 := Row(InOperands, fields, Some(i), 0, true);
    Parts(s, i, j, "\"", Encode(bs), "\"" + "");
    assert s[i..j] == "\"" + Encode(bs) + "\"";
    Parts(s, i, j, "\"", Encode(bs), "\"");
    Within(s, i, i + 1, i);
    Within(s, j - 1, j, j - 1);
    RowStep(s, i, k);
    assert !BlankBefore(s, i + 1);
    ScanBytes(s, i + 1, j - 1, k1, bs);
    if !CommentIn(bs, false) {
      var k2 := k1.(stack := Depth(bs));
      Step(s, j - 1, k2, '"');
      RowStep(s, j, k2.(quoted := false));
    }
  }

  const DCB := "dc.b"

  lemma DcbWord()
    ensures IsWord(DCB)
  {
  }

  /** A line with dc.b and one literal. */
  function LiteralLine(name: Option<string>, colon: bool): Source {
    Source(name, colon, DCB, "", [], "")
  }

  /** Such a line, with the literal standing from m to j. */
  ghost predicate LiteralAt(s: string, j: nat, name: Option<string>, colon: bool, gap: string, bs: seq<Byte>) {
    && SourceOk(LiteralLine(name, colon)) && gap != "" && Blank(gap) && j <= |s|
    && s[..j] == PrintLabel(LiteralLine(name, colon)) + gap + (DCB + (gap + QuotedText(bs)))
    && LineEnds(s, j)
  }

  predicate LineEnds(s: string, j: nat) { At(s, j) == '\0' || At(s, j) == '\r' || At(s, j) == '\n' }

  function FirstField(name: Option<string>): Option<Field> {
    if name.None? then None else Some(Field(0, |name.value|))
  }

  /** The place of dc.b. */
  function DcbAt(name: Option<string>, colon: bool, gap: string): nat {
    |PrintLabel(LiteralLine(name, colon))| + |gap|
  }

  lemma LiteralParts(s: string, j: nat, name: Option<string>, colon: bool, gap: string, bs: seq<Byte>)
    requires LiteralAt(s, j, name, colon, gap, bs)
    ensures var l, i := LiteralLine(name, colon), DcbAt(name, colon, gap);
      var n, m := |PrintLabel(l)|, i + 4 + |gap|;
      && n < i && i + 4 < m < j <= |s| && s[0..n] == PrintLabel(l) && s[n..i] == gap
      && s[i..i + 4] == DCB && s[i + 4..m] == gap && s[m..j] == QuotedText(bs) && NoComment(s, 0, m)
  {
    hide PrintLabel, QuotedText, NoComment, Blank, OperandsOk, SourceOk;
    var l, i := LiteralLine(name, colon), DcbAt(name, colon, gap);
    var m := i + 4 + |gap|;
    HeadParts(s, j, l, gap, gap + QuotedText(bs));
    assert s[i + 4..j] == gap + QuotedText(bs) + "";
    Parts(s, i + 4, j, gap, QuotedText(bs), "");
    QuotedNonEmpty(bs);
    BlankNoComment(s, i + 4, m);
    JoinNoComment(s, 0, i + 4, m);
  }

  /** The scan reaches the literal with label and mnemonic closed. */
  lemma ReachLiteral(s: string, j: nat, name: Option<string>, colon: bool, gap: string, bs: seq<Byte>)
    requires LiteralAt(s, j, name, colon, gap, bs)
    ensures var i := DcbAt(name, colon, gap);
      var m := i + 4 + |gap|;
      && i + 4 < m < j <= |s| && LineEnds(s, j)
      && RowFrom(s, 0, START)
         == RowFrom(s, m, Row(InMnemonic, [FirstField(name), Some(Field(i, i + 4))], None, 0, false))
  {
    hide RowFrom, PrintLabel, QuotedText, NoComment, OperandsOk, Blank;
    var l, i := LiteralLine(name, colon), DcbAt(name, colon, gap);
    var n, m := |PrintLabel(l)|, i + 4 + |gap|;
    LiteralParts(s, j, name, colon, gap, bs);
    assert s[..i] == s[0..n] + s[n..i];
    Within(s, i, i + 4, i);
    DcbWord();
    WordAt(s, i, i + 4, DCB);
    NoCommentPart(s, 0, m, 0, i + 1);
    NoCommentPart(s, 0, m, i, m);
    ScanLabel(s, l, gap, i);
    ScanMnemonic(s, i, i + 4, m, FirstField(name), gap);
  }

  /** The label of such a line. */
  lemma LiteralLabel(s: string, j: nat, name: Option<string>, colon: bool, gap: string, bs: seq<Byte>)
    requires LiteralAt(s, j, name, colon, gap, bs) && name.Some?
    ensures 0 < |name.value| <= |s| && s[0..|name.value|] == name.value
  {
    hide PrintLabel, QuotedText, NoComment, Blank, OperandsOk;
    var l := LiteralLine(name, colon);
    LiteralParts(s, j, name, colon, gap, bs);
    LabelAt(s, l, |PrintLabel(l)|);
    assert s[0..|name.value|] == s[..|name.value|];
  }

  /** A line whose only operand is a literal is cut into label, dc.b and the literal exactly when no
      comment starts inside the literal and its parentheses are as many opening as closing; otherwise it is
      rejected as a string without end, or for its parentheses. */
  lemma LiteralExact(s: string, j: nat, name: Option<string>, colon: bool, gap: string, bs: seq<Byte>)
    requires LiteralAt(s, j, name, colon, gap, bs)
    ensures var i := DcbAt(name, colon, gap);
      FieldsOf(s) == if Commented(bs) then Fail(UnterminatedString)
                     else if Depth(bs) != 0 then Fail(UnmatchedParentheses)
                     else Ok([FirstField(name), Some(Field(i, i + 4)), Some(Field(i + 4 + |gap|, j))])
  {
    hide RowFrom, PrintLabel, QuotedText, Outcome, Blank, OperandsOk, CommentIn, Commented, Depth, DcbAt,
         FirstField, LiteralAt, NoComment;
    var i := DcbAt(name, colon, gap);
    var m := i + 4 + |gap|;
    var fields := [FirstField(name), Some(Field(i, i + 4))];
    LiteralParts(s, j, name, colon, gap, bs);
    ReachLiteral(s, j, name, colon, gap, bs);
    SameOutcome(s, 0, START, m, Row(InMnemonic, fields, None, 0, false));
    FieldsOutcome(s);
    ScanLiteral(s, m, j, fields, bs);
    CommentInExact(bs, false);
    assert fields + [Some(Field(m, j))] == [FirstField(name), Some(Field(i, i + 4)), Some(Field(m, j))];
  }

  lemma QuotedNonEmpty(bs: seq<Byte>)
    ensures |QuotedText(bs)| >= 2 && QuotedText(bs)[0] == '"'
  {
  }

  lemma DcbMnemonic(s: string, i: nat)
    requires i + 4 <= |s| && s[i..i + 4] == DCB
    ensures MnemonicAt(s, i, i + 4) == Ok(("dc", OsByte))
  {
    forall m | i <= m < i + 4 ensures At(s, m) == DCB[m - i] { Within(s, i, i + 4, m); }
    assert DotAt(s, i + 2, i + 4) == i + 2;
    assert DotAt(s, i + 1, i + 4) == i + 2;
    assert DotAt(s, i, i + 4) == i + 2;
    assert s[i..i + 2] == s[i..i + 4][..2] == "dc";
  }

  lemma LiteralArg(s: string, m: nat, j: nat, bs: seq<Byte>)
    requires m <= j <= |s| && s[m..j] == QuotedText(bs)
    ensures ArgAt(s, m, j) == Ok(StringArg(QuotedText(bs)))
  {
    hide QuotedText;
    QuotedNonEmpty(bs);
    Within(s, m, j, m);
    assert Scan(s, m, j, 10) == None;
  }

  /** What the line asks of the code store: the bytes of the literal, one by one. */
  lemma StringLine(s: string, j: nat, name: Option<string>, colon: bool, gap: string, bs: seq<Byte>)
    requires LiteralAt(s, j, name, colon, gap, bs)
    ensures LineOf(s) == if Commented(bs) then Fail(UnterminatedString)
                         else if Depth(bs) != 0 then Fail(UnmatchedParentheses)
                         else Ok(S.Line(name, S.Emit(ByteItems(bs))))
  {
    hide FieldsOf, LiteralAt, Commented, Depth, ArgsOf, AllItems, ItemsOf, MnemonicAt, ArgAt, QuotedText, DcbAt;
    LiteralExact(s, j, name, colon, gap, bs);
    LiteralParts(s, j, name, colon, gap, bs);
    if name.Some? { LiteralLabel(s, j, name, colon, gap, bs); }
    if FieldsOf(s).Ok? {
      var i := DcbAt(name, colon, gap);
      var m := i + 4 + |gap|;
      var fs := FieldsOf(s).value;
      AcceptedFields(s);
      DcbMnemonic(s, i);
      LiteralArg(s, m, j, bs);
      ArgsStep(s, fs, 2);
      ArgsEnd(s, fs, 3);
      var args := [StringArg(QuotedText(bs))];
      CollectedNone(args);
      AllItemsStep(args, 0, OsByte);
      StringRoundTrip("", bs, "");
      assert "" + QuotedText(bs) + "" == QuotedText(bs);
      AllItemsDone(args, OsByte);
      CollectedNone(ByteItems(bs));
      assert S.SameName("dc", "dc");
    }
  }

  lemma AllItemsDone(args: seq<Arg>, opsize: OpSize)
    ensures AllItems(args, |args|, opsize) == Ok([])
  {
  }

  // ---------------------------------------------------------------- into the file

  /** The entries for some bytes. */
  function ByteEntries(bs: seq<Byte>): (r: seq<Entry<nat>>)
    ensures |r| == |bs| && forall i | 0 <= i < |bs| :: r[i] == Data(1, 1, bs[i], None)
  {
    seq(|bs|, i requires 0 <= i < |bs| => Data(1, 1, bs[i], None))
  }

  /** More entries in a section. */
  function Appended(st: S.State, c: nat, es: seq<Entry<nat>>): S.State
    requires c < |st.secs|
  {
    st.(secs := st.secs[c := st.secs[c].(entries := st.secs[c].entries + es)])
  }

  lemma AppendedTwice(st: S.State, c: nat, a: seq<Entry<nat>>, b: seq<Entry<nat>>)
    requires c < |st.secs|
    ensures Appended(Appended(st, c, a), c, b) == Appended(st, c, a + b)
  {
    assert st.secs[c].entries + a + b == st.secs[c].entries + (a + b);
  }

  lemma PushByte(st: S.State, b: Byte)
    requires S.Rooted(st) && S.Current(st)
    ensures S.Ensure(st).curr.Some? && S.Ensure(st).curr.value < |S.Ensure(st).secs|
    ensures var st' := Appended(S.Ensure(st), S.Ensure(st).curr.value, [Data(1, 1, b, None)]);
      S.PushItem(st, S.Constant(1, b, None)) == Ok(st') && S.Rooted(st') && S.Current(st') && S.Ensure(st') == st'
  {
  }

  lemma PushItemsIs(st: S.State, items: seq<S.Item>, st': S.State)
    requires S.Rooted(st) && S.Current(st) && items != [] && forall i | 0 <= i < |items| :: S.ItemNamed(items[i])
    requires S.ItemNamed(items[0]) && S.PushItem(st, items[0]) == Ok(st')
    ensures S.PushItems(st, items) == S.PushItems(st', items[1..])
  {
  }

  /** The store with some more bytes at the end of its current section, which is "code" if there is none. */
  function WithBytes(st: S.State, bs: seq<Byte>): S.State
    requires S.Current(st)
  {
    if bs == [] then st else Appended(S.Ensure(st), S.Ensure(st).curr.value, ByteEntries(bs))
  }

  /** Pushing the bytes appends their entries to the current section, and changes nothing else. */
  lemma {:induction false} PushBytes(st: S.State, bs: seq<Byte>)
    requires S.Rooted(st) && S.Current(st)
    ensures S.PushItems(st, ByteItems(bs)) == Ok(WithBytes(st, bs))
    decreases |bs|
  {
    hide S.Rooted, S.PushItem, S.Ensure;
    if bs == [] {
    } else {
      var one := [Data(1, 1, bs[0], None)];
      assert ByteItems(bs)[1..] == ByteItems(bs[1..]);
      PushByte(st, bs[0]);
      var c := S.Ensure(st).curr.value;
      var st' := Appended(S.Ensure(st), c, one);
      PushItemsIs(st, ByteItems(bs), st');
      PushBytes(st', bs[1..]);
      if |bs| == 1 {
        assert one == ByteEntries(bs);
      } else {
        AppendedTwice(S.Ensure(st), c, one, ByteEntries(bs[1..]));
        assert one + ByteEntries(bs[1..]) == ByteEntries(bs);
      }
    }
  }

  /** Pass 2 writes the bytes one after the other, as long as the buffer has room for them. */
  lemma {:induction false} BytesWritten(lay: P.Layout, owner: nat, k: P.Sink, bs: seq<Byte>)
    requires lay.Valid() && (k.bss || |k.bytes| <= P.BLOCK)
    ensures P.WriteEntries(lay, owner, k, ByteEntries(bs))
         == if k.bss || |k.bytes| + |bs| <= P.BLOCK then Ok(k.(pc := Wrap32(k.pc + |bs|), bytes := k.bytes + bs))
            else Fail(BufferOverrun)
    decreases |bs|
  {
    if bs == [] {
      assert k.bytes + [] == k.bytes;
      WrapSmall(k.pc);
    } else {
      var es := ByteEntries(bs);
      assert es[1..] == ByteEntries(bs[1..]);
      var one := P.WriteEntry(lay, owner, k, es[0]);
      assert one == P.Put(k, [bs[0]]);
      if one.Ok? {
        BytesWritten(lay, owner, one.value, bs[1..]);
        assert k.bytes + [bs[0]] + bs[1..] == k.bytes + bs;
        WrapAdd(k.pc as int + 1, |bs| - 1);
      }
    }
  }

  /** The bytes of a literal stand in the section behind everything that was pushed before them, whatever is
      pushed later. */
  lemma BytesInSection(lay: P.Layout, owner: nat, bss: bool, pre: seq<Entry<nat>>, bs: seq<Byte>, post: seq<Entry<nat>>)
    requires lay.Valid() && P.AllStorable(pre) && P.AllStorable(post)
    requires P.WriteEntries(lay, owner, P.Start(bss), pre + ByteEntries(bs) + post).Ok?
    ensures var k, n := P.WriteEntries(lay, owner, P.Start(bss), pre + ByteEntries(bs) + post).value, TotalEmitted(pre);
      n + |bs| <= |k.bytes| && k.bytes[n..n + |bs|] == bs
  {
    hide P.WriteEntries, Wrap32;
    var k, n := P.WriteEntries(lay, owner, P.Start(bss), pre + ByteEntries(bs) + post).value, TotalEmitted(pre);
    WriteAppend(lay, owner, P.Start(bss), pre + ByteEntries(bs), post);
    WriteAppend(lay, owner, P.Start(bss), pre, ByteEntries(bs));
    var k1 := P.WriteEntries(lay, owner, P.Start(bss), pre).value;
    var k2 := P.WriteEntries(lay, owner, k1, ByteEntries(bs)).value;
    StartSynced(bss);
    P.WriteEntriesGrows(lay, owner, P.Start(bss), pre);
    RoomKept(lay, owner, bss, pre);
    BytesWritten(lay, owner, k1, bs);
    assert k2.bytes == k1.bytes + bs && k2.pc == Wrap32(k1.pc + |bs|);
    BytesSynced(k1, k2, bs);
    P.WriteEntriesGrows(lay, owner, k2, post);
    assert k2.bytes <= k.bytes;
    assert k.bytes[n..n + |bs|] == k2.bytes[n..n + |bs|];
  }

  lemma StartSynced(bss: bool)
    ensures P.Synced(P.Start(bss)) && P.Start(bss).bytes == []
  {
    WrapSmall(0);
  }

  lemma BytesSynced(k: P.Sink, k': P.Sink, bs: seq<Byte>)
    requires P.Synced(k) && k'.bytes == k.bytes + bs && k'.pc == Wrap32(k.pc + |bs|)
    ensures P.Synced(k')
  {
    WrapAdd(|k.bytes|, |bs|);
  }

  lemma RoomKept(lay: P.Layout, owner: nat, bss: bool, pre: seq<Entry<nat>>)
    requires lay.Valid() && P.WriteEntries(lay, owner, P.Start(bss), pre).Ok?
    requires P.Grows(P.Start(bss), P.WriteEntries(lay, owner, P.Start(bss), pre).value)
    ensures var k := P.WriteEntries(lay, owner, P.Start(bss), pre).value; k.bss || |k.bytes| <= P.BLOCK
  {
    hide P.WriteEntries;
    WriteEntriesContained(lay, owner, P.Start(bss), pre);
  }

  /** The line as a step of pass 1: its label, if it has one, is declared and pushed; then the bytes of the
      literal follow in the same section. */
  lemma StringStored(st: S.State, s: string, j: nat, name: Option<string>, colon: bool, gap: string, bs: seq<Byte>)
    requires S.Rooted(st) && S.Current(st)
    requires LiteralAt(s, j, name, colon, gap, bs) && !Commented(bs) && Depth(bs) == 0
    ensures LineOf(s).Ok? && S.LineNamed(LineOf(s).value)
    ensures name.None? ==> S.Process(st, LineOf(s).value) == Ok(WithBytes(st, bs))
    ensures name.Some? ==> name.value != "" && var d := S.DeclareLabel(st, name.value);
      && (d.Fail? ==> S.Process(st, LineOf(s).value) == Fail(InvalidSymbol))
      && (d.Ok? ==>
        && S.Current(d.value.0) && d.value.1 < |d.value.0.syms| && S.Current(S.PushSymbol(d.value.0, d.value.1))
        && S.Process(st, LineOf(s).value) == Ok(WithBytes(S.PushSymbol(d.value.0, d.value.1), bs)))
  {
    hide LineOf, LiteralAt, S.Rooted, S.PushItems, S.CreateSymbol, S.PushSymbol, WithBytes;
    StringLine(s, j, name, colon, gap, bs);
    LineNamed(s);
    if name.None? {
      PushBytes(st, bs);
    } else {
      S.CreateRooted(st, name.value, {Declare});
      var d := S.DeclareLabel(st, name.value);
      if d.Ok? {
        assert S.CreateSymbol(st, name.value, {Declare}) == (d.value.0, Some(d.value.1));
        PushedReady(d.value.0, d.value.1);
        PushBytes(S.PushSymbol(d.value.0, d.value.1), bs);
      }
    }
  }

  lemma PushedReady(st: S.State, s: nat)
    requires S.Rooted(st) && S.Current(st) && s < |st.syms|
    ensures S.Rooted(S.PushSymbol(st, s)) && S.Current(S.PushSymbol(st, s))
  {
  }
}
