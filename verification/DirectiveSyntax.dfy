/** Printed lines with a label alone, and with section, store and restore: what they are read as
    (src/mangle.c:216-280, src/main.c:134-146, src/mnemonics_misc.c:49-98). */
module DirectiveSyntax {
  import opened Basics
  import opened Entries
  import opened Text
  import opened Addressing
  import opened Lines
  import opened LineSyntax
  import opened Constants
  import opened ConstantData
  import opened Directives
  import opened HunkFormat
  import opened Values
  import S = Store

  // ---------------------------------------------------------------- a label alone

  /** The text up to j is a label, with or without colon, and only blanks or a comment follow. */
  ghost predicate LabelLine(s: string, j: nat, name: string, colon: bool) {
    LabelOk(name) && j <= |s| && s[..j] == name + (if colon then ":" else "") && Tail(s, j)
  }

  lemma LabelParts(s: string, j: nat, name: string, colon: bool)
    requires LabelLine(s, j, name, colon)
    ensures var m := |name|;
      && 0 < m <= |s| && j == (if colon then m + 1 else m) && s[0..m] == name && StartsSymbol(s[0])
      && (forall i | 0 <= i < m :: !IsSpace(s[i]) && s[i] != '\0' && s[i] != ':') && (colon ==> s[m] == ':')
      && NoComment(s, 0, m)
  {
    var l := Source(Some(name), colon, "", "", [], "");
    assert s[0..j] == s[..j] == PrintLabel(l);
    LabelAt(s, l, j);
    assert s[0..|name|] == s[..|name|];
    WordNoComment(s, 0, |name|, name);
  }

  /** The scan of such a line: the label is its only field. */
  lemma LabelCut(s: string, j: nat, name: string, colon: bool)
    requires LabelLine(s, j, name, colon)
    ensures FieldsOf(s) == Ok([Some(Field(0, |name|))])
  {
    hide RowFrom, Tail, NoComment, LabelLine;
    var m, k := |name|, Row(InLabel, [], Some(0), 0, false);
    LabelParts(s, j, name, colon);
    LabelTail(s, j, name, colon);
    RowStep(s, 0, START);
    NoCommentPart(s, 0, m, 1, m);
    SkipWord(s, 1, m, k);
    RowStep(s, m, k);
    OverExact(s, m);
    SameOutcome(s, 0, START, m, k);
    FieldsOutcome(s);
    assert k.fields + [Some(Field(0, m))] == [Some(Field(0, m))];
    if colon || !Over(s, m) {
      assert Turn(s[m], m, k) == Ok(CloseAt(k, m));
      SameOutcome(s, m, k, m + 1, CloseAt(k, m));
      TailClosed(s, m + 1, CloseAt(k, m));
    }
  }

  /** Behind the label, and behind its colon or the first blank. */
  lemma LabelTail(s: string, j: nat, name: string, colon: bool)
    requires LabelLine(s, j, name, colon)
    ensures if colon then Tail(s, |name| + 1) && !Over(s, |name|)
            else Over(s, |name|) || (Blankish(s[|name|]) && Tail(s, |name| + 1))
  {
    LabelParts(s, j, name, colon);
  }

  /** A label alone on its line, with or without colon and whatever comment follows, is read as this label, and as
      nothing else to do. */
  lemma LabelAlone(s: string, j: nat, name: string, colon: bool)
    requires LabelLine(s, j, name, colon)
    ensures LineOf(s) == Ok(S.Line(Some(name), S.Nothing))
  {
    hide FieldsOf, LabelLine;
    LabelCut(s, j, name, colon);
    LabelParts(s, j, name, colon);
    AcceptedFields(s);
  }

  // ---------------------------------------------------------------- directives

  lemma {:induction false} FirstDot(s: string, t: nat, n: nat, end: nat)
    requires t <= n <= end + 1 && (forall i | t <= i < n :: At(s, i) != '.') && (n <= end ==> At(s, n) == '.')
    ensures DotAt(s, t, end) == n
    decreases n - t
  {
    if t == n {
    } else {
      FirstDot(s, t + 1, n, end);
    }
  }

  /** The size that a letter stands for. */
  function LetterSize(c: char): Option<OpSize> {
    if c in {'b', 'B'} then Some(OsByte) else if c in {'w', 'W'} then Some(OsWord)
    else if c in {'l', 'L'} then Some(OsLong) else None
  }

  /** What a mnemonic is, made of a name and possibly a full stop and more: one letter behind the full stop must be
      a size, anything else is passed over, and the name must have fewer than 32 characters. */
  function MnemonicRead(name: string, rest: string): Result<(string, OpSize)> {
    if |rest| == 2 && LetterSize(rest[1]).None? then Fail(InvalidInstructionSize)
    else if |name| >= 32 then Fail(BufferOverrun)
    else Ok((name, if |rest| == 2 then LetterSize(rest[1]).value else OsDefault))
  }

  lemma MnemonicExact(s: string, f: Field, name: string, rest: string)
    requires f.from <= f.end <= |s| && s[f.from..f.end] == name + rest && At(s, f.end) != '.'
    requires '.' !in name && (rest == "" || rest[0] == '.')
    ensures MnemonicAt(s, f.from, f.end) == MnemonicRead(name, rest)
  {
    hide DotAt;
    var n := f.from + |name|;
    assert s[f.from..f.end] == name + rest + "";
    Parts(s, f.from, f.end, name, rest, "");
    forall i | f.from <= i < n ensures At(s, i) != '.' {
      Within(s, f.from, n, i);
      assert name[i - f.from] in name;
    }
    if rest != "" { Within(s, n, f.end, n); }
    if |rest| == 2 { Within(s, n, f.end, n + 1); }
    FirstDot(s, f.from, if rest == "" then f.end + 1 else n, f.end);
  }

  /** A line with a directive in either case, and possibly a full stop and more behind it. */
  ghost predicate DirectiveLine(s: string, j: nat, l: Source, word: string, rest: string, xs: seq<Atom>, gap: string) {
    && |l.mnemonic| >= |word| && SameLetters(l.mnemonic[..|word|], word) && l.mnemonic[|word|..] == rest
    && (rest == "" || rest[0] == '.') && OperandsLine(s, j, l, xs, gap)
  }

  lemma DirectiveCut(s: string, j: nat, l: Source, word: string, rest: string, xs: seq<Atom>, gap: string)
    requires DirectiveLine(s, j, l, word, rest, xs, gap) && '.' !in word
    ensures !Room(s, j, 2 + |xs|) ==> FieldsOf(s) == Fail(TooManyFields)
    ensures Room(s, j, 2 + |xs|) ==> FieldsOf(s).Ok? && var fs := FieldsOf(s).value;
      && Accepted(s, fs) && |fs| == 2 + |xs| && NameOf(s, fs) == l.name && ArgsOf(s, fs, 2) == Readings(xs)
      && MnemonicAt(s, fs[1].value.from, fs[1].value.end) == MnemonicRead(l.mnemonic[..|word|], rest)
  {
    hide FieldsOf, OperandsLine, ArgsOf, MnemonicAt, MnemonicRead, Room, Readings, NameOf, SameLetters;
    OperandsCut(s, j, l, xs, gap);
    if Room(s, j, 2 + |xs|) {
      WordNoDot(l.mnemonic[..|word|], word);
      assert l.mnemonic == l.mnemonic[..|word|] + rest;
      MnemonicExact(s, FieldsOf(s).value[1].value, l.mnemonic[..|word|], rest);
    }
  }

  lemma WordNoDot(w: string, word: string)
    requires SameLetters(w, word) && '.' !in word
    ensures '.' !in w
  {
    forall i | 0 <= i < |w| ensures w[i] != '.' { assert SameLetter(w[i], word[i]) && word[i] in word; }
  }

  lemma SectionWord(w: string)
    requires SameLetters(w, "section")
    ensures S.SameName(w, "section") && !S.SameName(w, "dc")
  {
    hide S.SameName, SameLetters;
    SameNameExact(w, "section");
    SameNameTrans(w, "section", "dc");
    Differ("section", "dc", 0);
  }

  /** How a line of a directive is read. */
  function Directed(name: Option<string>, action: Result<S.Action>): Result<S.Line> {
    var some :- action;
    Ok(S.Line(name, some))
  }

  /** A size: none is given, or its letter is one. */
  predicate SizeAdmitted(rest: string) {
    |rest| == 2 ==> LetterSize(rest[1]).Some?
  }

  /** A section line is read as its operands: what is no size ends it first, then a number that cannot be read, then
      what the directive does not admit. */
  lemma SectionRead(s: string, j: nat, l: Source, rest: string, xs: seq<Atom>, gap: string)
    requires DirectiveLine(s, j, l, "section", rest, xs, gap)
    ensures LineOf(s) ==
      if !Room(s, j, 2 + |xs|) then Fail(TooManyFields)
      else if !SizeAdmitted(rest) then Fail(InvalidInstructionSize)
      else match Readings(xs) case Fail(e) => Fail(e) case Ok(args) => Directed(l.name, SectionOf(args))
  {
    hide FieldsOf, OperandsLine, ArgsOf, MnemonicAt, Room, Readings, NameOf, SameLetters, S.SameName, SectionOf;
    DirectiveCut(s, j, l, "section", rest, xs, gap);
    SectionWord(l.mnemonic[..7]);
    if Room(s, j, 2 + |xs|) { AcceptedFields(s); }
  }

  /** A section with a name, and possibly with a type: it is accepted exactly if the type is printed as one, in
      either case, and asks for a section of this name, of the kind and in the memory that the type says; without a
      type, for code in any memory. */
  lemma SectionLine(s: string, j: nat, l: Source, rest: string, n: string, types: seq<string>, gap: string)
    requires SizeAdmitted(rest) && |types| <= 1 && !NumberLike(n)
    requires forall i | 0 <= i < |types| :: !NumberLike(types[i])
    requires DirectiveLine(s, j, l, "section", rest, [Name(n)] + Names(types), gap)
    ensures types != [] && !(exists kind, memory :: SameLetters(types[0], PrintType(kind, memory))) ==>
      LineOf(s) == Fail(InvalidOperand)
    ensures types == [] ==> AsksSection(LineOf(s), l.name, n, CodeHunk, AnyMemory)
    ensures types != [] ==> forall kind, memory | SameLetters(types[0], PrintType(kind, memory)) ::
      AsksSection(LineOf(s), l.name, n, kind, memory)
  {
    hide LineOf, DirectiveLine, SectionOf, SameLetters, PrintType, AskFor, Room;
    var xs := [Name(n)] + Names(types);
    SectionRead(s, j, l, rest, xs, gap);
    SectionArgs(n, types);
    SectionDirective(Readings(xs).value);
    FewFields(s, j, 2 + |xs|);
  }

  /** The line asks for a section of this name, kind and memory. */
  ghost predicate AsksSection(r: Result<S.Line>, name: Option<string>, n: string, kind: Kind, memory: Memory) {
    && r.Ok? && r.value.declares == name && r.value.action.Section? && r.value.action.name == n
    && AskFor(r.value.action.flags, kind, memory)
  }

  function Names(ts: seq<string>): (r: seq<Atom>)
    ensures |r| == |ts| && forall i | 0 <= i < |ts| :: r[i] == Name(ts[i])
  {
    seq(|ts|, i requires 0 <= i < |ts| => Name(ts[i]))
  }

  lemma SectionArgs(n: string, types: seq<string>)
    requires |types| <= 1 && !NumberLike(n) && forall i | 0 <= i < |types| :: !NumberLike(types[i])
    ensures var xs := [Name(n)] + Names(types);
      Readings(xs) == Ok(if types == [] then [StringArg(n)] else [StringArg(n), StringArg(types[0])])
  {
    var xs := [Name(n)] + Names(types);
    assert xs[1..] == Names(types);
    if types == [] {
      assert Readings(xs[1..]) == Ok([]);
      assert [StringArg(n)] + [] == [StringArg(n)];
    } else {
      assert Names(types)[1..] == [] && [StringArg(types[0])] + [] == [StringArg(types[0])];
      assert Readings(Names(types)) == Ok([StringArg(types[0])]);
      assert [StringArg(n)] + [StringArg(types[0])] == [StringArg(n), StringArg(types[0])];
    }
  }

  lemma FewFields(s: string, j: nat, n: nat)
    requires n <= 128
    ensures Room(s, j, n)
  {
  }

  lemma StoreWord(w: string)
    requires SameLetters(w, "store")
    ensures S.SameName(w, "store") && !S.SameName(w, "dc") && !S.SameName(w, "section")
  {
    hide S.SameName, SameLetters;
    SameNameExact(w, "store");
    SameNameTrans(w, "store", "dc");
    SameNameTrans(w, "store", "section");
    Differ("store", "dc", 0);
    Differ("store", "section", 0);
  }

  lemma RestoreWord(w: string)
    requires SameLetters(w, "restore")
    ensures S.SameName(w, "restore") && !S.SameName(w, "dc") && !S.SameName(w, "section") && !S.SameName(w, "store")
  {
    hide S.SameName, SameLetters;
    SameNameExact(w, "restore");
    SameNameTrans(w, "restore", "dc");
    SameNameTrans(w, "restore", "section");
    SameNameTrans(w, "restore", "store");
    Differ("restore", "dc", 0);
    Differ("restore", "section", 0);
    Differ("restore", "store", 0);
  }

  /** What store asks for: it takes no operands, and no size. */
  function Sizeless(rest: string, xs: seq<Atom>, action: S.Action): Result<S.Action> {
    if !SizeAdmitted(rest) then Fail(InvalidInstructionSize)
    else if xs != [] then Fail(MissingFeature)
    else if |rest| == 2 then Fail(InvalidInstructionSize)
    else Ok(action)
  }

  /** store and restore, in either case, with or without a label. */
  lemma StoreLine(s: string, j: nat, l: Source, rest: string, xs: seq<Atom>, gap: string)
    requires DirectiveLine(s, j, l, "store", rest, xs, gap) && Room(s, j, 2 + |xs|)
    ensures LineOf(s) == Directed(l.name, Sizeless(rest, xs, S.StoreSection))
  {
    hide FieldsOf, OperandsLine, ArgsOf, MnemonicAt, Readings, NameOf, SameLetters, S.SameName, SectionOf, Room;
    DirectiveCut(s, j, l, "store", rest, xs, gap);
    StoreWord(l.mnemonic[..5]);
    AcceptedFields(s);
  }

  lemma RestoreLine(s: string, j: nat, l: Source, rest: string, xs: seq<Atom>, gap: string)
    requires DirectiveLine(s, j, l, "restore", rest, xs, gap) && Room(s, j, 2 + |xs|)
    ensures LineOf(s) == Directed(l.name, Sizeless(rest, xs, S.RestoreSection))
  {
    hide FieldsOf, OperandsLine, ArgsOf, MnemonicAt, Readings, NameOf, SameLetters, S.SameName, SectionOf, Room;
    DirectiveCut(s, j, l, "restore", rest, xs, gap);
    RestoreWord(l.mnemonic[..7]);
    AcceptedFields(s);
  }

  /** Every other mnemonic is refused. */
  lemma OtherLine(s: string, j: nat, l: Source, name: string, rest: string, xs: seq<Atom>, gap: string)
    requires OperandsLine(s, j, l, xs, gap) && Room(s, j, 2 + |xs|) && l.mnemonic == name + rest
    requires '.' !in name && (rest == "" || rest[0] == '.')
    requires forall word | word in {"dc", "section", "store", "restore"} :: !SameLetters(name, word)
    ensures LineOf(s) == match MnemonicRead(name, rest) case Fail(e) => Fail(e) case Ok(_) => Fail(MissingFeature)
  {
    hide FieldsOf, OperandsLine, ArgsOf, MnemonicAt, MnemonicRead, Readings, NameOf, SameLetters, S.SameName,
         SectionOf, Room;
    OperandsCut(s, j, l, xs, gap);
    MnemonicExact(s, FieldsOf(s).value[1].value, name, rest);
    AcceptedFields(s);
    NameKept(name, rest);
    SameNameExact(name, "dc");
    SameNameExact(name, "section");
    SameNameExact(name, "store");
    SameNameExact(name, "restore");
  }

  lemma NameKept(name: string, rest: string)
    ensures MnemonicRead(name, rest).Ok? ==> MnemonicRead(name, rest).value.0 == name
  {
  }
}
