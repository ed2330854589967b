/** Source lines as actions on the code store: labels, and the directives dc, section, store and restore
    (src/mangle.c:216-283, src/main.c:123-146, src/mnemonics_misc.c:49-98, src/mnemonics_data.c:176-192). */
module Directives {
  import opened Basics
  import opened Entries
  import opened Addressing
  import opened Constants
  import opened Executable
  import opened HunkFormat
  import opened Lines
  import opened LineSyntax
  import opened Text
  import S = Store

  // ---------------------------------------------------------------- section

  /** The flags of a section type. */
  function TypeFlags(t: string): Option<set<SecFlag>> {
    if S.SameName(t, "code") then Some({Code})
    else if S.SameName(t, "code_c") then Some({Code, Chip})
    else if S.SameName(t, "code_f") then Some({Code, Fast})
    else if S.SameName(t, "data") then Some({Data_})
    else if S.SameName(t, "data_c") then Some({Data_, Chip})
    else if S.SameName(t, "data_f") then Some({Data_, Fast})
    else if S.SameName(t, "bss") then Some({Bss})
    else if S.SameName(t, "bss_c") then Some({Bss, Chip})
    else if S.SameName(t, "bss_f") then Some({Bss, Fast})
    else None
  }

  /** `asm_section`: a name, and a type, which is code if it is not given. */
  function SectionOf(args: seq<Arg>): Result<S.Action> {
    if |args| == 1 then
      if args[0].NumberArg? then Fail(InvalidOperand) else Ok(S.Section(args[0].text, {Code}))
    else if |args| == 2 then
      if args[0].NumberArg? || args[1].NumberArg? then Fail(InvalidOperand)
      else
        match TypeFlags(args[1].text)
        case None => Fail(InvalidOperand)
        case Some(flags) => Ok(S.Section(args[0].text, flags))
    else Fail(InvalidNumberOfArguments)
  }

  datatype Memory = AnyMemory | ChipMemory | FastMemory

  /** A section type as it is written. */
  function PrintType(kind: Kind, memory: Memory): string {
    (match kind case CodeHunk => "code" case DataHunk => "data" case BssHunk => "bss")
    + match memory case AnyMemory => "" case ChipMemory => "_c" case FastMemory => "_f"
  }

  /** Flags that ask for a hunk of this kind in this memory. */
  predicate AskFor(flags: set<SecFlag>, kind: Kind, memory: Memory) {
    && (Code in flags <==> kind == CodeHunk) && (Data_ in flags <==> kind == DataHunk)
    && (Bss in flags <==> kind == BssHunk)
    && (Chip in flags <==> memory == ChipMemory) && (Fast in flags <==> memory == FastMemory)
  }

  lemma SameNameExact(a: string, b: string)
    ensures S.SameName(a, b) <==> SameLetters(a, b)
  {
    forall i | 0 <= i < |a| && |a| == |b| ensures SameLetter(a[i], b[i]) <==> Lower(a[i]) == Lower(b[i]) {
      SameLower(a[i], b[i]);
    }
  }

  lemma SameNameTrans(a: string, b: string, c: string)
    requires S.SameName(a, b)
    ensures S.SameName(a, c) <==> S.SameName(b, c)
  {
  }

  lemma TypeNames()
    ensures PrintType(CodeHunk, AnyMemory) == "code" && PrintType(CodeHunk, ChipMemory) == "code_c"
    ensures PrintType(CodeHunk, FastMemory) == "code_f" && PrintType(DataHunk, AnyMemory) == "data"
    ensures PrintType(DataHunk, ChipMemory) == "data_c" && PrintType(DataHunk, FastMemory) == "data_f"
    ensures PrintType(BssHunk, AnyMemory) == "bss" && PrintType(BssHunk, ChipMemory) == "bss_c"
    ensures PrintType(BssHunk, FastMemory) == "bss_f"
  {
  }

  /** Types differ in length, in their first letter or in their last. */
  lemma TypesApart(kind: Kind, memory: Memory, kind': Kind, memory': Memory)
    ensures S.SameName(PrintType(kind, memory), PrintType(kind', memory')) <==> (kind, memory) == (kind', memory')
  {
    hide PrintType, S.SameName;
    var t, u := PrintType(kind, memory), PrintType(kind', memory');
    TypeNames();
    if (kind, memory) == (kind', memory') {
      SameItself(t);
    } else {
      Differ(t, u, if kind != kind' then 0 else |t| - 1);
    }
  }

  lemma SameItself(t: string)
    ensures S.SameName(t, t)
  {
  }

  lemma Differ(t: string, u: string, i: int)
    requires |t| == |u| ==> 0 <= i < |t| && Lower(t[i]) != Lower(u[i])
    ensures !S.SameName(t, u)
  {
  }

  lemma TypesDiffer(kind: Kind, memory: Memory)
    ensures TypeFlags(PrintType(kind, memory)).Some?
    ensures AskFor(TypeFlags(PrintType(kind, memory)).value, kind, memory)
  {
    hide PrintType, S.SameName;
    TypeNames();
    forall k, m ensures S.SameName(PrintType(kind, memory), PrintType(k, m)) <==> (kind, memory) == (k, m) {
      TypesApart(kind, memory, k, m);
    }
  }

  /** A type in either case asks for its kind and its memory. */
  lemma TypeRead(t: string, kind: Kind, memory: Memory)
    requires SameLetters(t, PrintType(kind, memory))
    ensures TypeFlags(t).Some? && AskFor(TypeFlags(t).value, kind, memory)
  {
    hide S.SameName, PrintType, AskFor;
    var u := PrintType(kind, memory);
    SameNameExact(t, u);
    SameTypes(t, u);
    TypesDiffer(kind, memory);
  }

  lemma SameTypes(t: string, u: string)
    requires S.SameName(t, u)
    ensures TypeFlags(t) == TypeFlags(u)
  {
    hide S.SameName;
    SameNameTrans(t, u, "code");
    SameNameTrans(t, u, "code_c");
    SameNameTrans(t, u, "code_f");
    SameNameTrans(t, u, "data");
    SameNameTrans(t, u, "data_c");
    SameNameTrans(t, u, "data_f");
    SameNameTrans(t, u, "bss");
    SameNameTrans(t, u, "bss_c");
    SameNameTrans(t, u, "bss_f");
  }

  /** Nothing else is a type. */
  lemma TypeKnown(t: string)
    requires TypeFlags(t).Some?
    ensures exists kind, memory :: SameLetters(t, PrintType(kind, memory))
  {
    hide S.SameName, SameLetters, PrintType;
    TypeNames();
    SameNameExact(t, PrintType(CodeHunk, AnyMemory));
    SameNameExact(t, PrintType(CodeHunk, ChipMemory));
    SameNameExact(t, PrintType(CodeHunk, FastMemory));
    SameNameExact(t, PrintType(DataHunk, AnyMemory));
    SameNameExact(t, PrintType(DataHunk, ChipMemory));
    SameNameExact(t, PrintType(DataHunk, FastMemory));
    SameNameExact(t, PrintType(BssHunk, AnyMemory));
    SameNameExact(t, PrintType(BssHunk, ChipMemory));
    SameNameExact(t, PrintType(BssHunk, FastMemory));
  }

  /** A section directive is accepted exactly with a name, or with a name and a type that is printed in either case;
      it asks for a section of this name, of the kind and in the memory of its type, which is code in any memory if
      it is not given. */
  lemma SectionDirective(args: seq<Arg>)
    ensures SectionOf(args).Ok? <==>
      || (|args| == 1 && args[0].StringArg?)
      || (|args| == 2 && args[0].StringArg? && args[1].StringArg?
          && exists kind, memory :: SameLetters(args[1].text, PrintType(kind, memory)))
    ensures SectionOf(args).Fail? ==>
      SectionOf(args).error == if |args| == 1 || |args| == 2 then InvalidOperand else InvalidNumberOfArguments
    ensures SectionOf(args).Ok? ==> var action := SectionOf(args).value;
      && action.Section? && DirectiveFlags(action.flags) && action.name == args[0].text
      && (|args| == 1 ==> AskFor(action.flags, CodeHunk, AnyMemory))
      && (|args| == 2 ==> forall kind, memory | SameLetters(args[1].text, PrintType(kind, memory)) ::
            AskFor(action.flags, kind, memory))
  {
    hide S.SameName, TypeFlags, SameLetters, PrintType;
    if |args| == 2 && args[1].StringArg? {
      var t := args[1].text;
      if TypeFlags(t).Some? { TypeKnown(t); }
      forall kind, memory | SameLetters(t, PrintType(kind, memory))
        ensures TypeFlags(t).Some? && AskFor(TypeFlags(t).value, kind, memory)
      {
        TypeRead(t, kind, memory);
      }
    }
  }

  // ---------------------------------------------------------------- lines

  /** The text of a field, or nothing. */
  function TextOf(s: string, f: Option<Field>): Option<string>
    requires f.Some? ==> f.value.from < f.value.end <= |s|
  {
    if f.None? then None else Some(s[f.value.from..f.value.end])
  }

  /** The fields of an accepted line. */
  ghost predicate Accepted(s: string, fs: seq<Option<Field>>) {
    FieldsIn(s, fs) && |fs| <= 129 && forall j | 1 <= j < |fs| :: fs[j].Some?
  }

  lemma AcceptedFields(s: string)
    requires FieldsOf(s).Ok?
    ensures Accepted(s, FieldsOf(s).value)
  {
    FieldCap(s);
  }

  /** Which blanks separate the parts of a line, and where it goes on behind them, makes no difference to the texts
      of its fields: tabs separate them like spaces. */
  lemma BlanksAlike(s: string, j: nat, t: string, k: nat, l: Source, gap: string, after: string, front: string,
                    front': string)
    requires Printed(s, j, l, front) && Printed(t, k, l.(gap := gap, after := after), front') && |l.operands| <= 126
    ensures FieldsOf(s).Ok? && FieldsOf(t).Ok? && Accepted(s, FieldsOf(s).value) && Accepted(t, FieldsOf(t).value)
    ensures var fs, fs' := FieldsOf(s).value, FieldsOf(t).value;
      |fs| == |fs'| == 2 + |l.operands| && forall m | 0 <= m < |fs| :: TextOf(s, fs[m]) == TextOf(t, fs'[m])
  {
    hide FieldsOf, Printed, Show;
    LineRoundTrip(s, j, l, front);
    LineRoundTrip(t, k, l.(gap := gap, after := after), front');
    AcceptedFields(s);
    AcceptedFields(t);
    var fs, fs' := FieldsOf(s).value, FieldsOf(t).value;
    forall m | 0 <= m < |fs| ensures TextOf(s, fs[m]) == TextOf(t, fs'[m]) {
      if m >= 2 {
        assert FieldIs(s, fs[2 + (m - 2)], l.operands[m - 2]) && FieldIs(t, fs'[2 + (m - 2)], l.operands[m - 2]);
      }
    }
  }

  function NameOf(s: string, fs: seq<Option<Field>>): (name: Option<string>)
    requires Accepted(s, fs)
    ensures name.Some? ==> name.value != ""
  {
    if fs == [] then None else TextOf(s, fs[0])
  }

  /** What a line asks for once its label is declared. Other mnemonics, and operands of store and restore,
      are not part of this model. */
  function ActionOf(s: string, fs: seq<Option<Field>>): Result<S.Action>
    requires Accepted(s, fs)
  {
    if |fs| < 2 then Ok(S.Nothing)
    else
      var (mnemonic, size) :- MnemonicAt(s, fs[1].value.from, fs[1].value.end);
      if S.SameName(mnemonic, "dc") then
        var args :- ArgsOf(s, fs, 2);
        var items :- AllItems(args, 0, size);
        Ok(S.Emit(items))
      else if S.SameName(mnemonic, "section") then
        var args :- ArgsOf(s, fs, 2);
        SectionOf(args)
      else if |fs| == 2 && S.SameName(mnemonic, "store") then
        if size != OsDefault then Fail(InvalidInstructionSize) else Ok(S.StoreSection)
      else if |fs| == 2 && S.SameName(mnemonic, "restore") then
        if size != OsDefault then Fail(InvalidInstructionSize) else Ok(S.RestoreSection)
      else Fail(MissingFeature)
  }

  /** What a line says. */
  function LineOf(s: string): Result<S.Line> {
    var fs :- FieldsOf(s);
    AcceptedFields(s);
    var action :- ActionOf(s, fs);
    Ok(S.Line(NameOf(s, fs), action))
  }

  /** The label of a cut line. */
  method ReadName(s: string, starts: array<int>, ends: array<int>, ghost fs: seq<Option<Field>>)
      returns (name: Option<string>)
    requires starts.Length == ends.Length == FIELDS && Accepted(s, fs)
    requires forall j | 0 <= j < |fs| :: FieldIn(starts[j], ends[j], fs[j])
    requires forall j | |fs| <= j < FIELDS :: starts[j] == -1 && ends[j] == -1
    ensures name == NameOf(s, fs)
  {
    name := if starts[0] != -1 && ends[0] != -1 then Some(s[starts[0]..ends[0]]) else None;
  }

  /** The mnemonic and the operands of a cut line (src/mangle.c:224-280), and what its directive asks for. */
  method ReadAction(s: string, starts: array<int>, ends: array<int>, ofs: nat, ghost fs: seq<Option<Field>>)
      returns (r: Result<S.Action>)
    requires starts.Length == ends.Length == FIELDS && ofs == |fs| && Accepted(s, fs)
    requires forall j | 0 <= j < |fs| :: FieldIn(starts[j], ends[j], fs[j])
    requires forall j | |fs| <= j < FIELDS :: starts[j] == -1 && ends[j] == -1
    ensures r == ActionOf(s, fs)
  {
    hide MnemonicAt, ArgsOf, AllItems, S.SameName, SectionOf;
    if starts[1] == -1 || ends[1] == -1 { return Ok(S.Nothing); }
    var m := MneMangle(s, starts[1], ends[1]);
    if m.Fail? { return Fail(m.error); }
    var mnemonic, size := m.value.0, m.value.1;
    if S.SameName(mnemonic, "dc") {
      var args := ReadArgs(s, starts, ends, ofs, fs);
      if args.Fail? { return Fail(args.error); }
      var items := AsmDc(args.value, size);
      r := if items.Ok? then Ok(S.Emit(items.value)) else Fail(items.error);
    } else if S.SameName(mnemonic, "section") {
      var args := ReadArgs(s, starts, ends, ofs, fs);
      if args.Fail? { return Fail(args.error); }
      r := SectionOf(args.value);
    } else if starts[2] == -1 && S.SameName(mnemonic, "store") {
      r := if size != OsDefault then Fail(InvalidInstructionSize) else Ok(S.StoreSection);
    } else if starts[2] == -1 && S.SameName(mnemonic, "restore") {
      r := if size != OsDefault then Fail(InvalidInstructionSize) else Ok(S.RestoreSection);
    } else {
      r := Fail(MissingFeature);
    }
  }

  lemma {:induction false} ArgsNamed(s: string, fs: seq<Option<Field>>, i: nat)
    requires FieldsIn(s, fs) && ArgsOf(s, fs, i).Ok?
    ensures forall k | 0 <= k < |ArgsOf(s, fs, i).value| ::
              ArgsOf(s, fs, i).value[k].StringArg? ==> ArgsOf(s, fs, i).value[k].text != ""
    decreases |fs| - i
  {
    if i >= |fs| {
    } else {
      ArgsNamed(s, fs, i + 1);
    }
  }

  lemma {:induction false} ItemsNamed(args: seq<Arg>, i: nat, opsize: OpSize)
    requires i <= |args| && AllItems(args, i, opsize).Ok?
    requires forall k | 0 <= k < |args| :: args[k].StringArg? ==> args[k].text != ""
    ensures forall k | 0 <= k < |AllItems(args, i, opsize).value| :: S.ItemNamed(AllItems(args, i, opsize).value[k])
    decreases |args| - i
  {
    if i >= |args| {
    } else {
      ItemsNamed(args, i + 1, opsize);
    }
  }

  lemma ActionNamed(s: string, fs: seq<Option<Field>>)
    requires Accepted(s, fs) && ActionOf(s, fs).Ok?
    ensures S.LineNamed(S.Line(NameOf(s, fs), ActionOf(s, fs).value))
    ensures ActionOf(s, fs).value.Section? ==> DirectiveFlags(ActionOf(s, fs).value.flags)
  {
    hide ArgsOf, AllItems, MnemonicAt, SectionOf, S.SameName;
    if |fs| >= 2 {
      var (mnemonic, size) := MnemonicAt(s, fs[1].value.from, fs[1].value.end).value;
      if S.SameName(mnemonic, "dc") {
        ArgsNamed(s, fs, 2);
        ItemsNamed(ArgsOf(s, fs, 2).value, 0, size);
      } else if S.SameName(mnemonic, "section") {
        SectionDirective(ArgsOf(s, fs, 2).value);
      }
    }
  }

  /** Whatever the line, the names it hands to the code store are not empty, as the store expects, and the
      flags of a section are those of a section type. */
  lemma LineNamed(s: string)
    requires LineOf(s).Ok?
    ensures S.LineNamed(LineOf(s).value)
    ensures LineOf(s).value.action.Section? ==> DirectiveFlags(LineOf(s).value.action.flags)
  {
    hide FieldsOf, ActionOf, NameOf;
    AcceptedFields(s);
    ActionNamed(s, FieldsOf(s).value);
  }
}
