/** Source text to load file, for lines with labels, constants and section directives (src/main.c:109-183):
    every line is cut, its label declared, its operands read and its entries stored before the next one is
    looked at. */
module Source {
  import opened Basics
  import opened CodeSpace
  import opened StoreRuns
  import opened Assembler
  import opened ConstantData
  import opened Directives
  import opened Lines
  import Addressing
  import Build
  import Entries
  import LineSyntax
  import M = Meaning
  import N = Naming
  import P = Pass2
  import R = Relocating
  import S = Store
  import StringData
  import W = SourceMeaning

  /** One line of the text. Its label is declared before its operands are read. */
  function LineStep(st: S.State, s: string): (r: Result<S.State>)
    requires S.Rooted(st) && S.Current(st)
    ensures r.Ok? ==> S.Rooted(r.value) && S.Current(r.value)
  {
    var fs :- FieldsOf(s);
    AcceptedFields(s);
    var name := NameOf(s, fs);
    if name.Some? && S.DeclareLabel(st, name.value).Fail? then Fail(InvalidSymbol)
    else
      var action :- ActionOf(s, fs);
      ActionNamed(s, fs);
      S.Process(st, S.Line(name, action))
  }

  /** Pass 1 over the text. */
  function RunText(st: S.State, text: seq<string>): (r: Result<S.State>)
    requires S.Rooted(st) && S.Current(st)
    ensures r.Ok? ==> S.Rooted(r.value) && S.Current(r.value)
    decreases |text|
  {
    if text == [] then Ok(st)
    else
      var st' :- LineStep(st, text[0]);
      RunText(st', text[1..])
  }

  /** An accepted line is the line it is read as. */
  lemma StepIs(st: S.State, s: string)
    requires S.Rooted(st) && S.Current(st) && LineStep(st, s).Ok?
    ensures LineOf(s).Ok? && S.LineNamed(LineOf(s).value) && LineOk(LineOf(s).value)
    ensures S.Process(st, LineOf(s).value) == LineStep(st, s)
  {
    hide FieldsOf, ActionOf, NameOf, S.Process, S.DeclareLabel, S.LineNamed;
    AcceptedFields(s);
    LineNamed(s);
  }

  lemma {:induction false} RunTextOk(st: S.State, text: seq<string>)
    requires StoreOk(st) && RunText(st, text).Ok?
    ensures StoreOk(RunText(st, text).value)
    decreases |text|
  {
    hide StoreOk, S.Process, LineOf, S.LineNamed, S.Rooted, LineStep, LineOk;
    StoreReady(st);
    if text == [] {
    } else {
      StepIs(st, text[0]);
      ProcessOk(st, LineOf(text[0]).value);
      RunTextOk(LineStep(st, text[0]).value, text[1..]);
    }
  }

  lemma StoreReady(st: S.State)
    requires StoreOk(st)
    ensures S.Rooted(st) && S.Current(st)
  {
  }

  lemma RunTextStep(st: S.State, text: seq<string>, i: nat)
    requires S.Rooted(st) && S.Current(st) && i < |text|
    ensures RunText(st, text[i..])
         == match LineStep(st, text[i]) { case Ok(st') => RunText(st', text[i + 1..]) case Fail(e) => Fail(e) }
  {
    hide LineStep;
    assert text[i..][0] == text[i] && text[i..][1..] == text[i + 1..];
  }

  /** What a line does, in the order in which the program does it. */
  lemma StepParts(st: S.State, s: string)
    requires S.Rooted(st) && S.Current(st)
    ensures FieldsOf(s).Fail? ==> LineStep(st, s) == Fail(FieldsOf(s).error)
    ensures FieldsOf(s).Ok? ==>
      && Accepted(s, FieldsOf(s).value)
      && var name, action := NameOf(s, FieldsOf(s).value), ActionOf(s, FieldsOf(s).value);
      && (name.None? && action.Fail? ==> LineStep(st, s) == Fail(action.error))
      && (action.Ok? && action.value.Emit? ==>
            forall i | 0 <= i < |action.value.items| :: S.ItemNamed(action.value.items[i]))
      && (name.None? && action.Ok? ==> LineStep(st, s) == S.Act(Build.Pushed(st, None, action.value), action.value))
      && (name.Some? ==> var d := S.DeclareLabel(st, name.value);
        && (d.Fail? ==> LineStep(st, s) == Fail(InvalidSymbol))
        && (d.Ok? && action.Fail? ==> LineStep(st, s) == Fail(action.error))
        && (d.Ok? && action.Ok? ==>
          && S.Rooted(d.value.0) && S.Current(d.value.0) && d.value.1 < |d.value.0.syms|
          && LineStep(st, s) == S.Act(Build.Pushed(d.value.0, Some(d.value.1), action.value), action.value)))
  {
    hide FieldsOf, ActionOf, NameOf, S.Process, S.DeclareLabel, S.ItemNamed, S.Act, Build.Pushed, S.Rooted;
    if FieldsOf(s).Ok? {
      AcceptedFields(s);
      var fs := FieldsOf(s).value;
      if ActionOf(s, fs).Ok? {
        ActionNamed(s, fs);
        Build.ProcessIs(st, S.Line(NameOf(s, fs), ActionOf(s, fs).value));
      }
    }
  }

  /** The mnemonic and the operands, once the label is declared. */
  method FinishLine(cs: CodeSpace, sym: Symbol?, s: string, starts: array<int>, ends: array<int>, ofs: nat,
                    ghost fs: seq<Option<Field>>, a: nat, b: nat)
      returns (r: Result<()>)
    requires cs.Valid() && cs.Unused(a) && cs.Unused(b) && a != b && (sym != null ==> Known(sym, cs.syms))
    requires starts.Length == ends.Length == FIELDS && ofs == |fs| && Accepted(s, fs)
    requires forall j | 0 <= j < |fs| :: FieldIn(starts[j], ends[j], fs[j])
    requires forall j | |fs| <= j < FIELDS :: starts[j] == -1 && ends[j] == -1
    requires var action := ActionOf(s, fs); action.Ok? && action.value.Emit? ==>
      forall i | 0 <= i < |action.value.items| :: S.ItemNamed(action.value.items[i])
    modifies cs, cs.syms, cs.secs, cs.pool
    ensures sym != null ==> sym.id < |old(cs.st).syms|
    ensures ActionOf(s, fs).Fail? ==> r == Fail(ActionOf(s, fs).error)
    ensures ActionOf(s, fs).Ok? ==>
      var acted := S.Act(Build.Pushed(old(cs.st), Build.LabelId(sym), ActionOf(s, fs).value), ActionOf(s, fs).value);
      && (r.Ok? <==> acted.Ok?) && (r.Fail? ==> acted == Fail(r.error))
      && (r.Ok? ==> cs.Valid() && cs.st == acted.value)
    ensures old(cs.syms) <= cs.syms && forall s | s in cs.syms && s !in old(cs.syms) :: fresh(s)
    ensures old(cs.secs) <= cs.secs
    ensures (forall s | s in cs.secs && s !in old(cs.secs) :: fresh(s) && (s.addr == a || s.addr == b))
    ensures fresh(cs.pool - old(cs.pool))
  {
    hide AllKnown, AllUnwritten, SecsAre, Chained, S.Rooted, S.Act, ActionOf, Build.Pushed, S.ItemNamed, S.Current;
    if sym != null { SymAt(cs.syms, cs.st.syms, cs.secs, sym.id); }
    var action := ReadAction(s, starts, ends, ofs, fs);
    if action.Fail? { return Fail(action.error); }
    r := Build.Finish(cs, sym, action.value, a, b);
  }

  /** One line of `build`. */
  method BuildLine(cs: CodeSpace, s: string, a: nat, b: nat) returns (r: Result<()>)
    requires cs.Valid() && cs.Unused(a) && cs.Unused(b) && a != b
    modifies cs, cs.syms, cs.secs, cs.pool
    ensures r.Ok? <==> old(LineStep(cs.st, s)).Ok?
    ensures r.Fail? ==> old(LineStep(cs.st, s)) == Fail(r.error)
    ensures r.Ok? ==> cs.Valid() && cs.st == old(LineStep(cs.st, s)).value
    ensures old(cs.syms) <= cs.syms && forall s | s in cs.syms && s !in old(cs.syms) :: fresh(s)
    ensures old(cs.secs) <= cs.secs
    ensures (forall s | s in cs.secs && s !in old(cs.secs) :: fresh(s) && (s.addr == a || s.addr == b))
    ensures fresh(cs.pool - old(cs.pool))
  {
    hide AllKnown, AllUnwritten, SymsAre, SecsAre, Chained, S.Rooted, S.DeclareLabel, S.Act, LineStep,
         FieldsOf, ActionOf, NameOf, Build.Pushed, Accepted, S.ItemNamed, S.Current, SymIs, SecIs;
    StepParts(cs.st, s);
    var cut, starts, ends := Tokenize(s);
    if cut.Fail? { return Fail(cut.error); }
    ghost var fs := FieldsOf(s).value;
    var name := ReadName(s, starts, ends, fs);
    var sym: Symbol? := null;
    if name.Some? {
      sym := Build.Declared(cs, name.value);
      if sym == null { return Fail(InvalidSymbol); }
      assert forall i | 0 <= i < |cs.syms| :: cs.syms[i] in old(cs.syms) || fresh(cs.syms[i]);
    }
    r := FinishLine(cs, sym, s, starts, ends, cut.value, fs, a, b);
  }

  /** `build`. `addrs` holds the addresses the allocator will give to section records. */
  method BuildText(cs: CodeSpace, text: seq<string>, addrs: seq<nat>) returns (r: Result<()>)
    requires cs.Valid() && |addrs| == 2 * |text| && (forall i, j | 0 <= i < j < |addrs| :: addrs[i] != addrs[j])
    requires forall i | 0 <= i < |addrs| :: cs.Unused(addrs[i])
    modifies cs, cs.syms, cs.secs, cs.pool
    ensures r.Ok? <==> old(RunText(cs.st, text)).Ok?
    ensures r.Fail? ==> old(RunText(cs.st, text)) == Fail(r.error)
    ensures r.Ok? ==> cs.Valid() && cs.st == old(RunText(cs.st, text)).value
    ensures r.Ok? ==> forall k | 0 <= k < |cs.secs| :: cs.secs[k] in old(cs.secs) || fresh(cs.secs[k])
  {
    hide AllKnown, AllUnwritten, SymsAre, SecsAre, Chained, S.Rooted, LineStep, RunText;
    assert text[0..] == text;
    var i := 0;
    while i < |text|
      invariant i <= |text| && cs.Valid()
      invariant RunText(cs.st, text[i..]) == old(RunText(cs.st, text))
      invariant forall k | 0 <= k < |cs.syms| :: cs.syms[k] in old(cs.syms) || fresh(cs.syms[k])
      invariant forall k | 0 <= k < |cs.secs| :: cs.secs[k] in old(cs.secs) || fresh(cs.secs[k])
      invariant forall n | n in cs.pool :: n in old(cs.pool) || fresh(n)
      invariant forall k | 2 * i <= k < |addrs| :: cs.Unused(addrs[k])
    {
      RunTextStep(cs.st, text, i);
      ghost var syms, secs := cs.syms, cs.secs;
      r := BuildLine(cs, text[i], addrs[2 * i], addrs[2 * i + 1]);
      if r.Fail? { return; }
      forall k | 0 <= k < |cs.syms| ensures cs.syms[k] in old(cs.syms) || fresh(cs.syms[k]) {
        if cs.syms[k] in syms { var m :| 0 <= m < |syms| && syms[m] == cs.syms[k]; }
      }
      forall k | 0 <= k < |cs.secs| ensures cs.secs[k] in old(cs.secs) || fresh(cs.secs[k]) {
        if cs.secs[k] in secs { var m :| 0 <= m < |secs| && secs[m] == cs.secs[k]; }
      }
      i := i + 1;
    }
    NoText(cs.st, text);
    r := Ok(());
  }

  lemma NoText(st: S.State, text: seq<string>)
    requires S.Rooted(st) && S.Current(st)
    ensures RunText(st, text[|text|..]) == Ok(st)
  {
  }

  // ---------------------------------------------------------------- what the text says

  /** What a line adds to what was said before. */
  function SaidStep(p: N.Program, s: string): (r: Result<N.Program>)
    requires p.Valid()
    ensures r.Ok? ==> r.value.Valid()
  {
    var fs :- FieldsOf(s);
    AcceptedFields(s);
    var name := NameOf(s, fs);
    if name.Some? && N.Announce(p, name.value, false).Fail? then Fail(InvalidSymbol)
    else
      var action :- ActionOf(s, fs);
      ActionNamed(s, fs);
      N.After(p, S.Line(name, action))
  }

  function SaidText(p: N.Program, text: seq<string>): (r: Result<N.Program>)
    requires p.Valid()
    ensures r.Ok? ==> r.value.Valid()
    decreases |text|
  {
    if text == [] then Ok(p)
    else
      var p' :- SaidStep(p, text[0]);
      SaidText(p', text[1..])
  }

  lemma AnnounceTells(st: S.State, p: N.Program, name: string)
    requires N.Tells(st, p) && name != ""
    ensures S.Rooted(st) && (S.DeclareLabel(st, name).Fail? <==> N.Announce(p, name, false).Fail?)
  {
    hide N.Tells, S.CreateSymbol, N.KeyOf, N.Mention;
    N.TellsCurrent(st, p);
    N.CreateTells(st, p, name, {Entries.Declare});
  }

  lemma StepTells(st: S.State, p: N.Program, s: string)
    requires N.Tells(st, p)
    ensures S.Rooted(st) && S.Current(st) && p.Valid()
    ensures match SaidStep(p, s)
            case Fail(e) => LineStep(st, s) == Fail(e)
            case Ok(p') => LineStep(st, s).Ok? && N.Tells(LineStep(st, s).value, p')
  {
    hide N.Tells, FieldsOf, ActionOf, NameOf, S.Process, N.After, S.DeclareLabel, N.Announce, S.Rooted;
    N.TellsCurrent(st, p);
    if FieldsOf(s).Ok? {
      var fs := FieldsOf(s).value;
      AcceptedFields(s);
      if NameOf(s, fs).Some? { AnnounceTells(st, p, NameOf(s, fs).value); }
      if ActionOf(s, fs).Ok? {
        ActionNamed(s, fs);
        N.LineTells(st, p, S.Line(NameOf(s, fs), ActionOf(s, fs).value));
      }
    }
  }

  /** The store that pass 1 fills tells what the text says. */
  lemma {:induction false} TextTells(st: S.State, p: N.Program, text: seq<string>)
    requires N.Tells(st, p)
    ensures S.Rooted(st) && S.Current(st) && p.Valid()
    ensures match SaidText(p, text)
            case Fail(e) => RunText(st, text) == Fail(e)
            case Ok(p') => RunText(st, text).Ok? && N.Tells(RunText(st, text).value, p')
    decreases |text|
  {
    hide N.Tells, SaidStep, LineStep, S.Rooted;
    N.TellsCurrent(st, p);
    if text == [] {
    } else {
      StepTells(st, p, text[0]);
      if SaidStep(p, text[0]).Ok? { TextTells(LineStep(st, text[0]).value, SaidStep(p, text[0]).value, text[1..]); }
    }
  }

  lemma BlankText(text: seq<string>)
    ensures match SaidText(N.BLANK, text)
            case Fail(e) => RunText(S.EMPTY, text) == Fail(e)
            case Ok(p) => RunText(S.EMPTY, text).Ok? && N.Tells(RunText(S.EMPTY, text).value, p)
                          && |p.parts| == |RunText(S.EMPTY, text).value.secs|
  {
    hide N.Tells, SaidText, RunText;
    N.BlankTells();
    TextTells(S.EMPTY, N.BLANK, text);
    if SaidText(N.BLANK, text).Ok? { W.TellsSize(RunText(S.EMPTY, text).value, SaidText(N.BLANK, text).value); }
  }

  // ---------------------------------------------------------------- names in the text

  /** The lines of an accepted text. */
  ghost function LinesOf(text: seq<string>): (lines: seq<S.Line>)
    requires forall n | 0 <= n < |text| :: LineOf(text[n]).Ok?
    ensures |lines| == |text| && forall n | 0 <= n < |text| :: LineOf(text[n]) == Ok(lines[n])
  {
    seq(|text|, n requires 0 <= n < |text| => LineOf(text[n]).value)
  }

  lemma SaidStepIs(p: N.Program, s: string)
    requires p.Valid() && SaidStep(p, s).Ok?
    ensures LineOf(s).Ok? && S.LineNamed(LineOf(s).value) && N.After(p, LineOf(s).value) == SaidStep(p, s)
  {
    hide FieldsOf, ActionOf, NameOf, N.After, N.Announce, S.LineNamed;
    AcceptedFields(s);
    LineNamed(s);
  }

  /** An accepted text says what its lines say. */
  lemma {:induction false} SaidTextIs(p: N.Program, text: seq<string>)
    requires p.Valid() && SaidText(p, text).Ok?
    ensures forall n | 0 <= n < |text| :: LineOf(text[n]).Ok?
    ensures forall line | line in LinesOf(text) :: S.LineNamed(line)
    ensures N.Said(p, LinesOf(text)) == SaidText(p, text)
    decreases |text|
  {
    hide LineOf, SaidStep, N.After, S.LineNamed;
    if text == [] {
    } else {
      SaidStepIs(p, text[0]);
      SaidTextIs(SaidStep(p, text[0]).value, text[1..]);
      forall n | 0 <= n < |text| ensures LineOf(text[n]).Ok? {
        if n > 0 { assert text[n] == text[1..][n - 1]; }
      }
      var lines := LinesOf(text);
      assert lines[1..] == LinesOf(text[1..]);
      forall line | line in lines ensures S.LineNamed(line) {
        var n :| 0 <= n < |lines| && lines[n] == line;
        if n > 0 { assert line == lines[1..][n - 1]; }
      }
    }
  }

  /** From a name in the text to the loaded longword. Operand q of line n is a name behind dc.l: its longword is
      the address of the place where the label stands that the name stands for there, and zero if it stands for
      none, or is a full stop with a size letter. */
  lemma TextReference(text: seq<string>, n: nat, j: nat, l: LineSyntax.Source, xs: seq<Atom>, gap: string, q: nat,
                      t: string, p: N.Program, imgs: seq<seq<Byte>>, bases: seq<Long>, addr: M.Addresses<N.Key>)
    requires SaidText(N.BLANK, text) == Ok(p) && n < |text| && W.Holds(imgs, p, bases, addr)
    requires AtomsLine(text[n], j, l, Addressing.OsLong, xs, gap) && q < |xs| && xs[q] == Name(t) && t != ""
    ensures forall m | 0 <= m < |text| :: LineOf(text[m]).Ok?
    ensures var lines := LinesOf(text);
      && (forall line | line in lines :: S.LineNamed(line))
      && N.Said(N.BLANK, lines[..n]).Ok? && S.LineNamed(lines[n])
      && N.Labelled(N.Said(N.BLANK, lines[..n]).value, lines[n]).Ok?
      && var before := W.InFront(lines, n);
      && lines[n].action.Emit? && |lines[n].action.items| == |xs|
      && (forall i | 0 <= i < |xs| :: S.ItemNamed(lines[n].action.items[i]))
      && var i, m := before.curr.value, |before.parts[before.curr.value].entries| + q;
      && |imgs| == |bases| == |p.parts| && i < |p.parts| && m < |p.parts[i].entries|
      && (Entries.Bss !in before.parts[i].flags ==>
            match if NumberLike(t) then None else N.KeyOf(N.NamesBefore(before.globals, lines[n].action.items, q), t)
            case Some(k) => W.LongwordIsLabel(imgs, p, bases, i, m, k)
            case None => W.LongwordIsZero(imgs, p, i, m))
  {
    hide SaidText, LineOf, AtomsLine, W.Holds, N.Said, N.Labelled, N.KeyOf, N.NamesBefore, W.LongwordIsLabel,
         W.NumberIn, Longword;
    SaidTextIs(N.BLANK, text);
    var lines := LinesOf(text);
    LongwordLine(text[n], j, l, xs, gap, lines[n]);
    assert lines[n] in lines;
    NameLongword(t);
    if NumberLike(t) {
      W.NumberMeaning(lines, n, q, 4, 0, p, imgs, bases, addr);
    } else {
      W.ReferenceMeaning(lines, n, q, t, p, imgs, bases, addr);
    }
  }

  /** From a number in the text to memory. Operand q of line n is a number behind dc.b, dc.w or dc.l: the byte, word
      or longword at the place of the operand is this number. */
  lemma TextNumber(text: seq<string>, n: nat, j: nat, l: LineSyntax.Source, opsize: Addressing.OpSize, xs: seq<Atom>,
                   gap: string, q: nat, p: N.Program, imgs: seq<seq<Byte>>, bases: seq<Long>,
                   addr: M.Addresses<N.Key>)
    requires SaidText(N.BLANK, text) == Ok(p) && n < |text| && W.Holds(imgs, p, bases, addr)
    requires AtomsLine(text[n], j, l, opsize, xs, gap) && opsize != Addressing.OsDefault
    requires q < |xs| && xs[q].Numeral?
    ensures forall m | 0 <= m < |text| :: LineOf(text[m]).Ok?
    ensures var lines := LinesOf(text);
      && (forall line | line in lines :: S.LineNamed(line))
      && N.Said(N.BLANK, lines[..n]).Ok? && S.LineNamed(lines[n])
      && N.Labelled(N.Said(N.BLANK, lines[..n]).value, lines[n]).Ok?
      && var before := W.InFront(lines, n);
      && var i, m := before.curr.value, |before.parts[before.curr.value].entries| + q;
      && |imgs| == |bases| == |p.parts| && i < |p.parts| && m < |p.parts[i].entries|
      && (Entries.Bss !in before.parts[i].flags ==>
            W.NumberIn(imgs[i], W.Place(p.parts[i].entries, m), Bytes(opsize), InMemory(xs[q].literal)))
  {
    hide SaidText, LineOf, AtomsLine, W.Holds, N.Said, N.Labelled, W.NumberIn, W.Place, InMemory, W.InFront;
    SaidTextIs(N.BLANK, text);
    var lines := LinesOf(text);
    NumberLine(text[n], j, l, opsize, xs, gap, lines[n], q);
    assert lines[n] in lines;
    W.NumberMeaning(lines, n, q, Bytes(opsize), InMemory(xs[q].literal), p, imgs, bases, addr);
  }

  /** From a literal in the text to memory: the line of a string that is accepted puts its bytes, one after the
      other, where the line stands in its section. */
  lemma TextString(text: seq<string>, n: nat, j: nat, name: Option<string>, colon: bool, gap: string, bs: seq<Byte>,
                   p: N.Program, imgs: seq<seq<Byte>>, bases: seq<Long>, addr: M.Addresses<N.Key>)
    requires SaidText(N.BLANK, text) == Ok(p) && n < |text| && W.Holds(imgs, p, bases, addr)
    requires StringData.LiteralAt(text[n], j, name, colon, gap, bs) && bs != []
    ensures forall m | 0 <= m < |text| :: LineOf(text[m]).Ok?
    ensures var lines := LinesOf(text);
      && (forall line | line in lines :: S.LineNamed(line))
      && N.Said(N.BLANK, lines[..n]).Ok? && S.LineNamed(lines[n])
      && N.Labelled(N.Said(N.BLANK, lines[..n]).value, lines[n]).Ok?
      && var before := W.InFront(lines, n);
      && var i, m := before.curr.value, |before.parts[before.curr.value].entries|;
      && |imgs| == |bases| == |p.parts| && i < |p.parts| && m <= |p.parts[i].entries|
      && (Entries.Bss !in before.parts[i].flags ==> var pos := W.Place(p.parts[i].entries, m);
            pos + |bs| <= |imgs[i]| && imgs[i][pos..pos + |bs|] == bs)
  {
    hide SaidText, LineOf, StringData.LiteralAt, W.Holds, N.Said, N.Labelled, StringData.Commented, StringData.Depth;
    SaidTextIs(N.BLANK, text);
    StringData.StringLine(text[n], j, name, colon, gap, bs);
    assert LinesOf(text)[n] in LinesOf(text);
    W.StringMeaning(LinesOf(text), n, bs, p, imgs, bases, addr);
  }

  lemma NameLongword(t: string)
    ensures Reading(Name(t)).Ok?
    ensures Longword(Name(t)) == if NumberLike(t) then S.Constant(4, 0, None) else S.Constant(4, 0, Some(t))
  {
  }

  /** An accepted line with dc.l asks for the longwords of its operands. */
  lemma LongwordLine(s: string, j: nat, l: LineSyntax.Source, xs: seq<Atom>, gap: string, line: S.Line)
    requires AtomsLine(s, j, l, Addressing.OsLong, xs, gap) && LineOf(s) == Ok(line)
    ensures line.action.Emit? && |line.action.items| == |xs|
    ensures forall m | 0 <= m < |xs| :: Reading(xs[m]).Ok? && line.action.items[m] == Longword(xs[m])
  {
    hide AtomsLine, LineOf, AskedFor, LineSyntax.Room, Longword, Reading;
    AtomsExact(s, j, l, Addressing.OsLong, xs, gap);
    LongwordsExact(s, j, l, xs, gap);
  }

  /** A text whose only line is dc.l with a name that leads nowhere, or is read as a number: a plain zero is
      stored, and written without a relocation. */
  lemma TextLosesName(t: string)
    requires AtomOk(Name(t)) && (NumberLike(t) || t[0] == '.' || t[|t| - 1] == '$' || |t| > 255)
    ensures RunText(S.EMPTY, [" dc.l " + t]) == Ok(ZERO_STORED)
    ensures LayoutOf(ZERO_STORED).Valid()
    ensures P.WriteEntries(LayoutOf(ZERO_STORED), 0, P.Start(false), ZERO_STORED.secs[0].entries)
         == Ok(P.Sink(false, 4, [0, 0, 0, 0], []))
  {
    hide LineOf, S.Process, S.Rooted, FieldsOf, ActionOf, LineStep;
    EmptyOk();
    StoreReady(S.EMPTY);
    NameLineExact(t);
    NameLongword(t);
    var s := " dc.l " + t;
    LineStepIs(S.EMPTY, s);
    if NumberLike(t) { ZeroLine(); } else { NameLost(t); }
    assert [s][1..] == [];
    ZeroWritten();
  }

  lemma LineStepIs(st: S.State, s: string)
    requires S.Rooted(st) && S.Current(st) && LineOf(s).Ok? && LineOf(s).value.declares.None?
    ensures S.LineNamed(LineOf(s).value) && LineStep(st, s) == S.Process(st, LineOf(s).value)
  {
    hide FieldsOf, ActionOf, NameOf, S.Process, S.LineNamed;
    AcceptedFields(s);
    LineNamed(s);
  }

  lemma ZeroLine()
    ensures var line := S.Line(None, S.Emit([S.Constant(4, 0, None)]));
      S.LineNamed(line) && S.Process(S.EMPTY, line) == Ok(ZERO_STORED)
  {
    var items: seq<S.Item> := [S.Constant(4, 0, None)];
    var none: seq<Entries.Entry<nat>> := [];
    assert none + [Entries.Data(4, 1, 0, None)] == [Entries.Data(4, 1, 0, None)];
    assert S.Ensure(S.EMPTY).secs[0 := ZERO_STORED.secs[0]] == ZERO_STORED.secs;
    assert S.PushEntry(S.EMPTY, Entries.Data(4, 1, 0, None)) == ZERO_STORED;
    assert S.PushItem(S.EMPTY, items[0]) == Ok(ZERO_STORED);
    assert S.PushItems(ZERO_STORED, items[1..]) == Ok(ZERO_STORED);
  }

  lemma ZeroWritten()
    ensures LayoutOf(ZERO_STORED).Valid()
    ensures P.WriteEntries(LayoutOf(ZERO_STORED), 0, P.Start(false), ZERO_STORED.secs[0].entries)
         == Ok(P.Sink(false, 4, [0, 0, 0, 0], []))
  {
    var lay, es := LayoutOf(ZERO_STORED), ZERO_STORED.secs[0].entries;
    var none: seq<Byte> := [];
    assert Be32(0) == [0, 0, 0, 0];
    assert none + [0, 0, 0, 0] == [0, 0, 0, 0];
    WrapSmall(4);
    assert P.WriteEntry(lay, 0, P.Start(false), es[0]) == Ok(P.Sink(false, 4, [0, 0, 0, 0], []));
    assert es[1..] == [];
  }

  /** From source text to a load file. The first line that cannot be cut, declared, read or stored ends the
      run with its error, and so does the first entry that cannot be written. A file that is written means at
      whatever addresses it is loaded what the text says. */
  method AssembleText(text: seq<string>, places: seq<nat>) returns (r: Result<seq<Byte>>)
    requires |places| == 2 * |text| && forall i, j | 0 <= i < j < |places| :: places[i] != places[j]
    ensures RunText(S.EMPTY, text).Fail? ==> r == Fail(RunText(S.EMPTY, text).error)
    ensures RunText(S.EMPTY, text).Ok? && |RunText(S.EMPTY, text).value.secs| < 0x1_0000_0000 ==>
      var st := RunText(S.EMPTY, text).value; LinkedSomewhere(LayoutOf(st), FlagsOf(st.secs), r)
    ensures match SaidText(N.BLANK, text)
            case Fail(e) => r == Fail(e)
            case Ok(p) => |p.parts| < 0x1_0000_0000 && r.Ok? ==> W.Means(r.value, p)
  {
    hide SymsAre, SecsAre, AllKnown, Chained, AllUnwritten, RunText, LayoutOf, FlagsOf, Linked, StoreOk, R.Distinct,
         SaidText, N.Tells, W.Means;
    BlankText(text);
    var cs := new CodeSpace();
    var built := BuildText(cs, text, places);
    if built.Fail? { return Fail(built.error); }
    EmptyOk();
    RunTextOk(S.EMPTY, text);
    ghost var addr: seq<nat>;
    r, addr := Finish(cs);
    if SaidText(N.BLANK, text).Ok? && |cs.st.secs| < 0x1_0000_0000 {
      OutcomeMeans(cs.st, SaidText(N.BLANK, text).value, addr, r);
    }
  }
}
