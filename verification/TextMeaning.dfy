/** What a source text means line by line: labels, sections, and the section that store remembers (src/main.c:109-183,
    src/mnemonics_misc.c:49-98, src/codespace.c:205-300). */
module TextMeaning {
  import opened Basics
  import opened ByteData
  import opened ConstantData
  import opened Directives
  import opened DirectiveSyntax
  import opened Entries
  import opened HunkFormat
  import opened Lines
  import opened Source
  import opened Text
  import LineSyntax
  import M = Meaning
  import N = Naming
  import S = Store
  import W = SourceMeaning
  import X = Executable

  // ---------------------------------------------------------------- labels

  predicate LocalName(name: string)
    requires name != ""
  {
    name[0] == '.' || name[|name| - 1] == '$'
  }

  /** A label more at the end of the current section, which is "code" if there is none. */
  ghost function WithLabel(p: N.Program, name: string): (r: N.Program)
    requires p.Valid() && name != "" && (LocalName(name) ==> p.globals != [])
    ensures r.Valid() && r.labels == p.labels + {W.LabelFor(p.globals, name)}
    ensures r.globals == if LocalName(name) || name in p.globals then p.globals else p.globals + [name]
  {
    var k := W.LabelFor(p.globals, name);
    var (parts, c) := if p.curr.Some? then (p.parts, p.curr.value) else ([S.Sec("code", {Code}, [])], 0);
    N.Program(if LocalName(name) || name in p.globals then p.globals else p.globals + [name], p.labels + {k},
              parts[c := S.Sec(parts[c].name, parts[c].flags, parts[c].entries + [Label(k)])], Some(c), p.store)
  }

  /** A line with a label alone: it is refused exactly if the name is too long, or is local before any global, or its
      label is declared already; otherwise the label stands at the end of the current section. */
  lemma LabelStep(p: N.Program, s: string, j: nat, name: string, colon: bool)
    requires p.Valid() && LabelLine(s, j, name, colon)
    ensures name != ""
    ensures var fits := |name| <= 255 && (LocalName(name) ==> p.globals != []);
      SaidStep(p, s) == if fits && W.LabelFor(p.globals, name) !in p.labels then Ok(WithLabel(p, name))
                        else Fail(InvalidSymbol)
  {
    hide FieldsOf, LabelLine;
    LabelCut(s, j, name, colon);
    LabelParts(s, j, name, colon);
    AcceptedFields(s);
  }

  /** What a text says with one line more. */
  lemma {:induction false} SaidMore(p: N.Program, text: seq<string>, s: string)
    requires p.Valid()
    ensures SaidText(p, text + [s]) ==
      match SaidText(p, text) { case Ok(p') => SaidStep(p', s) case Fail(e) => Fail(e) }
    decreases |text|
  {
    hide SaidStep;
    var more := text + [s];
    if text == [] {
      assert more[0] == s && more[1..] == [];
    } else {
      assert more[0] == text[0] && more[1..] == text[1..] + [s];
      if SaidStep(p, text[0]).Ok? { SaidMore(SaidStep(p, text[0]).value, text[1..], s); }
    }
  }

  /** The programs that two globals with a local each make. */
  lemma ScopesTold(a: string, b: string, x: string)
    requires a != b && a != "" && b != "" && x != "" && !LocalName(a) && !LocalName(b) && LocalName(x)
    ensures N.BLANK.Valid()
    ensures var p1 := WithLabel(N.BLANK, a);
      && p1.Valid() && p1.globals == [a] && p1.labels == {N.Global(a)}
      && var p2 := WithLabel(p1, x);
      && p2.Valid() && p2.globals == [a] && p2.labels == {N.Global(a), N.Local(a, x)}
      && var p3 := WithLabel(p2, b);
      && p3.Valid() && p3.globals == [a, b] && p3.labels == {N.Global(a), N.Local(a, x), N.Global(b)}
      && var p4 := WithLabel(p3, x);
      && p4.Valid() && p4.globals == [a, b]
      && p4.labels == {N.Global(a), N.Local(a, x), N.Global(b), N.Local(b, x)}
  {
    hide WithLabel;
    assert N.BLANK.globals + [a] == [a] && [a] + [b] == [a, b];
  }

  /** What a text says with one label more. */
  lemma LabelMore(p: N.Program, text: seq<string>, n: nat, j: nat, name: string, colon: bool)
    requires n < |text| && SaidText(N.BLANK, text[..n]) == Ok(p)
    requires p.Valid() && LabelLine(text[n], j, name, colon)
    requires name != "" && |name| <= 255 && (LocalName(name) ==> p.globals != [])
    requires W.LabelFor(p.globals, name) !in p.labels
    ensures SaidText(N.BLANK, text[..n + 1]) == Ok(WithLabel(p, name))
  {
    hide LabelLine, SaidStep, SaidText, WithLabel;
    LabelStep(p, text[n], j, name, colon);
    SaidMore(N.BLANK, text[..n], text[n]);
    assert text[..n + 1] == text[..n] + [text[n]];
  }

  lemma LabelTwice(p: N.Program, text: seq<string>, s: string, j: nat, name: string, colon: bool)
    requires SaidText(N.BLANK, text) == Ok(p) && p.Valid() && LabelLine(s, j, name, colon)
    requires name != "" && (LocalName(name) ==> p.globals != []) && W.LabelFor(p.globals, name) in p.labels
    ensures SaidText(N.BLANK, text + [s]) == Fail(InvalidSymbol)
  {
    hide LabelLine, SaidStep, SaidText;
    LabelStep(p, s, j, name, colon);
    SaidMore(N.BLANK, text, s);
  }

  /** A global and a local name behind what was said. */
  lemma ScopeMore(p: N.Program, text: seq<string>, n: nat, j: nat, k: nat, colon: bool, colon': bool, a: string,
                  x: string)
    requires n + 1 < |text| && SaidText(N.BLANK, text[..n]) == Ok(p) && p.Valid()
    requires LabelLine(text[n], j, a, colon) && LabelLine(text[n + 1], k, x, colon')
    requires a != "" && x != "" && |a| <= 255 && |x| <= 255 && !LocalName(a) && LocalName(x)
    requires a !in p.globals && N.Global(a) !in p.labels && N.Local(a, x) !in p.labels
    ensures SaidText(N.BLANK, text[..n + 2]) == Ok(WithLabel(WithLabel(p, a), x))
  {
    hide LabelLine, SaidStep, SaidText, WithLabel, N.Program.Valid;
    LabelMore(p, text, n, j, a, colon);
    LabelMore(WithLabel(p, a), text, n + 1, k, x, colon');
  }

  /** A local name can be declared once behind every global. */
  lemma TwoScopes(text: seq<string>, ends: seq<nat>, colons: seq<bool>, a: string, b: string, x: string)
    requires |text| == |ends| == |colons| == 4
    requires LabelLine(text[0], ends[0], a, colons[0]) && LabelLine(text[1], ends[1], x, colons[1])
    requires LabelLine(text[2], ends[2], b, colons[2]) && LabelLine(text[3], ends[3], x, colons[3])
    requires a != b && |a| <= 255 && |b| <= 255 && |x| <= 255 && a != "" && b != "" && x != ""
    requires !LocalName(a) && !LocalName(b) && LocalName(x)
    ensures SaidText(N.BLANK, text).Ok?
    ensures SaidText(N.BLANK, text).value.labels == {N.Global(a), N.Local(a, x), N.Global(b), N.Local(b, x)}
    ensures SaidText(N.BLANK, text + [text[3]]) == Fail(InvalidSymbol)
  {
    hide LabelLine, SaidStep, SaidText, WithLabel, N.Program.Valid, LocalName;
    ScopesTold(a, b, x);
    var p := WithLabel(WithLabel(N.BLANK, a), x);
    SaidNone(N.BLANK);
    assert text[..0] == [] && text[..4] == text;
    ScopeMore(N.BLANK, text, 0, ends[0], ends[1], colons[0], colons[1], a, x);
    ScopeMore(p, text, 2, ends[2], ends[3], colons[2], colons[3], b, x);
    LabelTwice(WithLabel(WithLabel(p, b), x), text, text[3], ends[3], x, colons[3]);
  }

  lemma SaidNone(p: N.Program)
    requires p.Valid()
    ensures SaidText(p, []) == Ok(p)
  {
  }

  /** From a label in the text to memory: wherever the file is loaded, its address is the address of the place behind
      what was said before in the section that is current there. */
  lemma TextLabel(text: seq<string>, n: nat, j: nat, name: string, colon: bool, p: N.Program, imgs: seq<seq<Byte>>,
                  bases: seq<Long>, addr: M.Addresses<N.Key>)
    requires SaidText(N.BLANK, text) == Ok(p) && n < |text| && W.Holds(imgs, p, bases, addr)
    requires LabelLine(text[n], j, name, colon)
    ensures name != "" && forall m | 0 <= m < |text| :: LineOf(text[m]).Ok?
    ensures var lines := LinesOf(text);
      && (forall line | line in lines :: S.LineNamed(line)) && N.Said(N.BLANK, lines[..n]).Ok?
      && var before := N.Said(N.BLANK, lines[..n]).value;
      && (LocalName(name) ==> before.globals != [])
      && var k, r := W.LabelFor(before.globals, name), N.Ready(before);
      && var i, m := r.curr.value, |r.parts[r.curr.value].entries|;
      && |bases| == |p.parts| && i < |p.parts| && m < |p.parts[i].entries| && p.parts[i].entries[m] == Label(k)
      && k in addr && addr[k] == Wrap32(bases[i] + W.Place(p.parts[i].entries, m))
  {
    hide S.LineNamed, SaidText, LineOf, LabelLine, W.Holds, N.Said, W.Place, N.Ready, W.LabelFor, Wrap32;
    SaidTextIs(N.BLANK, text);
    LabelAlone(text[n], j, name, colon);
    assert LinesOf(text)[n] in LinesOf(text);
    W.LabelMeaning(LinesOf(text), n, name, p, imgs, bases, addr);
  }

  // ---------------------------------------------------------------- bytes

  /** From strings and numbers behind dc.b to memory: the bytes of an accepted line stand one after the other at the
      place of the line in its section. */
  lemma TextBytes(text: seq<string>, n: nat, j: nat, l: LineSyntax.Source, ps: seq<Part>, front: string, p: N.Program,
                  imgs: seq<seq<Byte>>, bases: seq<Long>, addr: M.Addresses<N.Key>)
    requires SaidText(N.BLANK, text) == Ok(p) && n < |text| && W.Holds(imgs, p, bases, addr)
    requires BytesLine(text[n], j, l, ps, front)
    ensures AllFit(ps) && forall m | 0 <= m < |text| :: LineOf(text[m]).Ok?
    ensures var lines, bs := LinesOf(text), AllBytes(ps);
      bs != [] ==>
        && (forall line | line in lines :: S.LineNamed(line))
        && N.Said(N.BLANK, lines[..n]).Ok? && S.LineNamed(lines[n])
        && N.Labelled(N.Said(N.BLANK, lines[..n]).value, lines[n]).Ok?
        && var before := W.InFront(lines, n);
        && var i, m := before.curr.value, |before.parts[before.curr.value].entries|;
        && |imgs| == |bases| == |p.parts| && i < |p.parts| && m <= |p.parts[i].entries|
        && (Bss !in before.parts[i].flags ==> var pos := W.Place(p.parts[i].entries, m);
              pos + |bs| <= |imgs[i]| && imgs[i][pos..pos + |bs|] == bs)
  {
    hide S.LineNamed, SaidText, LineOf, BytesLine, W.Holds, N.Said, N.Labelled, W.InFront, AllFit, AllBytes,
         LineSyntax.Room, W.Place;
    SaidTextIs(N.BLANK, text);
    BytesExact(text[n], j, l, ps, front);
    var lines := LinesOf(text);
    assert lines[n] in lines;
    if AllBytes(ps) != [] { W.StringMeaning(lines, n, AllBytes(ps), p, imgs, bases, addr); }
  }

  // ---------------------------------------------------------------- sections

  lemma AskForUnique(f: set<SecFlag>, g: set<SecFlag>, kind: Kind, memory: Memory)
    requires AskFor(f, kind, memory)
    ensures AskFor(g, kind, memory) <==> f == g
  {
    if AskFor(g, kind, memory) {
      forall x ensures x in f <==> x in g { match x case Code => case Data_ => case Bss => case Chip => case Fast => }
    }
  }

  /** The sections of a program with this name, in either case. */
  ghost predicate Called(p: N.Program, i: nat, name: string) {
    i < |p.parts| && SameLetters(p.parts[i].name, name)
  }

  /** Section i is the first with the name, and is current now if it was asked for in the same way. */
  ghost predicate Known(p: N.Program, curr: Option<nat>, i: nat, name: string, kind: Kind, memory: Memory) {
    && Called(p, i, name) && (forall j: nat | j < i :: !Called(p, j, name))
    && curr == if AskFor(p.parts[i].flags, kind, memory) then Some(i) else p.curr
  }

  /** A section of a new name is added and is current then; a known one is current if it was asked for in the same
      way, and otherwise the directive is passed over. */
  ghost predicate Switched(p: N.Program, p': N.Program, name: string, kind: Kind, memory: Memory) {
    if forall i: nat | i < |p.parts| :: !Called(p, i, name)
    then p'.curr == Some(|p.parts|) && |p'.parts| == |p.parts| + 1 && p'.parts[..|p.parts|] == p.parts
         && var part := p'.parts[|p.parts|];
            part.entries == [] && part.name == (if |name| > 255 then name[..255] else name)
            && AskFor(part.flags, kind, memory)
    else p'.parts == p.parts && exists i: nat :: Known(p, p'.curr, i, name, kind, memory)
  }

  lemma SwitchExact(p: N.Program, name: string, flags: set<SecFlag>, kind: Kind, memory: Memory)
    requires p.Valid() && AskFor(flags, kind, memory) && N.Switch(p, name, flags).Ok?
    ensures Switched(p, N.Switch(p, name, flags).value, name, kind, memory)
  {
    hide AskFor, S.SameName, SameLetters;
    forall i: nat | i < |p.parts| ensures S.SameName(p.parts[i].name, name) <==> Called(p, i, name) {
      SameNameExact(p.parts[i].name, name);
    }
    match S.FindSection(p.parts, name, 0)
    case None =>
    case Some(i) =>
      AskForUnique(flags, p.parts[i].flags, kind, memory);
      assert Known(p, N.Switch(p, name, flags).value.curr, i, name, kind, memory);
  }

  /** A section line among others. */
  lemma SectionSaid(lines: seq<S.Line>, n: nat, name: string, flags: set<SecFlag>, kind: Kind, memory: Memory)
    requires n < |lines| && (forall line | line in lines :: S.LineNamed(line)) && N.Said(N.BLANK, lines).Ok?
    requires lines[n].action == S.Section(name, flags) && AskFor(flags, kind, memory)
    ensures S.LineNamed(lines[n]) && N.Said(N.BLANK, lines[..n + 1]).Ok?
    ensures N.Said(N.BLANK, lines[..n]).Ok? && N.Labelled(N.Said(N.BLANK, lines[..n]).value, lines[n]).Ok?
    ensures Switched(N.Labelled(N.Said(N.BLANK, lines[..n]).value, lines[n]).value,
                     N.Said(N.BLANK, lines[..n + 1]).value, name, kind, memory)
    ensures N.Continues(N.Said(N.BLANK, lines[..n + 1]).value, N.Said(N.BLANK, lines).value)
  {
    hide S.LineNamed, N.Said, N.Labelled, N.Switch, N.Continues, AskFor, Switched;
    N.SaidNext(lines, n);
    SwitchExact(N.Labelled(N.Said(N.BLANK, lines[..n]).value, lines[n]).value, name, flags, kind, memory);
  }

  /** The hunk of a section that was asked for. */
  lemma AskedHunk(q: N.Program, p: N.Program, file: seq<Byte>, c: nat, kind: Kind, memory: Memory)
    requires N.Continues(q, p) && X.HunksSay(file, W.PartFlags(p)) && c < |q.parts|
    requires AskFor(q.parts[c].flags, kind, memory)
    ensures ReadFile(file).Some? && c < |ReadFile(file).value| && HunkIs(ReadFile(file).value[c], kind, memory)
  {
    hide ReadFile;
    assert X.HunkSays(ReadFile(file).value[c], W.PartFlags(p)[c]);
  }

  predicate HunkIs(h: Hunk, kind: Kind, memory: Memory) {
    h.kind == kind && (h.chip <==> memory == ChipMemory) && (h.fast <==> memory == FastMemory)
  }

  /** From a section line of the text to the load file: if no section has this name, in either case, the line starts
      a section, and the hunk that is read back for it from the file has the kind, and the memory flags, that the
      line says: code in any memory without a type, and otherwise what the type says in either case. */
  lemma TextSection(text: seq<string>, n: nat, j: nat, l: LineSyntax.Source, rest: string, name: string,
                    types: seq<string>, kind: Kind, memory: Memory, gap: string, p: N.Program, file: seq<Byte>)
    requires SaidText(N.BLANK, text) == Ok(p) && n < |text| && W.Means(file, p)
    requires SizeAdmitted(rest) && |types| <= 1 && !NumberLike(name)
    requires forall i | 0 <= i < |types| :: !NumberLike(types[i])
    requires DirectiveLine(text[n], j, l, "section", rest, [Name(name)] + Names(types), gap)
    requires if types == [] then kind == CodeHunk && memory == AnyMemory
             else SameLetters(types[0], PrintType(kind, memory))
    ensures forall m | 0 <= m < |text| :: LineOf(text[m]).Ok?
    ensures var lines := LinesOf(text);
      && (forall line | line in lines :: S.LineNamed(line)) && S.LineNamed(lines[n])
      && N.Said(N.BLANK, lines[..n]).Ok? && N.Labelled(N.Said(N.BLANK, lines[..n]).value, lines[n]).Ok?
      && N.Said(N.BLANK, lines[..n + 1]).Ok?
      && var before := N.Labelled(N.Said(N.BLANK, lines[..n]).value, lines[n]).value;
      && var after := N.Said(N.BLANK, lines[..n + 1]).value;
      && Switched(before, after, name, kind, memory)
      && (|after.parts| > |before.parts| ==>
            && ReadFile(file).Some? && |before.parts| < |ReadFile(file).value|
            && HunkIs(ReadFile(file).value[|before.parts|], kind, memory))
  {
    hide S.LineNamed, SaidText, LineOf, N.Said, N.Labelled, DirectiveLine, SameLetters, PrintType, ReadFile, Called,
         AskFor, N.Continues, X.HunksSay, X.LoadFile, W.Holds, Known;
    SaidTextIs(N.BLANK, text);
    var lines := LinesOf(text);
    assert lines[n] in lines;
    SectionLine(text[n], j, l, rest, name, types, gap);
    assert AsksSection(LineOf(text[n]), l.name, name, kind, memory);
    SectionSaid(lines, n, name, lines[n].action.flags, kind, memory);
    var before := N.Labelled(N.Said(N.BLANK, lines[..n]).value, lines[n]).value;
    var after := N.Said(N.BLANK, lines[..n + 1]).value;
    if |after.parts| > |before.parts| { AskedHunk(after, p, file, |before.parts|, kind, memory); }
  }

  // ---------------------------------------------------------------- store and restore

  /** After store, lines without store and restore, and restore, the section that was current at store is current
      again. */
  lemma StoreRestored(lines: seq<S.Line>, a: nat, b: nat)
    requires a < b < |lines| && (forall line | line in lines :: S.LineNamed(line)) && N.Said(N.BLANK, lines).Ok?
    requires lines[a].action == S.StoreSection && lines[b].action == S.RestoreSection
    requires forall n | a < n < b :: lines[n].action != S.StoreSection && lines[n].action != S.RestoreSection
    ensures S.LineNamed(lines[a]) && N.Said(N.BLANK, lines[..b + 1]).Ok?
    ensures N.Said(N.BLANK, lines[..a]).Ok? && N.Labelled(N.Said(N.BLANK, lines[..a]).value, lines[a]).Ok?
    ensures var stored := N.Ready(N.Labelled(N.Said(N.BLANK, lines[..a]).value, lines[a]).value).curr;
      N.Said(N.BLANK, lines[..b + 1]).value.curr == stored && stored.Some?
  {
    hide S.LineNamed, N.Said, N.Labelled, N.Ready, N.After, N.Continues;
    N.SaidNext(lines, a);
    StoredAt(N.Said(N.BLANK, lines[..a]).value, lines[a]);
    N.SaidNext(lines, b);
    Between(lines, a, b);
    RestoredTo(N.Said(N.BLANK, lines[..b]).value, lines[b]);
  }

  /** What the line that follows asks for stands in the section that is current. */
  lemma FollowsIn(lines: seq<S.Line>, n: nat)
    requires n < |lines| && (forall line | line in lines :: S.LineNamed(line)) && N.Said(N.BLANK, lines).Ok?
    requires N.Said(N.BLANK, lines[..n]).Ok? && N.Said(N.BLANK, lines[..n]).value.curr.Some?
    ensures S.LineNamed(lines[n]) && N.Labelled(N.Said(N.BLANK, lines[..n]).value, lines[n]).Ok?
    ensures W.InFront(lines, n).curr == N.Said(N.BLANK, lines[..n]).value.curr
  {
    hide S.LineNamed, N.Said, N.Labelled, N.Ready, N.After, N.Continues;
    N.SaidNext(lines, n);
    SameCurrent(N.Said(N.BLANK, lines[..n]).value, lines[n]);
  }

  lemma StoredAt(p: N.Program, line: S.Line)
    requires p.Valid() && S.LineNamed(line) && line.action == S.StoreSection && N.After(p, line).Ok?
    ensures N.Labelled(p, line).Ok? && N.After(p, line).value.store == N.Ready(N.Labelled(p, line).value).curr
  {
  }

  /** The same from the text: lines with store and restore in either case, with or without labels and comments. */
  lemma TextStoreRestore(text: seq<string>, a: nat, i: nat, l: LineSyntax.Source, gap: string, b: nat, j: nat,
                         m: LineSyntax.Source, gap': string, p: N.Program)
    requires SaidText(N.BLANK, text) == Ok(p) && a < b < |text|
    requires DirectiveLine(text[a], i, l, "store", "", [], gap) && DirectiveLine(text[b], j, m, "restore", "", [], gap')
    requires forall n | a < n < b && LineOf(text[n]).Ok? ::
      LineOf(text[n]).value.action != S.StoreSection && LineOf(text[n]).value.action != S.RestoreSection
    ensures forall n | 0 <= n < |text| :: LineOf(text[n]).Ok?
    ensures var lines := LinesOf(text);
      && (forall line | line in lines :: S.LineNamed(line)) && S.LineNamed(lines[a])
      && N.Said(N.BLANK, lines[..a]).Ok? && N.Labelled(N.Said(N.BLANK, lines[..a]).value, lines[a]).Ok?
      && N.Said(N.BLANK, lines[..b + 1]).Ok?
      && var stored := N.Ready(N.Labelled(N.Said(N.BLANK, lines[..a]).value, lines[a]).value).curr;
      N.Said(N.BLANK, lines[..b + 1]).value.curr == stored && stored.Some?
  {
    hide S.LineNamed, SaidText, LineOf, N.Said, N.Labelled, DirectiveLine, N.Ready;
    SaidTextIs(N.BLANK, text);
    StoreLine(text[a], i, l, "", [], gap);
    RestoreLine(text[b], j, m, "", [], gap');
    StoreRestored(LinesOf(text), a, b);
  }

  /** What a line asks for stands in the section that was current in front of it. */
  lemma TextFollows(text: seq<string>, n: nat, p: N.Program)
    requires SaidText(N.BLANK, text) == Ok(p) && n < |text|
    ensures forall m | 0 <= m < |text| :: LineOf(text[m]).Ok?
    ensures var lines := LinesOf(text);
      && (forall line | line in lines :: S.LineNamed(line)) && S.LineNamed(lines[n])
      && N.Said(N.BLANK, lines[..n]).Ok? && N.Labelled(N.Said(N.BLANK, lines[..n]).value, lines[n]).Ok?
      && (N.Said(N.BLANK, lines[..n]).value.curr.Some? ==>
            W.InFront(lines, n).curr == N.Said(N.BLANK, lines[..n]).value.curr)
  {
    hide S.LineNamed, SaidText, LineOf, N.Said, N.Labelled, N.After, N.Ready, W.InFront, N.Continues;
    SaidTextIs(N.BLANK, text);
    var lines := LinesOf(text);
    N.SaidNext(lines, n);
    LabelledFirst(N.Said(N.BLANK, lines[..n]).value, lines[n]);
    if N.Said(N.BLANK, lines[..n]).value.curr.Some? { FollowsIn(lines, n); }
  }

  lemma LabelledFirst(p: N.Program, line: S.Line)
    requires p.Valid() && S.LineNamed(line) && N.After(p, line).Ok?
    ensures N.Labelled(p, line).Ok?
  {
  }

  lemma Between(lines: seq<S.Line>, a: nat, b: nat)
    requires a < b < |lines| && (forall line | line in lines :: S.LineNamed(line)) && N.Said(N.BLANK, lines).Ok?
    requires forall n | a < n < b :: lines[n].action != S.StoreSection && lines[n].action != S.RestoreSection
    ensures N.Said(N.BLANK, lines[..a + 1]).Ok? && N.Said(N.BLANK, lines[..b]).Ok?
    ensures N.Said(N.BLANK, lines[..b]).value.store == N.Said(N.BLANK, lines[..a + 1]).value.store
  {
    hide N.Said;
    N.SaidSplit(N.BLANK, lines, b);
    var upto := lines[..b];
    forall line | line in upto ensures S.LineNamed(line) { assert line in lines; }
    N.SaidSplit(N.BLANK, upto, a + 1);
    assert upto[..a + 1] == lines[..a + 1];
    var mid := upto[a + 1..];
    forall line | line in mid
      ensures S.LineNamed(line) && line.action != S.StoreSection && line.action != S.RestoreSection
    {
      var k :| 0 <= k < |mid| && mid[k] == line;
      assert line == lines[a + 1 + k] && line in lines;
    }
    N.StoreKept(N.Said(N.BLANK, lines[..a + 1]).value, mid);
  }

  lemma RestoredTo(p: N.Program, line: S.Line)
    requires p.Valid() && S.LineNamed(line) && line.action == S.RestoreSection && N.After(p, line).Ok?
    ensures N.After(p, line).value.curr == p.store && p.store.Some?
  {
  }

  lemma SameCurrent(p: N.Program, line: S.Line)
    requires p.Valid() && S.LineNamed(line) && p.curr.Some? && N.After(p, line).Ok?
    ensures N.Labelled(p, line).Ok? && N.Ready(N.Labelled(p, line).value).curr == p.curr
  {
  }
}
