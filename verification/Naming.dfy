/** What source lines say, without lists, record identities or pointers: a program is a list of sections
    whose entries refer to labels by scope and name. The code store that pass 1 fills tells the same program
    (src/main.c:109-183, src/codespace.c:110-387). */
module Naming {
  import opened Basics
  import opened Entries
  import opened StoreRuns
  import S = Store

  /** A label: a global one, or a local one of a global. */
  datatype Key = Global(name: string) | Local(owner: string, name: string)

  type Part = S.SectionOf<Key>

  /** What has been said so far: the global names in the order of their first mention, the labels that were
      declared, the sections, and which of them are current and remembered. */
  datatype Program = Program(globals: seq<string>, labels: set<Key>, parts: seq<Part>,
                             curr: Option<nat>, store: Option<nat>)
  {
    ghost predicate Valid() {
      && (curr.Some? ==> curr.value < |parts|)
      && (curr.None? ==> parts == [])
      && (store.Some? ==> store.value < |parts|)
    }
  }

  const BLANK := Program([], {}, [], None, None)

  // ---------------------------------------------------------------- what names stand for

  /** Names with a full stop in front or a dollar sign behind are local. */
  predicate Owned(name: string)
    requires name != ""
  {
    name[0] == '.' || name[|name| - 1] == '$'
  }

  /** Mentioning a global name for the first time starts a new scope for local names. */
  function Mention(globals: seq<string>, name: string): seq<string>
    requires name != ""
  {
    if |name| > 255 || Owned(name) || name in globals then globals else globals + [name]
  }

  /** The label a name stands for: a local name belongs to the global that was mentioned last for the first
      time. Names that are too long, and local ones before any global, stand for nothing. */
  function KeyOf(globals: seq<string>, name: string): Option<Key>
    requires name != ""
  {
    if |name| > 255 then None
    else if !Owned(name) then Some(Global(name))
    else if globals == [] then None
    else Some(Local(globals[|globals| - 1], name))
  }

  function Tag(globals: seq<string>, tag: Option<string>): (seq<string>, Option<Key>)
    requires tag.Some? ==> tag.value != ""
  {
    if tag.None? then (globals, None) else (Mention(globals, tag.value), KeyOf(globals, tag.value))
  }

  function TagEas(globals: seq<string>, eas: seq<Ea<string>>): (seq<string>, seq<Ea<Key>>)
    requires forall i | 0 <= i < |eas| :: S.EaNamed(eas[i])
    decreases |eas|
  {
    if eas == [] then (globals, [])
    else
      assert S.EaNamed(eas[0]);
      var (g1, k) := Tag(globals, eas[0].sym);
      var (g2, rest) := TagEas(g1, eas[1..]);
      (g2, [Ea(eas[0].mode, eas[0].reg, eas[0].ew, k)] + rest)
  }

  /** The entry an instruction or a constant stands for, and the names known behind it. */
  function TagItem(globals: seq<string>, item: S.Item): Result<(seq<string>, Entry<Key>)>
    requires S.ItemNamed(item)
  {
    match item
    case Code_(opsize, ops, eas) =>
      if opsize != 2 then Fail(InvalidInstructionSize)
      else if |eas| > 2 then Fail(BufferOverrun)
      else
        var (g, tagged) := TagEas(globals, eas);
        Ok((g, Instr(opsize, ops, tagged)))
    case Constant(size, value, tag) =>
      var (g, k) := Tag(globals, tag);
      if k.Some? && size != 4 then Fail(InvalidAddressSize)
      else
        match size
        case 1 => Ok((g, Data(1, 1, value % 0x100, k)))
        case 2 => Ok((g, Data(2, 1, value % 0x1_0000, k)))
        case 4 => Ok((g, Data(4, 1, value, k)))
        case _ => Fail(InvalidInstructionSize)
  }

  // ---------------------------------------------------------------- what lines say

  /** Entries go to the current section, which is "code" if there is none. */
  function Ready(p: Program): (r: Program)
    requires p.Valid()
    ensures r.Valid() && r.curr.Some? && r.globals == p.globals && r.labels == p.labels
  {
    if p.curr.Some? then p else p.(parts := [S.Sec("code", {Code}, [])], curr := Some(0))
  }

  function Add(p: Program, e: Entry<Key>): (r: Program)
    requires p.Valid()
    ensures r.Valid() && r.curr.Some? && r.globals == p.globals && r.labels == p.labels
  {
    var p' := Ready(p);
    var c := p'.curr.value;
    p'.(parts := p'.parts[c := p'.parts[c].(entries := p'.parts[c].entries + [e])])
  }

  function AddItems(p: Program, items: seq<S.Item>): (r: Result<Program>)
    requires p.Valid() && forall i | 0 <= i < |items| :: S.ItemNamed(items[i])
    ensures r.Ok? ==> r.value.Valid()
    decreases |items|
  {
    if items == [] then Ok(p)
    else
      assert S.ItemNamed(items[0]);
      var (g, e) :- TagItem(p.globals, items[0]);
      AddItems(Add(p.(globals := g), e), items[1..])
  }

  /** The characters of a section name. */
  const SMALL := "abcdefghijklmnopqrstuvwxyz"
  const CAPITAL := "ABCDEFGHIJKLMNOPQRSTUVWXYZ"
  const OTHERS := "0123456789.$_"

  predicate CharAllowed(c: char) {
    c in SMALL || c in CAPITAL || c in OTHERS
  }

  predicate NameAllowed(name: string) {
    forall i | 0 <= i < |name| :: CharAllowed(name[i])
  }

  /** A section of a new name goes to the end; a known one is switched to if its flags are the same, and
      otherwise the directive is passed over. */
  function Switch(p: Program, name: string, flags: set<SecFlag>): (r: Result<Program>)
    requires p.Valid()
    ensures r.Ok? ==> r.value.Valid()
  {
    if !NameAllowed(name) then Fail(InvalidSectionName)
    else
      match S.FindSection(p.parts, name, 0)
      case Some(i) => if p.parts[i].flags == flags then Ok(p.(curr := Some(i))) else Ok(p)
      case None =>
        var kept := if |name| > 255 then name[..255] else name;
        Ok(p.(parts := p.parts + [S.Sec(kept, flags, [])], curr := Some(|p.parts|)))
  }

  function Act(p: Program, action: S.Action): (r: Result<Program>)
    requires p.Valid()
    requires action.Emit? ==> forall i | 0 <= i < |action.items| :: S.ItemNamed(action.items[i])
    ensures r.Ok? ==> r.value.Valid()
  {
    match action
    case Nothing => Ok(p)
    case Equate => Ok(p)
    case Emit(items) => AddItems(p, items)
    case Section(name, flags) => Switch(p, name, flags)
    case StoreSection => var p' := Ready(p); Ok(p'.(store := p'.curr))
    case RestoreSection => if p.store.None? then Fail(RestoreWithoutStore) else Ok(p.(curr := p.store, store := None))
  }

  /** A line declares its label, at most once in its scope, and puts it at the end of the current section. */
  function Announce(p: Program, name: string, push: bool): (r: Result<Program>)
    requires p.Valid() && name != ""
    ensures r.Ok? ==> r.value.Valid()
  {
    match KeyOf(p.globals, name)
    case None => Fail(InvalidSymbol)
    case Some(k) =>
      if k in p.labels then Fail(InvalidSymbol)
      else
        var p' := p.(globals := Mention(p.globals, name), labels := p.labels + {k});
        Ok(if push then Add(p', Label(k)) else p')
  }

  function Labelled(p: Program, line: S.Line): (r: Result<Program>)
    requires p.Valid() && S.LineNamed(line)
    ensures r.Ok? ==> r.value.Valid()
  {
    if line.declares.None? then Ok(p) else Announce(p, line.declares.value, !line.action.Equate?)
  }

  function After(p: Program, line: S.Line): (r: Result<Program>)
    requires p.Valid() && S.LineNamed(line)
    ensures r.Ok? ==> r.value.Valid()
  {
    var p' :- Labelled(p, line);
    Act(p', line.action)
  }

  /** What the lines of a source text say. */
  function Said(p: Program, lines: seq<S.Line>): (r: Result<Program>)
    requires p.Valid() && forall line | line in lines :: S.LineNamed(line)
    ensures r.Ok? ==> r.value.Valid()
    decreases |lines|
  {
    if lines == [] then Ok(p)
    else
      assert S.LineNamed(lines[0]);
      var p' :- After(p, lines[0]);
      Said(p', lines[1..])
  }

  // ---------------------------------------------------------------- where entries stand

  /** Nothing that was said is taken back: sections keep their place, name and flags, and entries are only
      added behind others. */
  ghost predicate Continues(p: Program, p': Program) {
    && |p.parts| <= |p'.parts| && p.globals <= p'.globals && p.labels <= p'.labels
    && forall i | 0 <= i < |p.parts| ::
         p'.parts[i].name == p.parts[i].name && p'.parts[i].flags == p.parts[i].flags
         && p.parts[i].entries <= p'.parts[i].entries
  }

  lemma ContinuesTrans(a: Program, b: Program, c: Program)
    requires Continues(a, b) && Continues(b, c)
    ensures Continues(a, c)
  {
  }

  lemma {:induction false} TagEasContinues(globals: seq<string>, eas: seq<Ea<string>>)
    requires forall i | 0 <= i < |eas| :: S.EaNamed(eas[i])
    ensures globals <= TagEas(globals, eas).0
    decreases |eas|
  {
    hide KeyOf;
    if eas == [] {
    } else {
      assert S.EaNamed(eas[0]);
      TagEasContinues(Tag(globals, eas[0].sym).0, eas[1..]);
    }
  }

  lemma TagItemContinues(globals: seq<string>, item: S.Item)
    requires S.ItemNamed(item) && TagItem(globals, item).Ok?
    ensures globals <= TagItem(globals, item).value.0
  {
    hide KeyOf, TagEas;
    if item.Code_? { TagEasContinues(globals, item.eas); }
  }

  lemma AddContinues(p: Program, g: seq<string>, e: Entry<Key>)
    requires p.Valid() && p.globals <= g
    ensures Continues(p, Add(p.(globals := g), e))
  {
  }

  /** The global names known in front of item q of a line. */
  function NamesBefore(globals: seq<string>, items: seq<S.Item>, q: nat): seq<string>
    requires q <= |items| && forall i | 0 <= i < |items| :: S.ItemNamed(items[i])
    decreases q
  {
    if q == 0 then globals
    else
      assert S.ItemNamed(items[0]);
      match TagItem(globals, items[0])
      case Fail(_) => globals
      case Ok((g, _)) => NamesBefore(g, items[1..], q - 1)
  }

  /** The items of a line become entries of the current section, one behind the other, each naming its labels
      as they are known in front of it. */
  lemma {:induction false} ItemsPlaced(p: Program, items: seq<S.Item>)
    requires p.Valid() && (forall i | 0 <= i < |items| :: S.ItemNamed(items[i])) && AddItems(p, items).Ok?
    ensures Continues(p, AddItems(p, items).value)
    ensures items != [] ==>
      var p', c := AddItems(p, items).value, Ready(p).curr.value;
      && p'.curr == Some(c) && |p'.parts| == |Ready(p).parts|
      && p'.parts[c].flags == Ready(p).parts[c].flags
      && |p'.parts[c].entries| == |Ready(p).parts[c].entries| + |items|
      && Ready(p).parts[c].entries <= p'.parts[c].entries
      && forall q | 0 <= q < |items| :: EntryOf(p, p', c, items, q)
    decreases |items|
  {
    hide TagItem;
    if items == [] {
    } else {
      assert S.ItemNamed(items[0]);
      TagItemContinues(p.globals, items[0]);
      var (g, e) := TagItem(p.globals, items[0]).value;
      var p1, p' := Add(p.(globals := g), e), AddItems(p, items).value;
      AddContinues(p, g, e);
      ItemsPlaced(p1, items[1..]);
      ContinuesTrans(p, p1, p');
      var c := Ready(p).curr.value;
      forall q | 0 <= q < |items| ensures EntryOf(p, p', c, items, q) {
        if q > 0 && |items| > 1 { assert EntryOf(p1, p', c, items[1..], q - 1); }
      }
    }
  }

  /** Item q is the entry behind those of the items before it. */
  ghost predicate EntryOf(p: Program, p': Program, c: nat, items: seq<S.Item>, q: nat)
    requires p.Valid() && c < |Ready(p).parts| && c < |p'.parts| && forall i | 0 <= i < |items| :: S.ItemNamed(items[i])
  {
    var m := |Ready(p).parts[c].entries| + q;
    && q < |items| && m < |p'.parts[c].entries| && S.ItemNamed(items[q])
    && TagItem(NamesBefore(p.globals, items, q), items[q]).Ok?
    && p'.parts[c].entries[m] == TagItem(NamesBefore(p.globals, items, q), items[q]).value.1
  }

  lemma LabelledContinues(p: Program, line: S.Line)
    requires p.Valid() && S.LineNamed(line) && Labelled(p, line).Ok?
    ensures Continues(p, Labelled(p, line).value)
  {
    hide KeyOf;
  }

  lemma ActContinues(p: Program, action: S.Action)
    requires p.Valid() && (action.Emit? ==> forall i | 0 <= i < |action.items| :: S.ItemNamed(action.items[i]))
    requires Act(p, action).Ok?
    ensures Continues(p, Act(p, action).value)
  {
    hide AddItems;
    if action.Emit? { ItemsPlaced(p, action.items); }
  }

  lemma AfterContinues(p: Program, line: S.Line)
    requires p.Valid() && S.LineNamed(line) && After(p, line).Ok?
    ensures Continues(p, After(p, line).value)
  {
    hide Labelled, Act, Continues;
    LabelledContinues(p, line);
    var p1 := Labelled(p, line).value;
    ActContinues(p1, line.action);
    ContinuesTrans(p, p1, After(p, line).value);
  }

  lemma {:induction false} SaidContinues(p: Program, lines: seq<S.Line>)
    requires p.Valid() && (forall line | line in lines :: S.LineNamed(line)) && Said(p, lines).Ok?
    ensures Continues(p, Said(p, lines).value)
    decreases |lines|
  {
    hide After;
    if lines == [] {
    } else {
      assert S.LineNamed(lines[0]);
      var p1 := After(p, lines[0]).value;
      AfterContinues(p, lines[0]);
      SaidContinues(p1, lines[1..]);
      ContinuesTrans(p, p1, Said(p, lines).value);
    }
  }

  /** What is said up to line n, and from there on. */
  lemma {:induction false} SaidSplit(p: Program, lines: seq<S.Line>, n: nat)
    requires p.Valid() && n <= |lines| && (forall line | line in lines :: S.LineNamed(line)) && Said(p, lines).Ok?
    ensures Said(p, lines[..n]).Ok? && Said(Said(p, lines[..n]).value, lines[n..]) == Said(p, lines)
    decreases n
  {
    hide After;
    if n == 0 {
      assert lines[..0] == [] && lines[0..] == lines;
    } else {
      assert S.LineNamed(lines[0]);
      SaidSplit(After(p, lines[0]).value, lines[1..], n - 1);
      assert lines[..n][0] == lines[0] && lines[..n][1..] == lines[1..][..n - 1];
      assert lines[1..][n - 1..] == lines[n..];
    }
  }

  /** What is said up to and including line n. */
  lemma SaidNext(lines: seq<S.Line>, n: nat)
    requires n < |lines| && (forall line | line in lines :: S.LineNamed(line)) && Said(BLANK, lines).Ok?
    ensures Said(BLANK, lines[..n]).Ok? && S.LineNamed(lines[n])
    ensures After(Said(BLANK, lines[..n]).value, lines[n]).Ok?
    ensures Said(BLANK, lines[..n + 1]) == After(Said(BLANK, lines[..n]).value, lines[n])
    ensures Continues(Said(BLANK, lines[..n + 1]).value, Said(BLANK, lines).value)
  {
    hide After, Continues;
    SaidSplit(BLANK, lines, n + 1);
    var upto, rest := lines[..n + 1], lines[n + 1..];
    SaidSplit(BLANK, upto, n);
    assert upto[..n] == lines[..n] && upto[n..] == [lines[n]] && [lines[n]][1..] == [];
    forall line | line in rest ensures S.LineNamed(line) { assert line in lines; }
    SaidContinues(Said(BLANK, upto).value, rest);
  }

  /** Lines without store and restore leave the remembered section as it is. */
  lemma {:induction false} StoreKept(p: Program, lines: seq<S.Line>)
    requires p.Valid() && (forall line | line in lines :: S.LineNamed(line)) && Said(p, lines).Ok?
    requires forall line | line in lines :: line.action != S.StoreSection && line.action != S.RestoreSection
    ensures Said(p, lines).value.store == p.store && (p.curr.Some? ==> Said(p, lines).value.curr.Some?)
    decreases |lines|
  {
    hide After;
    if lines == [] {
    } else {
      assert S.LineNamed(lines[0]);
      LineKeepsStore(p, lines[0]);
      StoreKept(After(p, lines[0]).value, lines[1..]);
    }
  }

  lemma LineKeepsStore(p: Program, line: S.Line)
    requires p.Valid() && S.LineNamed(line) && After(p, line).Ok?
    requires line.action != S.StoreSection && line.action != S.RestoreSection
    ensures After(p, line).value.store == p.store && (p.curr.Some? ==> After(p, line).value.curr.Some?)
  {
    hide AddItems, KeyOf;
    if line.action.Emit? { ItemsKeepStore(Labelled(p, line).value, line.action.items); }
  }

  lemma {:induction false} ItemsKeepStore(p: Program, items: seq<S.Item>)
    requires p.Valid() && (forall i | 0 <= i < |items| :: S.ItemNamed(items[i])) && AddItems(p, items).Ok?
    ensures AddItems(p, items).value.store == p.store && (p.curr.Some? ==> AddItems(p, items).value.curr == p.curr)
    decreases |items|
  {
    hide TagItem;
    if items == [] {
    } else {
      assert S.ItemNamed(items[0]);
      var (g, e) := TagItem(p.globals, items[0]).value;
      ItemsKeepStore(Add(p.(globals := g), e), items[1..]);
    }
  }

  // ---------------------------------------------------------------- the same program in the store

  ghost predicate Rootless(syms: seq<S.Sym>) {
    forall s | 0 <= s < |syms| && syms[s].root.Some? :: syms[s].root.value < |syms|
  }

  /** The label a symbol record stands for. */
  ghost function IdKey(syms: seq<S.Sym>, s: nat): Key
    requires Rootless(syms) && s < |syms|
  {
    if syms[s].root.None? then Global(syms[s].name) else Local(syms[syms[s].root.value].name, syms[s].name)
  }

  ghost function RefKey(syms: seq<S.Sym>, s: Option<nat>): Option<Key>
    requires Rootless(syms) && (s.Some? ==> s.value < |syms|)
  {
    if s.None? then None else Some(IdKey(syms, s.value))
  }

  ghost predicate EasBelow(eas: seq<Ea<nat>>, n: nat) {
    forall i | 0 <= i < |eas| && eas[i].sym.Some? :: eas[i].sym.value < n
  }

  ghost function EasKeyed(syms: seq<S.Sym>, eas: seq<Ea<nat>>): (r: seq<Ea<Key>>)
    requires Rootless(syms) && EasBelow(eas, |syms|)
    ensures |r| == |eas|
  {
    seq(|eas|, i requires 0 <= i < |eas| => Ea(eas[i].mode, eas[i].reg, eas[i].ew, RefKey(syms, eas[i].sym)))
  }

  /** A stored entry with labels for symbol records. */
  ghost function Keyed(syms: seq<S.Sym>, e: Entry<nat>): Entry<Key>
    requires Rootless(syms) && RefsBelow(e, |syms|)
  {
    match e
    case Instr(opsize, ops, eas) => Instr(opsize, ops, EasKeyed(syms, eas))
    case Data(dsize, repeat, value, tag) => Data(dsize, repeat, value, RefKey(syms, tag))
    case Label(s) => Label(IdKey(syms, s))
  }

  ghost predicate IsGlobal(syms: seq<S.Sym>, s: nat, name: string) {
    s < |syms| && syms[s].root.None? && syms[s].name == name
  }

  /** The names in the store are those that were mentioned, and the last of them owns the locals. */
  ghost predicate TellsNames(st: S.State, globals: seq<string>) {
    && (st.root.None? <==> globals == [])
    && (st.root.Some? ==> st.root.value < |st.syms| && st.syms[st.root.value].name == globals[|globals| - 1])
    && (forall s | 0 <= s < |st.syms| && st.syms[s].root.None? :: st.syms[s].name in globals)
    && (forall name | name in globals :: exists s :: IsGlobal(st.syms, s, name))
  }

  ghost predicate IsKey(syms: seq<S.Sym>, s: nat, k: Key)
    requires Rootless(syms)
  {
    s < |syms| && IdKey(syms, s) == k
  }

  ghost predicate TellsLabels(syms: seq<S.Sym>, labels: set<Key>)
    requires Rootless(syms)
  {
    && (forall s | 0 <= s < |syms| :: Declare in syms[s].flags <==> IdKey(syms, s) in labels)
    && (forall k | k in labels :: exists s :: IsKey(syms, s, k))
  }

  ghost predicate TellsEntry(syms: seq<S.Sym>, e: Entry<nat>, k: Entry<Key>)
    requires Rootless(syms)
  {
    RefsBelow(e, |syms|) && k == Keyed(syms, e)
  }

  ghost predicate TellsEntries(syms: seq<S.Sym>, es: seq<Entry<nat>>, ks: seq<Entry<Key>>)
    requires Rootless(syms)
  {
    |es| == |ks| && forall m | 0 <= m < |es| :: TellsEntry(syms, es[m], ks[m])
  }

  ghost predicate TellsParts(syms: seq<S.Sym>, secs: seq<S.Sec>, parts: seq<Part>)
    requires Rootless(syms)
  {
    && |secs| == |parts|
    && forall i | 0 <= i < |secs| ::
         secs[i].name == parts[i].name && secs[i].flags == parts[i].flags
         && TellsEntries(syms, secs[i].entries, parts[i].entries)
  }

  /** The store holds this program. */
  ghost predicate Tells(st: S.State, p: Program) {
    && TableOk(st) && S.Current(st) && p.Valid() && Rootless(st.syms)
    && TellsNames(st, p.globals) && TellsLabels(st.syms, p.labels)
    && TellsParts(st.syms, st.secs, p.parts) && st.curr == p.curr && st.store == p.store
  }

  // ---------------------------------------------------------------- symbols are labels

  lemma TableRootless(st: S.State)
    requires TableOk(st)
    ensures Rootless(st.syms)
  {
    hide ListsExact, NamesUnique;
    forall s | 0 <= s < |st.syms| && st.syms[s].root.Some? ensures st.syms[s].root.value < |st.syms| {
      assert SymOk(st, s);
    }
  }

  /** Two records never stand for the same label. */
  lemma KeyUnique(st: S.State, p: nat, q: nat)
    requires TableOk(st) && Rootless(st.syms) && p < |st.syms| && q < |st.syms|
    requires IdKey(st.syms, p) == IdKey(st.syms, q)
    ensures p == q
  {
    hide ListsExact;
    assert SymOk(st, p) && SymOk(st, q);
    if st.syms[p].root.Some? { OneGlobal(st, st.syms[p].root.value, st.syms[q].root.value); }
  }

  lemma OneGlobal(st: S.State, a: nat, b: nat)
    requires NamesUnique(st) && a < |st.syms| && b < |st.syms|
    requires st.syms[a].root.None? && st.syms[b].root.None? && st.syms[a].name == st.syms[b].name
    ensures a == b
  {
  }

  /** A name stands for the label of the record that a lookup finds. */
  lemma KeyFinds(st: S.State, globals: seq<string>, name: string, s: nat)
    requires TableOk(st) && Rootless(st.syms) && TellsNames(st, globals) && s < |st.syms|
    requires 0 < |name| <= S.MAX_NAME
    ensures st.syms[s].name == name && st.syms[s].root == ScopeOf(st, name)
       <==> KeyOf(globals, name) == Some(IdKey(st.syms, s))
  {
    hide ListsExact;
    assert SymOk(st, s);
    if S.IsLocal(name) && st.root.Some? && st.syms[s].root.Some? {
      var owner, root := st.syms[s].root.value, st.root.value;
      if st.syms[owner].name == st.syms[root].name { OneGlobal(st, owner, root); }
    }
  }

  /** Records keep their labels. */
  ghost predicate KeysKept(a: seq<S.Sym>, b: seq<S.Sym>) {
    && Rootless(a) && Rootless(b) && |a| <= |b|
    && forall s | 0 <= s < |a| :: IdKey(a, s) == IdKey(b, s)
  }

  lemma KeptKeys(a: seq<S.Sym>, b: seq<S.Sym>)
    requires Rootless(a) && Rootless(b) && |a| <= |b|
    requires forall s | 0 <= s < |a| :: a[s].name == b[s].name && a[s].root == b[s].root
    ensures KeysKept(a, b)
  {
  }

  lemma EntryKept(a: seq<S.Sym>, b: seq<S.Sym>, e: Entry<nat>, k: Entry<Key>)
    requires KeysKept(a, b) && TellsEntry(a, e, k)
    ensures TellsEntry(b, e, k)
  {
    if e.Instr? {
      forall i | 0 <= i < |e.eas| ensures RefKey(a, e.eas[i].sym) == RefKey(b, e.eas[i].sym) {}
      assert EasKeyed(a, e.eas) == EasKeyed(b, e.eas);
    }
  }

  lemma PartsKept(a: seq<S.Sym>, b: seq<S.Sym>, secs: seq<S.Sec>, parts: seq<Part>)
    requires KeysKept(a, b) && TellsParts(a, secs, parts)
    ensures TellsParts(b, secs, parts)
  {
    hide TellsEntry;
    forall i | 0 <= i < |secs| ensures TellsEntries(b, secs[i].entries, parts[i].entries) {
      forall m | 0 <= m < |secs[i].entries| ensures TellsEntry(b, secs[i].entries[m], parts[i].entries[m]) {
        EntryKept(a, b, secs[i].entries[m], parts[i].entries[m]);
      }
    }
  }

  // ---------------------------------------------------------------- mentioning and declaring a name

  /** The record of a name that is known: only its flags change. */
  lemma FoundNames(st: S.State, st': S.State, globals: seq<string>, name: string, s: nat)
    requires TableOk(st) && TellsNames(st, globals) && name != "" && s < |st.syms| == |st'.syms| && st'.root == st.root
    requires st.syms[s].name == name && st.syms[s].root == ScopeOf(st, name)
    requires forall p | 0 <= p < |st.syms| :: st'.syms[p].name == st.syms[p].name && st'.syms[p].root == st.syms[p].root
    ensures Mention(globals, name) == globals && TellsNames(st', globals)
  {
    hide ListsExact, NamesUnique, SymOk;
    forall g | g in globals ensures exists p :: IsGlobal(st'.syms, p, g) {
      var p :| IsGlobal(st.syms, p, g);
      assert IsGlobal(st'.syms, p, g);
    }
  }

  /** The record of a new name. */
  lemma AddedNames(st: S.State, st': S.State, globals: seq<string>, name: string, flags: set<SymFlag>)
    requires TableOk(st) && TellsNames(st, globals) && name != "" && |name| <= S.MAX_NAME
    requires Added(st, name, flags, st') && TableOk(st')
    ensures TellsNames(st', Mention(globals, name))
  {
    hide ListsExact, SymOk;
    var n, globals' := |st.syms|, Mention(globals, name);
    forall p | 0 <= p < n ensures st'.syms[p].name == st.syms[p].name && st'.syms[p].root == st.syms[p].root {}
    if !S.IsLocal(name) {
      assert forall p: nat :: !IsGlobal(st.syms, p, name);
      assert globals' == globals + [name];
      assert IsGlobal(st'.syms, n, name);
    }
    forall g | g in globals' ensures exists p :: IsGlobal(st'.syms, p, g) {
      if g in globals {
        var p :| IsGlobal(st.syms, p, g);
        assert IsGlobal(st'.syms, p, g);
      }
    }
  }

  /** Flags decide which labels are declared. */
  lemma FlagsTell(st: S.State, st': S.State, labels: set<Key>, s: nat, flags: set<SymFlag>)
    requires TableOk(st') && Rootless(st'.syms) && KeysKept(st.syms, st'.syms) && TellsLabels(st.syms, labels)
    requires s < |st'.syms| <= |st.syms| + 1 && (s < |st.syms| ==> |st'.syms| == |st.syms|) && s <= |st.syms|
    requires forall p | 0 <= p < |st.syms| && p != s :: st'.syms[p].flags == st.syms[p].flags
    requires st'.syms[s].flags == (if s < |st.syms| then st.syms[s].flags else {}) + flags
    ensures TellsLabels(st'.syms, if Declare in flags then labels + {IdKey(st'.syms, s)} else labels)
  {
    hide TableOk;
    var k := IdKey(st'.syms, s);
    var labels' := if Declare in flags then labels + {k} else labels;
    assert IsKey(st'.syms, s, k);
    forall l | l in labels' ensures exists p :: IsKey(st'.syms, p, l) {
      if l in labels {
        var p :| IsKey(st.syms, p, l);
        assert IsKey(st'.syms, p, l);
      }
    }
    forall p | 0 <= p < |st'.syms| ensures Declare in st'.syms[p].flags <==> IdKey(st'.syms, p) in labels' {
      if p != s && IdKey(st'.syms, p) == k { KeyUnique(st', p, s); }
      if p == s && s == |st.syms| && k in labels {
        var q :| IsKey(st.syms, q, k);
        KeyUnique(st', q, s);
      }
    }
  }

  /** What the store refuses, said with labels. */
  lemma RefusedTells(st: S.State, p: Program, name: string, flags: set<SymFlag>)
    requires Tells(st, p) && name != ""
    ensures var k := KeyOf(p.globals, name);
      && (k.None? <==> |name| > S.MAX_NAME || (S.IsLocal(name) && st.root.None?))
      && (k.None? ==> Mention(p.globals, name) == p.globals)
      && (k.Some? ==> (Redeclares(st, name, flags) <==> Declare in flags && k.value in p.labels))
  {
    hide TellsParts, ListsExact, NamesUnique;
    var k := KeyOf(p.globals, name);
    if k.Some? {
      if Redeclares(st, name, flags) {
        var s :| 0 <= s < |st.syms| && st.syms[s].name == name && st.syms[s].root == ScopeOf(st, name)
                 && Declare in st.syms[s].flags && Declare in flags;
        KeyFinds(st, p.globals, name, s);
      }
      if k.value in p.labels {
        var s :| IsKey(st.syms, s, k.value);
        KeyFinds(st, p.globals, name, s);
      }
    }
  }

  /** What creating a symbol means. */
  lemma CreateTells(st: S.State, p: Program, name: string, flags: set<SymFlag>)
    requires Tells(st, p) && name != "" && (flags == {Declare} || flags == {Reference})
    ensures S.Rooted(st)
    ensures var (st', r) := S.CreateSymbol(st, name, flags);
      var k := KeyOf(p.globals, name);
      && (r.None? <==> k.None? || (Declare in flags && k.value in p.labels))
      && KeysKept(st.syms, st'.syms)
      && (r.Some? ==> r.value < |st'.syms| && k == Some(IdKey(st'.syms, r.value)))
      && (r.Some? || Reference in flags ==>
            Tells(st', p.(globals := Mention(p.globals, name),
                          labels := p.labels + if Declare in flags then {k.value} else {})))
  {
    hide TellsParts, TellsNames, TellsLabels, ListsExact, NamesUnique, SymOk, S.CreateSymbol;
    var (st', r) := S.CreateSymbol(st, name, flags);
    var k := KeyOf(p.globals, name);
    CreateRefinesMap(st, name, flags);
    CreateKeeps(st, name, flags);
    TableRootless(st');
    RefusedTells(st, p, name, flags);
    KeptKeys(st.syms, st'.syms);
    if r.Some? {
      PartsKept(st.syms, st'.syms, st.secs, p.parts);
      if r.value < |st.syms| {
        FoundNames(st, st', p.globals, name, r.value);
      } else {
        AddedNames(st, st', p.globals, name, flags);
      }
      FlagsTell(st, st', p.labels, r.value, flags);
      KeyFinds(st', Mention(p.globals, name), name, r.value);
    }
    assert p.labels + {} == p.labels;
  }

  // ---------------------------------------------------------------- entries

  lemma ReferTells(st: S.State, p: Program, tag: Option<string>)
    requires Tells(st, p) && (tag.Some? ==> tag.value != "")
    ensures S.Rooted(st)
    ensures var (st', r) := S.Refer(st, tag);
      var (g, k) := Tag(p.globals, tag);
      && Tells(st', p.(globals := g)) && KeysKept(st.syms, st'.syms)
      && (r.Some? ==> r.value < |st'.syms|) && RefKey(st'.syms, r) == k
  {
    hide TellsParts, TellsNames, TellsLabels, ListsExact, NamesUnique, SymOk, S.CreateSymbol;
    if tag.Some? {
      CreateTells(st, p, tag.value, {Reference});
      assert p.labels + {} == p.labels;
      var (st', r) := S.Refer(st, tag);
      assert Tells(st', p.(globals := Mention(p.globals, tag.value), labels := p.labels + {}));
    } else {
      KeptKeys(st.syms, st.syms);
    }
  }

  lemma KeysKeptTrans(a: seq<S.Sym>, b: seq<S.Sym>, c: seq<S.Sym>)
    requires KeysKept(a, b) && KeysKept(b, c)
    ensures KeysKept(a, c)
  {
  }

  lemma {:induction false} ReferEasTells(st: S.State, p: Program, eas: seq<Ea<string>>)
    requires Tells(st, p) && forall i | 0 <= i < |eas| :: S.EaNamed(eas[i])
    ensures S.Rooted(st)
    ensures var (st', refs) := S.ReferEas(st, eas);
      var (g, tagged) := TagEas(p.globals, eas);
      && Tells(st', p.(globals := g)) && KeysKept(st.syms, st'.syms)
      && EasBelow(refs, |st'.syms|) && EasKeyed(st'.syms, refs) == tagged && |refs| == |eas|
    decreases |eas|
  {
    hide TellsParts, TellsNames, TellsLabels, ListsExact, NamesUnique, SymOk, S.Refer;
    if eas == [] {
      KeptKeys(st.syms, st.syms);
    } else {
      assert S.EaNamed(eas[0]);
      ReferTells(st, p, eas[0].sym);
      var (st1, s) := S.Refer(st, eas[0].sym);
      var p1 := p.(globals := Tag(p.globals, eas[0].sym).0);
      ReferEasTells(st1, p1, eas[1..]);
      var (st2, rest) := S.ReferEas(st1, eas[1..]);
      KeysKeptTrans(st.syms, st1.syms, st2.syms);
      EasCons(st2.syms, Ea(eas[0].mode, eas[0].reg, eas[0].ew, s), rest);
      if s.Some? { assert IdKey(st1.syms, s.value) == IdKey(st2.syms, s.value); }
    }
  }

  lemma EasCons(syms: seq<S.Sym>, ea: Ea<nat>, rest: seq<Ea<nat>>)
    requires Rootless(syms) && EasBelow(rest, |syms|) && (ea.sym.Some? ==> ea.sym.value < |syms|)
    ensures EasBelow([ea] + rest, |syms|)
    ensures EasKeyed(syms, [ea] + rest) == [Ea(ea.mode, ea.reg, ea.ew, RefKey(syms, ea.sym))] + EasKeyed(syms, rest)
  {
  }

  lemma EnsureTells(st: S.State, p: Program)
    requires Tells(st, p)
    ensures Tells(S.Ensure(st), Ready(p)) && S.Ensure(st).syms == st.syms
  {
    hide TellsNames, TellsLabels, ListsExact, NamesUnique, SymOk, TellsEntry;
    if st.curr.None? {
      SameTableOk(st, S.Ensure(st));
      assert TellsEntries(st.syms, [], []);
      SameNames(st, S.Ensure(st), p.globals);
    }
  }

  /** Which names are known does not depend on flags, sections or labels. */
  lemma SameNames(st: S.State, st': S.State, globals: seq<string>)
    requires TellsNames(st, globals) && SameTable(st.syms, st'.syms) && st'.root == st.root
    ensures TellsNames(st', globals)
  {
    forall g | g in globals ensures exists p :: IsGlobal(st'.syms, p, g) {
      var p :| IsGlobal(st.syms, p, g);
      assert IsGlobal(st'.syms, p, g);
    }
  }

  /** Appending the same entry on both sides. */
  lemma PushEntryTells(st: S.State, p: Program, e: Entry<nat>, k: Entry<Key>)
    requires Tells(st, p) && TellsEntry(st.syms, e, k)
    ensures Tells(S.PushEntry(st, e), Add(p, k)) && S.PushEntry(st, e).syms == st.syms
  {
    hide TellsNames, TellsLabels, ListsExact, NamesUnique, SymOk, TellsEntry, S.Ensure, Ready;
    EnsureTells(st, p);
    EnsureCurrent(st);
    var mid, mid' := S.Ensure(st), Ready(p);
    var c := mid.curr.value;
    var st', p' := S.PushEntry(st, e), Add(p, k);
    SameTableOk(mid, st');
    SameNames(mid, st', p.globals);
    forall i | 0 <= i < |st'.secs| ensures TellsEntries(st.syms, st'.secs[i].entries, p'.parts[i].entries) {
      assert TellsEntries(st.syms, mid.secs[i].entries, mid'.parts[i].entries);
      if i == c { MoreEntries(st.syms, mid.secs[c].entries, mid'.parts[c].entries, e, k); }
    }
  }

  lemma EnsureCurrent(st: S.State)
    requires S.Current(st)
    ensures S.Ensure(st).curr.Some? && S.Current(S.Ensure(st))
  {
  }

  lemma MoreEntries(syms: seq<S.Sym>, es: seq<Entry<nat>>, ks: seq<Entry<Key>>, e: Entry<nat>, k: Entry<Key>)
    requires Rootless(syms) && TellsEntries(syms, es, ks) && TellsEntry(syms, e, k)
    ensures TellsEntries(syms, es + [e], ks + [k])
  {
  }

  /** Pointing a symbol to its section changes none of this. */
  lemma PlacedTells(st: S.State, p: Program, s: nat, c: nat)
    requires Tells(st, p) && s < |st.syms|
    ensures var st' := st.(syms := st.syms[s := st.syms[s].(sec := Some(c))]);
      Tells(st', p) && KeysKept(st.syms, st'.syms)
  {
    hide TellsNames, TellsLabels, TellsParts, ListsExact, NamesUnique, SymOk;
    var st' := st.(syms := st.syms[s := st.syms[s].(sec := Some(c))]);
    SameTableOk(st, st');
    SameNames(st, st', p.globals);
    TableRootless(st');
    KeptKeys(st.syms, st'.syms);
    PartsKept(st.syms, st'.syms, st.secs, p.parts);
    SameLabels(st.syms, st'.syms, p.labels);
  }

  lemma SameLabels(a: seq<S.Sym>, b: seq<S.Sym>, labels: set<Key>)
    requires KeysKept(a, b) && |a| == |b| && TellsLabels(a, labels)
    requires forall s | 0 <= s < |a| :: a[s].flags == b[s].flags
    ensures TellsLabels(b, labels)
  {
    forall k | k in labels ensures exists s :: IsKey(b, s, k) {
      var s :| IsKey(a, s, k);
      assert IsKey(b, s, k);
    }
  }

  lemma PushSymbolTells(st: S.State, p: Program, s: nat)
    requires Tells(st, p) && s < |st.syms|
    ensures Tells(S.PushSymbol(st, s), Add(p, Label(IdKey(st.syms, s))))
  {
    hide Tells, S.Ensure, Ready, Add;
    TellsCurrent(st, p);
    EnsureTells(st, p);
    EnsureCurrent(st);
    var mid := S.Ensure(st);
    TellsCurrent(mid, Ready(p));
    var c := mid.curr.value;
    PlacedTells(mid, Ready(p), s, c);
    var st1 := mid.(syms := mid.syms[s := mid.syms[s].(sec := Some(c))]);
    TellsCurrent(st1, Ready(p));
    PushEntryTells(st1, Ready(p), Label(s), Label(IdKey(st.syms, s)));
    ReadyTwice(p, Label(IdKey(st.syms, s)));
  }

  lemma TellsCurrent(st: S.State, p: Program)
    requires Tells(st, p)
    ensures S.Current(st) && p.Valid() && Rootless(st.syms) && S.Rooted(st)
  {
  }

  lemma ReadyTwice(p: Program, k: Entry<Key>)
    requires p.Valid()
    ensures Add(Ready(p), k) == Add(p, k)
  {
  }

  /** One item of a line: the entry that is appended is the one it stands for, with the labels that its
      names stand for. */
  lemma ItemTells(st: S.State, p: Program, item: S.Item)
    requires Tells(st, p) && S.ItemNamed(item)
    ensures S.Rooted(st)
    ensures match TagItem(p.globals, item)
            case Fail(e) => S.PushItem(st, item) == Fail(e)
            case Ok((g, k)) => S.PushItem(st, item).Ok? && Tells(S.PushItem(st, item).value, Add(p.(globals := g), k))
  {
    hide Tells, Tag, TagEas, Add, S.Refer, S.ReferEas, S.PushEntry;
    TellsCurrent(st, p);
    match item
    case Code_(opsize, ops, eas) =>
      ReferEasTells(st, p, eas);
      var (st1, refs) := S.ReferEas(st, eas);
      var (g, tagged) := TagEas(p.globals, eas);
      TellsCurrent(st1, p.(globals := g));
      InstrTells(st1.syms, opsize, ops, refs);
      PushEntryTells(st1, p.(globals := g), Instr(opsize, ops, refs), Instr(opsize, ops, tagged));
    case Constant(size, value, tag) =>
      ReferTells(st, p, tag);
      var (st1, s) := S.Refer(st, tag);
      var (g, k) := Tag(p.globals, tag);
      TellsCurrent(st1, p.(globals := g));
      var e: Entry<nat> := Data(size, 1, S.Truncate(size, value), s);
      assert TellsEntry(st1.syms, e, Data(size, 1, S.Truncate(size, value), k));
      PushEntryTells(st1, p.(globals := g), e, Data(size, 1, S.Truncate(size, value), k));
  }

  lemma InstrTells(syms: seq<S.Sym>, opsize: nat, ops: Word, refs: seq<Ea<nat>>)
    requires Rootless(syms) && EasBelow(refs, |syms|)
    ensures TellsEntry(syms, Instr(opsize, ops, refs), Instr(opsize, ops, EasKeyed(syms, refs)))
  {
  }

  // ---------------------------------------------------------------- lines

  lemma {:induction false} ItemsTell(st: S.State, p: Program, items: seq<S.Item>)
    requires Tells(st, p) && forall i | 0 <= i < |items| :: S.ItemNamed(items[i])
    ensures S.Rooted(st)
    ensures match AddItems(p, items)
            case Fail(e) => S.PushItems(st, items) == Fail(e)
            case Ok(p') => S.PushItems(st, items).Ok? && Tells(S.PushItems(st, items).value, p')
    decreases |items|
  {
    hide Tells, TagItem, Add, S.PushItem, S.Rooted;
    TellsCurrent(st, p);
    if items == [] {
    } else {
      assert S.ItemNamed(items[0]);
      ItemTells(st, p, items[0]);
      if TagItem(p.globals, items[0]).Ok? {
        var (g, k) := TagItem(p.globals, items[0]).value;
        ItemsTell(S.PushItem(st, items[0]).value, Add(p.(globals := g), k), items[1..]);
      }
    }
  }

  lemma {:induction false} SameFind(secs: seq<S.Sec>, parts: seq<Part>, name: string, i: nat)
    requires i <= |secs| == |parts| && forall j | 0 <= j < |secs| :: secs[j].name == parts[j].name
    ensures S.FindSection(secs, name, i) == S.FindSection(parts, name, i)
    decreases |secs| - i
  {
    hide S.SameName;
    if i == |secs| {
    } else {
      SameFind(secs, parts, name, i + 1);
    }
  }

  lemma AllowedChar(c: char)
    ensures c in SMALL <==> 'a' <= c <= 'z'
    ensures c in OTHERS <==> '0' <= c <= '9' || c == '.' || c == '$' || c == '_'
  {
  }

  lemma AllowedCapital(c: char)
    ensures c in CAPITAL <==> 'A' <= c <= 'Z'
  {
  }

  lemma AllowedExact(name: string)
    ensures NameAllowed(name) <==> S.SectionNameOk(name)
  {
    forall i | 0 <= i < |name| ensures CharAllowed(name[i]) <==> S.SectionChar(name[i]) {
      AllowedChar(name[i]);
      AllowedCapital(name[i]);
    }
  }

  lemma SwitchTells(st: S.State, p: Program, name: string, flags: set<SecFlag>)
    requires Tells(st, p)
    ensures match Switch(p, name, flags)
            case Fail(e) => S.CreateSection(st, name, flags) == Fail(e)
            case Ok(p') => S.CreateSection(st, name, flags).Ok? && Tells(S.CreateSection(st, name, flags).value, p')
  {
    hide TellsNames, TellsLabels, ListsExact, NamesUnique, SymOk, TellsEntry, NameAllowed, S.SectionNameOk;
    AllowedExact(name);
    SameFind(st.secs, p.parts, name, 0);
    if S.SectionNameOk(name) {
      var st' := S.CreateSection(st, name, flags).value;
      SameTableOk(st, st');
      SameNames(st, st', p.globals);
      assert TellsEntries(st.syms, [], []);
    }
  }

  lemma ActTells(st: S.State, p: Program, action: S.Action)
    requires Tells(st, p) && (action.Emit? ==> forall i | 0 <= i < |action.items| :: S.ItemNamed(action.items[i]))
    ensures S.Rooted(st)
    ensures match Act(p, action)
            case Fail(e) => S.Act(st, action) == Fail(e)
            case Ok(p') => S.Act(st, action).Ok? && Tells(S.Act(st, action).value, p')
  {
    hide TellsNames, TellsLabels, TellsParts, ListsExact, NamesUnique, SymOk, S.CreateSection, Switch, S.Ensure, Ready,
         S.PushItems, AddItems;
    match action
    case Nothing =>
    case Equate =>
    case Emit(items) => ItemsTell(st, p, items);
    case Section(name, flags) => SwitchTells(st, p, name, flags);
    case StoreSection =>
      EnsureTells(st, p);
      EnsureCurrent(st);
      SameTableOk(S.Ensure(st), S.PushSection(st));
      SameNames(S.Ensure(st), S.PushSection(st), p.globals);
    case RestoreSection =>
      if st.store.Some? {
        SameTableOk(st, S.PopSection(st).value);
        SameNames(st, S.PopSection(st).value, p.globals);
      }
  }

  /** One line. */
  lemma LineTells(st: S.State, p: Program, line: S.Line)
    requires Tells(st, p) && S.LineNamed(line)
    ensures S.Rooted(st)
    ensures match After(p, line)
            case Fail(e) => S.Process(st, line) == Fail(e)
            case Ok(p') => S.Process(st, line).Ok? && Tells(S.Process(st, line).value, p')
  {
    hide Tells, Act, S.Act, S.CreateSymbol, S.PushSymbol, KeyOf, Mention, Add;
    TellsCurrent(st, p);
    if line.declares.None? {
      ActTells(st, p, line.action);
    } else {
      var name := line.declares.value;
      CreateTells(st, p, name, {Declare});
      var (st1, r) := S.CreateSymbol(st, name, {Declare});
      if r.Some? {
        var p1 := p.(globals := Mention(p.globals, name), labels := p.labels + {KeyOf(p.globals, name).value});
        TellsCurrent(st1, p1);
        if line.action.Equate? {
          ActTells(st1, p1, line.action);
        } else {
          PushSymbolTells(st1, p1, r.value);
          ActTells(S.PushSymbol(st1, r.value), Add(p1, Label(IdKey(st1.syms, r.value))), line.action);
        }
      }
    }
  }

  /** The linked store and the lines tell the same program: whatever source lines are stored, the sections
      hold the entries that the lines say, in order, and every reference leads to the record of the label
      that its name stands for. Storing fails exactly when the lines make no program, with the same error. */
  lemma {:induction false} RunTells(st: S.State, p: Program, lines: seq<S.Line>)
    requires Tells(st, p) && forall line | line in lines :: S.LineNamed(line)
    ensures S.Rooted(st)
    ensures match Said(p, lines)
            case Fail(e) => S.Run(st, lines) == Fail(e)
            case Ok(p') => S.Run(st, lines).Ok? && Tells(S.Run(st, lines).value, p')
    decreases |lines|
  {
    hide Tells, After, S.Process, S.Rooted;
    TellsCurrent(st, p);
    if lines == [] {
    } else {
      assert S.LineNamed(lines[0]);
      LineTells(st, p, lines[0]);
      if After(p, lines[0]).Ok? { RunTells(S.Process(st, lines[0]).value, After(p, lines[0]).value, lines[1..]); }
    }
  }

  lemma BlankTells()
    ensures Tells(S.EMPTY, BLANK)
  {
  }
}
