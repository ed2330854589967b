/** Pass 1 (src/codespace.c:110-387, src/main.c:109-183) as a state machine over values. Symbols and
    sections are named by their creation index; lists are followed through `next` as in the program. */
module Store {
  import opened Basics
  import opened Entries
  import opened Text

  /** A symbol record. `root` is the global owning a local symbol, `locals` the list a global owns. */
  datatype Sym = Sym(name: string, flags: set<SymFlag>, sec: Option<nat>,
                     root: Option<nat>, next: Option<nat>, locals: Option<nat>)

  /** A section, over an arbitrary kind R of symbol reference. */
  datatype SectionOf<+R> = Sec(name: string, flags: set<SecFlag>, entries: seq<Entry<R>>)

  type Sec = SectionOf<nat>

  datatype State = State(syms: seq<Sym>, root: Option<nat>, secs: seq<Sec>, curr: Option<nat>, store: Option<nat>)

  const EMPTY := State([], None, [], None, None)

  // ---------------------------------------------------------------- symbols

  /** Names that belong to the latest global: a full stop in front, or a dollar sign behind. */
  predicate IsLocal(name: string)
    requires name != ""
  {
    name[0] == '.' || name[|name| - 1] == '$'
  }

  /** Lists run from newer to older records. */
  predicate Linked(syms: seq<Sym>) {
    forall p | 0 <= p < |syms| && syms[p].next.Some? :: syms[p].next.value < p
  }

  ghost function Height(start: Option<nat>): nat {
    if start.None? then 0 else start.value + 1
  }

  /** The walk of `cs_get_symbol` along one list. */
  function Find(syms: seq<Sym>, start: Option<nat>, name: string): (r: Option<nat>)
    requires Linked(syms) && (start.Some? ==> start.value < |syms|)
    ensures r.Some? ==> r.value < |syms| && syms[r.value].name == name
    decreases Height(start)
  {
    if start.None? then None
    else if syms[start.value].name == name then start
    else Find(syms, syms[start.value].next, name)
  }

  /** Heads of lists are records. */
  predicate Rooted(st: State) {
    && Linked(st.syms)
    && (st.root.Some? ==> st.root.value < |st.syms|)
    && (forall p | 0 <= p < |st.syms| && st.syms[p].locals.Some? :: st.syms[p].locals.value < |st.syms|)
  }

  function GetSymbol(st: State, name: string): Option<nat>
    requires Rooted(st) && name != ""
  {
    if IsLocal(name) then
      if st.root.None? then None else Find(st.syms, st.syms[st.root.value].locals, name)
    else Find(st.syms, st.root, name)
  }

  const MAX_NAME: nat := 255

  /** The new state and the symbol, or None where the program returns NULL. */
  function CreateSymbol(st: State, name: string, flags: set<SymFlag>): (State, Option<nat>)
    requires Rooted(st) && name != ""
  {
    if |name| > MAX_NAME then (st, None)
    else
      var found := GetSymbol(st, name);
      var n := |st.syms|;
      if found.Some? then
        var s := st.syms[found.value];
        if Declare in s.flags && Declare in flags then (st, None)
        else (st.(syms := st.syms[found.value := s.(flags := s.flags + flags)]), found)
      else if IsLocal(name) then
        if st.root.None? then (st, None)
        else
          var owner := st.syms[st.root.value];
          var s := Sym(name, flags, None, st.root, owner.locals, None);
          (st.(syms := st.syms[st.root.value := owner.(locals := Some(n))] + [s]), Some(n))
      else
        var s := Sym(name, flags, None, None, st.root, None);
        (st.(syms := st.syms + [s], root := Some(n)), Some(n))
  }

  // ---------------------------------------------------------------- sections

  /** `strcasecmp`. */
  predicate SameName(a: string, b: string) {
    |a| == |b| && forall i | 0 <= i < |a| :: Lower(a[i]) == Lower(b[i])
  }

  predicate SectionChar(c: char) {
    'a' <= c <= 'z' || 'A' <= c <= 'Z' || '0' <= c <= '9' || c == '.' || c == '$' || c == '_'
  }

  predicate SectionNameOk(name: string) {
    forall i | 0 <= i < |name| :: SectionChar(name[i])
  }

  function FindSection<R>(secs: seq<SectionOf<R>>, name: string, i: nat): (r: Option<nat>)
    requires i <= |secs|
    ensures r.Some? ==> i <= r.value < |secs| && SameName(secs[r.value].name, name)
    ensures r.Some? ==> forall j | i <= j < r.value :: !SameName(secs[j].name, name)
    ensures r.None? ==> forall j | i <= j < |secs| :: !SameName(secs[j].name, name)
    decreases |secs| - i
  {
    if i == |secs| then None
    else if SameName(secs[i].name, name) then Some(i)
    else FindSection(secs, name, i + 1)
  }

  /** Section records keep the first 255 characters of a name. */
  function Stored(name: string): string {
    if |name| > MAX_NAME then name[..MAX_NAME] else name
  }

  /** A known name with the same flags is switched to; with other flags nothing happens (the NULL
      result is ignored); a new name becomes a new section at the end of the list. */
  function CreateSection(st: State, name: string, flags: set<SecFlag>): Result<State> {
    if !SectionNameOk(name) then Fail(InvalidSectionName)
    else
      var found := FindSection(st.secs, name, 0);
      if found.Some? then
        if st.secs[found.value].flags != flags then Ok(st) else Ok(st.(curr := found))
      else Ok(st.(secs := st.secs + [Sec(Stored(name), flags, [])], curr := Some(|st.secs|)))
  }

  /** Entries and `store` need a current section; "code" is created when there is none. */
  function Ensure(st: State): State
    requires st.curr.None? ==> st.secs == []
  {
    if st.curr.Some? then st else State(st.syms, st.root, [Sec("code", {Code}, [])], Some(0), st.store)
  }

  /** The current section exists, and there is one unless there are no sections at all. */
  predicate Current(st: State) {
    && (st.curr.Some? ==> st.curr.value < |st.secs|)
    && (st.curr.None? ==> st.secs == [])
    && (st.store.Some? ==> st.store.value < |st.secs|)
  }

  lemma EnsureIsCreate(st: State)
    requires Current(st) && st.curr.None?
    ensures CreateSection(st, "code", {Code}) == Ok(Ensure(st))
  {
    assert SectionNameOk("code");
    assert st.secs + [Sec("code", {Code}, [])] == [Sec("code", {Code}, [])];
  }

  function PushSection(st: State): State
    requires Current(st)
  {
    var st' := Ensure(st);
    st'.(store := st'.curr)
  }

  function PopSection(st: State): Result<State> {
    if st.store.None? then Fail(RestoreWithoutStore) else Ok(st.(curr := st.store, store := None))
  }

  /** Append an entry to the current section. */
  function PushEntry(st: State, e: Entry<nat>): State
    requires Current(st)
  {
    var st' := Ensure(st);
    var c := st'.curr.value;
    st'.(secs := st'.secs[c := st'.secs[c].(entries := st'.secs[c].entries + [e])])
  }

  /** An instruction record has room for this many operands. */
  const EA_ROOM: nat := 2

  function PushInstr(st: State, opsize: nat, ops: Word, eas: seq<Ea<nat>>): Result<State>
    requires Current(st)
  {
    if opsize != 2 then Fail(InvalidInstructionSize)
    else if |eas| > EA_ROOM then Fail(BufferOverrun)
    else Ok(PushEntry(st, Instr(opsize, ops, eas)))
  }

  function PushSymbol(st: State, s: nat): State
    requires Current(st) && s < |st.syms|
  {
    var st' := Ensure(st);
    PushEntry(st'.(syms := st'.syms[s := st'.syms[s].(sec := st'.curr)]), Label(s))
  }

  /** What a record of the given size keeps of a value. */
  function Truncate(size: nat, value: Long): Long {
    if size == 1 then value % 0x100 else if size == 2 then value % 0x1_0000 else value
  }

  function PushData(st: State, size: nat, value: Long, repeat: Long, tag: Option<nat>): Result<State>
    requires Current(st)
  {
    if tag.Some? && size != 4 then Fail(InvalidAddressSize)
    else if size != 1 && size != 2 && size != 4 then Fail(InvalidInstructionSize)
    else Ok(PushEntry(st, Data(size, repeat, Truncate(size, value), tag)))
  }

  // ---------------------------------------------------------------- source lines

  /** What a line contributes to the store. Operands refer to symbols by name. */
  datatype Item =
    | Code_(opsize: nat, ops: Word, eas: seq<Ea<string>>)
    | Constant(size: nat, value: Long, tag: Option<string>)

  datatype Action =
    | Nothing                                        // a label alone
    | Emit(items: seq<Item>)                         // an instruction, or dc
    | Section(name: string, flags: set<SecFlag>)
    | StoreSection
    | RestoreSection
    | Equate                                         // declares, but does not push, its label

  datatype Line = Line(declares: Option<string>, action: Action)

  predicate EaNamed(ea: Ea<string>) {
    ea.sym.Some? ==> ea.sym.value != ""
  }

  predicate ItemNamed(item: Item) {
    match item
    case Code_(_, _, eas) => forall i | 0 <= i < |eas| :: EaNamed(eas[i])
    case Constant(_, _, tag) => tag.Some? ==> tag.value != ""
  }

  /** Names come from tokens, which are not empty. */
  predicate LineNamed(line: Line) {
    && (line.declares.Some? ==> line.declares.value != "")
    && (line.action.Emit? ==> forall i | 0 <= i < |line.action.items| :: ItemNamed(line.action.items[i]))
  }

  /** A reference to a name. A reference that cannot be created becomes the number zero. */
  function Refer(st: State, tag: Option<string>): (State, Option<nat>)
    requires Rooted(st) && (tag.Some? ==> tag.value != "")
  {
    if tag.None? then (st, None) else CreateSymbol(st, tag.value, {Reference})
  }

  lemma CreateRooted(st: State, name: string, flags: set<SymFlag>)
    requires Rooted(st) && name != ""
    ensures var (st', r) := CreateSymbol(st, name, flags);
      && Rooted(st') && |st'.syms| >= |st.syms| && (r.Some? ==> r.value < |st'.syms|)
      && st'.secs == st.secs && st'.curr == st.curr && st'.store == st.store
  {
  }

  /** What creating an unknown global does. */
  lemma CreateGlobal(st: State, name: string, flags: set<SymFlag>)
    requires Rooted(st) && 0 < |name| <= MAX_NAME && GetSymbol(st, name).None? && !IsLocal(name)
    ensures var n := |st.syms|;
      var st' := st.(syms := st.syms + [Sym(name, flags, None, None, st.root, None)], root := Some(n));
      CreateSymbol(st, name, flags) == (st', Some(n)) && Rooted(st')
  {
    CreateRooted(st, name, flags);
  }

  /** What creating an unknown local does. */
  lemma CreateLocal(st: State, name: string, flags: set<SymFlag>)
    requires Rooted(st) && 0 < |name| <= MAX_NAME && GetSymbol(st, name).None? && IsLocal(name) && st.root.Some?
    ensures var n, g := |st.syms|, st.root.value;
      var v := Sym(name, flags, None, st.root, st.syms[g].locals, None);
      var st' := st.(syms := st.syms[g := st.syms[g].(locals := Some(n))] + [v]);
      CreateSymbol(st, name, flags) == (st', Some(n)) && Rooted(st')
  {
    CreateRooted(st, name, flags);
  }

  /** What happens to a name that is found. */
  lemma CreateFound(st: State, name: string, flags: set<SymFlag>)
    requires Rooted(st) && 0 < |name| <= MAX_NAME && GetSymbol(st, name).Some?
    ensures var p := GetSymbol(st, name).value;
      && p < |st.syms|
      && var s := st.syms[p];
      && var st' := st.(syms := st.syms[p := s.(flags := s.flags + flags)]);
      && Rooted(st')
      && CreateSymbol(st, name, flags)
         == if Declare in s.flags && Declare in flags then (st, None) else (st', Some(p))
  {
    CreateRooted(st, name, flags);
  }

  /** What happens to a name no record can hold, or a local without an owner. */
  lemma CreateRefused(st: State, name: string, flags: set<SymFlag>)
    requires Rooted(st) && name != ""
    requires |name| > MAX_NAME || (IsLocal(name) && st.root.None?)
    ensures CreateSymbol(st, name, flags) == (st, None)
  {
  }

  lemma SameRooted(st: State, st': State)
    requires Rooted(st) && st'.syms == st.syms && st'.root == st.root
    ensures Rooted(st')
  {
  }

  lemma PlacedRooted(st: State, s: nat, c: nat)
    requires Rooted(st) && s < |st.syms|
    ensures Rooted(st.(syms := st.syms[s := st.syms[s].(sec := Some(c))]))
  {
  }

  lemma ReferRooted(st: State, tag: Option<string>)
    requires Rooted(st) && (tag.Some? ==> tag.value != "")
    ensures var (st', r) := Refer(st, tag);
      && Rooted(st') && |st'.syms| >= |st.syms| && (r.Some? ==> r.value < |st'.syms|)
      && st'.secs == st.secs && st'.curr == st.curr && st'.store == st.store
  {
    if tag.Some? { CreateRooted(st, tag.value, {Reference}); }
  }

  /** Resolve the operands of an instruction, left to right. */
  function ReferEas(st: State, eas: seq<Ea<string>>): (r: (State, seq<Ea<nat>>))
    requires Rooted(st) && forall i | 0 <= i < |eas| :: EaNamed(eas[i])
    ensures Rooted(r.0) && r.0.secs == st.secs && r.0.curr == st.curr && r.0.store == st.store
    decreases |eas|
  {
    if eas == [] then (st, [])
    else
      assert EaNamed(eas[0]);
      ReferRooted(st, eas[0].sym);
      var (st1, s) := Refer(st, eas[0].sym);
      var (st2, rest) := ReferEas(st1, eas[1..]);
      (st2, [Ea(eas[0].mode, eas[0].reg, eas[0].ew, s)] + rest)
  }

  /** Push one item, its names resolved. */
  function PushItem(st: State, item: Item): (r: Result<State>)
    requires Rooted(st) && Current(st) && ItemNamed(item)
    ensures r.Ok? ==> Rooted(r.value) && Current(r.value)
  {
    match item
    case Code_(opsize, ops, eas) =>
      var (st1, refs) := ReferEas(st, eas);
      PushInstr(st1, opsize, ops, refs)
    case Constant(size, value, tag) =>
      ReferRooted(st, tag);
      var (st1, s) := Refer(st, tag);
      PushData(st1, size, value, 1, s)
  }

  lemma PushItemCurrent(st: State, item: Item)
    requires Rooted(st) && Current(st) && ItemNamed(item) && PushItem(st, item).Ok?
    ensures PushItem(st, item).value.curr.Some?
  {
  }

  function PushItems(st: State, items: seq<Item>): (r: Result<State>)
    requires Rooted(st) && Current(st) && forall i | 0 <= i < |items| :: ItemNamed(items[i])
    ensures r.Ok? ==> Rooted(r.value) && Current(r.value)
    decreases |items|
  {
    if items == [] then Ok(st)
    else
      assert ItemNamed(items[0]);
      var st' :- PushItem(st, items[0]);
      PushItems(st', items[1..])
  }

  /** A line declares its label, which must not have been declared in its scope before. */
  function DeclareLabel(st: State, name: string): Result<(State, nat)>
    requires Rooted(st) && name != ""
  {
    var (st', r) := CreateSymbol(st, name, {Declare});
    if r.None? then Fail(InvalidSymbol) else Ok((st', r.value))
  }

  function Act(st: State, action: Action): (r: Result<State>)
    requires Rooted(st) && Current(st)
    requires action.Emit? ==> forall i | 0 <= i < |action.items| :: ItemNamed(action.items[i])
    ensures r.Ok? ==> Rooted(r.value) && Current(r.value)
  {
    match action
    case Nothing => Ok(st)
    case Equate => Ok(st)
    case Emit(items) => PushItems(st, items)
    case Section(name, flags) => SectionCurrent(st, name, flags); CreateSection(st, name, flags)
    case StoreSection => Ok(PushSection(st))
    case RestoreSection => PopSection(st)
  }

  lemma SectionCurrent(st: State, name: string, flags: set<SecFlag>)
    requires Current(st)
    ensures var r := CreateSection(st, name, flags); r.Ok? ==> Current(r.value)
  {
  }

  /** One line: declare the label, push it unless the directive manages it itself, then act. */
  function Process(st: State, line: Line): (r: Result<State>)
    requires Rooted(st) && Current(st) && LineNamed(line)
    ensures r.Ok? ==> Rooted(r.value) && Current(r.value)
  {
    if line.declares.None? then Act(st, line.action)
    else
      CreateRooted(st, line.declares.value, {Declare});
      var (st1, s) :- DeclareLabel(st, line.declares.value);
      if line.action.Equate? then Act(st1, line.action) else Act(PushSymbol(st1, s), line.action)
  }

  /** Pass 1 over a whole source text. */
  function Run(st: State, lines: seq<Line>): (r: Result<State>)
    requires Rooted(st) && Current(st) && forall line | line in lines :: LineNamed(line)
    ensures r.Ok? ==> Rooted(r.value) && Current(r.value)
    decreases |lines|
  {
    if lines == [] then Ok(st)
    else
      assert LineNamed(lines[0]);
      var st' :- Process(st, lines[0]);
      Run(st', lines[1..])
  }
}
