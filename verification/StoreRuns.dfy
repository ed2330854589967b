/** What holds of the code store after any source text: the symbol lists are a map, labels are unique,
    sections keep their order and contents. */
module StoreRuns {
  import opened Basics
  import opened Entries
  import opened Pass2
  import opened Meaning
  import opened Agreement
  import opened Executable
  import opened Store

  // ---------------------------------------------------------------- the symbol table

  /** p is met when following `next` from `start`. */
  ghost predicate InChain(syms: seq<Sym>, start: Option<nat>, p: nat)
    requires Linked(syms)
    decreases Height(start)
  {
    && start.Some? && start.value < |syms|
    && (start.value == p || InChain(syms, syms[start.value].next, p))
  }

  /** The head of the list holding the symbols of a scope: the globals, or the locals of a global. */
  function Head(st: State, scope: Option<nat>): Option<nat>
    requires scope.Some? ==> scope.value < |st.syms|
  {
    if scope.None? then st.root else st.syms[scope.value].locals
  }

  ghost predicate IsScope(st: State, scope: Option<nat>) {
    scope.Some? ==> scope.value < |st.syms| && st.syms[scope.value].root.None?
  }

  /** The scope a name is looked up and created in: locals belong to the latest created global. */
  function ScopeOf(st: State, name: string): Option<nat>
    requires name != ""
  {
    if IsLocal(name) then st.root else None
  }

  ghost predicate SymOk(st: State, p: nat)
    requires p < |st.syms|
  {
    var s := st.syms[p];
    && 0 < |s.name| <= MAX_NAME
    && (IsLocal(s.name) <==> s.root.Some?)
    && (s.root.Some? ==> s.root.value < p && st.syms[s.root.value].root.None?)
    && (s.locals.Some? ==> s.root.None?)
  }

  /** Each list holds exactly the symbols of its scope. */
  ghost predicate ListsExact(st: State)
    requires Rooted(st)
  {
    forall scope: Option<nat>, p: nat | IsScope(st, scope) && p < |st.syms| ::
      InChain(st.syms, Head(st, scope), p) <==> st.syms[p].root == scope
  }

  /** No two symbols of a scope share a name. */
  ghost predicate NamesUnique(st: State) {
    forall p, q | 0 <= p < q < |st.syms| && st.syms[p].root == st.syms[q].root :: st.syms[p].name != st.syms[q].name
  }

  ghost predicate TableOk(st: State) {
    && Rooted(st)
    && (st.root.Some? ==> st.syms[st.root.value].root.None?)
    && (st.root.None? ==> st.syms == [])
    && (forall p | 0 <= p < |st.syms| :: SymOk(st, p))
    && ListsExact(st)
    && NamesUnique(st)
  }

  lemma {:induction false} FindExact(syms: seq<Sym>, start: Option<nat>, name: string)
    requires Linked(syms) && (start.Some? ==> start.value < |syms|)
    ensures var r := Find(syms, start, name);
      && (r.Some? ==> InChain(syms, start, r.value) && syms[r.value].name == name)
      && (r.None? ==> forall p: nat | p < |syms| && InChain(syms, start, p) :: syms[p].name != name)
    decreases Height(start)
  {
    if start.None? || syms[start.value].name == name {
    } else {
      FindExact(syms, syms[start.value].next, name);
    }
  }

  /** Looking up a name finds the symbol of that name in the current scope, if there is one. So the
      linked lists are a map from scope and name to symbols. */
  lemma LookupExact(st: State, name: string)
    requires TableOk(st) && name != ""
    ensures var r := GetSymbol(st, name);
      && (r.Some? ==>
            r.value < |st.syms| && st.syms[r.value].name == name && st.syms[r.value].root == ScopeOf(st, name))
      && (forall p: nat | p < |st.syms| && st.syms[p].name == name && st.syms[p].root == ScopeOf(st, name) ::
            r == Some(p))
  {
    var scope := ScopeOf(st, name);
    if IsLocal(name) && st.root.None? {
    } else {
      assert IsScope(st, scope);
      FindExact(st.syms, Head(st, scope), name);
      var r := GetSymbol(st, name);
      forall p: nat | p < |st.syms| && st.syms[p].name == name && st.syms[p].root == scope ensures r == Some(p) {
        assert InChain(st.syms, Head(st, scope), p);
      }
    }
  }

  /** Lists made of the same links hold the same records. */
  lemma {:induction false} ChainFrame(a: seq<Sym>, b: seq<Sym>, start: Option<nat>, p: nat)
    requires Linked(a) && Linked(b) && |a| <= |b| && (start.Some? ==> start.value < |a|)
    requires forall q | 0 <= q < |a| :: a[q].next == b[q].next
    ensures InChain(a, start, p) == InChain(b, start, p)
    decreases Height(start)
  {
    if start.None? {
    } else {
      ChainFrame(a, b, a[start.value].next, p);
    }
  }

  lemma {:induction false} ChainBelow(syms: seq<Sym>, start: Option<nat>, p: nat)
    requires Linked(syms) && InChain(syms, start, p)
    ensures p <= start.value
    decreases Height(start)
  {
    if start.value == p {
    } else {
      ChainBelow(syms, syms[start.value].next, p);
    }
  }

  /** Same names, scopes and links: only flags and sections may differ. */
  ghost predicate SameTable(a: seq<Sym>, b: seq<Sym>) {
    && |a| == |b|
    && forall p | 0 <= p < |a| ::
         a[p].name == b[p].name && a[p].root == b[p].root && a[p].next == b[p].next && a[p].locals == b[p].locals
  }

  lemma SameTableOk(st: State, st': State)
    requires TableOk(st) && SameTable(st.syms, st'.syms) && st'.root == st.root
    ensures TableOk(st')
  {
    assert Linked(st'.syms);
    forall p | 0 <= p < |st'.syms| ensures SymOk(st', p) {
      assert SymOk(st, p);
    }
    forall scope: Option<nat>, p: nat | IsScope(st', scope) && p < |st'.syms|
      ensures InChain(st'.syms, Head(st', scope), p) <==> st'.syms[p].root == scope
    {
      assert IsScope(st, scope);
      ChainFrame(st.syms, st'.syms, Head(st, scope), p);
    }
  }

  /** The symbol created for a name that is not in its scope. */
  ghost predicate Added(st: State, name: string, flags: set<SymFlag>, st': State)
    requires TableOk(st) && name != ""
  {
    var n, scope := |st.syms|, ScopeOf(st, name);
    && (IsLocal(name) ==> st.root.Some?)
    && |st'.syms| == n + 1
    && st'.syms[n] == Sym(name, flags, None, scope, Head(st, scope), None)
    && st'.root == (if IsLocal(name) then st.root else Some(n))
    && (forall p | 0 <= p < n ::
          st'.syms[p] == if scope == Some(p) then st.syms[p].(locals := Some(n)) else st.syms[p])
  }

  lemma AddedSymOk(st: State, name: string, flags: set<SymFlag>, st': State)
    requires TableOk(st) && name != "" && |name| <= MAX_NAME && Added(st, name, flags, st')
    ensures Rooted(st') && forall p | 0 <= p < |st'.syms| :: SymOk(st', p)
  {
    forall p | 0 <= p < |st'.syms| ensures SymOk(st', p) {
      if p < |st.syms| {
        assert SymOk(st, p);
        var r := st.syms[p].root;
        if r.Some? { assert st'.syms[r.value].root == st.syms[r.value].root; }
      }
    }
  }

  lemma AddedList(st: State, name: string, flags: set<SymFlag>, st': State, scope: Option<nat>, p: nat)
    requires TableOk(st) && name != "" && |name| <= MAX_NAME && Added(st, name, flags, st')
    requires Rooted(st') && IsScope(st', scope) && p < |st'.syms|
    ensures InChain(st'.syms, Head(st', scope), p) <==> st'.syms[p].root == scope
  {
    var n, home := |st.syms|, ScopeOf(st, name);
    if scope == Some(n) {
      assert Head(st', scope).None?;
      if p < n { assert SymOk(st, p); }
    } else {
      assert IsScope(st, scope);
      var before := Head(st, scope);
      if p < n {
        ChainFrame(st.syms, st'.syms, before, p);
        assert InChain(st.syms, before, p) <==> st.syms[p].root == scope;
      } else if before.Some? && InChain(st'.syms, before, p) {
        ChainBelow(st'.syms, before, p);
      }
      if scope == home {
        assert Head(st', scope) == Some(n) && st'.syms[n].next == before;
      } else {
        assert Head(st', scope) == before;
      }
    }
  }

  lemma AddedOk(st: State, name: string, flags: set<SymFlag>, st': State)
    requires TableOk(st) && name != "" && |name| <= MAX_NAME && Added(st, name, flags, st')
    requires GetSymbol(st, name).None?
    ensures TableOk(st')
  {
    var n, scope := |st.syms|, ScopeOf(st, name);
    AddedSymOk(st, name, flags, st');
    forall s: Option<nat>, p: nat | IsScope(st', s) && p < |st'.syms|
      ensures InChain(st'.syms, Head(st', s), p) <==> st'.syms[p].root == s
    {
      AddedList(st, name, flags, st', s, p);
    }
    LookupExact(st, name);
    forall p, q | 0 <= p < q < |st'.syms| && st'.syms[p].root == st'.syms[q].root
      ensures st'.syms[p].name != st'.syms[q].name
    {
      if q < n { assert st.syms[p].name != st.syms[q].name; }
    }
  }

  /** A second declaration in the same scope. */
  ghost predicate Redeclares(st: State, name: string, flags: set<SymFlag>)
    requires name != ""
  {
    exists p :: 0 <= p < |st.syms| && st.syms[p].name == name && st.syms[p].root == ScopeOf(st, name)
                && Declare in st.syms[p].flags && Declare in flags
  }

  /** `cs_create_symbol` as an operation on the map from scope and name to symbols. */
  lemma CreateRefinesMap(st: State, name: string, flags: set<SymFlag>)
    requires TableOk(st) && name != ""
    ensures var (st', r) := CreateSymbol(st, name, flags);
      var scope, n := ScopeOf(st, name), |st.syms|;
      && TableOk(st')
      && (r.None? <==> |name| > 255 || ((name[0] == '.' || name[|name| - 1] == '$') && st.root.None?)
                       || Redeclares(st, name, flags))
      && (r.None? ==> st' == st)
      && (r.Some? ==> r.value < |st'.syms| && st'.syms[r.value].name == name && st'.syms[r.value].root == scope)
      && (r.Some? && r.value < n ==>
            st' == st.(syms := st.syms[r.value := st.syms[r.value].(flags := st.syms[r.value].flags + flags)]))
      && (r.Some? && r.value >= n ==> r.value == n && Added(st, name, flags, st'))
  {
    var found := GetSymbol(st, name);
    var (st', r) := CreateSymbol(st, name, flags);
    LookupExact(st, name);
    if |name| > MAX_NAME {
    } else if found.Some? {
      if r.Some? { SameTableOk(st, st'); }
    } else if r.Some? {
      assert Added(st, name, flags, st');
      AddedOk(st, name, flags, st');
    }
  }

  /** A reference leads to a symbol exactly when its name fits a record and, if it is local, some global
      exists. Otherwise it is lost without an error, and nothing changes. */
  lemma ReferenceExact(st: State, name: string)
    requires TableOk(st) && name != ""
    ensures var (st', r) := Refer(st, Some(name));
      && (r.Some? <==> |name| <= 255 && (name[0] == '.' || name[|name| - 1] == '$' ==> st.root.Some?))
      && (r.None? ==> st' == st)
  {
    CreateRefinesMap(st, name, {Reference});
  }

  /** A line with a name as its only longword. */
  function NameLine(name: string): Line {
    Line(None, Emit([Constant(4, 0, Some(name))]))
  }

  /** A store with a plain zero. */
  const ZERO_STORED := State([], None, [Sec("code", {Code}, [Data(4, 1, 0, None)])], Some(0), None)

  /** A name that leads nowhere: the first line of a text stores a plain zero. */
  lemma NameLost(name: string)
    requires name != "" && (|name| > 255 || name[0] == '.' || name[|name| - 1] == '$')
    ensures LineNamed(NameLine(name)) && Process(EMPTY, NameLine(name)) == Ok(ZERO_STORED)
  {
    var items := NameLine(name).action.items;
    var none: seq<Entry<nat>> := [];
    ReferenceExact(EMPTY, name);
    assert none + [Data(4, 1, 0, None)] == [Data(4, 1, 0, None)];
    assert Ensure(EMPTY).secs[0 := ZERO_STORED.secs[0]] == ZERO_STORED.secs;
    assert PushEntry(EMPTY, Data(4, 1, 0, None)) == ZERO_STORED;
    assert Refer(EMPTY, items[0].tag) == (EMPTY, None);
    assert PushItem(EMPTY, items[0]) == Ok(ZERO_STORED);
    assert PushItems(ZERO_STORED, items[1..]) == Ok(ZERO_STORED);
  }

  /** The local `.x` before any global, and a global of 256 characters. */
  lemma NamesLost()
    ensures LineNamed(NameLine(".x")) && Process(EMPTY, NameLine(".x")) == Ok(ZERO_STORED)
    ensures var long := seq(256, _ => 'a');
      && LineNamed(NameLine(long)) && Process(EMPTY, NameLine(long)) == Ok(ZERO_STORED)
  {
    NameLost(".x");
    NameLost(seq(256, _ => 'a'));
  }

  // ---------------------------------------------------------------- runs

  ghost predicate RefsBelow(e: Entry<nat>, n: nat) {
    match e
    case Instr(_, _, eas) => forall i | 0 <= i < |eas| && eas[i].sym.Some? :: eas[i].sym.value < n
    case Data(_, _, _, tag) => tag.Some? ==> tag.value < n
    case Label(s) => s < n
  }

  /** A stored entry: well formed, referring to known symbols; a label stands in its symbol's section. */
  ghost predicate EntryOk(st: State, i: nat, e: Entry<nat>) {
    && Plain(e)
    && RefsBelow(e, |st.syms|)
    && (e.Label? ==> st.syms[e.sym].sec == Some(i) && Declare in st.syms[e.sym].flags)
  }

  ghost predicate LabelsOnce(es: seq<Entry<nat>>) {
    forall m, n | 0 <= m < n < |es| && es[m].Label? :: es[n] != es[m]
  }

  ghost predicate SecOk(st: State, i: nat)
    requires i < |st.secs|
  {
    && (forall m | 0 <= m < |st.secs[i].entries| :: EntryOk(st, i, st.secs[i].entries[m]))
    && LabelsOnce(st.secs[i].entries)
    && DirectiveFlags(st.secs[i].flags)
  }

  /** A symbol with a section was declared, and its label is in that section. */
  ghost predicate SymPlaced(st: State, s: nat)
    requires s < |st.syms|
  {
    st.syms[s].sec.Some? ==>
      && st.syms[s].sec.value < |st.secs|
      && Label(s) in st.secs[st.syms[s].sec.value].entries
      && Declare in st.syms[s].flags
  }

  ghost predicate StoreOk(st: State) {
    && TableOk(st)
    && Current(st)
    && (forall i | 0 <= i < |st.secs| :: SecOk(st, i))
    && (forall s | 0 <= s < |st.syms| :: SymPlaced(st, s))
  }

  /** Symbols keep name, scope and section; flags only grow. */
  ghost predicate SymKept(a: Sym, b: Sym) {
    b.name == a.name && b.root == a.root && a.flags <= b.flags && (a.sec.Some? ==> b.sec == a.sec)
  }

  /** Sections keep their place, name, flags and entries, in order; new ones come after. */
  ghost predicate Extends(st: State, st': State) {
    && |st.syms| <= |st'.syms| && |st.secs| <= |st'.secs|
    && (forall s | 0 <= s < |st.syms| :: SymKept(st.syms[s], st'.syms[s]))
    && (forall i | 0 <= i < |st.secs| :: st'.secs[i].name == st.secs[i].name && st'.secs[i].flags == st.secs[i].flags
                                         && st.secs[i].entries <= st'.secs[i].entries)
  }

  lemma ExtendsTrans(a: State, b: State, c: State)
    requires Extends(a, b) && Extends(b, c)
    ensures Extends(a, c)
  {
    forall s | 0 <= s < |a.syms| ensures SymKept(a.syms[s], c.syms[s]) {
      assert SymKept(a.syms[s], b.syms[s]) && SymKept(b.syms[s], c.syms[s]);
    }
  }

  lemma CreateOk(st: State, name: string, flags: set<SymFlag>)
    requires StoreOk(st) && name != ""
    ensures var (st', r) := CreateSymbol(st, name, flags);
      && StoreOk(st') && Extends(st, st') && (r.Some? ==> r.value < |st'.syms|)
      && (r.Some? && Declare in flags ==> Declare in st'.syms[r.value].flags && st'.syms[r.value].sec.None?)
      && st'.secs == st.secs && st'.curr == st.curr && st'.store == st.store
      && forall s | 0 <= s < |st.syms| :: st'.syms[s].sec == st.syms[s].sec
  {
    hide CreateSymbol, ListsExact, NamesUnique, SymOk, SecOk;
    CreateKeeps(st, name, flags);
    var (st', r) := CreateSymbol(st, name, flags);
    if r.Some? {
      forall i | 0 <= i < |st'.secs| ensures SecOk(st', i) {
        assert SecOk(st, i);
        SecStaysOk(st, st', i);
      }
      forall s | 0 <= s < |st'.syms| ensures SymPlaced(st', s) {
        if s < |st.syms| { assert SymPlaced(st, s); }
      }
      if r.value < |st.syms| { assert SymPlaced(st, r.value); }
    }
  }

  /** What creating a symbol leaves alone. */
  lemma CreateKeeps(st: State, name: string, flags: set<SymFlag>)
    requires TableOk(st) && name != ""
    ensures var (st', r) := CreateSymbol(st, name, flags);
      && TableOk(st') && st'.secs == st.secs && st'.curr == st.curr && st'.store == st.store
      && (r.None? ==> st' == st) && (r.Some? ==> r.value < |st'.syms|) && |st.syms| <= |st'.syms|
      && (forall s | 0 <= s < |st.syms| :: SymKept(st.syms[s], st'.syms[s]) && st'.syms[s].sec == st.syms[s].sec)
      && (forall s | |st.syms| <= s < |st'.syms| :: st'.syms[s].sec.None?)
      && (r.Some? && Declare in flags ==> Declare in st'.syms[r.value].flags)
      && (r.Some? && Declare in flags && r.value < |st.syms| ==> Declare !in st.syms[r.value].flags)
  {
    hide TableOk;
    CreateRefinesMap(st, name, flags);
  }

  /** Nothing about a section changes when symbols are added or flagged. */
  lemma SecStaysOk(st: State, st': State, i: nat)
    requires i < |st.secs| && i < |st'.secs| && st'.secs[i] == st.secs[i] && SecOk(st, i) && |st.syms| <= |st'.syms|
    requires forall s | 0 <= s < |st.syms| :: SymKept(st.syms[s], st'.syms[s])
    ensures SecOk(st', i)
  {
    forall m | 0 <= m < |st'.secs[i].entries| ensures EntryOk(st', i, st'.secs[i].entries[m]) {
      var e := st.secs[i].entries[m];
      assert EntryOk(st, i, e);
      if e.Label? { assert SymKept(st.syms[e.sym], st'.syms[e.sym]); }
    }
  }

  lemma ReferOk(st: State, tag: Option<string>)
    requires StoreOk(st) && (tag.Some? ==> tag.value != "")
    ensures var (st', r) := Refer(st, tag);
      StoreOk(st') && Extends(st, st') && (r.Some? ==> r.value < |st'.syms|)
  {
    if tag.Some? { CreateOk(st, tag.value, {Reference}); }
  }

  lemma {:induction false} ReferEasOk(st: State, eas: seq<Ea<string>>)
    requires StoreOk(st) && forall i | 0 <= i < |eas| :: EaNamed(eas[i])
    ensures var (st', refs) := ReferEas(st, eas);
      && StoreOk(st') && Extends(st, st')
      && forall i | 0 <= i < |refs| && refs[i].sym.Some? :: refs[i].sym.value < |st'.syms|
    decreases |eas|
  {
    hide ListsExact, NamesUnique, SymOk, SecOk, SymPlaced;
    if eas == [] {
    } else {
      assert EaNamed(eas[0]);
      ReferRooted(st, eas[0].sym);
      ReferOk(st, eas[0].sym);
      var st1 := Refer(st, eas[0].sym).0;
      ReferEasOk(st1, eas[1..]);
      ExtendsTrans(st, st1, ReferEas(st1, eas[1..]).0);
    }
  }

  lemma EnsureOk(st: State)
    requires StoreOk(st)
    ensures StoreOk(Ensure(st)) && Extends(st, Ensure(st)) && Ensure(st).curr.Some?
  {
    hide ListsExact, NamesUnique, SymOk;
    var st' := Ensure(st);
    if st.curr.None? {
      SameTableOk(st, st');
      forall s | 0 <= s < |st'.syms| ensures SymPlaced(st', s) {
        assert SymPlaced(st, s);
      }
    }
  }

  lemma AppendSecOk(st: State, st': State, c: nat, e: Entry<nat>)
    requires c < |st.secs| && SecOk(st, c) && c < |st'.secs| && |st.syms| <= |st'.syms|
    requires forall s | 0 <= s < |st.syms| :: SymKept(st.syms[s], st'.syms[s])
    requires st'.secs[c] == st.secs[c].(entries := st.secs[c].entries + [e])
    requires EntryOk(st', c, e) && (e.Label? ==> e !in st.secs[c].entries)
    ensures SecOk(st', c)
  {
    var es := st.secs[c].entries;
    forall m | 0 <= m < |es + [e]| ensures EntryOk(st', c, (es + [e])[m]) {
      if m < |es| {
        assert EntryOk(st, c, es[m]);
        if es[m].Label? { assert SymKept(st.syms[es[m].sym], st'.syms[es[m].sym]); }
      }
    }
    forall m, n | 0 <= m < n < |es + [e]| && (es + [e])[m].Label? ensures (es + [e])[n] != (es + [e])[m] {
      if n == |es| && e.Label? { assert es[m] in es; }
    }
  }

  lemma PushEntryOk(st: State, e: Entry<nat>)
    requires StoreOk(st) && Plain(e) && RefsBelow(e, |st.syms|) && !e.Label?
    ensures StoreOk(PushEntry(st, e)) && Extends(st, PushEntry(st, e))
  {
    hide ListsExact, NamesUnique, SymOk;
    EnsureOk(st);
    var mid := Ensure(st);
    var c, st' := mid.curr.value, PushEntry(st, e);
    SameTableOk(mid, st');
    forall i | 0 <= i < |st'.secs| ensures SecOk(st', i) {
      assert SecOk(mid, i);
      if i == c { AppendSecOk(mid, st', c, e); } else { SecStaysOk(mid, st', i); }
    }
    forall s | 0 <= s < |st'.syms| ensures SymPlaced(st', s) {
      assert SymPlaced(mid, s);
    }
    assert Extends(mid, st');
    ExtendsTrans(st, mid, st');
  }

  lemma PushSymbolOk(st: State, s: nat)
    requires StoreOk(st) && s < |st.syms| && Declare in st.syms[s].flags && st.syms[s].sec.None?
    ensures StoreOk(PushSymbol(st, s)) && Extends(st, PushSymbol(st, s)) && PushSymbol(st, s).syms[s].sec.Some?
  {
    hide ListsExact, NamesUnique, SymOk;
    EnsureOk(st);
    var mid := Ensure(st);
    var c, st' := mid.curr.value, PushSymbol(st, s);
    assert st'.syms == mid.syms[s := mid.syms[s].(sec := Some(c))];
    assert st'.secs == mid.secs[c := mid.secs[c].(entries := mid.secs[c].entries + [Label(s)])];
    SameTableOk(mid, st');
    forall t | 0 <= t < |mid.syms| ensures SymKept(mid.syms[t], st'.syms[t]) {}
    assert Label(s) !in mid.secs[c].entries by {
      assert SecOk(mid, c);
      forall m | 0 <= m < |mid.secs[c].entries| ensures mid.secs[c].entries[m] != Label(s) {
        assert EntryOk(mid, c, mid.secs[c].entries[m]);
      }
    }
    forall i | 0 <= i < |st'.secs| ensures SecOk(st', i) {
      assert SecOk(mid, i);
      if i == c { AppendSecOk(mid, st', c, Label(s)); } else { SecStaysOk(mid, st', i); }
    }
    forall t | 0 <= t < |st'.syms| ensures SymPlaced(st', t) {
      assert SymPlaced(mid, t);
      if t == s { assert st'.secs[c].entries[|mid.secs[c].entries|] == Label(s); }
    }
    assert Extends(mid, st');
    ExtendsTrans(st, mid, st');
  }

  lemma PushItemOk(st: State, item: Item)
    requires StoreOk(st) && ItemNamed(item) && PushItem(st, item).Ok?
    ensures StoreOk(PushItem(st, item).value) && Extends(st, PushItem(st, item).value)
  {
    hide ListsExact, NamesUnique, SymOk, SecOk, SymPlaced;
    match item
    case Code_(opsize, ops, eas) =>
      ReferEasOk(st, eas);
      var (st1, refs) := ReferEas(st, eas);
      PushEntryOk(st1, Instr(opsize, ops, refs));
      ExtendsTrans(st, st1, PushItem(st, item).value);
    case Constant(size, value, tag) =>
      ReferRooted(st, tag);
      ReferOk(st, tag);
      var (st1, s) := Refer(st, tag);
      PushEntryOk(st1, Data(size, 1, Truncate(size, value), s));
      ExtendsTrans(st, st1, PushItem(st, item).value);
  }

  lemma {:induction false} PushItemsOk(st: State, items: seq<Item>)
    requires StoreOk(st) && (forall i | 0 <= i < |items| :: ItemNamed(items[i])) && PushItems(st, items).Ok?
    ensures StoreOk(PushItems(st, items).value) && Extends(st, PushItems(st, items).value)
    decreases |items|
  {
    hide ListsExact, NamesUnique, SymOk, SecOk, SymPlaced;
    if items == [] {
    } else {
      assert ItemNamed(items[0]);
      var st1 := PushItem(st, items[0]).value;
      PushItemOk(st, items[0]);
      PushItemsOk(st1, items[1..]);
      ExtendsTrans(st, st1, PushItems(st, items).value);
    }
  }

  /** The flags a line asks for are those of a section directive. */
  predicate LineOk(line: Line) {
    LineNamed(line) && (line.action.Section? ==> DirectiveFlags(line.action.flags))
  }

  lemma CreateSectionOk(st: State, name: string, flags: set<SecFlag>)
    requires StoreOk(st) && DirectiveFlags(flags) && CreateSection(st, name, flags).Ok?
    ensures StoreOk(CreateSection(st, name, flags).value) && Extends(st, CreateSection(st, name, flags).value)
  {
    hide ListsExact, NamesUnique, SymOk;
    var st' := CreateSection(st, name, flags).value;
    SameTableOk(st, st');
    forall i | 0 <= i < |st'.secs| ensures SecOk(st', i) {
      if i < |st.secs| {
        assert SecOk(st, i);
        SecStaysOk(st, st', i);
      }
    }
    forall s | 0 <= s < |st'.syms| ensures SymPlaced(st', s) {
      assert SymPlaced(st, s);
    }
  }

  lemma SwitchOk(st: State, st': State)
    requires StoreOk(st) && st'.syms == st.syms && st'.root == st.root && st'.secs == st.secs && Current(st')
    ensures StoreOk(st') && Extends(st, st')
  {
    hide ListsExact, NamesUnique, SymOk;
    SameTableOk(st, st');
    forall i | 0 <= i < |st'.secs| ensures SecOk(st', i) {
      assert SecOk(st, i);
      SecStaysOk(st, st', i);
    }
    forall s | 0 <= s < |st'.syms| ensures SymPlaced(st', s) {
      assert SymPlaced(st, s);
    }
  }

  lemma ActOk(st: State, line: Line)
    requires StoreOk(st) && LineOk(line) && Act(st, line.action).Ok?
    ensures StoreOk(Act(st, line.action).value) && Extends(st, Act(st, line.action).value)
  {
    match line.action
    case Nothing =>
    case Equate =>
    case Emit(items) => PushItemsOk(st, items);
    case Section(name, flags) => CreateSectionOk(st, name, flags);
    case StoreSection =>
      EnsureOk(st);
      SwitchOk(Ensure(st), PushSection(st));
      ExtendsTrans(st, Ensure(st), PushSection(st));
    case RestoreSection => SwitchOk(st, PopSection(st).value);
  }

  /** One line keeps every promise of the store. In particular a symbol gets its label only from the one
      line that declares it. */
  lemma ProcessOk(st: State, line: Line)
    requires StoreOk(st) && LineOk(line) && Process(st, line).Ok?
    ensures StoreOk(Process(st, line).value) && Extends(st, Process(st, line).value)
  {
    if line.declares.None? {
      ActOk(st, line);
    } else {
      CreateOk(st, line.declares.value, {Declare});
      var (st1, s) := DeclareLabel(st, line.declares.value).value;
      var st2 := if line.action.Equate? then st1 else PushSymbol(st1, s);
      if !line.action.Equate? { PushSymbolOk(st1, s); }
      ActOk(st2, line);
      ExtendsTrans(st, st1, st2);
      ExtendsTrans(st, st2, Process(st, line).value);
    }
  }

  /** Over any source text. */
  lemma {:induction false} RunOk(st: State, lines: seq<Line>)
    requires StoreOk(st) && (forall line | line in lines :: LineNamed(line) && LineOk(line)) && Run(st, lines).Ok?
    ensures StoreOk(Run(st, lines).value) && Extends(st, Run(st, lines).value)
    decreases |lines|
  {
    if lines == [] {
    } else {
      assert LineOk(lines[0]);
      var st1 := Process(st, lines[0]).value;
      ProcessOk(st, lines[0]);
      RunOk(st1, lines[1..]);
      ExtendsTrans(st, st1, Run(st, lines).value);
    }
  }

  // ---------------------------------------------------------------- what pass 2 is given

  ghost function EntriesOf(secs: seq<Sec>): (r: seq<seq<Entry<nat>>>)
    ensures |r| == |secs| && forall i | 0 <= i < |secs| :: r[i] == secs[i].entries
  {
    seq(|secs|, i requires 0 <= i < |secs| => secs[i].entries)
  }

  ghost function FlagsOf(secs: seq<Sec>): (r: seq<set<SecFlag>>)
    ensures |r| == |secs| && forall i | 0 <= i < |secs| :: r[i] == secs[i].flags
  {
    seq(|secs|, i requires 0 <= i < |secs| => secs[i].flags)
  }

  ghost function LayoutOf(st: State): Layout {
    Layout(EntriesOf(st.secs), map s | 0 <= s < |st.syms| && st.syms[s].sec.Some? :: st.syms[s].sec.value)
  }

  /** After any source text pass 2 is given a program in which every label stands exactly once, in the
      section its symbol names; so `get_symbol_offset` succeeds exactly for pushed labels, and which of
      several matches it finds first does not matter. */
  lemma StoredProgram(st: State)
    requires StoreOk(st) && |st.secs| < 0x1_0000_0000
    ensures ProgramOk(LayoutOf(st), FlagsOf(st.secs))
    ensures forall s | 0 <= s < |st.syms| :: SymbolOffset(LayoutOf(st), s).Ok? <==> st.syms[s].sec.Some?
  {
    var lay := LayoutOf(st);
    forall s | s in lay.place ensures lay.place[s] < |lay.secs| {
      assert SymPlaced(st, s);
    }
    forall i, m | 0 <= i < |lay.secs| && 0 <= m < |lay.secs[i]| && lay.secs[i][m].Label?
      ensures lay.secs[i][m].sym in lay.place && lay.place[lay.secs[i][m].sym] == i
    {
      assert SecOk(st, i) && EntryOk(st, i, st.secs[i].entries[m]);
    }
    forall i, m, n | 0 <= i < |lay.secs| && 0 <= m < n < |lay.secs[i]| && lay.secs[i][m].Label?
      ensures lay.secs[i][n] != lay.secs[i][m]
    {
      assert SecOk(st, i);
    }
    forall i | 0 <= i < |lay.secs| ensures AllPlain(lay.secs[i]) && DirectiveFlags(st.secs[i].flags) {
      assert SecOk(st, i);
      forall m | 0 <= m < |lay.secs[i]| ensures Plain(lay.secs[i][m]) {
        assert EntryOk(st, i, st.secs[i].entries[m]);
      }
    }
    forall s | 0 <= s < |st.syms| ensures SymbolOffset(lay, s).Ok? <==> st.syms[s].sec.Some? {
      assert SymPlaced(st, s);
      if s in lay.place { SearchExact(lay.secs[lay.place[s]], s, 0); }
    }
  }

  lemma EmptyOk()
    ensures StoreOk(EMPTY)
  {
  }

  // ---------------------------------------------------------------- section names

  ghost predicate NamesDistinct(secs: seq<Sec>) {
    forall i, j | 0 <= i < j < |secs| :: !SameName(secs[i].name, secs[j].name)
  }

  /** Section names stay distinct, ignoring case, exactly unless the name is new but its first 255
      characters are not. */
  lemma CreateSectionNames(st: State, name: string, flags: set<SecFlag>)
    requires NamesDistinct(st.secs) && CreateSection(st, name, flags).Ok?
    ensures NamesDistinct(CreateSection(st, name, flags).value.secs)
       <==> (FindSection(st.secs, name, 0).Some? || FindSection(st.secs, Stored(name), 0).None?)
  {
    var found, clash := FindSection(st.secs, name, 0), FindSection(st.secs, Stored(name), 0);
    var secs := CreateSection(st, name, flags).value.secs;
    if found.None? {
      var n := |st.secs|;
      assert secs[n].name == Stored(name);
      if clash.Some? { assert SameName(secs[clash.value].name, secs[n].name); }
      else {
        forall i, j | 0 <= i < j < |secs| ensures !SameName(secs[i].name, secs[j].name) {
          if j < n { assert secs[i] == st.secs[i] && secs[j] == st.secs[j]; }
        }
      }
    }
  }

  /** A name longer than a section record can hold is never found again. */
  lemma LongNamesRepeat()
    ensures var name := seq(256, _ => 'a');
      var st1 := CreateSection(EMPTY, name, {Code});
      && st1.Ok?
      && var st2 := CreateSection(st1.value, name, {Code});
      && st2.Ok? && !NamesDistinct(st2.value.secs)
  {
    var name := seq(256, _ => 'a');
    var st1 := CreateSection(EMPTY, name, {Code}).value;
    assert st1.secs == [Sec(Stored(name), {Code}, [])];
    assert !SameName(Stored(name), name);
    var st2 := CreateSection(st1, name, {Code}).value;
    assert st2.secs[0].name == st2.secs[1].name == Stored(name);
    assert SameName(st2.secs[0].name, st2.secs[1].name);
  }

  /** The sections of b are those of a, up to their contents, possibly after one new one at the end. */
  ghost predicate SameNames(a: seq<Sec>, b: seq<Sec>) {
    |a| == |b| && forall i | 0 <= i < |a| :: a[i].name == b[i].name
  }

  lemma {:induction false} PushItemsNames(st: State, items: seq<Item>)
    requires StoreOk(st) && st.curr.Some? && (forall i | 0 <= i < |items| :: ItemNamed(items[i]))
    requires PushItems(st, items).Ok?
    ensures SameNames(st.secs, PushItems(st, items).value.secs)
    decreases |items|
  {
    if items == [] {
    } else {
      assert ItemNamed(items[0]);
      var st1 := PushItem(st, items[0]).value;
      PushItemOk(st, items[0]);
      if items[0].Constant? { ReferRooted(st, items[0].tag); }
      PushItemsNames(st1, items[1..]);
    }
  }

  ghost predicate ShortName(line: Line) {
    line.action.Section? ==> |line.action.name| <= MAX_NAME
  }

  lemma EnsureItems(st: State, items: seq<Item>)
    requires StoreOk(st) && (forall i | 0 <= i < |items| :: ItemNamed(items[i])) && PushItems(st, items).Ok?
    requires NamesDistinct(st.secs)
    ensures NamesDistinct(PushItems(st, items).value.secs)
  {
    hide ListsExact, NamesUnique, SymOk, SecOk, SymPlaced;
    if items != [] {
      assert ItemNamed(items[0]);
      var st1 := PushItem(st, items[0]).value;
      PushItemOk(st, items[0]);
      if items[0].Constant? { ReferRooted(st, items[0].tag); }
      PushItemsNames(st1, items[1..]);
      SameNamesDistinct(Ensure(st).secs, st1.secs);
      SameNamesDistinct(st1.secs, PushItems(st, items).value.secs);
    }
  }

  lemma SameNamesDistinct(a: seq<Sec>, b: seq<Sec>)
    requires NamesDistinct(a) && SameNames(a, b)
    ensures NamesDistinct(b)
  {
  }

  lemma ActNames(st: State, line: Line)
    requires StoreOk(st) && LineOk(line) && ShortName(line) && Act(st, line.action).Ok? && NamesDistinct(st.secs)
    ensures NamesDistinct(Act(st, line.action).value.secs)
  {
    match line.action
    case Nothing =>
    case Equate =>
    case Emit(items) => EnsureItems(st, items);
    case Section(name, flags) => CreateSectionNames(st, name, flags);
    case StoreSection =>
    case RestoreSection =>
  }

  lemma ProcessNames(st: State, line: Line)
    requires StoreOk(st) && LineOk(line) && ShortName(line) && Process(st, line).Ok? && NamesDistinct(st.secs)
    ensures NamesDistinct(Process(st, line).value.secs)
  {
    if line.declares.None? {
      ActNames(st, line);
    } else {
      CreateOk(st, line.declares.value, {Declare});
      var (st1, s) := DeclareLabel(st, line.declares.value).value;
      if line.action.Equate? {
        ActNames(st1, line);
      } else {
        PushSymbolOk(st1, s);
        SameNamesDistinct(Ensure(st1).secs, PushSymbol(st1, s).secs);
        ActNames(PushSymbol(st1, s), line);
      }
    }
  }

  /** With names that fit, sections are distinct ignoring case after any source text. */
  lemma {:induction false} RunNames(st: State, lines: seq<Line>)
    requires StoreOk(st) && (forall line | line in lines :: LineNamed(line) && LineOk(line) && ShortName(line))
    requires Run(st, lines).Ok? && NamesDistinct(st.secs)
    ensures NamesDistinct(Run(st, lines).value.secs)
    decreases |lines|
  {
    if lines == [] {
    } else {
      assert LineOk(lines[0]) && ShortName(lines[0]);
      ProcessOk(st, lines[0]);
      ProcessNames(st, lines[0]);
      RunNames(Process(st, lines[0]).value, lines[1..]);
    }
  }

  // ---------------------------------------------------------------- scope of local symbols

  /** The scope for locals moves exactly when a new global is created, be it only by a reference. */
  lemma ScopeMoves(st: State, name: string, flags: set<SymFlag>)
    requires TableOk(st) && name != ""
    ensures CreateSymbol(st, name, flags).0.root != st.root
       <==> |name| <= 255 && name[0] != '.' && name[|name| - 1] != '$'
            && forall p | 0 <= p < |st.syms| :: !(st.syms[p].name == name && st.syms[p].root.None?)
  {
    LookupExact(st, name);
    if st.root.Some? { assert st.root != Some(|st.syms|); }
  }

  /** A forward reference between a global label and its local one captures the local. */
  lemma ReferenceCapturesLocal()
    ensures var st1 := CreateSymbol(EMPTY, "main", {Declare}).0;
      && TableOk(st1)
      && var st2 := CreateSymbol(st1, "other", {Reference}).0;
      && TableOk(st2)
      && var (st3, r) := CreateSymbol(st2, ".loop", {Declare});
      && r == Some(2) && st3.syms[2].root == Some(1) && st3.syms[1].name == "other"
  {
    CreateRefinesMap(EMPTY, "main", {Declare});
    var st1 := CreateSymbol(EMPTY, "main", {Declare}).0;
    LookupExact(st1, "other");
    CreateRefinesMap(st1, "other", {Reference});
    var st2 := CreateSymbol(st1, "other", {Reference}).0;
    assert st2.root == Some(1);
    LookupExact(st2, ".loop");
    CreateRefinesMap(st2, ".loop", {Declare});
  }
}
