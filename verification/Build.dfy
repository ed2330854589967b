/** Pass 1 as the program runs it (src/main.c:109-183, src/mangle.c:216-223): line by line, declaring
    labels, resolving operands and pushing entries into the code store. */
module Build {
  import opened Basics
  import opened Entries
  import opened CodeSpace
  import S = Store

  /** A reference in an operand. */
  method Refer(cs: CodeSpace, tag: Option<string>) returns (r: Option<Symbol>)
    requires cs.Valid() && (tag.Some? ==> tag.value != "")
    modifies cs`root, cs`st, cs`syms, cs.syms`flags, cs.syms`locals
    ensures cs.Valid() && (cs.st, AbsRef(r)) == old(S.Refer(cs.st, tag))
    ensures r.Some? ==> Known(r.value, cs.syms)
    ensures old(cs.syms) <= cs.syms && forall s | s in cs.syms && s !in old(cs.syms) :: fresh(s)
  {
    if tag.None? { return None; }
    hide AllKnown, AllUnwritten, SecsAre, Chained, S.CreateSymbol, S.Rooted;
    var sym := cs.CreateSymbol(tag.value, {Reference});
    if sym == null { return None; }
    SymAt(cs.syms, cs.st.syms, cs.secs, old(S.CreateSymbol(cs.st, tag.value, {Reference})).1.value);
    r := Some(sym);
  }

  lemma KnownLater(s: Symbol, a: seq<Symbol>, b: seq<Symbol>)
    requires Known(s, a) && a <= b
    ensures Known(s, b)
  {
  }

  lemma ReferEasStep(st: S.State, eas: seq<Ea<string>>)
    requires S.Rooted(st) && eas != [] && S.EaNamed(eas[0]) && forall i | 0 <= i < |eas| :: S.EaNamed(eas[i])
    ensures var (st1, s) := S.Refer(st, eas[0].sym);
      && S.Rooted(st1)
      && var (st2, rest) := S.ReferEas(st1, eas[1..]);
      && S.ReferEas(st, eas) == (st2, [Ea(eas[0].mode, eas[0].reg, eas[0].ew, s)] + rest)
  {
    S.ReferRooted(st, eas[0].sym);
  }

  /** The operands of an instruction, left to right. */
  method ReferEas(cs: CodeSpace, eas: seq<Ea<string>>) returns (refs: seq<Ea<Symbol>>)
    requires cs.Valid() && forall i | 0 <= i < |eas| :: S.EaNamed(eas[i])
    modifies cs`root, cs`st, cs`syms, cs.syms`flags, cs.syms`locals
    ensures cs.Valid() && (cs.st, AbsEas(refs)) == old(S.ReferEas(cs.st, eas))
    ensures KnownEas(refs, cs.syms)
    ensures old(cs.syms) <= cs.syms && forall s | s in cs.syms && s !in old(cs.syms) :: fresh(s)
    decreases |eas|
  {
    hide AllKnown, AllUnwritten, SymsAre, SecsAre, Chained, S.CreateSymbol, S.Rooted, S.Refer, S.ReferEas;
    if eas == [] {
      assert S.ReferEas(cs.st, eas) == (cs.st, []) by { NoEas(cs.st); }
      return [];
    }
    assert S.EaNamed(eas[0]);
    ReferEasStep(cs.st, eas);
    var sym := Refer(cs, eas[0].sym);
    ghost var mid := cs.syms;
    assert forall i | 0 <= i < |cs.syms| :: cs.syms[i] in old(cs.syms) || fresh(cs.syms[i]);
    var rest := ReferEas(cs, eas[1..]);
    if sym.Some? { KnownLater(sym.value, mid, cs.syms); }
    refs := [Ea(eas[0].mode, eas[0].reg, eas[0].ew, sym)] + rest;
    assert AbsEas(refs) == [AbsEa(refs[0])] + AbsEas(rest);
  }

  lemma NoEas(st: S.State)
    requires S.Rooted(st)
    ensures S.ReferEas(st, []) == (st, [])
  {
  }

  /** Push one instruction or one constant. */
  method PushItem(cs: CodeSpace, item: S.Item, addr: nat) returns (r: Result<()>)
    requires cs.Valid() && (cs.curr != null || cs.Unused(addr)) && S.ItemNamed(item)
    modifies cs, cs.syms, cs.secs, cs.pool
    ensures r.Ok? <==> old(S.PushItem(cs.st, item)).Ok?
    ensures r.Fail? ==> old(S.PushItem(cs.st, item)) == Fail(r.error)
    ensures r.Ok? ==> cs.Valid() && cs.st == old(S.PushItem(cs.st, item)).value
    ensures old(cs.syms) <= cs.syms && forall s | s in cs.syms && s !in old(cs.syms) :: fresh(s)
    ensures old(cs.secs) <= cs.secs && (forall s | s in cs.secs && s !in old(cs.secs) :: fresh(s) && s.addr == addr)
    ensures old(cs.curr) != null ==> cs.secs == old(cs.secs)
    ensures fresh(cs.pool - old(cs.pool))
  {
    hide AllKnown, AllUnwritten, SymsAre, SecsAre, Chained, S.CreateSymbol, S.Rooted, S.Refer, S.ReferEas,
         S.PushInstr, S.PushData;
    match item
    case Code_(opsize, ops, eas) =>
      var refs := ReferEas(cs, eas);
      r := cs.PushInstr(opsize, ops, refs, addr);
    case Constant(size, value, tag) =>
      var sym := Refer(cs, tag);
      r := cs.PushData(size, value, 1, sym, addr);
  }

  lemma PushItemsStep(st: S.State, items: seq<S.Item>)
    requires S.Rooted(st) && S.Current(st) && items != [] && (forall i | 0 <= i < |items| :: S.ItemNamed(items[i]))
    requires S.ItemNamed(items[0])
    ensures S.PushItems(st, items) ==
      match S.PushItem(st, items[0]) { case Ok(st') => S.PushItems(st', items[1..]) case Fail(e) => Fail(e) }
  {
  }

  /** The items of a line. At most the first of them creates a section. */
  method PushItems(cs: CodeSpace, items: seq<S.Item>, addr: nat) returns (r: Result<()>)
    requires cs.Valid() && (cs.curr != null || cs.Unused(addr)) && forall i | 0 <= i < |items| :: S.ItemNamed(items[i])
    modifies cs, cs.syms, cs.secs, cs.pool
    ensures r.Ok? <==> old(S.PushItems(cs.st, items)).Ok?
    ensures r.Fail? ==> old(S.PushItems(cs.st, items)) == Fail(r.error)
    ensures r.Ok? ==> cs.Valid() && cs.st == old(S.PushItems(cs.st, items)).value
    ensures old(cs.syms) <= cs.syms && forall s | s in cs.syms && s !in old(cs.syms) :: fresh(s)
    ensures old(cs.secs) <= cs.secs && (forall s | s in cs.secs && s !in old(cs.secs) :: fresh(s) && s.addr == addr)
    ensures old(cs.curr) != null ==> cs.secs == old(cs.secs)
    ensures fresh(cs.pool - old(cs.pool))
    decreases |items|
  {
    hide AllKnown, AllUnwritten, SymsAre, SecsAre, Chained, S.Rooted, S.PushItem, S.PushItems;
    if items == [] {
      NoItems(cs.st);
      return Ok(());
    }
    assert S.ItemNamed(items[0]);
    PushItemsStep(cs.st, items);
    r := PushItem(cs, items[0], addr);
    if r.Fail? { return; }
    S.PushItemCurrent(old(cs.st), items[0]);
    assert forall i | 0 <= i < |cs.syms| :: cs.syms[i] in old(cs.syms) || fresh(cs.syms[i]);
    assert forall i | 0 <= i < |cs.secs| :: cs.secs[i] in old(cs.secs) || fresh(cs.secs[i]);
    assert forall n | n in cs.pool :: n in old(cs.pool) || fresh(n);
    r := PushItems(cs, items[1..], addr);
  }

  lemma NoItems(st: S.State)
    requires S.Rooted(st) && S.Current(st)
    ensures S.PushItems(st, []) == Ok(st)
  {
  }

  /** What a line does once its label is in place. */
  method Act(cs: CodeSpace, action: S.Action, addr: nat) returns (r: Result<()>)
    requires cs.Valid() && cs.Unused(addr)
    requires action.Emit? ==> forall i | 0 <= i < |action.items| :: S.ItemNamed(action.items[i])
    modifies cs, cs.syms, cs.secs, cs.pool
    ensures r.Ok? <==> old(S.Act(cs.st, action)).Ok?
    ensures r.Fail? ==> old(S.Act(cs.st, action)) == Fail(r.error)
    ensures r.Ok? ==> cs.Valid() && cs.st == old(S.Act(cs.st, action)).value
    ensures old(cs.syms) <= cs.syms && forall s | s in cs.syms && s !in old(cs.syms) :: fresh(s)
    ensures old(cs.secs) <= cs.secs && (forall s | s in cs.secs && s !in old(cs.secs) :: fresh(s) && s.addr == addr)
    ensures fresh(cs.pool - old(cs.pool))
  {
    hide AllKnown, AllUnwritten, SymsAre, SecsAre, Chained, S.Rooted, S.PushItems, S.CreateSection, S.PushSection,
         S.PopSection;
    match action
    case Nothing => r := Ok(());
    case Equate => r := Ok(());
    case Emit(items) => r := PushItems(cs, items, addr);
    case Section(name, flags) =>
      var sec := cs.CreateSection(name, flags, addr);
      r := if sec.Ok? then Ok(()) else Fail(sec.error);
    case StoreSection =>
      cs.PushSection(addr);
      r := Ok(());
    case RestoreSection => r := cs.PopSection();
  }

  lemma DeclareIs(st: S.State, name: string)
    requires S.Rooted(st) && S.Current(st) && name != ""
    ensures var (st', r) := S.CreateSymbol(st, name, {Declare});
      && S.DeclareLabel(st, name) == (if r.None? then Fail(InvalidSymbol) else Ok((st', r.value)))
      && S.Rooted(st') && S.Current(st') && (r.Some? ==> r.value < |st'.syms|)
  {
    S.CreateRooted(st, name, {Declare});
  }

  /** Declare the label of a line. A second declaration in its scope gives null. */
  method Declared(cs: CodeSpace, name: string) returns (sym: Symbol?)
    requires cs.Valid() && name != ""
    modifies cs`root, cs`st, cs`syms, cs.syms`flags, cs.syms`locals
    ensures cs.Valid()
    ensures old(S.DeclareLabel(cs.st, name)) == if sym == null then Fail(InvalidSymbol) else Ok((cs.st, sym.id))
    ensures sym != null ==> Known(sym, cs.syms)
    ensures old(cs.syms) <= cs.syms && forall s | s in cs.syms && s !in old(cs.syms) :: fresh(s)
  {
    hide AllKnown, AllUnwritten, SymsAre, SecsAre, Chained, S.Rooted, S.CreateSymbol, S.DeclareLabel;
    DeclareIs(cs.st, name);
    sym := cs.CreateSymbol(name, {Declare});
    if sym != null { SymAt(cs.syms, cs.st.syms, cs.secs, old(S.CreateSymbol(cs.st, name, {Declare})).1.value); }
  }

  /** The state in which a line acts: its label is pushed unless the directive manages it itself. */
  ghost function Pushed(st: S.State, place: Option<nat>, action: S.Action): (r: S.State)
    requires S.Rooted(st) && S.Current(st) && (place.Some? ==> place.value < |st.syms|)
    ensures S.Rooted(r) && S.Current(r)
  {
    if place.Some? && !action.Equate? then S.PushSymbol(st, place.value) else st
  }

  ghost function LabelId(sym: Symbol?): Option<nat> {
    if sym == null then None else Some(sym.id)
  }

  /** The rest of a line, once its label is declared. */
  method Finish(cs: CodeSpace, sym: Symbol?, action: S.Action, a: nat, b: nat) returns (r: Result<()>)
    requires cs.Valid() && cs.Unused(a) && cs.Unused(b) && a != b && (sym != null ==> Known(sym, cs.syms))
    requires action.Emit? ==> forall i | 0 <= i < |action.items| :: S.ItemNamed(action.items[i])
    modifies cs, cs.syms, cs.secs, cs.pool
    ensures sym != null ==> sym.id < |old(cs.st).syms|
    ensures r.Ok? <==> S.Act(Pushed(old(cs.st), LabelId(sym), action), action).Ok?
    ensures r.Fail? ==> S.Act(Pushed(old(cs.st), LabelId(sym), action), action) == Fail(r.error)
    ensures r.Ok? ==> cs.Valid() && cs.st == S.Act(Pushed(old(cs.st), LabelId(sym), action), action).value
    ensures old(cs.syms) <= cs.syms && forall s | s in cs.syms && s !in old(cs.syms) :: fresh(s)
    ensures old(cs.secs) <= cs.secs
    ensures (forall s | s in cs.secs && s !in old(cs.secs) :: fresh(s) && (s.addr == a || s.addr == b))
    ensures fresh(cs.pool - old(cs.pool))
  {
    hide AllKnown, AllUnwritten, SymsAre, SecsAre, Chained, S.Rooted, S.PushSymbol, S.Act;
    if sym != null {
      SymAt(cs.syms, cs.st.syms, cs.secs, sym.id);
      if !action.Equate? {
        cs.PushSymbol(sym, a);
        assert forall i | 0 <= i < |cs.secs| :: cs.secs[i] in old(cs.secs) || fresh(cs.secs[i]);
        assert forall n | n in cs.pool :: n in old(cs.pool) || fresh(n);
      }
    }
    r := Act(cs, action, b);
  }

  lemma ProcessIs(st: S.State, line: S.Line)
    requires S.Rooted(st) && S.Current(st) && S.LineNamed(line)
    ensures line.declares.None? ==> S.Process(st, line) == S.Act(Pushed(st, None, line.action), line.action)
    ensures line.declares.Some? ==> var d := S.DeclareLabel(st, line.declares.value);
      && (d.Fail? ==> S.Process(st, line) == Fail(d.error))
      && (d.Ok? ==>
        && S.Rooted(d.value.0) && S.Current(d.value.0) && d.value.1 < |d.value.0.syms|
        && S.Process(st, line) == S.Act(Pushed(d.value.0, Some(d.value.1), line.action), line.action))
  {
    if line.declares.Some? { S.CreateRooted(st, line.declares.value, {Declare}); }
  }

  /** One source line. */
  method Process(cs: CodeSpace, line: S.Line, a: nat, b: nat) returns (r: Result<()>)
    requires cs.Valid() && cs.Unused(a) && cs.Unused(b) && a != b && S.LineNamed(line)
    modifies cs, cs.syms, cs.secs, cs.pool
    ensures r.Ok? <==> old(S.Process(cs.st, line)).Ok?
    ensures r.Fail? ==> old(S.Process(cs.st, line)) == Fail(r.error)
    ensures r.Ok? ==> cs.Valid() && cs.st == old(S.Process(cs.st, line)).value
    ensures old(cs.syms) <= cs.syms && forall s | s in cs.syms && s !in old(cs.syms) :: fresh(s)
    ensures old(cs.secs) <= cs.secs
    ensures (forall s | s in cs.secs && s !in old(cs.secs) :: fresh(s) && (s.addr == a || s.addr == b))
    ensures fresh(cs.pool - old(cs.pool))
  {
    hide AllKnown, AllUnwritten, SymsAre, SecsAre, Chained, S.Rooted, S.DeclareLabel, S.PushSymbol, S.Act,
         S.Process, Pushed;
    ProcessIs(cs.st, line);
    var sym: Symbol? := null;
    if line.declares.Some? {
      sym := Declared(cs, line.declares.value);
      if sym == null { return Fail(InvalidSymbol); }
      assert forall i | 0 <= i < |cs.syms| :: cs.syms[i] in old(cs.syms) || fresh(cs.syms[i]);
    }
    r := Finish(cs, sym, line.action, a, b);
  }

  lemma RunIs(st: S.State, lines: seq<S.Line>, i: nat)
    requires S.Rooted(st) && S.Current(st) && i < |lines| && forall line | line in lines :: S.LineNamed(line)
    ensures S.LineNamed(lines[i])
    ensures S.Run(st, lines[i..]) ==
      match S.Process(st, lines[i]) { case Ok(st') => S.Run(st', lines[i + 1..]) case Fail(e) => Fail(e) }
  {
    assert lines[i] in lines;
    assert lines[i..][0] == lines[i] && lines[i..][1..] == lines[i + 1..];
  }

  /** Pass 1. `addrs` holds the addresses the allocator will give to section records. */
  method Run(cs: CodeSpace, lines: seq<S.Line>, addrs: seq<nat>) returns (r: Result<()>)
    requires cs.Valid() && (forall line | line in lines :: S.LineNamed(line))
    requires |addrs| == 2 * |lines| && (forall i, j | 0 <= i < j < |addrs| :: addrs[i] != addrs[j])
    requires forall i | 0 <= i < |addrs| :: cs.Unused(addrs[i])
    modifies cs, cs.syms, cs.secs, cs.pool
    ensures r.Ok? <==> old(S.Run(cs.st, lines)).Ok?
    ensures r.Fail? ==> old(S.Run(cs.st, lines)) == Fail(r.error)
    ensures r.Ok? ==> cs.Valid() && cs.st == old(S.Run(cs.st, lines)).value
    ensures r.Ok? ==> forall k | 0 <= k < |cs.secs| :: cs.secs[k] in old(cs.secs) || fresh(cs.secs[k])
  {
    hide AllKnown, AllUnwritten, SymsAre, SecsAre, Chained, S.Rooted, S.Process, S.LineNamed;
    assert lines[0..] == lines;
    var i := 0;
    while i < |lines|
      invariant i <= |lines| && cs.Valid()
      invariant S.Run(cs.st, lines[i..]) == old(S.Run(cs.st, lines))
      invariant forall k | 0 <= k < |cs.syms| :: cs.syms[k] in old(cs.syms) || fresh(cs.syms[k])
      invariant forall k | 0 <= k < |cs.secs| :: cs.secs[k] in old(cs.secs) || fresh(cs.secs[k])
      invariant forall n | n in cs.pool :: n in old(cs.pool) || fresh(n)
      invariant forall k | 2 * i <= k < |addrs| :: cs.Unused(addrs[k])
    {
      RunIs(cs.st, lines, i);
      ghost var syms, secs := cs.syms, cs.secs;
      r := Process(cs, lines[i], addrs[2 * i], addrs[2 * i + 1]);
      if r.Fail? { return; }
      forall k | 0 <= k < |cs.syms| ensures cs.syms[k] in old(cs.syms) || fresh(cs.syms[k]) {
        if cs.syms[k] in syms { var m :| 0 <= m < |syms| && syms[m] == cs.syms[k]; }
      }
      forall k | 0 <= k < |cs.secs| ensures cs.secs[k] in old(cs.secs) || fresh(cs.secs[k]) {
        if cs.secs[k] in secs { var m :| 0 <= m < |secs| && secs[m] == cs.secs[k]; }
      }
      i := i + 1;
    }
    r := Ok(());
  }
}
