/** The code store as the program keeps it (src/codespace.c): records linked through pointers and
    extended in place. Each method is tied to the function of `Store` it carries out. */
module CodeSpace {
  import opened Basics
  import opened Entries
  import S = Store

  class Symbol {
    ghost const id: nat
    const name: string
    const root: Symbol?
    const next: Symbol?
    var flags: set<SymFlag>
    var sec: Section?
    var locals: Symbol?

    constructor (ghost id: nat, name: string, flags: set<SymFlag>, root: Symbol?, next: Symbol?)
      ensures this.id == id && this.name == name && this.root == root && this.next == next
      ensures this.flags == flags && sec == null && locals == null
    {
      this.id, this.name, this.root, this.next := id, name, root, next;
      this.flags, sec, locals := flags, null, null;
    }
  }

  /** `cs_entry_t` with the record that follows it. */
  class Node {
    const size: Long
    const val: Entry<Symbol>
    var prev: Node?
    var next: Node?
    var owner: Section?
    ghost var pos: nat

    constructor (val: Entry<Symbol>)
      ensures this.val == val && size == EntrySize(val) && prev == null && next == null
    {
      this.val, size := val, EntrySize(val);
      prev, next, owner := null, null, null;
    }
  }

  /** `cs_reloc_t`. */
  class RelocNode {
    const owner: Section
    const target: Section
    const offset: Long
    var next: RelocNode?

    constructor (owner: Section, target: Section, offset: Long)
      ensures this.owner == owner && this.target == target && this.offset == offset && next == null
    {
      this.owner, this.target, this.offset, next := owner, target, offset, null;
    }
  }

  /** `cs_section_t`. `addr` stands for the address of the record, which is compared when sorting. */
  class Section {
    ghost const id: nat
    const addr: nat
    const name: string
    const flags: set<SecFlag>
    var first: Node?
    var curr: Node?
    var size: Long
    var block: Long
    var data: array?<Byte>
    var freloc: RelocNode?
    var lreloc: RelocNode?
    var next: Section?

    ghost var nodes: seq<Node>
    ghost var bytes: seq<Byte>
    ghost var relocs: seq<RelocNode>

    constructor (ghost id: nat, addr: nat, name: string, flags: set<SecFlag>)
      ensures this.id == id && this.addr == addr && this.name == name && this.flags == flags
      ensures first == null && curr == null && next == null && nodes == [] && Unwritten()
    {
      this.id, this.addr, this.name, this.flags := id, addr, name, flags;
      first, curr, next := null, null, null;
      size, block, data, freloc, lreloc := 0, 0, null, null, null;
      nodes, bytes, relocs := [], [], [];
    }

    /** Pass 2 has not touched the section. */
    ghost predicate Unwritten()
      reads this`size, this`data, this`freloc, this`lreloc, this`bytes, this`relocs
    {
      size == 0 && data == null && freloc == null && lreloc == null && bytes == [] && relocs == []
    }

    /** A doubly linked list: `prev` and `next` mirror each other, and every entry knows its owner. */
    ghost predicate Linked()
      reads this`first, this`curr, this`nodes, nodes
    {
      && (nodes == [] ==> first == null && curr == null)
      && (nodes != [] ==> first == nodes[0] && curr == nodes[|nodes| - 1] && first.prev == null && curr.next == null)
      && (forall m | 0 <= m < |nodes| :: nodes[m].pos == m && nodes[m].owner == this)
      && (forall m | 0 <= m < |nodes| - 1 :: nodes[m].next == nodes[m + 1])
      && (forall m | 0 < m < |nodes| :: nodes[m].prev == nodes[m - 1])
    }

    /** `cs_push_entry`. */
    method Append(n: Node)
      requires Linked() && n !in nodes
      modifies this`first, this`curr, this`nodes, n`prev, n`next, n`owner, n`pos, if curr == null then {} else {curr}
      ensures Linked() && nodes == old(nodes) + [n]
    {
      assert forall m | 0 <= m < |nodes| :: nodes[m] in nodes && nodes[m].pos == m;
      n.owner := this;
      n.pos := |nodes|;
      if first != null {
        curr.next := n;
        n.prev := curr;
        n.next := null;
        curr := n;
      } else {
        curr, first := n, n;
        n.prev := null;
        n.next := null;
      }
      nodes := nodes + [n];
    }
  }

  // ---------------------------------------------------------------- values behind the pointers

  ghost function AbsRef(s: Option<Symbol>): Option<nat> {
    if s.Some? then Some(s.value.id) else None
  }

  ghost function AbsEa(ea: Ea<Symbol>): Ea<nat> {
    Ea(ea.mode, ea.reg, ea.ew, AbsRef(ea.sym))
  }

  ghost function AbsEas(eas: seq<Ea<Symbol>>): (r: seq<Ea<nat>>)
    ensures |r| == |eas| && forall i | 0 <= i < |eas| :: r[i] == AbsEa(eas[i])
  {
    seq(|eas|, i requires 0 <= i < |eas| => AbsEa(eas[i]))
  }

  ghost function AbsEntry(e: Entry<Symbol>): Entry<nat> {
    match e
    case Instr(opsize, ops, eas) => Instr(opsize, ops, AbsEas(eas))
    case Data(dsize, repeat, value, tag) => Data(dsize, repeat, value, AbsRef(tag))
    case Label(s) => Label(s.id)
  }

  ghost predicate SymIs(p: Symbol?, o: Option<nat>, syms: seq<Symbol>) {
    if o.None? then p == null else o.value < |syms| && p == syms[o.value]
  }

  ghost predicate SecIs(p: Section?, o: Option<nat>, secs: seq<Section>) {
    if o.None? then p == null else o.value < |secs| && p == secs[o.value]
  }

  /** A symbol record and its value. */
  ghost predicate SymTied(s: Symbol, i: nat, v: S.Sym, syms: seq<Symbol>, secs: seq<Section>)
    reads s
  {
    && s.id == i && s.name == v.name && s.flags == v.flags
    && SymIs(s.root, v.root, syms) && SymIs(s.next, v.next, syms) && SymIs(s.locals, v.locals, syms)
    && SecIs(s.sec, v.sec, secs)
  }

  /** A pointer to a symbol of the store. */
  ghost predicate Known(s: Symbol, syms: seq<Symbol>) {
    s.id < |syms| && syms[s.id] == s
  }

  ghost predicate KnownEas(eas: seq<Ea<Symbol>>, syms: seq<Symbol>) {
    forall i | 0 <= i < |eas| && eas[i].sym.Some? :: Known(eas[i].sym.value, syms)
  }

  ghost predicate KnownEntry(e: Entry<Symbol>, syms: seq<Symbol>) {
    match e
    case Instr(_, _, eas) => KnownEas(eas, syms)
    case Data(_, _, _, tag) => tag.Some? ==> Known(tag.value, syms)
    case Label(s) => Known(s, syms)
  }

  ghost predicate KnownNodes(nodes: seq<Node>, syms: seq<Symbol>) {
    forall m | 0 <= m < |nodes| :: KnownEntry(nodes[m].val, syms)
  }

  ghost predicate AllKnown(secs: seq<Section>, syms: seq<Symbol>)
    reads secs`nodes
  {
    forall i | 0 <= i < |secs| :: KnownNodes(secs[i].nodes, syms)
  }

  lemma KnownMore(secs: seq<Section>, a: seq<Symbol>, b: seq<Symbol>)
    requires AllKnown(secs, a) && a <= b
    ensures AllKnown(secs, b)
  {
    forall i, m | 0 <= i < |secs| && 0 <= m < |secs[i].nodes| ensures KnownEntry(secs[i].nodes[m].val, b) {
      assert KnownNodes(secs[i].nodes, a);
      assert KnownEntry(secs[i].nodes[m].val, a);
    }
  }

  ghost predicate NodesAre(nodes: seq<Node>, entries: seq<Entry<nat>>) {
    && |nodes| == |entries|
    && forall m | 0 <= m < |nodes| :: AbsEntry(nodes[m].val) == entries[m] && nodes[m].size == EntrySize(entries[m])
  }

  /** A section record and its value. */
  ghost predicate SecTied(s: Section, i: nat, v: S.Sec)
    reads s`first, s`curr, s`nodes, s.nodes
  {
    s.id == i && s.name == v.name && s.flags == v.flags && s.Linked() && NodesAre(s.nodes, v.entries)
  }

  ghost predicate SymsAre(syms: seq<Symbol>, vals: seq<S.Sym>, secs: seq<Section>)
    reads syms
  {
    |syms| == |vals| && forall i | 0 <= i < |syms| :: SymTied(syms[i], i, vals[i], syms, secs)
  }

  lemma SymsMore(syms: seq<Symbol>, vals: seq<S.Sym>, secs: seq<Section>, sym: Symbol, v: S.Sym)
    requires SymsAre(syms, vals, secs) && SymTied(sym, |syms|, v, syms + [sym], secs)
    ensures SymsAre(syms + [sym], vals + [v], secs)
  {
    forall i | 0 <= i < |syms| ensures SymTied(syms[i], i, vals[i], syms + [sym], secs) {
      assert SymTied(syms[i], i, vals[i], syms, secs);
    }
    SymsAppend(syms, vals, secs, sym, v);
  }

  lemma SymsAppend(syms: seq<Symbol>, vals: seq<S.Sym>, secs: seq<Section>, sym: Symbol, v: S.Sym)
    requires |syms| == |vals| && SymTied(sym, |syms|, v, syms + [sym], secs)
    requires forall i | 0 <= i < |syms| :: SymTied(syms[i], i, vals[i], syms + [sym], secs)
    ensures SymsAre(syms + [sym], vals + [v], secs)
  {
  }

  lemma SymAt(syms: seq<Symbol>, vals: seq<S.Sym>, secs: seq<Section>, i: nat)
    requires SymsAre(syms, vals, secs) && i < |syms|
    ensures |syms| == |vals| && SymTied(syms[i], i, vals[i], syms, secs)
  {
  }

  /** Put the newest record at the head of the list of its owner. */
  method Attach(owner: Symbol, sym: Symbol, ghost syms: seq<Symbol>, ghost vals: seq<S.Sym>,
                ghost secs: seq<Section>, ghost g: nat)
    requires SymsAre(syms, vals, secs) && g < |syms| && syms[g] == owner && syms[|syms| - 1] == sym
    modifies owner`locals
    ensures SymsAre(syms, vals[g := vals[g].(locals := Some(|syms| - 1))], secs)
  {
    owner.locals := sym;
    ghost var vals' := vals[g := vals[g].(locals := Some(|syms| - 1))];
    forall i | 0 <= i < |syms| ensures SymTied(syms[i], i, vals'[i], syms, secs) {
      assert old(SymTied(syms[i], i, vals[i], syms, secs));
    }
  }

  ghost predicate SecsAre(secs: seq<Section>, vals: seq<S.Sec>, pool: set<Node>)
    reads secs`first, secs`curr, secs`nodes, pool
  {
    && |secs| == |vals|
    && (forall i, n | 0 <= i < |secs| && n in secs[i].nodes :: n in pool)
    && (forall i | 0 <= i < |secs| :: SecTied(secs[i], i, vals[i]))
  }

  /** The section list follows creation order. */
  ghost predicate Chained(secs: seq<Section>, first: Section?, last: Section?)
    reads secs`next
  {
    && (secs == [] ==> first == null && last == null)
    && (secs != [] ==> first == secs[0] && last == secs[|secs| - 1] && last.next == null)
    && (forall i | 0 <= i < |secs| - 1 :: secs[i].next == secs[i + 1])
    && (forall i, j | 0 <= i < j < |secs| :: secs[i].addr != secs[j].addr)
  }

  lemma SecAt(secs: seq<Section>, vals: seq<S.Sec>, pool: set<Node>, i: nat)
    requires SecsAre(secs, vals, pool) && i < |secs|
    ensures |secs| == |vals| && SecTied(secs[i], i, vals[i]) && forall n | n in secs[i].nodes :: n in pool
  {
  }

  lemma SecCount(secs: seq<Section>, vals: seq<S.Sec>, pool: set<Node>)
    requires SecsAre(secs, vals, pool)
    ensures |secs| == |vals|
  {
  }

  lemma SecsMore(secs: seq<Section>, vals: seq<S.Sec>, pool: set<Node>, sec: Section, v: S.Sec)
    requires SecsAre(secs, vals, pool) && SecTied(sec, |secs|, v) && sec.nodes == []
    ensures SecsAre(secs + [sec], vals + [v], pool)
  {
  }

  /** Symbols point to the same sections when there are more of them. */
  lemma SymsMoreSecs(syms: seq<Symbol>, vals: seq<S.Sym>, a: seq<Section>, b: seq<Section>)
    requires SymsAre(syms, vals, a) && a <= b
    ensures SymsAre(syms, vals, b)
  {
    forall i | 0 <= i < |syms| ensures SymTied(syms[i], i, vals[i], syms, b) {
      assert SymTied(syms[i], i, vals[i], syms, a);
    }
  }

  /** Record the section a symbol is pushed in. */
  method SetSection(symbol: Symbol, sec: Section, ghost syms: seq<Symbol>, ghost vals: seq<S.Sym>,
                    ghost secs: seq<Section>,
                    ghost c: nat)
    requires SymsAre(syms, vals, secs) && Known(symbol, syms) && c < |secs| && secs[c] == sec
    modifies symbol`sec
    ensures symbol.id < |vals| && SymsAre(syms, vals[symbol.id := vals[symbol.id].(sec := Some(c))], secs)
  {
    symbol.sec := sec;
    ghost var vals' := vals[symbol.id := vals[symbol.id].(sec := Some(c))];
    forall i | 0 <= i < |syms| ensures SymTied(syms[i], i, vals'[i], syms, secs) {
      assert old(SymTied(syms[i], i, vals[i], syms, secs));
    }
  }

  lemma KnownPlus(nodes: seq<Node>, n: Node, syms: seq<Symbol>)
    requires KnownNodes(nodes, syms) && KnownEntry(n.val, syms)
    ensures KnownNodes(nodes + [n], syms)
  {
  }

  /** Append an entry to one of the sections; the others stay as they are. */
  method AppendNode(sec: Section, n: Node, ghost secs: seq<Section>, ghost vals: seq<S.Sec>, ghost pool: set<Node>,
                    ghost c: nat)
    requires SecsAre(secs, vals, pool) && c < |secs| && secs[c] == sec && n !in pool
    requires n.size == EntrySize(AbsEntry(n.val))
    modifies sec`first, sec`curr, sec`nodes, n, pool
    ensures c < |vals|
    ensures SecsAre(secs, vals[c := vals[c].(entries := vals[c].entries + [AbsEntry(n.val)])], pool + {n})
    ensures sec.nodes == old(sec.nodes) + [n]
  {
    assert SecTied(sec, c, vals[c]);
    ghost var before := sec.nodes;
    sec.Append(n);
    ghost var vals' := vals[c := vals[c].(entries := vals[c].entries + [AbsEntry(n.val)])];
    forall i | 0 <= i < |secs| ensures SecTied(secs[i], i, vals'[i]) {
      assert old(SecTied(secs[i], i, vals[i]));
      if i != c {
        assert secs[i] != sec;
        assert forall m | m in secs[i].nodes :: m != n && old(m.owner) == secs[i];
      } else {
        AppendedNodes(before, vals[c].entries, n);
      }
    }
    forall i, m | 0 <= i < |secs| && m in secs[i].nodes ensures m in pool + {n} {
      assert i != c ==> secs[i] != sec by { assert old(SecTied(secs[i], i, vals[i])); }
      if i == c { assert m in before || m == n; }
    }
  }

  lemma AppendedNodes(nodes: seq<Node>, entries: seq<Entry<nat>>, n: Node)
    requires NodesAre(nodes, entries) && n.size == EntrySize(AbsEntry(n.val))
    ensures NodesAre(nodes + [n], entries + [AbsEntry(n.val)])
  {
  }

  lemma {:induction false} AbsEwBytes(eas: seq<Ea<Symbol>>)
    ensures EwBytes(AbsEas(eas)) == EwBytes(eas)
    decreases |eas|
  {
    if eas == [] {
    } else {
      assert AbsEas(eas)[1..] == AbsEas(eas[1..]);
      AbsEwBytes(eas[1..]);
    }
  }

  lemma AbsSize(e: Entry<Symbol>)
    ensures EntrySize(AbsEntry(e)) == EntrySize(e)
  {
    if e.Instr? { AbsEwBytes(e.eas); }
  }

  ghost predicate AllUnwritten(secs: seq<Section>)
    reads secs`size, secs`data, secs`freloc, secs`lreloc, secs`bytes, secs`relocs
  {
    forall i | 0 <= i < |secs| :: secs[i].Unwritten()
  }

  class CodeSpace {
    var root: Symbol?
    var first: Section?
    var last: Section?
    var curr: Section?
    var store: Section?

    ghost var st: S.State
    ghost var syms: seq<Symbol>
    ghost var secs: seq<Section>
    ghost var pool: set<Node>

    /** The lists pass 1 leaves behind. Pass 2 changes nothing of this. */
    ghost predicate Built()
      reads this`st, this`syms, this`secs, this`pool, this`first, this`last
      reads syms, secs`first, secs`curr, secs`nodes, secs`next, pool
    {
      && SymsAre(syms, st.syms, secs)
      && SecsAre(secs, st.secs, pool)
      && AllKnown(secs, syms)
      && Chained(secs, first, last)
    }

    ghost predicate Valid()
      reads this, syms, secs, pool
    {
      && S.Rooted(st) && S.Current(st)
      && SymsAre(syms, st.syms, secs)
      && SecsAre(secs, st.secs, pool)
      && AllKnown(secs, syms)
      && Chained(secs, first, last)
      && AllUnwritten(secs)
      && SymIs(root, st.root, syms)
      && SecIs(curr, st.curr, secs) && SecIs(store, st.store, secs)
    }

    /** `cs_setup`. */
    constructor ()
      ensures Valid() && st == S.EMPTY && syms == [] && secs == [] && pool == {}
    {
      root, first, last, curr, store := null, null, null, null, null;
      st, syms, secs, pool := S.EMPTY, [], [], {};
    }

    // ---------------------------------------------------------------- symbols

    /** `cs_get_symbol`: follow the list of the scope until the name matches. */
    method GetSymbol(name: string) returns (sym: Symbol?)
      requires Valid() && name != ""
      ensures SymIs(sym, S.GetSymbol(st, name), syms)
    {
      ghost var at: Option<nat>;
      if S.IsLocal(name) {
        if root == null { return null; }
        assert SymTied(root, st.root.value, st.syms[st.root.value], syms, secs);
        sym := root.locals;
        at := st.syms[st.root.value].locals;
      } else {
        sym := root;
        at := st.root;
      }
      while sym != null
        invariant at.Some? ==> at.value < |st.syms|
        invariant SymIs(sym, at, syms) && S.Find(st.syms, at, name) == S.GetSymbol(st, name)
        decreases S.Height(at)
      {
        assert SymTied(sym, at.value, st.syms[at.value], syms, secs);
        if name == sym.name { return; }
        at := st.syms[at.value].next;
        sym := sym.next;
      }
    }

    /** Attach a new record to the list of globals. */
    method AddGlobal(name: string, flags: set<SymFlag>) returns (sym: Symbol)
      requires Valid() && 0 < |name| <= S.MAX_NAME && S.GetSymbol(st, name).None? && !S.IsLocal(name)
      modifies this`root, this`st, this`syms
      ensures Valid() && st == old(S.CreateSymbol(st, name, flags)).0
      ensures SymIs(sym, old(S.CreateSymbol(st, name, flags)).1, syms)
      ensures fresh(sym) && syms == old(syms) + [sym]
    {
      hide SecsAre, AllKnown, Chained, AllUnwritten, SymsAre, S.CreateSymbol, S.Rooted, S.GetSymbol, S.IsLocal;
      ghost var n := |syms|;
      ghost var v := S.Sym(name, flags, None, None, st.root, None);
      S.CreateGlobal(st, name, flags);
      sym := new Symbol(n, name, flags, null, root);
      root := sym;
      SymsMore(syms, st.syms, secs, sym, v);
      KnownMore(secs, syms, syms + [sym]);
      st, syms := st.(syms := st.syms + [v], root := Some(n)), syms + [sym];
    }

    /** Attach a new record to the list of locals of the latest global. */
    method AddLocal(name: string, flags: set<SymFlag>) returns (sym: Symbol)
      requires Valid() && 0 < |name| <= S.MAX_NAME && S.GetSymbol(st, name).None? && S.IsLocal(name) && root != null
      modifies this`st, this`syms, syms`locals
      ensures Valid() && st == old(S.CreateSymbol(st, name, flags)).0
      ensures SymIs(sym, old(S.CreateSymbol(st, name, flags)).1, syms)
      ensures fresh(sym) && syms == old(syms) + [sym]
    {
      hide SecsAre, AllKnown, Chained, AllUnwritten, SymsAre, S.CreateSymbol, S.Rooted, S.GetSymbol, S.IsLocal;
      ghost var n, g := |syms|, st.root.value;
      SymAt(syms, st.syms, secs, g);
      ghost var owner := st.syms[g];
      ghost var v := S.Sym(name, flags, None, st.root, owner.locals, None);
      S.CreateLocal(st, name, flags);
      sym := new Symbol(n, name, flags, root, root.locals);
      ghost var tied := syms + [sym];
      SymsMore(syms, st.syms, secs, sym, v);
      KnownMore(secs, syms, tied);
      ghost var vals := st.syms[g := owner.(locals := Some(n))];
      Attach(root, sym, tied, st.syms + [v], secs, g);
      assert (st.syms + [v])[g := owner.(locals := Some(n))] == vals + [v];
      st, syms := st.(syms := vals + [v]), tied;
    }

    /** Merge flags into a known symbol, unless it would be declared again. */
    method Redefine(found: Symbol, name: string, flags: set<SymFlag>) returns (sym: Symbol?)
      requires Valid() && 0 < |name| <= S.MAX_NAME && S.GetSymbol(st, name).Some?
      requires SymIs(found, S.GetSymbol(st, name), syms)
      modifies this`st, syms`flags
      ensures Valid() && st == old(S.CreateSymbol(st, name, flags)).0
      ensures SymIs(sym, old(S.CreateSymbol(st, name, flags)).1, syms)
    {
      hide SecsAre, AllKnown, Chained, AllUnwritten, S.CreateSymbol, S.Rooted, S.GetSymbol, S.IsLocal;
      S.CreateFound(st, name, flags);
      ghost var p := S.GetSymbol(st, name).value;
      assert SymTied(found, p, st.syms[p], syms, secs);
      if Declare in found.flags && Declare in flags { return null; }
      found.flags := found.flags + flags;
      st := st.(syms := st.syms[p := st.syms[p].(flags := st.syms[p].flags + flags)]);
      forall i | 0 <= i < |syms| ensures SymTied(syms[i], i, st.syms[i], syms, secs) {
        assert old(SymTied(syms[i], i, st.syms[i], syms, secs));
      }
      sym := found;
    }

    /** `cs_create_symbol`. */
    method CreateSymbol(name: string, flags: set<SymFlag>) returns (sym: Symbol?)
      requires Valid() && name != ""
      modifies this`root, this`st, this`syms, syms`flags, syms`locals
      ensures Valid() && st == old(S.CreateSymbol(st, name, flags)).0
      ensures SymIs(sym, old(S.CreateSymbol(st, name, flags)).1, syms)
      ensures old(syms) <= syms && forall s | s in syms && s !in old(syms) :: fresh(s)
    {
      hide SecsAre, AllKnown, Chained, AllUnwritten, S.CreateSymbol, S.Rooted, S.GetSymbol, S.IsLocal;
      if |name| > S.MAX_NAME {
        S.CreateRefused(st, name, flags);
        return null;
      }
      sym := GetSymbol(name);
      if sym != null {
        sym := Redefine(sym, name, flags);
      } else if S.IsLocal(name) {
        if root == null {
          S.CreateRefused(st, name, flags);
          return null;
        }
        sym := AddLocal(name, flags);
      } else {
        sym := AddGlobal(name, flags);
      }
    }

    // ---------------------------------------------------------------- sections

    ghost predicate Unused(addr: nat)
      reads this`secs
    {
      forall s | s in secs :: s.addr != addr
    }

    /** `cs_get_section`. */
    method GetSection(name: string) returns (r: Result<Section?>)
      requires Valid()
      ensures r.Ok? <==> S.SectionNameOk(name)
      ensures r.Ok? ==> SecIs(r.value, S.FindSection(st.secs, name, 0), secs)
      ensures r.Fail? ==> r.error == InvalidSectionName
    {
      hide AllKnown, SymsAre, AllUnwritten, SecsAre, S.SameName;
      if !S.SectionNameOk(name) { return Fail(InvalidSectionName); }
      SecCount(secs, st.secs, pool);
      var sec := first;
      ghost var i := 0;
      while sec != null
        invariant i <= |secs| && sec == (if i < |secs| then secs[i] else null)
        invariant |secs| == |st.secs| && S.FindSection(st.secs, name, 0) == S.FindSection(st.secs, name, i)
        decreases |secs| - i
      {
        SecAt(secs, st.secs, pool, i);
        if S.SameName(sec.name, name) { break; }
        sec := sec.next;
        i := i + 1;
      }
      return Ok(sec);
    }

    /** Attach a section record at the end of the list. */
    method LinkSection(sec: Section)
      requires Chained(secs, first, last) && sec !in secs && sec.next == null && Unused(sec.addr)
      modifies this`first, this`last, secs`next
      ensures Chained(secs + [sec], first, last)
    {
      ghost var n := |secs|;
      if first != null {
        assert last in secs && last == secs[n - 1];
        assert forall i | 0 <= i < n - 1 :: secs[i].addr != secs[n - 1].addr;
        last.next := sec;
        last := sec;
      } else {
        first, last := sec, sec;
      }
    }

    /** Make a linked section part of the store, and current. */
    method AdoptSection(sec: Section, ghost v: S.Sec)
      requires S.Rooted(st) && S.Current(st) && SymsAre(syms, st.syms, secs) && SecsAre(secs, st.secs, pool)
      requires AllKnown(secs, syms) && AllUnwritten(secs) && Chained(secs + [sec], first, last)
      requires SymIs(root, st.root, syms) && SecIs(store, st.store, secs)
      requires SecTied(sec, |secs|, v) && sec.nodes == [] && sec.Unwritten()
      modifies this`curr, this`st, this`secs
      ensures Valid()
      ensures st == old(st).(secs := old(st.secs) + [v], curr := Some(|old(st.secs)|))
      ensures secs == old(secs) + [sec] && curr == sec
    {
      hide AllKnown, SymsAre, AllUnwritten, Chained, S.Rooted, SecTied;
      ghost var n := |secs|;
      SecsMore(secs, st.secs, pool, sec, v);
      SymsMoreSecs(syms, st.syms, secs, secs + [sec]);
      NewSection(secs, syms, sec);
      S.SameRooted(st, st.(secs := st.secs + [v], curr := Some(n)));
      curr := sec;
      st, secs := st.(secs := st.secs + [v], curr := Some(n)), secs + [sec];
    }

    /** Attach a new section at the end of the list and make it current. */
    method AddSection(name: string, flags: set<SecFlag>, addr: nat) returns (sec: Section)
      requires Valid() && Unused(addr)
      modifies this`first, this`last, this`curr, this`st, this`secs, secs`next
      ensures Valid()
      ensures st == old(st).(secs := old(st.secs) + [S.Sec(S.Stored(name), flags, [])], curr := Some(|old(st.secs)|))
      ensures secs == old(secs) + [sec] && fresh(sec) && curr == sec && sec.addr == addr
    {
      hide AllKnown, SymsAre, AllUnwritten, SecsAre, Chained, S.Rooted;
      sec := new Section(|secs|, addr, S.Stored(name), flags);
      LinkSection(sec);
      AdoptSection(sec, S.Sec(S.Stored(name), flags, []));
    }

    lemma NewSection(secs: seq<Section>, syms: seq<Symbol>, sec: Section)
      requires AllKnown(secs, syms) && AllUnwritten(secs) && sec.nodes == [] && sec.Unwritten()
      ensures AllKnown(secs + [sec], syms) && AllUnwritten(secs + [sec])
    {
    }

    /** `cs_create_section`. The result is null when the section exists with other flags. */
    method CreateSection(name: string, flags: set<SecFlag>, addr: nat) returns (r: Result<Section?>)
      requires Valid() && Unused(addr)
      modifies this`first, this`last, this`curr, this`st, this`secs, secs`next
      ensures r.Ok? <==> old(S.CreateSection(st, name, flags)).Ok?
      ensures r.Fail? ==> old(S.CreateSection(st, name, flags)) == Fail(r.error)
      ensures r.Ok? ==> Valid() && st == old(S.CreateSection(st, name, flags)).value
      ensures old(secs) <= secs && forall s | s in secs && s !in old(secs) :: fresh(s) && s.addr == addr
    {
      hide AllKnown, SymsAre, AllUnwritten, SecsAre, Chained, S.Rooted, S.FindSection, S.SectionNameOk;
      var found := GetSection(name);
      if found.Fail? { return found; }
      if found.value != null {
        FoundSection(name);
        if found.value.flags != flags { return Ok(null); }
        curr := found.value;
        S.SameRooted(st, st.(curr := S.FindSection(st.secs, name, 0)));
        st := st.(curr := S.FindSection(st.secs, name, 0));
        r := found;
      } else {
        var sec := AddSection(name, flags, addr);
        r := Ok(sec);
      }
    }

    lemma FoundSection(name: string)
      requires Valid() && S.FindSection(st.secs, name, 0).Some?
      ensures var i := S.FindSection(st.secs, name, 0).value;
        i < |secs| && i < |st.secs| && secs[i].flags == st.secs[i].flags
    {
      SecAt(secs, st.secs, pool, S.FindSection(st.secs, name, 0).value);
    }

    /** The section "code" is created when an entry comes before any section. */
    method EnsureSection(addr: nat)
      requires Valid() && (curr != null || Unused(addr))
      modifies this`first, this`last, this`curr, this`st, this`secs, secs`next
      ensures Valid() && st == old(S.Ensure(st)) && curr != null
      ensures old(secs) <= secs && (forall s | s in secs && s !in old(secs) :: fresh(s) && s.addr == addr)
      ensures old(curr) != null ==> secs == old(secs)
    {
      hide AllKnown, SymsAre, AllUnwritten, SecsAre, Chained, S.Rooted, S.CreateSection;
      if curr == null {
        S.EnsureIsCreate(st);
        var _ := CreateSection("code", {Code}, addr);
      }
    }

    /** `cs_push_section`. */
    method PushSection(addr: nat)
      requires Valid() && (curr != null || Unused(addr))
      modifies this`first, this`last, this`curr, this`store, this`st, this`secs, secs`next
      ensures Valid() && st == old(S.PushSection(st))
      ensures old(secs) <= secs && (forall s | s in secs && s !in old(secs) :: fresh(s) && s.addr == addr)
      ensures old(curr) != null ==> secs == old(secs)
    {
      hide AllKnown, SymsAre, AllUnwritten, SecsAre, Chained, S.Rooted;
      EnsureSection(addr);
      store := curr;
      S.SameRooted(st, st.(store := st.curr));
      st := st.(store := st.curr);
    }

    /** `cs_pop_section`. */
    method PopSection() returns (r: Result<()>)
      requires Valid()
      modifies this`curr, this`store, this`st
      ensures r.Ok? <==> old(S.PopSection(st)).Ok?
      ensures r.Fail? ==> old(S.PopSection(st)) == Fail(r.error)
      ensures r.Ok? ==> Valid() && st == old(S.PopSection(st)).value
    {
      hide AllKnown, SymsAre, AllUnwritten, SecsAre, Chained, S.Rooted;
      if store == null { return Fail(RestoreWithoutStore); }
      curr := store;
      store := null;
      S.SameRooted(st, st.(curr := st.store, store := None));
      st := st.(curr := st.store, store := None);
      return Ok(());
    }

    // ---------------------------------------------------------------- entries

    /** Append a record to the current section. */
    method PushEntry(val: Entry<Symbol>)
      requires Valid() && curr != null && KnownEntry(val, syms)
      modifies this`st, this`pool, curr`first, curr`curr, curr`nodes, pool
      ensures Valid() && st == old(S.PushEntry(st, AbsEntry(val)))
      ensures fresh(pool - old(pool))
    {
      hide SymsAre, AllUnwritten, SecsAre, Chained, S.Rooted, KnownEntry, KnownNodes, EntrySize;
      ghost var c := st.curr.value;
      var n := new Node(val);
      AbsSize(val);
      AppendNode(curr, n, secs, st.secs, pool, c);
      S.SameRooted(st, st.(secs := st.secs[c := st.secs[c].(entries := st.secs[c].entries + [AbsEntry(val)])]));
      st := st.(secs := st.secs[c := st.secs[c].(entries := st.secs[c].entries + [AbsEntry(val)])]);
      pool := pool + {n};
      forall i | 0 <= i < |secs| ensures KnownNodes(secs[i].nodes, syms) {
        assert old(KnownNodes(secs[i].nodes, syms));
        if secs[i] == curr { KnownPlus(old(curr.nodes), n, syms); }
      }
    }

    /** `cs_push_instr`. */
    method PushInstr(opsize: nat, ops: Word, eas: seq<Ea<Symbol>>, addr: nat) returns (r: Result<()>)
      requires Valid() && (curr != null || Unused(addr)) && KnownEas(eas, syms)
      modifies this`first, this`last, this`curr, this`st, this`secs, this`pool
      modifies secs`next, secs`first, secs`curr, secs`nodes, pool
      ensures r.Ok? <==> old(S.PushInstr(st, opsize, ops, AbsEas(eas))).Ok?
      ensures r.Fail? ==> old(S.PushInstr(st, opsize, ops, AbsEas(eas))) == Fail(r.error)
      ensures r.Ok? ==> Valid() && st == old(S.PushInstr(st, opsize, ops, AbsEas(eas))).value
      ensures old(secs) <= secs && (forall s | s in secs && s !in old(secs) :: fresh(s) && s.addr == addr)
      ensures old(curr) != null ==> secs == old(secs)
      ensures fresh(pool - old(pool))
    {
      hide SymsAre, AllUnwritten, SecsAre, Chained, AllKnown, S.Rooted;
      if opsize != 2 { return Fail(InvalidInstructionSize); }
      if |eas| > S.EA_ROOM { return Fail(BufferOverrun); }
      EnsureSection(addr);
      assert curr in secs;
      PushEntry(Instr(opsize, ops, eas));
      return Ok(());
    }

    /** `cs_push_data`. */
    method PushData(size: nat, value: Long, repeat: Long, tag: Option<Symbol>, addr: nat) returns (r: Result<()>)
      requires Valid() && (curr != null || Unused(addr)) && (tag.Some? ==> Known(tag.value, syms))
      modifies this`first, this`last, this`curr, this`st, this`secs, this`pool
      modifies secs`next, secs`first, secs`curr, secs`nodes, pool
      ensures r.Ok? <==> old(S.PushData(st, size, value, repeat, AbsRef(tag))).Ok?
      ensures r.Fail? ==> old(S.PushData(st, size, value, repeat, AbsRef(tag))) == Fail(r.error)
      ensures r.Ok? ==> Valid() && st == old(S.PushData(st, size, value, repeat, AbsRef(tag))).value
      ensures old(secs) <= secs && (forall s | s in secs && s !in old(secs) :: fresh(s) && s.addr == addr)
      ensures old(curr) != null ==> secs == old(secs)
      ensures fresh(pool - old(pool))
    {
      hide SymsAre, AllUnwritten, SecsAre, Chained, AllKnown, S.Rooted;
      if tag.Some? && size != 4 { return Fail(InvalidAddressSize); }
      if size != 1 && size != 2 && size != 4 { return Fail(InvalidInstructionSize); }
      EnsureSection(addr);
      assert curr in secs;
      PushEntry(Data(size, repeat, S.Truncate(size, value), tag));
      return Ok(());
    }

    /** `cs_push_symbol`. */
    method PushSymbol(symbol: Symbol, addr: nat)
      requires Valid() && (curr != null || Unused(addr)) && Known(symbol, syms)
      modifies this`first, this`last, this`curr, this`st, this`secs, this`pool, symbol`sec
      modifies secs`next, secs`first, secs`curr, secs`nodes, pool
      ensures symbol.id < |old(st.syms)|
      ensures Valid() && st == old(S.PushSymbol(st, symbol.id))
      ensures old(secs) <= secs && (forall s | s in secs && s !in old(secs) :: fresh(s) && s.addr == addr)
      ensures old(curr) != null ==> secs == old(secs)
      ensures fresh(pool - old(pool))
    {
      hide SymsAre, AllUnwritten, SecsAre, Chained, AllKnown, S.Rooted;
      SymAt(syms, st.syms, secs, symbol.id);
      EnsureSection(addr);
      ghost var c := st.curr.value;
      SetSection(symbol, curr, syms, st.syms, secs, c);
      S.PlacedRooted(st, symbol.id, c);
      st := st.(syms := st.syms[symbol.id := st.syms[symbol.id].(sec := Some(c))]);
      assert curr in secs;
      PushEntry(Label(symbol));
    }
  }
}
