/** What a load file means in terms of its source: the fields that the lines ask for hold the addresses of
    the labels that their names stand for. */
module SourceMeaning {
  import opened Basics
  import opened Entries
  import opened Meaning
  import opened Executable
  import opened StoreRuns
  import opened Naming
  import A = Agreement
  import C = Constants
  import P = Pass2
  import S = Store

  ghost predicate LabelIn(p: Program, i: nat, k: Key) {
    i < |p.parts| && Label(k) in p.parts[i].entries
  }

  /** Memory holds the program whose sections start at `bases`: labels name places of the program, and
      every field, read back the way the CPU reads it, gives its operand. */
  ghost predicate Holds(imgs: seq<seq<Byte>>, p: Program, bases: seq<Long>, addr: Addresses<Key>) {
    && |imgs| == |bases| == |p.parts|
    && (forall k | k in addr :: exists i :: LabelIn(p, i, k))
    && (forall i | 0 <= i < |imgs| :: PartHeld(imgs[i], p.parts[i], bases[i], addr))
  }

  ghost predicate PartHeld(img: seq<Byte>, part: Part, base: Long, addr: Addresses<Key>) {
    && LabelsAt(part.entries, 0, base, addr)
    && var size := Place(part.entries, |part.entries|);
    && (Bss !in part.flags ==> EntriesAt(img, part.entries, 0, base, addr) && Filled(img, size))
    && (Bss in part.flags ==> Cleared(img, size))
  }

  /** Where an entry stands in its section. */
  ghost function Place(es: seq<Entry<Key>>, m: nat): nat
    requires m <= |es|
  {
    if m == 0 then 0 else Width(es[0]) + Place(es[1..], m - 1)
  }

  ghost function PartFlags(p: Program): (r: seq<set<SecFlag>>)
    ensures |r| == |p.parts| && forall i | 0 <= i < |r| :: r[i] == p.parts[i].flags
  {
    seq(|p.parts|, i requires 0 <= i < |p.parts| => p.parts[i].flags)
  }

  /** The file has a hunk of the right kind for each section, and wherever they are loaded, it puts the program in
      memory. */
  ghost predicate Means(file: seq<Byte>, p: Program) {
    && HunksSay(file, PartFlags(p))
    && forall bases: seq<Long> | |bases| == |p.parts| ::
         LoadFile(file, bases).Some?
         && exists addr: Addresses<Key> :: Holds(LoadFile(file, bases).value, p, bases, addr)
  }

  // ---------------------------------------------------------------- labels for symbol records

  /** The addresses of symbol records are the addresses of the labels they stand for. */
  ghost predicate Renames(syms: seq<S.Sym>, addr: Addresses<nat>, named: Addresses<Key>)
    requires Rootless(syms)
  {
    forall s | s in addr :: s < |syms| && IdKey(syms, s) in named && named[IdKey(syms, s)] == addr[s]
  }

  lemma EaKeyed(img: seq<Byte>, ea: Ea<nat>, pos: nat, base: Long, syms: seq<S.Sym>, addr: Addresses<nat>,
                named: Addresses<Key>)
    requires Rootless(syms) && Renames(syms, addr, named) && (ea.sym.Some? ==> ea.sym.value < |syms|)
    requires EaAt(img, ea, pos, base, addr)
    ensures EaAt(img, Ea(ea.mode, ea.reg, ea.ew, RefKey(syms, ea.sym)), pos, base, named)
  {
    hide Wrap32, Read16, Read32, SignExtend16;
  }

  lemma {:induction false} EasHeld(img: seq<Byte>, eas: seq<Ea<nat>>, pos: nat, base: Long, syms: seq<S.Sym>,
                                   addr: Addresses<nat>, named: Addresses<Key>)
    requires Rootless(syms) && Renames(syms, addr, named) && EasBelow(eas, |syms|)
    requires EasAt(img, eas, pos, base, addr)
    ensures EasAt(img, EasKeyed(syms, eas), pos, base, named)
    decreases |eas|
  {
    hide EaAt;
    if eas == [] {
    } else {
      EaKeyed(img, eas[0], pos, base, syms, addr, named);
      EasHeld(img, eas[1..], pos + 2 * |eas[0].ew|, base, syms, addr, named);
      assert EasKeyed(syms, eas)[1..] == EasKeyed(syms, eas[1..]);
    }
  }

  lemma {:induction false} CopiesHeld(img: seq<Byte>, e: Entry<nat>, k: Entry<Key>, pos: nat, copies: nat,
                                      syms: seq<S.Sym>, addr: Addresses<nat>, named: Addresses<Key>)
    requires Rootless(syms) && Renames(syms, addr, named) && TellsEntry(syms, e, k) && e.Data?
    requires CopiesAt(img, e, pos, copies, addr)
    ensures CopiesAt(img, k, pos, copies, named)
    decreases copies
  {
    hide Read16, Read32;
    if copies == 0 {
    } else {
      CopiesHeld(img, e, k, pos + e.dsize, copies - 1, syms, addr, named);
    }
  }

  lemma EntryHeld(img: seq<Byte>, e: Entry<nat>, k: Entry<Key>, pos: nat, base: Long, syms: seq<S.Sym>,
                  addr: Addresses<nat>, named: Addresses<Key>)
    requires Rootless(syms) && Renames(syms, addr, named) && TellsEntry(syms, e, k) && EntryAt(img, e, pos, base, addr)
    ensures EntryAt(img, k, pos, base, named)
  {
    hide Read16, Read32, Renames, CopiesAt, EasAt, IdKey, RefKey;
    match e
    case Instr(_, _, eas) => EasHeld(img, eas, pos + 2, base, syms, addr, named);
    case Data(_, repeat, _, _) => CopiesHeld(img, e, k, pos, repeat, syms, addr, named);
    case Label(_) =>
  }

  lemma {:induction false} EasKeyedSize(syms: seq<S.Sym>, eas: seq<Ea<nat>>)
    requires Rootless(syms) && EasBelow(eas, |syms|)
    ensures EwBytes(EasKeyed(syms, eas)) == EwBytes(eas)
    decreases |eas|
  {
    if eas == [] {
    } else {
      EasKeyedSize(syms, eas[1..]);
      assert EasKeyed(syms, eas)[1..] == EasKeyed(syms, eas[1..]);
    }
  }

  lemma SameWidth(syms: seq<S.Sym>, e: Entry<nat>, k: Entry<Key>)
    requires Rootless(syms) && TellsEntry(syms, e, k)
    ensures Width(k) == Width(e) && Emitted(k) == Emitted(e)
  {
    if e.Instr? { EasKeyedSize(syms, e.eas); }
  }

  lemma TailTold(syms: seq<S.Sym>, es: seq<Entry<nat>>, ks: seq<Entry<Key>>)
    requires Rootless(syms) && TellsEntries(syms, es, ks) && es != []
    ensures ks != [] && TellsEntry(syms, es[0], ks[0]) && TellsEntries(syms, es[1..], ks[1..])
  {
    hide TellsEntry;
  }

  lemma {:induction false} EntriesHeld(img: seq<Byte>, es: seq<Entry<nat>>, ks: seq<Entry<Key>>, pos: nat, base: Long,
                                       syms: seq<S.Sym>, addr: Addresses<nat>, named: Addresses<Key>)
    requires Rootless(syms) && Renames(syms, addr, named) && TellsEntries(syms, es, ks)
    ensures EntriesAt(img, es, pos, base, addr) ==> EntriesAt(img, ks, pos, base, named)
    ensures LabelsAt(es, pos, base, addr) ==> LabelsAt(ks, pos, base, named)
    ensures |ks| == |es| && (AllPlain(es) ==> Place(ks, |ks|) == TotalEmitted(es))
    decreases |es|
  {
    hide EntryAt, TellsEntries, Wrap32, Width, Emitted, Plain;
    if es == [] {
      assert ks == [] by { NothingTold(syms, ks); }
    } else {
      TailTold(syms, es, ks);
      SameWidth(syms, es[0], ks[0]);
      if AllPlain(es) {
        PlainTail(es);
        PlainWidth(es[0]);
      }
      EntriesHeld(img, es[1..], ks[1..], pos + Width(es[0]), base, syms, addr, named);
      if EntryAt(img, es[0], pos, base, addr) { EntryHeld(img, es[0], ks[0], pos, base, syms, addr, named); }
    }
  }

  lemma PlainWidth(e: Entry<nat>)
    requires Plain(e)
    ensures Width(e) == Emitted(e)
  {
  }

  lemma NothingTold(syms: seq<S.Sym>, ks: seq<Entry<Key>>)
    requires Rootless(syms) && TellsEntries(syms, [], ks)
    ensures ks == []
  {
  }

  lemma KeysUnique(st: S.State)
    requires TableOk(st) && Rootless(st.syms)
    ensures forall p, q | 0 <= p < |st.syms| && 0 <= q < |st.syms| && IdKey(st.syms, p) == IdKey(st.syms, q) :: p == q
  {
    forall p, q | 0 <= p < |st.syms| && 0 <= q < |st.syms| && IdKey(st.syms, p) == IdKey(st.syms, q) ensures p == q {
      KeyUnique(st, p, q);
    }
  }

  /** Addresses by label. */
  ghost function Named(st: S.State, addr: Addresses<nat>): (r: Addresses<Key>)
    requires TableOk(st) && Rootless(st.syms) && forall s | s in addr :: s < |st.syms|
    ensures Renames(st.syms, addr, r)
    ensures forall k | k in r :: exists s :: s in addr && IsKey(st.syms, s, k)
  {
    KeysUnique(st);
    map s | s in addr :: IdKey(st.syms, s) := addr[s]
  }

  lemma LabelTold(st: S.State, p: Program, s: nat, i: nat)
    requires Tells(st, p) && i < |st.secs| && Label(s) in st.secs[i].entries
    ensures s < |st.syms| && LabelIn(p, i, IdKey(st.syms, s))
  {
    hide TableOk, TellsNames, TellsLabels, S.Rooted, S.Current;
    var m :| 0 <= m < |st.secs[i].entries| && st.secs[i].entries[m] == Label(s);
    assert TellsEntry(st.syms, st.secs[i].entries[m], p.parts[i].entries[m]);
  }

  lemma Resolved(lay: P.Layout, bases: seq<Long>, s: nat)
    requires lay.Valid() && |bases| == |lay.secs| && s in AddressOf(lay, bases)
    ensures s in lay.place && Label(s) in lay.secs[lay.place[s]]
  {
    A.SearchExact(lay.secs[lay.place[s]], s, 0);
  }

  /** The addresses of the symbols that pass 2 can resolve are those of the labels in the program. */
  lemma NamedLabels(st: S.State, p: Program, bases: seq<Long>, k: Key)
    requires StoreOk(st) && Tells(st, p) && LayoutOf(st).Valid() && |bases| == |LayoutOf(st).secs|
    requires TableOk(st) && Rootless(st.syms)
    requires forall s | s in AddressOf(LayoutOf(st), bases) :: s < |st.syms|
    requires k in Named(st, AddressOf(LayoutOf(st), bases))
    ensures exists i :: LabelIn(p, i, k)
  {
    hide StoreOk, TableOk, Tells, AddressOf, Rootless, LabelIn;
    var lay := LayoutOf(st);
    var s :| s in AddressOf(lay, bases) && IsKey(st.syms, s, k);
    Resolved(lay, bases, s);
    LabelTold(st, p, s, lay.place[s]);
  }

  /** Memory that holds the stored program holds the program of the source. */
  lemma StoredHeld(st: S.State, p: Program, bases: seq<Long>, imgs: seq<seq<Byte>>) returns (named: Addresses<Key>)
    requires StoreOk(st) && Tells(st, p) && LayoutOf(st).Valid() && |bases| == |imgs| == |st.secs|
    requires Realizes(imgs, LayoutOf(st), FlagsOf(st.secs), bases, AddressOf(LayoutOf(st), bases))
    ensures Holds(imgs, p, bases, named)
  {
    hide StoreOk, TellsNames, TellsLabels, EntriesAt, LabelsAt, Wrap32, TellsEntries, P.SymbolOffset, Named,
         Renames, TableOk, Filled, Cleared, AllPlain;
    var addr := AddressOf(LayoutOf(st), bases);
    StoreTable(st);
    StorePlain(st);
    assert forall s | s in addr :: s < |st.syms|;
    named := Named(st, addr);
    forall k | k in named ensures exists i :: LabelIn(p, i, k) {
      NamedLabels(st, p, bases, k);
    }
    forall i | 0 <= i < |imgs| ensures PartHeld(imgs[i], p.parts[i], bases[i], named) {
      EntriesHeld(imgs[i], st.secs[i].entries, p.parts[i].entries, 0, bases[i], st.syms, addr, named);
    }
  }

  lemma StoreTable(st: S.State)
    requires StoreOk(st)
    ensures TableOk(st)
  {
  }

  lemma StorePlain(st: S.State)
    requires StoreOk(st)
    ensures forall i | 0 <= i < |st.secs| :: AllPlain(st.secs[i].entries)
  {
    hide Plain;
    forall i, j | 0 <= i < |st.secs| && 0 <= j < |st.secs[i].entries| ensures Plain(st.secs[i].entries[j]) {
      assert SecOk(st, i) && EntryOk(st, i, st.secs[i].entries[j]);
    }
  }

  lemma SameFlags(st: S.State, p: Program)
    requires Tells(st, p)
    ensures FlagsOf(st.secs) == PartFlags(p)
  {
  }

  /** The file written for a store means the program that the store tells. */
  lemma FileMeans(st: S.State, p: Program, addr: seq<nat>)
    requires StoreOk(st) && Tells(st, p) && |st.secs| == |addr| < 0x1_0000_0000
    ensures LayoutOf(st).Valid() && |LayoutOf(st).secs| == |FlagsOf(st.secs)|
    ensures var file := Link(LayoutOf(st), FlagsOf(st.secs), addr); file.Ok? ==> Means(file.value, p)
  {
    hide StoreOk, Tells, Link, LoadFile, Realizes, Holds, HunksSay;
    StoredProgram(st);
    TellsSize(st, p);
    SameFlags(st, p);
    var lay, flags := LayoutOf(st), FlagsOf(st.secs);
    var file := Link(lay, flags, addr);
    if file.Ok? {
      HunksRead(lay, flags, addr);
      forall bases: seq<Long> | |bases| == |p.parts|
        ensures LoadFile(file.value, bases).Some?
        ensures exists named: Addresses<Key> :: Holds(LoadFile(file.value, bases).value, p, bases, named)
      {
        EndToEnd(lay, flags, addr, bases);
        var named := StoredHeld(st, p, bases, LoadFile(file.value, bases).value);
      }
    }
  }

  lemma TellsSize(st: S.State, p: Program)
    requires Tells(st, p)
    ensures |p.parts| == |st.secs| == |FlagsOf(st.secs)|
  {
  }

  // ---------------------------------------------------------------- a longword with a name

  lemma {:induction false} EntryAtPlace(img: seq<Byte>, es: seq<Entry<Key>>, pos: nat, base: Long,
                                        addr: Addresses<Key>, m: nat)
    requires EntriesAt(img, es, pos, base, addr) && m < |es|
    ensures EntryAt(img, es[m], pos + Place(es, m), base, addr)
    decreases m
  {
    hide EntryAt, Width;
    if m == 0 {
    } else {
      EntryAtPlace(img, es[1..], pos + Width(es[0]), base, addr, m - 1);
    }
  }

  lemma {:induction false} LabelAtPlace(es: seq<Entry<Key>>, pos: nat, base: Long, addr: Addresses<Key>, m: nat)
    requires LabelsAt(es, pos, base, addr) && m < |es| && es[m].Label?
    ensures es[m].sym in addr && addr[es[m].sym] == Wrap32(base + pos + Place(es, m))
    decreases m
  {
    hide Wrap32, Width;
    if m == 0 {
    } else {
      LabelAtPlace(es[1..], pos + Width(es[0]), base, addr, m - 1);
    }
  }

  /** The longword at entry m of section i of the loaded program is the address of the place where the
      label k stands. */
  ghost predicate LongwordIsLabel(imgs: seq<seq<Byte>>, p: Program, bases: seq<Long>, i: nat, m: nat, k: Key)
    requires |imgs| == |bases| == |p.parts| && i < |imgs| && m < |p.parts[i].entries|
  {
    var pos := Place(p.parts[i].entries, m);
    exists j, n ::
      && 0 <= j < |imgs| && 0 <= n < |p.parts[j].entries| && p.parts[j].entries[n] == Label(k)
      && pos + 4 <= |imgs[i]|
      && Read32(imgs[i], pos) == Wrap32(bases[j] + Place(p.parts[j].entries, n))
  }

  lemma LongwordHeld(imgs: seq<seq<Byte>>, p: Program, bases: seq<Long>, addr: Addresses<Key>, i: nat, m: nat, k: Key)
    requires Holds(imgs, p, bases, addr) && i < |imgs| && m < |p.parts[i].entries| && Bss !in p.parts[i].flags
    requires p.parts[i].entries[m] == Data(4, 1, 0, Some(k))
    ensures LongwordIsLabel(imgs, p, bases, i, m, k)
  {
    hide Wrap32, Read32, LabelsAt, EntriesAt;
    var es := p.parts[i].entries;
    assert PartHeld(imgs[i], p.parts[i], bases[i], addr);
    EntryAtPlace(imgs[i], es, 0, bases[i], addr, m);
    OneCopy(imgs[i], es[m], Place(es, m), bases[i], addr);
    var j: nat :| LabelIn(p, j, k);
    var n :| 0 <= n < |p.parts[j].entries| && p.parts[j].entries[n] == Label(k);
    assert PartHeld(imgs[j], p.parts[j], bases[j], addr);
    LabelAtPlace(p.parts[j].entries, 0, bases[j], addr, n);
  }

  lemma OneCopy(img: seq<Byte>, e: Entry<Key>, pos: nat, base: Long, addr: Addresses<Key>)
    requires e.Data? && e.repeat == 1 && EntryAt(img, e, pos, base, addr)
    ensures DataAt(img, e, pos, addr)
  {
    assert CopiesAt(img, e, pos, 1, addr);
  }

  /** What is said in front of the items of line n. */
  ghost function InFront(lines: seq<S.Line>, n: nat): (r: Program)
    requires n < |lines| && forall line | line in lines :: S.LineNamed(line)
    requires Said(BLANK, lines[..n]).Ok? && S.LineNamed(lines[n])
    requires Labelled(Said(BLANK, lines[..n]).value, lines[n]).Ok?
    ensures r.Valid() && r.curr.Some?
  {
    Ready(Labelled(Said(BLANK, lines[..n]).value, lines[n]).value)
  }

  lemma LineInside(lines: seq<S.Line>, n: nat, p: Program)
    requires n < |lines| && (forall line | line in lines :: S.LineNamed(line)) && Said(BLANK, lines) == Ok(p)
    requires lines[n].action.Emit?
    ensures Said(BLANK, lines[..n]).Ok? && S.LineNamed(lines[n])
    ensures Labelled(Said(BLANK, lines[..n]).value, lines[n]).Ok?
    ensures var p1 := Labelled(Said(BLANK, lines[..n]).value, lines[n]).value;
      AddItems(p1, lines[n].action.items).Ok? && Continues(AddItems(p1, lines[n].action.items).value, p)
  {
    hide Labelled, AddItems;
    assert lines[n] in lines;
    SaidSplit(BLANK, lines, n);
    var rest := lines[n..];
    assert rest[0] == lines[n];
    forall line | line in rest ensures S.LineNamed(line) { assert line in lines; }
    SaidContinues(After(Said(BLANK, lines[..n]).value, lines[n]).value, rest[1..]);
  }

  /** From an item of a source line to memory, whatever the item: item q of line n becomes the entry behind
      what was said in front of it, with the labels that its names stand for there, and memory holds this
      entry at its place. */
  lemma ItemMeaning(lines: seq<S.Line>, n: nat, q: nat, p: Program, imgs: seq<seq<Byte>>, bases: seq<Long>,
                    addr: Addresses<Key>)
    requires n < |lines| && (forall line | line in lines :: S.LineNamed(line)) && Said(BLANK, lines) == Ok(p)
    requires lines[n].action.Emit? && q < |lines[n].action.items| && Holds(imgs, p, bases, addr)
    ensures Said(BLANK, lines[..n]).Ok? && S.LineNamed(lines[n])
    ensures Labelled(Said(BLANK, lines[..n]).value, lines[n]).Ok?
    ensures var before, items := InFront(lines, n), lines[n].action.items;
      var i := before.curr.value;
      var m, told := |before.parts[i].entries| + q, TagItem(NamesBefore(before.globals, items, q), items[q]);
      && |imgs| == |bases| == |p.parts| && i < |p.parts| && p.parts[i].flags == before.parts[i].flags
      && told.Ok? && m < |p.parts[i].entries| && p.parts[i].entries[m] == told.value.1
      && (Bss !in before.parts[i].flags ==>
            EntryAt(imgs[i], told.value.1, Place(p.parts[i].entries, m), bases[i], addr))
  {
    hide Said, Labelled, AddItems, Ready, EntryAt, NamesBefore, TagItem, EntriesAt, LabelsAt, Wrap32;
    LineInside(lines, n, p);
    var p1, items := Labelled(Said(BLANK, lines[..n]).value, lines[n]).value, lines[n].action.items;
    var before := InFront(lines, n);
    var i := before.curr.value;
    var m := |before.parts[i].entries| + q;
    ItemsPlaced(p1, items);
    var p2 := AddItems(p1, items).value;
    assert EntryOf(p1, p2, i, items, q);
    assert p.parts[i].entries[m] == p2.parts[i].entries[m];
    assert PartHeld(imgs[i], p.parts[i], bases[i], addr);
    if Bss !in before.parts[i].flags { EntryAtPlace(imgs[i], p.parts[i].entries, 0, bases[i], addr, m); }
  }

  /** From a name in a source line to the loaded longword. If the name stands for a label where it is written,
      the longword is the address of the place where that label stands; if it stands for nothing, the longword
      is zero. */
  lemma ReferenceMeaning(lines: seq<S.Line>, n: nat, q: nat, t: string, p: Program, imgs: seq<seq<Byte>>,
                         bases: seq<Long>, addr: Addresses<Key>)
    requires n < |lines| && (forall line | line in lines :: S.LineNamed(line)) && Said(BLANK, lines) == Ok(p)
    requires lines[n].action.Emit? && q < |lines[n].action.items| && t != ""
    requires lines[n].action.items[q] == S.Constant(4, 0, Some(t))
    requires Holds(imgs, p, bases, addr)
    ensures Said(BLANK, lines[..n]).Ok? && S.LineNamed(lines[n])
    ensures Labelled(Said(BLANK, lines[..n]).value, lines[n]).Ok?
    ensures var before, items := InFront(lines, n), lines[n].action.items;
      var i := before.curr.value;
      var m, k := |before.parts[i].entries| + q, KeyOf(NamesBefore(before.globals, items, q), t);
      && |imgs| == |bases| == |p.parts| && i < |p.parts| && m < |p.parts[i].entries|
      && p.parts[i].entries[m] == Data(4, 1, 0, k)
      && (Bss !in before.parts[i].flags ==>
            match k case Some(l) => LongwordIsLabel(imgs, p, bases, i, m, l) case None => LongwordIsZero(imgs, p, i, m))
  {
    hide Said, Labelled, Ready, Holds, LongwordIsLabel, NamesBefore, KeyOf, TagItem, EntryAt, Read32;
    ItemMeaning(lines, n, q, p, imgs, bases, addr);
    var before, items := InFront(lines, n), lines[n].action.items;
    var i, g := before.curr.value, NamesBefore(before.globals, items, q);
    var m, k := |before.parts[i].entries| + q, KeyOf(g, t);
    ConstantTold(g, t);
    if Bss !in before.parts[i].flags {
      if k.Some? {
        LongwordHeld(imgs, p, bases, addr, i, m, k.value);
      } else {
        OneCopy(imgs[i], p.parts[i].entries[m], Place(p.parts[i].entries, m), bases[i], addr);
      }
    }
  }

  /** A number of one, two or four bytes stands at a place of memory, most significant byte first. */
  ghost predicate NumberIn(img: seq<Byte>, pos: nat, size: nat, v: int) {
    match size
    case 1 => pos + 1 <= |img| && img[pos] == v
    case 2 => pos + 2 <= |img| && Read16(img, pos) == v
    case 4 => pos + 4 <= |img| && Read32(img, pos) == v
    case _ => false
  }

  /** From a number in a source line to memory: its low byte, low word or the longword, as its size asks, stands at
      the place of the item. */
  lemma NumberMeaning(lines: seq<S.Line>, n: nat, q: nat, size: nat, v: Long, p: Program, imgs: seq<seq<Byte>>,
                      bases: seq<Long>, addr: Addresses<Key>)
    requires n < |lines| && (forall line | line in lines :: S.LineNamed(line)) && Said(BLANK, lines) == Ok(p)
    requires lines[n].action.Emit? && q < |lines[n].action.items|
    requires lines[n].action.items[q] == S.Constant(size, v, None) && Holds(imgs, p, bases, addr)
    ensures Said(BLANK, lines[..n]).Ok? && S.LineNamed(lines[n])
    ensures Labelled(Said(BLANK, lines[..n]).value, lines[n]).Ok?
    ensures var before := InFront(lines, n);
      var i := before.curr.value;
      var m := |before.parts[i].entries| + q;
      && |imgs| == |bases| == |p.parts| && i < |p.parts| && m < |p.parts[i].entries|
      && size in {1, 2, 4} && Width(p.parts[i].entries[m]) == size
      && (Bss !in before.parts[i].flags ==>
            NumberIn(imgs[i], Place(p.parts[i].entries, m), size,
                     if size == 1 then v % 0x100 else if size == 2 then v % 0x1_0000 else v))
  {
    hide Said, Labelled, Ready, Holds, NamesBefore, EntryAt, TagItem, Read16, Read32;
    ItemMeaning(lines, n, q, p, imgs, bases, addr);
    var before, items := InFront(lines, n), lines[n].action.items;
    var i := before.curr.value;
    var m := |before.parts[i].entries| + q;
    NumberTold(NamesBefore(before.globals, items, q), size, v);
    if Bss !in before.parts[i].flags {
      OneCopy(imgs[i], p.parts[i].entries[m], Place(p.parts[i].entries, m), bases[i], addr);
    }
  }

  lemma NumberTold(g: seq<string>, size: nat, v: Long)
    requires TagItem(g, S.Constant(size, v, None)).Ok?
    ensures size in {1, 2, 4}
    ensures var kept := if size == 1 then v % 0x100 else if size == 2 then v % 0x1_0000 else v;
      TagItem(g, S.Constant(size, v, None)) == Ok((g, Data(size, 1, kept, None)))
  {
  }

  lemma ConstantTold(g: seq<string>, t: string)
    requires t != ""
    ensures TagItem(g, S.Constant(4, 0, Some(t))) == Ok((Mention(g, t), Data(4, 1, 0, KeyOf(g, t))))
  {
  }

  ghost predicate LongwordIsZero(imgs: seq<seq<Byte>>, p: Program, i: nat, m: nat)
    requires |imgs| == |p.parts| && i < |imgs| && m < |p.parts[i].entries|
  {
    NumberIn(imgs[i], Place(p.parts[i].entries, m), 4, 0)
  }

  /** A label stands in one place only. */
  lemma LabelStandsOnce(lines: seq<S.Line>, p: Program, k: Key, i: nat, m: nat, j: nat, n: nat)
    requires (forall line | line in lines :: S.LineNamed(line) && LineOk(line)) && Said(BLANK, lines) == Ok(p)
    requires i < |p.parts| && m < |p.parts[i].entries| && p.parts[i].entries[m] == Label(k)
    requires j < |p.parts| && n < |p.parts[j].entries| && p.parts[j].entries[n] == Label(k)
    ensures i == j && m == n
  {
    hide Said, S.Run, StoreOk, Tells;
    BlankTells();
    RunTells(S.EMPTY, BLANK, lines);
    EmptyOk();
    RunOk(S.EMPTY, lines);
    StoredOnce(S.Run(S.EMPTY, lines).value, p, k, i, m, j, n);
  }

  lemma StoredOnce(st: S.State, p: Program, k: Key, i: nat, m: nat, j: nat, n: nat)
    requires StoreOk(st) && Tells(st, p)
    requires i < |p.parts| && m < |p.parts[i].entries| && p.parts[i].entries[m] == Label(k)
    requires j < |p.parts| && n < |p.parts[j].entries| && p.parts[j].entries[n] == Label(k)
    ensures i == j && m == n
  {
    hide TableOk, SymPlaced, TellsNames, TellsLabels, Plain;
    var s := LabelRecord(st, p, k, i, m);
    var t := LabelRecord(st, p, k, j, n);
    KeyUnique(st, s, t);
    assert SecOk(st, i) && SecOk(st, j);
    assert EntryOk(st, i, st.secs[i].entries[m]) && EntryOk(st, j, st.secs[j].entries[n]);
  }

  /** The record whose label stands at an entry. */
  lemma LabelRecord(st: S.State, p: Program, k: Key, i: nat, m: nat) returns (s: nat)
    requires Tells(st, p) && i < |p.parts| && m < |p.parts[i].entries| && p.parts[i].entries[m] == Label(k)
    ensures i < |st.secs| && m < |st.secs[i].entries| && st.secs[i].entries[m] == Label(s)
    ensures s < |st.syms| && IdKey(st.syms, s) == k
  {
    hide TableOk, TellsNames, TellsLabels;
    assert TellsEntry(st.syms, st.secs[i].entries[m], p.parts[i].entries[m]);
    s := st.secs[i].entries[m].sym;
  }

  // ---------------------------------------------------------------- a label

  /** The label that a name stands for: with a full stop in front or a dollar sign behind it belongs to the global
      that was mentioned last for the first time. */
  ghost function LabelFor(globals: seq<string>, name: string): Key
    requires name != "" && (name[0] == '.' || name[|name| - 1] == '$' ==> globals != [])
  {
    if name[0] == '.' || name[|name| - 1] == '$' then Local(globals[|globals| - 1], name) else Global(name)
  }

  /** From the label of a source line to memory: it stands behind what was said before in the current section, and
      its address is the address of this place. */
  lemma LabelMeaning(lines: seq<S.Line>, n: nat, name: string, p: Program, imgs: seq<seq<Byte>>, bases: seq<Long>,
                     addr: Addresses<Key>)
    requires n < |lines| && (forall line | line in lines :: S.LineNamed(line)) && Said(BLANK, lines) == Ok(p)
    requires lines[n].declares == Some(name) && !lines[n].action.Equate? && Holds(imgs, p, bases, addr)
    ensures name != "" && Said(BLANK, lines[..n]).Ok?
    ensures var before := Said(BLANK, lines[..n]).value;
      && (name[0] == '.' || name[|name| - 1] == '$' ==> before.globals != [])
      && var k, r := LabelFor(before.globals, name), Ready(before);
      && var i, m := r.curr.value, |r.parts[r.curr.value].entries|;
      && |bases| == |p.parts| && i < |p.parts| && m < |p.parts[i].entries| && p.parts[i].entries[m] == Label(k)
      && k in addr && addr[k] == Wrap32(bases[i] + Place(p.parts[i].entries, m))
  {
    hide Said, Act, EntriesAt, LabelsAt, Place, Filled, Cleared, Wrap32;
    SaidNext(lines, n);
    var before := Said(BLANK, lines[..n]).value;
    LabelAdded(before, lines[n], name);
    var r := Ready(before);
    var i, m, k := r.curr.value, |r.parts[r.curr.value].entries|, LabelFor(before.globals, name);
    var next := Said(BLANK, lines[..n + 1]).value;
    assert next.parts[i].entries[m] == Label(k) && next.parts[i].entries <= p.parts[i].entries;
    assert PartHeld(imgs[i], p.parts[i], bases[i], addr);
    LabelAtPlace(p.parts[i].entries, 0, bases[i], addr, m);
  }

  lemma LabelAdded(p: Program, line: S.Line, name: string)
    requires p.Valid() && S.LineNamed(line) && After(p, line).Ok?
    requires line.declares == Some(name) && !line.action.Equate?
    ensures name != "" && (name[0] == '.' || name[|name| - 1] == '$' ==> p.globals != [])
    ensures var i, p' := Ready(p).curr.value, After(p, line).value;
      && i < |p'.parts| && Ready(p).parts[i].entries + [Label(LabelFor(p.globals, name))] <= p'.parts[i].entries
  {
    hide Act, Mention;
    ActContinues(Labelled(p, line).value, line.action);
  }

  // ---------------------------------------------------------------- a string

  lemma {:induction false} PlaceStep(es: seq<Entry<Key>>, m: nat)
    requires m < |es|
    ensures Place(es, m + 1) == Place(es, m) + Width(es[m])
    decreases m
  {
    hide Width;
    if m == 0 {
      assert Place(es[1..], 0) == 0;
    } else {
      PlaceStep(es[1..], m - 1);
    }
  }

  lemma {:induction false} PlaceBytes(es: seq<Entry<Key>>, m: nat, q: nat)
    requires m + q <= |es| && forall r | m <= r < m + q :: Width(es[r]) == 1
    ensures Place(es, m + q) == Place(es, m) + q
    decreases q
  {
    hide Width;
    if q == 0 {
    } else {
      PlaceBytes(es, m, q - 1);
      PlaceStep(es, m + (q - 1));
    }
  }

  /** One byte of a string. */
  lemma ByteMeaning(lines: seq<S.Line>, n: nat, bs: seq<Byte>, q: nat, p: Program, imgs: seq<seq<Byte>>,
                    bases: seq<Long>, addr: Addresses<Key>)
    requires n < |lines| && (forall line | line in lines :: S.LineNamed(line)) && Said(BLANK, lines) == Ok(p)
    requires lines[n].action == S.Emit(C.ByteItems(bs)) && q < |bs| && Holds(imgs, p, bases, addr)
    ensures Said(BLANK, lines[..n]).Ok? && S.LineNamed(lines[n])
    ensures Labelled(Said(BLANK, lines[..n]).value, lines[n]).Ok?
    ensures var before := InFront(lines, n);
      var i := before.curr.value;
      var m := |before.parts[i].entries| + q;
      && |imgs| == |bases| == |p.parts| && i < |p.parts| && m < |p.parts[i].entries|
      && Width(p.parts[i].entries[m]) == 1
      && (Bss !in before.parts[i].flags ==>
            && Place(p.parts[i].entries, m) < |imgs[i]| && imgs[i][Place(p.parts[i].entries, m)] == bs[q])
  {
    hide Said, Labelled, Ready, Holds, Width, Place;
    NumberMeaning(lines, n, q, 1, bs[q], p, imgs, bases, addr);
  }

  /** From a string in a source line to memory: its bytes stand there one after the other, at the place that the
      line has in its section. */
  lemma StringMeaning(lines: seq<S.Line>, n: nat, bs: seq<Byte>, p: Program, imgs: seq<seq<Byte>>, bases: seq<Long>,
                      addr: Addresses<Key>)
    requires n < |lines| && (forall line | line in lines :: S.LineNamed(line)) && Said(BLANK, lines) == Ok(p)
    requires lines[n].action == S.Emit(C.ByteItems(bs)) && bs != [] && Holds(imgs, p, bases, addr)
    ensures Said(BLANK, lines[..n]).Ok? && S.LineNamed(lines[n])
    ensures Labelled(Said(BLANK, lines[..n]).value, lines[n]).Ok?
    ensures var before := InFront(lines, n);
      var i := before.curr.value;
      var m := |before.parts[i].entries|;
      && |imgs| == |bases| == |p.parts| && i < |p.parts| && m <= |p.parts[i].entries|
      && (Bss !in before.parts[i].flags ==> var pos := Place(p.parts[i].entries, m);
            pos + |bs| <= |imgs[i]| && imgs[i][pos..pos + |bs|] == bs)
  {
    hide Said, Labelled, Ready, Holds, Place, Width;
    ByteMeaning(lines, n, bs, 0, p, imgs, bases, addr);
    var before := InFront(lines, n);
    var i := before.curr.value;
    var m, es := |before.parts[i].entries|, p.parts[i].entries;
    forall r | m <= r < m + |bs| ensures r < |es| && Width(es[r]) == 1 {
      ByteMeaning(lines, n, bs, r - m, p, imgs, bases, addr);
    }
    if Bss !in before.parts[i].flags {
      var pos := Place(es, m);
      forall r | pos <= r < pos + |bs| ensures r < |imgs[i]| && imgs[i][r] == bs[r - pos] {
        ByteMeaning(lines, n, bs, r - pos, p, imgs, bases, addr);
        PlaceBytes(es, m, r - pos);
      }
      ByteMeaning(lines, n, bs, |bs| - 1, p, imgs, bases, addr);
      PlaceBytes(es, m, |bs| - 1);
    }
  }
}
