/** What a stored program means once it is loaded, said without size sums, buffers or relocations:
    labels name positions, and every field read back the way the CPU reads it gives its operand. */
module Meaning {
  import opened Basics
  import opened Entries
  import opened Pass2

  /** The absolute address given to every symbol, over an arbitrary kind S of symbols. */
  type Addresses<S> = map<S, Long>

  /** An effective address at `pos` of an image loaded at `base`. A one-word symbolic field is a
      signed distance from the address of that word; a two-word one is the symbol's address. */
  ghost predicate EaAt<S>(img: seq<Byte>, ea: Ea<S>, pos: nat, base: Long, addr: Addresses<S>) {
    && pos + 2 * |ea.ew| <= |img|
    && match |ea.ew|
       case 0 => true
       case 1 =>
         (match ea.sym
          case None => Read16(img, pos) == ea.ew[0]
          case Some(s) => s in addr && Wrap32(base + pos + SignExtend16(Read16(img, pos))) == addr[s])
       case 2 =>
         (match ea.sym
          case None => Read32(img, pos) == ea.ew[0] as int * 0x1_0000 + ea.ew[1]
          case Some(s) => s in addr && Read32(img, pos) == addr[s])
       case _ => false
  }

  ghost predicate EasAt<S>(img: seq<Byte>, eas: seq<Ea<S>>, pos: nat, base: Long, addr: Addresses<S>)
    decreases |eas|
  {
    eas == [] ||
    (EaAt(img, eas[0], pos, base, addr) && EasAt(img, eas[1..], pos + 2 * |eas[0].ew|, base, addr))
  }

  ghost predicate DataAt<S>(img: seq<Byte>, e: Entry<S>, pos: nat, addr: Addresses<S>)
    requires e.Data?
  {
    && pos + e.dsize <= |img|
    && match e.dsize
       case 1 => img[pos] == e.value % 0x100
       case 2 => Read16(img, pos) == e.value % 0x1_0000
       case 4 =>
         (match e.tag
          case None => Read32(img, pos) == e.value
          case Some(s) => s in addr && Read32(img, pos) == addr[s])
       case _ => false
  }

  /** `repeat` copies of a data record, one after the other. */
  ghost predicate CopiesAt<S>(img: seq<Byte>, e: Entry<S>, pos: nat, copies: nat, addr: Addresses<S>)
    requires e.Data?
    decreases copies
  {
    copies == 0 || (DataAt(img, e, pos, addr) && CopiesAt(img, e, pos + e.dsize, copies - 1, addr))
  }

  ghost predicate EntryAt<S>(img: seq<Byte>, e: Entry<S>, pos: nat, base: Long, addr: Addresses<S>) {
    match e
    case Instr(_, ops, eas) =>
      pos % 2 == 0 && pos + 2 <= |img| && Read16(img, pos) == ops && EasAt(img, eas, pos + 2, base, addr)
    case Data(_, repeat, _, _) => CopiesAt(img, e, pos, repeat, addr)
    case Label(_) => true
  }

  /** The bytes an entry stands for. */
  function Width<S>(e: Entry<S>): nat {
    match e
    case Instr(_, _, eas) => 2 + EwBytes(eas)
    case Data(dsize, repeat, _, _) => dsize * repeat
    case Label(_) => 0
  }

  /** The entries, one after the other from `pos` on, are what the image holds. */
  ghost predicate EntriesAt<S>(img: seq<Byte>, es: seq<Entry<S>>, pos: nat, base: Long, addr: Addresses<S>)
    decreases |es|
  {
    es == [] ||
    (EntryAt(img, es[0], pos, base, addr) && EntriesAt(img, es[1..], pos + Width(es[0]), base, addr))
  }

  /** Every label is the address of the place where it stands. */
  ghost predicate LabelsAt<S>(es: seq<Entry<S>>, pos: nat, base: Long, addr: Addresses<S>)
    decreases |es|
  {
    es == [] ||
    ((es[0].Label? ==> es[0].sym in addr && addr[es[0].sym] == Wrap32(base + pos))
     && LabelsAt(es[1..], pos + Width(es[0]), base, addr))
  }

  // ---------------------------------------------------------------- images after relocation

  ghost predicate Untouched(p: nat, rs: seq<Reloc>) {
    forall i | 0 <= i < |rs| :: p < rs[i].offset || rs[i].offset + 4 <= p
  }

  ghost predicate Adjusted(bytes: seq<Byte>, r: Reloc, bases: seq<Long>, img: seq<Byte>) {
    && r.offset + 4 <= |bytes| <= |img|
    && r.target < |bases|
    && Read32(img, r.offset) == Wrap32(Read32(bytes, r.offset) + bases[r.target])
  }

  /** `img` is `bytes` with the base of its target section added to each marked longword. */
  ghost predicate Relocated(bytes: seq<Byte>, rs: seq<Reloc>, bases: seq<Long>, img: seq<Byte>) {
    && |bytes| <= |img|
    && (forall i | 0 <= i < |rs| :: Adjusted(bytes, rs[i], bases, img))
    && (forall p: nat | p < |bytes| && Untouched(p, rs) :: img[p] == bytes[p])
  }

  /** Section base plus offset in the section, for every symbol pass 2 can resolve. */
  ghost function AddressOf(lay: Layout, bases: seq<Long>): Addresses<nat>
    requires lay.Valid() && |bases| == |lay.secs|
  {
    map s | s in lay.place && SymbolOffset(lay, s).Ok? ::
      Wrap32(bases[lay.place[s]] + SymbolOffset(lay, s).value)
  }

  /** Everything known about one section while it is written: `k` has been reached from the start,
      and `f` is where the section ends up. */
  ghost predicate OnTheWay(k: Sink, f: Sink) {
    Synced(k) && Grows(Start(k.bss), k) && Grows(k, f) && |f.bytes| <= 0x1_0000_0000
  }

  lemma OnTheWayStart(f: Sink)
    requires Grows(Start(f.bss), f) && |f.bytes| <= 0x1_0000_0000
    ensures OnTheWay(Start(f.bss), f)
  {
  }

  lemma GrowsSynced(k: Sink, k': Sink)
    requires Grows(k, k')
    ensures Synced(k')
  {
  }

  lemma OnTheWayStep(k: Sink, k': Sink, f: Sink)
    requires OnTheWay(k, f) && Grows(k, k') && Grows(k', f)
    ensures OnTheWay(k', f)
  {
    GrowsTrans(Start(k.bss), k, k');
  }

  lemma GapUntouched(earlier: seq<Reloc>, later: seq<Reloc>, lo: nat, hi: nat, end: nat, p: nat)
    requires Spaced(earlier, 0, lo) && Spaced(later, hi, end) && lo <= p < hi
    ensures Untouched(p, earlier + later)
  {
    forall i | 0 <= i < |earlier + later|
      ensures p < (earlier + later)[i].offset || (earlier + later)[i].offset + 4 <= p
    {
      if i < |earlier| { assert Window(earlier[i], 0, lo); }
      else { assert Window(later[i - |earlier|], hi, end); }
    }
  }

  /** Bytes put down without a relocation reach the loaded image as they are. */
  lemma LiteralSurvives(k: Sink, bs: seq<Byte>, f: Sink, bases: seq<Long>, img: seq<Byte>)
    requires Put(k, bs).Ok? && OnTheWay(k, f) && Grows(Put(k, bs).value, f)
    requires Relocated(f.bytes, f.relocs, bases, img)
    ensures |k.bytes| + |bs| <= |img|
    ensures img[|k.bytes|..|k.bytes| + |bs|] == bs
  {
    hide Wrap32, Read32, Adjusted;
    var k' := Put(k, bs).value;
    var n := |k.bytes|;
    assert k.relocs[|Start(k.bss).relocs|..] == k.relocs;
    var later := f.relocs[|k'.relocs|..];
    assert f.relocs == k.relocs + later;
    assert f.bytes[n..n + |bs|] == k'.bytes[n..n + |bs|] == bs;
    forall j | 0 <= j < |bs| ensures img[n + j] == bs[j] {
      GapUntouched(k.relocs, later, n, |k'.bytes|, |f.bytes|, n + j);
      assert f.bytes[n + j] == f.bytes[n..n + |bs|][j];
    }
  }

  lemma Literal16(k: Sink, w: Word, f: Sink, bases: seq<Long>, img: seq<Byte>)
    requires Put(k, Be16(w)).Ok? && OnTheWay(k, f) && Grows(Put(k, Be16(w)).value, f)
    requires Relocated(f.bytes, f.relocs, bases, img)
    ensures |k.bytes| + 2 <= |img| && Read16(img, |k.bytes|) == w
  {
    LiteralSurvives(k, Be16(w), f, bases, img);
    Read16Slice(img, |k.bytes|, w);
  }

  lemma Literal32(k: Sink, v: Long, f: Sink, bases: seq<Long>, img: seq<Byte>)
    requires Put(k, Be32(v)).Ok? && OnTheWay(k, f) && Grows(Put(k, Be32(v)).value, f)
    requires Relocated(f.bytes, f.relocs, bases, img)
    ensures |k.bytes| + 4 <= |img| && Read32(img, |k.bytes|) == v
  {
    LiteralSurvives(k, Be32(v), f, bases, img);
    Read32Slice(img, |k.bytes|, v);
  }

  /** An address field ends up holding the absolute address of its symbol. */
  lemma AddressField(lay: Layout, k: Sink, s: nat, f: Sink, bases: seq<Long>, img: seq<Byte>)
    requires lay.Valid() && |bases| == |lay.secs|
    requires PutAddress(lay, k, s).Ok? && OnTheWay(k, f) && Grows(PutAddress(lay, k, s).value, f)
    requires Relocated(f.bytes, f.relocs, bases, img)
    ensures |k.bytes| + 4 <= |img| && s in AddressOf(lay, bases)
    ensures Read32(img, |k.bytes|) == AddressOf(lay, bases)[s]
  {
    PutAddressGrows(lay, k, s);
    var k' := PutAddress(lay, k, s).value;
    MarkedLongword(k, k', lay.place[s], SymbolOffset(lay, s).value, f, bases, img);
  }

  lemma MarkedLongword(k: Sink, k': Sink, target: nat, ofs: Long, f: Sink, bases: seq<Long>, img: seq<Byte>)
    requires k'.bytes <= f.bytes && k'.relocs <= f.relocs && |f.bytes| <= 0x1_0000_0000 && Synced(k)
    requires k'.bytes == k.bytes + Be32(ofs) && k'.relocs == k.relocs + [Reloc(target, k.pc)]
    requires Relocated(f.bytes, f.relocs, bases, img)
    ensures |k.bytes| + 4 <= |img| && target < |bases|
    ensures Read32(img, |k.bytes|) == Wrap32(ofs + bases[target])
  {
    WrapSmall(|k.bytes|);
    LongwordInPrefix(k.bytes, ofs, f.bytes);
    var r := f.relocs[|k.relocs|];
    assert r == k'.relocs[|k.relocs|] == Reloc(target, |k.bytes|);
    AdjustedAt(f.bytes, r, bases, img, |k.bytes|, target, ofs);
  }

  lemma AdjustedAt(bytes: seq<Byte>, r: Reloc, bases: seq<Long>, img: seq<Byte>, n: nat, target: nat, ofs: Long)
    requires Adjusted(bytes, r, bases, img) && r.offset == n && r.target == target
    requires n + 4 <= |bytes| && Read32(bytes, n) == ofs
    ensures n + 4 <= |img| && target < |bases| && Read32(img, n) == Wrap32(ofs + bases[target])
  {
  }

  lemma LongwordInPrefix(before: seq<Byte>, v: Long, s: seq<Byte>)
    requires before + Be32(v) <= s
    ensures Read32(s, |before|) == v
  {
    var n := |before|;
    assert s[n..n + 4] == (before + Be32(v))[n..n + 4] == Be32(v);
    Read32Slice(s, n, v);
  }

  lemma RelativeDistance(lay: Layout, owner: nat, k: Sink, s: nat) returns (d: Word)
    requires lay.Valid() && PutRelative(lay, owner, k, s).Ok?
    ensures s in lay.place && lay.place[s] == owner && SymbolOffset(lay, s).Ok?
    ensures d == Wrap32(SymbolOffset(lay, s).value - k.pc) && SignExtend16(d) == d
    ensures PutRelative(lay, owner, k, s) == Put(k, Be16(d))
  {
    d := Wrap32(SymbolOffset(lay, s).value - k.pc);
    assert d % 0x1_0000 == d;
  }

  /** A one-word symbolic field, sign-extended and added to its own address, is the symbol's address. */
  lemma RelativeField(lay: Layout, owner: nat, k: Sink, s: nat, f: Sink, bases: seq<Long>, img: seq<Byte>)
    requires lay.Valid() && |bases| == |lay.secs| && owner < |bases|
    requires PutRelative(lay, owner, k, s).Ok? && OnTheWay(k, f) && Grows(PutRelative(lay, owner, k, s).value, f)
    requires Relocated(f.bytes, f.relocs, bases, img)
    ensures |k.bytes| + 2 <= |img| && s in AddressOf(lay, bases)
    ensures Wrap32(bases[owner] + |k.bytes| + SignExtend16(Read16(img, |k.bytes|))) == AddressOf(lay, bases)[s]
  {
    var d := RelativeDistance(lay, owner, k, s);
    assert k.pc == Wrap32(|k.bytes|);
    hide Wrap32, Be16, Read16, Relocated, Grows, SignExtend16, PutRelative, Put, Synced;
    Literal16(k, d, f, bases, img);
    WrapDistance(bases[owner], |k.bytes|, SymbolOffset(lay, s).value);
  }

  lemma EaSound(lay: Layout, owner: nat, k: Sink, ea: Ea<nat>, f: Sink, bases: seq<Long>, img: seq<Byte>)
    requires lay.Valid() && |bases| == |lay.secs| && owner < |bases|
    requires WriteEa(lay, owner, k, ea).Ok? && OnTheWay(k, f) && Grows(WriteEa(lay, owner, k, ea).value, f)
    requires Relocated(f.bytes, f.relocs, bases, img)
    ensures EaAt(img, ea, |k.bytes|, bases[owner], AddressOf(lay, bases))
  {
    WriteEaGrows(lay, owner, k, ea);
    match |ea.ew|
    case 0 =>
    case 1 =>
      if ea.sym.Some? { RelativeField(lay, owner, k, ea.sym.value, f, bases, img); }
      else { Literal16(k, ea.ew[0], f, bases, img); }
    case 2 =>
      if ea.sym.Some? { AddressField(lay, k, ea.sym.value, f, bases, img); }
      else { Literal32(k, ea.ew[0] as int * 0x1_0000 + ea.ew[1], f, bases, img); }
    case _ =>
  }

  lemma {:induction false} EasSound(lay: Layout, owner: nat, k: Sink, eas: seq<Ea<nat>>,
                                    f: Sink, bases: seq<Long>, img: seq<Byte>)
    requires lay.Valid() && |bases| == |lay.secs| && owner < |bases|
    requires WriteEas(lay, owner, k, eas).Ok? && OnTheWay(k, f) && Grows(WriteEas(lay, owner, k, eas).value, f)
    requires Relocated(f.bytes, f.relocs, bases, img)
    ensures EasAt(img, eas, |k.bytes|, bases[owner], AddressOf(lay, bases))
    decreases |eas|
  {
    if eas == [] {
    } else {
      hide Wrap32, Grows, Relocated, Synced, OnTheWay, EaAt, WriteEa, AddressOf;
      var k' := WriteEa(lay, owner, k, eas[0]).value;
      WriteEaGrows(lay, owner, k, eas[0]);
      GrowsSynced(k, k');
      WriteEasGrows(lay, owner, k', eas[1..]);
      GrowsTrans(k', WriteEas(lay, owner, k, eas).value, f);
      EaSound(lay, owner, k, eas[0], f, bases, img);
      OnTheWayStep(k, k', f);
      EasSound(lay, owner, k', eas[1..], f, bases, img);
    }
  }

  /** Pass 2 writes each data record once, so only a repeat count of one means what it says. */
  ghost predicate Plain(e: Entry<nat>) {
    Storable(e) && (e.Data? ==> e.repeat == 1)
  }

  ghost predicate AllPlain(es: seq<Entry<nat>>) {
    forall i | 0 <= i < |es| :: Plain(es[i])
  }

  lemma PlainTail(es: seq<Entry<nat>>)
    requires AllPlain(es) && es != []
    ensures Plain(es[0]) && Storable(es[0]) && AllPlain(es[1..]) && AllStorable(es[1..])
  {
    forall i | 0 <= i < |es| ensures Storable(es[i]) && Plain(es[i]) {}
  }

  lemma DataSound(lay: Layout, k: Sink, e: Entry<nat>, f: Sink, bases: seq<Long>, img: seq<Byte>)
    requires lay.Valid() && |bases| == |lay.secs| && Storable(e) && e.Data?
    requires WriteData(lay, k, e).Ok? && OnTheWay(k, f) && Grows(WriteData(lay, k, e).value, f)
    requires Relocated(f.bytes, f.relocs, bases, img)
    ensures DataAt(img, e, |k.bytes|, AddressOf(lay, bases))
  {
    if e.dsize == 1 {
      LiteralSurvives(k, [e.value % 0x100], f, bases, img);
      assert img[|k.bytes|] == img[|k.bytes|..|k.bytes| + 1][0];
    } else if e.dsize == 2 {
      Literal16(k, e.value % 0x1_0000, f, bases, img);
    } else if e.tag.Some? {
      AddressField(lay, k, e.tag.value, f, bases, img);
    } else {
      Literal32(k, e.value, f, bases, img);
    }
  }

  lemma EntrySound(lay: Layout, owner: nat, k: Sink, e: Entry<nat>, f: Sink, bases: seq<Long>, img: seq<Byte>)
    requires lay.Valid() && |bases| == |lay.secs| && owner < |bases| && Plain(e)
    requires WriteEntry(lay, owner, k, e).Ok? && OnTheWay(k, f) && Grows(WriteEntry(lay, owner, k, e).value, f)
    requires Relocated(f.bytes, f.relocs, bases, img)
    ensures EntryAt(img, e, |k.bytes|, bases[owner], AddressOf(lay, bases))
  {
    match e
    case Label(_) =>
    case Data(_, _, _, _) =>
      DataSound(lay, k, e, f, bases, img);
      assert CopiesAt(img, e, |k.bytes| + e.dsize, 0, AddressOf(lay, bases));
    case Instr(_, ops, eas) =>
      var k' := Put(k, Be16(ops)).value;
      PutGrows(k, Be16(ops));
      WriteEasGrows(lay, owner, k', eas);
      GrowsTrans(k', WriteEas(lay, owner, k', eas).value, f);
      Literal16(k, ops, f, bases, img);
      OnTheWayStep(k, k', f);
      EasSound(lay, owner, k', eas, f, bases, img);
      assert k.pc == Wrap32(|k.bytes|);
      assert |k.bytes| % 2 == 0 by { WrapParity(|k.bytes|); }
  }

  lemma WrapParity(n: nat)
    ensures Wrap32(n) % 2 == n % 2
  {
  }

  lemma WidthEmitted(e: Entry<nat>)
    requires Plain(e)
    ensures Width(e) == Emitted(e)
  {
  }

  /** The loaded image of a section holds its entries, with every symbolic field resolved. */
  lemma {:induction false} EntriesSound(lay: Layout, owner: nat, k: Sink, es: seq<Entry<nat>>,
                                        f: Sink, bases: seq<Long>, img: seq<Byte>)
    requires lay.Valid() && |bases| == |lay.secs| && owner < |bases| && AllPlain(es)
    requires WriteEntries(lay, owner, k, es) == Ok(f) && OnTheWay(k, f)
    requires Relocated(f.bytes, f.relocs, bases, img)
    ensures EntriesAt(img, es, |k.bytes|, bases[owner], AddressOf(lay, bases))
    decreases |es|
  {
    if es == [] {
    } else {
      hide Wrap32, Grows, Relocated, Synced, EntryAt, WriteEntry, AddressOf, AllPlain, AllStorable, Plain, Storable;
      PlainTail(es);
      var k' := WriteEntry(lay, owner, k, es[0]).value;
      WriteEntryGrows(lay, owner, k, es[0]);
      GrowsSynced(k, k');
      WriteEntriesGrows(lay, owner, k', es[1..]);
      EntrySound(lay, owner, k, es[0], f, bases, img);
      OnTheWayStep(k, k', f);
      EntriesSound(lay, owner, k', es[1..], f, bases, img);
      WidthEmitted(es[0]);
    }
  }
}
