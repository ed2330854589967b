/** Exactly when pass 2 succeeds, and exactly which relocations it records. */
module Pass2Exact {
  import opened Basics
  import opened Entries
  import opened Pass2
  import opened Meaning
  import opened Agreement
  import opened HunkFormat
  import opened Relocating
  import opened Executable

  // ---------------------------------------------------------------- success

  /** A symbol that was pushed: `get_symbol_offset` has an answer. */
  predicate Defined(lay: Layout, s: nat)
    requires lay.Valid()
  {
    s in lay.place && Label(s) in lay.secs[lay.place[s]]
  }

  /** A one-word reference is accepted only forward, up to 32767 bytes, inside one section. */
  predicate Reachable(lay: Layout, owner: nat, s: nat, pos: nat)
    requires lay.Valid()
  {
    && Defined(lay, s)
    && lay.place[s] == owner
    && SymbolOffset(lay, s).Ok?
    && Wrap32(SymbolOffset(lay, s).value - pos) <= 32767
  }

  predicate EaWritable(lay: Layout, owner: nat, ea: Ea<nat>, pos: nat)
    requires lay.Valid()
  {
    match |ea.ew|
    case 0 => true
    case 1 => ea.sym.Some? ==> Reachable(lay, owner, ea.sym.value, pos)
    case 2 => ea.sym.Some? ==> Defined(lay, ea.sym.value) && pos % 2 == 0
    case _ => false
  }

  predicate EasWritable(lay: Layout, owner: nat, eas: seq<Ea<nat>>, pos: nat)
    requires lay.Valid()
    decreases |eas|
  {
    eas == [] || (EaWritable(lay, owner, eas[0], pos) && EasWritable(lay, owner, eas[1..], pos + 2 * |eas[0].ew|))
  }

  predicate EntryWritable(lay: Layout, owner: nat, e: Entry<nat>, pos: nat)
    requires lay.Valid()
  {
    match e
    case Instr(_, _, eas) => pos % 2 == 0 && EasWritable(lay, owner, eas, pos + 2)
    case Data(_, _, _, tag) => tag.Some? ==> Defined(lay, tag.value) && pos % 2 == 0
    case Label(_) => true
  }

  predicate EntriesWritable(lay: Layout, owner: nat, es: seq<Entry<nat>>, pos: nat)
    requires lay.Valid()
    decreases |es|
  {
    es == [] || (EntryWritable(lay, owner, es[0], pos) && EntriesWritable(lay, owner, es[1..], pos + Emitted(es[0])))
  }

  ghost predicate Room(k: Sink, n: nat) {
    k.bss || |k.bytes| + n <= 4096
  }

  lemma DefinedExact(lay: Layout, s: nat)
    requires lay.Valid()
    ensures SymbolOffset(lay, s).Ok? <==> Defined(lay, s)
  {
    if s in lay.place { SearchExact(lay.secs[lay.place[s]], s, 0); }
  }

  lemma PutRelativeExact(lay: Layout, owner: nat, k: Sink, s: nat)
    requires lay.Valid() && Synced(k)
    ensures PutRelative(lay, owner, k, s).Ok? <==> Room(k, 2) && Reachable(lay, owner, s, |k.bytes|)
  {
    DefinedExact(lay, s);
    if SymbolOffset(lay, s).Ok? {
      var ofs: int := SymbolOffset(lay, s).value;
      WrapCong(|k.bytes|, k.pc, -ofs);
      WrapNegate(|k.bytes| - ofs, k.pc - ofs);
    }
  }

  lemma WrapNegate(a: int, b: int)
    requires Wrap32(a) == Wrap32(b)
    ensures Wrap32(-a) == Wrap32(-b)
  {
    WrapCong(a, b, -a - b);
  }

  lemma WriteEaExact(lay: Layout, owner: nat, k: Sink, ea: Ea<nat>)
    requires lay.Valid() && Synced(k) && Room(k, 0)
    ensures WriteEa(lay, owner, k, ea).Ok? <==> Room(k, 2 * |ea.ew|) && EaWritable(lay, owner, ea, |k.bytes|)
  {
    WrapParity(|k.bytes|);
    hide Wrap32;
    match |ea.ew|
    case 0 =>
    case 1 => if ea.sym.Some? { PutRelativeExact(lay, owner, k, ea.sym.value); }
    case 2 => if ea.sym.Some? { DefinedExact(lay, ea.sym.value); }
    case _ =>
  }

  lemma {:induction false} WriteEasExact(lay: Layout, owner: nat, k: Sink, eas: seq<Ea<nat>>)
    requires lay.Valid() && Synced(k) && Room(k, 0)
    ensures WriteEas(lay, owner, k, eas).Ok? <==> Room(k, EwBytes(eas)) && EasWritable(lay, owner, eas, |k.bytes|)
    decreases |eas|
  {
    hide Wrap32, WriteEa, EaWritable, Grows, Synced;
    if eas == [] {
    } else {
      WriteEaExact(lay, owner, k, eas[0]);
      if WriteEa(lay, owner, k, eas[0]).Ok? {
        var k' := WriteEa(lay, owner, k, eas[0]).value;
        WriteEaGrows(lay, owner, k, eas[0]);
        GrowsSynced(k, k');
        GrowsBss(k, k');
        WriteEasExact(lay, owner, k', eas[1..]);
      }
    }
  }

  lemma SearchError(lay: Layout, s: nat)
    requires lay.Valid() && SymbolOffset(lay, s).Fail?
    ensures !Defined(lay, s) && SymbolOffset(lay, s).error == UndeclaredSymbol
  {
    DefinedExact(lay, s);
    if s in lay.place { SearchExact(lay.secs[lay.place[s]], s, 0); }
  }

  /** Why a distance cannot be written, the first reason first. */
  lemma RelativeError(lay: Layout, owner: nat, k: Sink, s: nat)
    requires lay.Valid() && Synced(k) && PutRelative(lay, owner, k, s).Fail?
    ensures PutRelative(lay, owner, k, s).error ==
            if !(s in lay.place && lay.place[s] == owner) then RelativeAddressTooLarge
            else if !Defined(lay, s) then UndeclaredSymbol
            else if Reachable(lay, owner, s, |k.bytes|) then BufferOverrun else RelativeAddressTooLarge
  {
    hide Search, Be16;
    DefinedExact(lay, s);
    if SymbolOffset(lay, s).Fail? {
      SearchError(lay, s);
    } else {
      var ofs: int := SymbolOffset(lay, s).value;
      WrapCong(|k.bytes|, k.pc, -ofs);
      WrapNegate(|k.bytes| - ofs, k.pc - ofs);
    }
  }

  /** Why an address cannot be written. */
  lemma AddressError(lay: Layout, k: Sink, s: nat)
    requires lay.Valid() && Synced(k) && PutAddress(lay, k, s).Fail?
    ensures PutAddress(lay, k, s).error ==
            if !Defined(lay, s) then UndeclaredSymbol
            else if |k.bytes| % 2 == 1 then MisalignedAddress else BufferOverrun
  {
    hide Search, Be32;
    WrapParity(|k.bytes|);
    DefinedExact(lay, s);
    if SymbolOffset(lay, s).Fail? { SearchError(lay, s); }
  }

  /** Why an operand cannot be written. */
  lemma EaError(lay: Layout, owner: nat, k: Sink, ea: Ea<nat>)
    requires lay.Valid() && Synced(k) && WriteEa(lay, owner, k, ea).Fail?
    ensures |ea.ew| > 2 ==> WriteEa(lay, owner, k, ea).error == InvalidInstructionSize
    ensures |ea.ew| <= 2 && ea.sym.None? ==> WriteEa(lay, owner, k, ea).error == BufferOverrun
    ensures |ea.ew| == 1 && ea.sym.Some? ==> WriteEa(lay, owner, k, ea) == PutRelative(lay, owner, k, ea.sym.value)
    ensures |ea.ew| == 2 && ea.sym.Some? ==> WriteEa(lay, owner, k, ea) == PutAddress(lay, k, ea.sym.value)
  {
    hide Be16, Be32, Search;
  }

  /** Why a constant or the opcode of an instruction cannot be written. */
  lemma EntryError(lay: Layout, owner: nat, k: Sink, e: Entry<nat>)
    requires lay.Valid() && Synced(k) && Storable(e) && WriteEntry(lay, owner, k, e).Fail?
    requires e.Instr? ==> |k.bytes| % 2 == 1 || !Room(k, 2)
    ensures WriteEntry(lay, owner, k, e).error ==
            if e.Instr? then if |k.bytes| % 2 == 1 then MisalignedInstruction else BufferOverrun
            else if e.Label? || e.tag.None? then BufferOverrun
            else if !Defined(lay, e.tag.value) then UndeclaredSymbol
            else if |k.bytes| % 2 == 1 then MisalignedAddress else BufferOverrun
  {
    hide Be16, Be32, PutAddress;
    WrapParity(|k.bytes|);
    if e.Data? && e.tag.Some? { AddressError(lay, k, e.tag.value); }
  }

  lemma GrowsBss(k: Sink, k': Sink)
    requires Grows(k, k')
    ensures k'.bss == k.bss
  {
  }

  lemma WriteEntryExact(lay: Layout, owner: nat, k: Sink, e: Entry<nat>)
    requires lay.Valid() && Synced(k) && Room(k, 0) && Storable(e)
    ensures WriteEntry(lay, owner, k, e).Ok? <==> Room(k, Emitted(e)) && EntryWritable(lay, owner, e, |k.bytes|)
  {
    WrapParity(|k.bytes|);
    hide Wrap32;
    match e
    case Label(_) =>
    case Data(_, _, _, tag) => if tag.Some? { DefinedExact(lay, tag.value); }
    case Instr(_, ops, eas) =>
      if Room(k, 2) {
        PutGrows(k, Be16(ops));
        WriteEasExact(lay, owner, Put(k, Be16(ops)).value, eas);
      }
  }

  /** A section is written without an error exactly when it fits the first buffer block (or is BSS),
      every symbol it refers to was pushed, instructions and address fields fall on even positions, no
      effective address has more than two extension words, and one-word references are short, forward
      and local. */
  lemma {:induction false} WriteExact(lay: Layout, owner: nat, k: Sink, es: seq<Entry<nat>>)
    requires lay.Valid() && Synced(k) && Room(k, 0) && AllStorable(es)
    ensures WriteEntries(lay, owner, k, es).Ok?
       <==> Room(k, TotalEmitted(es)) && EntriesWritable(lay, owner, es, |k.bytes|)
    decreases |es|
  {
    hide Wrap32, WriteEntry, EntryWritable, Grows, Synced, AllStorable, Storable;
    if es == [] {
    } else {
      StorableTail(es);
      WriteEntryExact(lay, owner, k, es[0]);
      if WriteEntry(lay, owner, k, es[0]).Ok? {
        var k' := WriteEntry(lay, owner, k, es[0]).value;
        WriteEntryGrows(lay, owner, k, es[0]);
        GrowsSynced(k, k');
        GrowsBss(k, k');
        WriteExact(lay, owner, k', es[1..]);
      }
    }
  }

  ghost predicate SectionWritable(lay: Layout, flags: seq<set<SecFlag>>, i: nat)
    requires lay.Valid() && |flags| == |lay.secs| && i < |flags|
  {
    (Bss in flags[i] || TotalEmitted(lay.secs[i]) <= 4096) && EntriesWritable(lay, i, lay.secs[i], 0)
  }

  lemma {:induction false} WriteSectionsExact(lay: Layout, flags: seq<set<SecFlag>>, i: nat)
    requires lay.Valid() && |flags| == |lay.secs| && i <= |flags|
    requires forall j | i <= j < |flags| :: AllStorable(lay.secs[j])
    ensures WriteSections(lay, flags, i).Ok? <==> forall j | i <= j < |flags| :: SectionWritable(lay, flags, j)
    decreases |flags| - i
  {
    if i >= |flags| {
    } else {
      WriteExact(lay, i, Start(Bss in flags[i]), lay.secs[i]);
      assert WriteSection(lay, flags, i).Ok? <==> SectionWritable(lay, flags, i);
      hide WriteSection, SectionWritable;
      WriteSectionsExact(lay, flags, i + 1);
    }
  }

  /** The whole second pass succeeds exactly when every section can be written. */
  lemma LinkExact(lay: Layout, flags: seq<set<SecFlag>>, addr: seq<nat>)
    requires ProgramOk(lay, flags) && |addr| == |flags|
    ensures Link(lay, flags, addr).Ok? <==> forall i | 0 <= i < |flags| :: SectionWritable(lay, flags, i)
  {
    forall j | 0 <= j < |flags| ensures AllStorable(lay.secs[j]) {
      assert AllPlain(lay.secs[j]);
    }
    WriteSectionsExact(lay, flags, 0);
    if WriteSections(lay, flags, 0).Ok? {
      WriteSectionsEach(lay, flags, 0);
      SectionsAreHunks(flags, WriteSections(lay, flags, 0).value, addr);
    }
  }

  /** A branch two bytes back fits a signed word, but the unsigned comparison turns it away. */
  lemma BackwardReferenceRejected()
    ensures var es: seq<Entry<nat>> := [Label(0), Instr(2, 0x6000, [Ea(7, 2, [0], Some(0))])];
      var lay := Layout([es], map[0 := 0]);
      && lay.Valid() && SymbolOffset(lay, 0) == Ok(0)
      && WriteEntries(lay, 0, Start(false), es) == Fail(RelativeAddressTooLarge)
  {
    var ea := Ea(7, 2, [0], Some(0));
    var es: seq<Entry<nat>> := [Label(0), Instr(2, 0x6000, [ea])];
    var lay := Layout([es], map[0 := 0]);
    var k := Put(Start(false), Be16(0x6000)).value;
    assert k.pc == 2;
    assert WriteEa(lay, 0, k, ea) == Fail(RelativeAddressTooLarge);
    assert es[1].eas[0] == ea;
    assert WriteEntry(lay, 0, Start(false), es[1]) == Fail(RelativeAddressTooLarge);
    assert es[1..][0] == es[1];
  }

  // ---------------------------------------------------------------- relocations

  function PlaceOf(lay: Layout, s: nat): nat {
    if s in lay.place then lay.place[s] else 0
  }

  /** The address field of an effective address, if it is one. */
  function EaField(lay: Layout, ea: Ea<nat>, pos: nat): seq<Reloc> {
    if |ea.ew| == 2 && ea.sym.Some? then [Reloc(PlaceOf(lay, ea.sym.value), Wrap32(pos))] else []
  }

  /** The address fields of some effective addresses, the first of them at `pos`. */
  function EaFields(lay: Layout, eas: seq<Ea<nat>>, pos: nat): seq<Reloc>
    decreases |eas|
  {
    if eas == [] then [] else EaField(lay, eas[0], pos) + EaFields(lay, eas[1..], pos + 2 * |eas[0].ew|)
  }

  function EntryFields(lay: Layout, e: Entry<nat>, pos: nat): seq<Reloc> {
    match e
    case Instr(_, _, eas) => EaFields(lay, eas, pos + 2)
    case Data(_, _, _, tag) => if tag.Some? then [Reloc(PlaceOf(lay, tag.value), Wrap32(pos))] else []
    case Label(_) => []
  }

  /** The address fields of a program text: every place that holds the address of a symbol. */
  function AddressFields(lay: Layout, es: seq<Entry<nat>>, pos: nat): seq<Reloc>
    decreases |es|
  {
    if es == [] then [] else EntryFields(lay, es[0], pos) + AddressFields(lay, es[1..], pos + Emitted(es[0]))
  }

  lemma EaRelocs(lay: Layout, owner: nat, k: Sink, ea: Ea<nat>)
    requires lay.Valid() && Synced(k) && WriteEa(lay, owner, k, ea).Ok?
    ensures WriteEa(lay, owner, k, ea).value.relocs == k.relocs + EaField(lay, ea, |k.bytes|)
  {
    if |ea.ew| == 2 && ea.sym.Some? { PutAddressGrows(lay, k, ea.sym.value); }
  }

  lemma {:induction false} EaRelocsExact(lay: Layout, owner: nat, k: Sink, eas: seq<Ea<nat>>)
    requires lay.Valid() && Synced(k) && WriteEas(lay, owner, k, eas).Ok?
    ensures WriteEas(lay, owner, k, eas).value.relocs == k.relocs + EaFields(lay, eas, |k.bytes|)
    decreases |eas|
  {
    hide Wrap32, Grows, Synced, WriteEa, EaField, EaFields;
    EaFieldsStep(lay, eas, |k.bytes|, k.relocs);
    if eas == [] {
    } else {
      var k' := WriteEa(lay, owner, k, eas[0]).value;
      EaRelocs(lay, owner, k, eas[0]);
      WriteEaGrows(lay, owner, k, eas[0]);
      GrowsSynced(k, k');
      EaRelocsExact(lay, owner, k', eas[1..]);
    }
  }

  lemma EaFieldsStep(lay: Layout, eas: seq<Ea<nat>>, pos: nat, relocs: seq<Reloc>)
    ensures relocs + EaFields(lay, eas, pos)
         == if eas == [] then relocs
            else relocs + EaField(lay, eas[0], pos) + EaFields(lay, eas[1..], pos + 2 * |eas[0].ew|)
  {
  }

  lemma AddressFieldsStep(lay: Layout, es: seq<Entry<nat>>, pos: nat, relocs: seq<Reloc>)
    requires es != []
    ensures relocs + AddressFields(lay, es, pos)
         == relocs + EntryFields(lay, es[0], pos) + AddressFields(lay, es[1..], pos + Emitted(es[0]))
  {
  }

  /** Every symbolic longword is recorded exactly once, in order, and nothing else is. */
  lemma {:induction false} RelocsExact(lay: Layout, owner: nat, k: Sink, es: seq<Entry<nat>>)
    requires lay.Valid() && Synced(k) && AllStorable(es) && WriteEntries(lay, owner, k, es).Ok?
    ensures WriteEntries(lay, owner, k, es).value.relocs == k.relocs + AddressFields(lay, es, |k.bytes|)
    decreases |es|
  {
    if es == [] {
    } else {
      StorableTail(es);
      AddressFieldsStep(lay, es, |k.bytes|, k.relocs);
      hide Wrap32, Grows, Synced, WriteEntry, EntryFields, Storable, Emitted, AllStorable, AddressFields;
      var k' := WriteEntry(lay, owner, k, es[0]).value;
      WriteEntryGrows(lay, owner, k, es[0]);
      EntryRelocsExact(lay, owner, k, es[0]);
      GrowsSynced(k, k');
      RelocsExact(lay, owner, k', es[1..]);
    }
  }

  lemma EntryRelocsExact(lay: Layout, owner: nat, k: Sink, e: Entry<nat>)
    requires lay.Valid() && Synced(k) && Storable(e) && WriteEntry(lay, owner, k, e).Ok?
    ensures WriteEntry(lay, owner, k, e).value.relocs == k.relocs + EntryFields(lay, e, |k.bytes|)
  {
    match e
    case Label(_) =>
    case Data(_, _, _, tag) => if tag.Some? { PutAddressGrows(lay, k, tag.value); }
    case Instr(_, ops, eas) =>
      PutGrows(k, Be16(ops));
      EaRelocsExact(lay, owner, Put(k, Be16(ops)).value, eas);
  }

  /** The four bytes a relocation marks hold the offset of a symbol of its target section. */
  ghost predicate HoldsOffset(lay: Layout, bytes: seq<Byte>, r: Reloc)
    requires lay.Valid()
  {
    && r.offset + 4 <= |bytes|
    && exists s :: s in lay.place && lay.place[s] == r.target && SymbolOffset(lay, s) == Ok(Read32(bytes, r.offset))
  }

  ghost predicate AllHoldOffsets(lay: Layout, k: Sink)
    requires lay.Valid()
  {
    forall i | 0 <= i < |k.relocs| :: HoldsOffset(lay, k.bytes, k.relocs[i])
  }

  lemma HoldsOffsetLonger(lay: Layout, bytes: seq<Byte>, more: seq<Byte>, r: Reloc)
    requires lay.Valid() && HoldsOffset(lay, bytes, r) && bytes <= more
    ensures HoldsOffset(lay, more, r)
  {
    SameLong(bytes, more, r.offset);
  }

  lemma PutHolds(lay: Layout, k: Sink, bs: seq<Byte>)
    requires lay.Valid() && AllHoldOffsets(lay, k) && Put(k, bs).Ok?
    ensures AllHoldOffsets(lay, Put(k, bs).value)
  {
    var k' := Put(k, bs).value;
    forall i | 0 <= i < |k'.relocs| ensures HoldsOffset(lay, k'.bytes, k'.relocs[i]) {
      HoldsOffsetLonger(lay, k.bytes, k'.bytes, k.relocs[i]);
    }
  }

  lemma PutAddressHolds(lay: Layout, k: Sink, s: nat)
    requires lay.Valid() && AllHoldOffsets(lay, k) && Synced(k) && PutAddress(lay, k, s).Ok?
    requires |PutAddress(lay, k, s).value.bytes| <= 0x1_0000_0000
    ensures AllHoldOffsets(lay, PutAddress(lay, k, s).value)
  {
    PutAddressGrows(lay, k, s);
    WrapSmall(|k.bytes|);
    var k' := PutAddress(lay, k, s).value;
    LongwordInPrefix(k.bytes, SymbolOffset(lay, s).value, k'.bytes);
    forall i | 0 <= i < |k'.relocs| ensures HoldsOffset(lay, k'.bytes, k'.relocs[i]) {
      if i < |k.relocs| {
        assert k'.relocs[i] == k.relocs[i];
        HoldsOffsetLonger(lay, k.bytes, k'.bytes, k.relocs[i]);
      }
    }
  }

  lemma WriteEaHolds(lay: Layout, owner: nat, k: Sink, ea: Ea<nat>)
    requires lay.Valid() && AllHoldOffsets(lay, k) && Synced(k) && WriteEa(lay, owner, k, ea).Ok?
    requires |WriteEa(lay, owner, k, ea).value.bytes| <= 0x1_0000_0000
    ensures AllHoldOffsets(lay, WriteEa(lay, owner, k, ea).value)
  {
    hide AllHoldOffsets, Put, PutAddress, Wrap32, Be16, Be32;
    match |ea.ew|
    case 0 =>
    case 1 =>
      if ea.sym.Some? {
        PutHolds(lay, k, Be16(Wrap32(SymbolOffset(lay, ea.sym.value).value - k.pc) % 0x1_0000));
      } else {
        PutHolds(lay, k, Be16(ea.ew[0]));
      }
    case 2 =>
      if ea.sym.Some? { PutAddressHolds(lay, k, ea.sym.value); }
      else { PutHolds(lay, k, Be32(ea.ew[0] as int * 0x1_0000 + ea.ew[1])); }
    case _ =>
  }

  lemma {:induction false} WriteEasHolds(lay: Layout, owner: nat, k: Sink, eas: seq<Ea<nat>>)
    requires lay.Valid() && AllHoldOffsets(lay, k) && Synced(k) && WriteEas(lay, owner, k, eas).Ok?
    requires |WriteEas(lay, owner, k, eas).value.bytes| <= 0x1_0000_0000
    ensures AllHoldOffsets(lay, WriteEas(lay, owner, k, eas).value)
    decreases |eas|
  {
    if eas == [] {
    } else {
      hide AllHoldOffsets, WriteEa, Wrap32, Grows, Synced;
      var k' := WriteEa(lay, owner, k, eas[0]).value;
      WriteEaGrows(lay, owner, k, eas[0]);
      GrowsSynced(k, k');
      WriteEasGrows(lay, owner, k', eas[1..]);
      WriteEaHolds(lay, owner, k, eas[0]);
      WriteEasHolds(lay, owner, k', eas[1..]);
    }
  }

  lemma WriteEntryHolds(lay: Layout, owner: nat, k: Sink, e: Entry<nat>)
    requires lay.Valid() && AllHoldOffsets(lay, k) && Synced(k) && Storable(e) && WriteEntry(lay, owner, k, e).Ok?
    requires |WriteEntry(lay, owner, k, e).value.bytes| <= 0x1_0000_0000
    ensures AllHoldOffsets(lay, WriteEntry(lay, owner, k, e).value)
  {
    match e
    case Label(_) =>
    case Data(dsize, _, value, tag) =>
      hide AllHoldOffsets, Put, PutAddress, Be16, Be32;
      if dsize == 1 { PutHolds(lay, k, [value % 0x100]); }
      else if dsize == 2 { PutHolds(lay, k, Be16(value % 0x1_0000)); }
      else if tag.Some? { PutAddressHolds(lay, k, tag.value); }
      else { PutHolds(lay, k, Be32(value)); }
    case Instr(_, ops, eas) =>
      PutGrows(k, Be16(ops));
      PutHolds(lay, k, Be16(ops));
      WriteEasHolds(lay, owner, Put(k, Be16(ops)).value, eas);
  }

  lemma {:induction false} WriteEntriesHolds(lay: Layout, owner: nat, k: Sink, es: seq<Entry<nat>>)
    requires lay.Valid() && AllHoldOffsets(lay, k) && Synced(k) && AllStorable(es)
    requires WriteEntries(lay, owner, k, es).Ok?
    requires |WriteEntries(lay, owner, k, es).value.bytes| <= 0x1_0000_0000
    ensures AllHoldOffsets(lay, WriteEntries(lay, owner, k, es).value)
    decreases |es|
  {
    if es == [] {
    } else {
      hide AllHoldOffsets, WriteEntry, Wrap32, Grows, Synced, Storable, AllStorable;
      StorableTail(es);
      var k' := WriteEntry(lay, owner, k, es[0]).value;
      WriteEntryGrows(lay, owner, k, es[0]);
      GrowsSynced(k, k');
      WriteEntriesGrows(lay, owner, k', es[1..]);
      WriteEntryHolds(lay, owner, k, es[0]);
      WriteEntriesHolds(lay, owner, k', es[1..]);
    }
  }

  /** Relocation soundness for one section: even, ascending, at least four apart, wholly inside, one
      for each address field and no more, each marking the big-endian offset of a symbol of its target. */
  lemma RelocationSoundness(lay: Layout, owner: nat, es: seq<Entry<nat>>)
    requires lay.Valid() && AllStorable(es) && WriteEntries(lay, owner, Start(false), es).Ok?
    ensures var k := WriteEntries(lay, owner, Start(false), es).value;
      && Spaced(k.relocs, 0, |k.bytes|)
      && k.relocs == AddressFields(lay, es, 0)
      && InRange(k.relocs, |lay.secs|)
      && AllHoldOffsets(lay, k)
  {
    WriteEntriesGrows(lay, owner, Start(false), es);
    WriteEntriesContained(lay, owner, Start(false), es);
    RelocsExact(lay, owner, Start(false), es);
    var k := WriteEntries(lay, owner, Start(false), es).value;
    assert k.relocs[0..] == k.relocs;
    WriteEntriesHolds(lay, owner, Start(false), es);
  }

  // ---------------------------------------------------------------- memory layout of the assembler

  lemma {:induction false} RelocatedUnique(bytes: seq<Byte>, rs: seq<Reloc>, bases: seq<Long>,
                                           a: seq<Byte>, b: seq<Byte>)
    requires Relocated(bytes, rs, bases, a) && Relocated(bytes, rs, bases, b) && |a| == |b| == |bytes|
    ensures a == b
  {
    forall p | 0 <= p < |bytes| ensures a[p] == b[p] {
      if !Untouched(p, rs) {
        var i :| 0 <= i < |rs| && rs[i].offset <= p < rs[i].offset + 4;
        assert Adjusted(bytes, rs[i], bases, a) && Adjusted(bytes, rs[i], bases, b);
        SameBytes(a, b, rs[i].offset, p);
      }
    }
  }

  lemma SameBytes(a: seq<Byte>, b: seq<Byte>, at: nat, p: nat)
    requires at + 4 <= |a| && at + 4 <= |b| && Read32(a, at) == Read32(b, at) && at <= p < at + 4
    ensures a[p] == b[p]
  {
    Be32Read32(a, at);
    Be32Read32(b, at);
    assert a[p] == a[at..at + 4][p - at] && b[p] == b[at..at + 4][p - at];
  }

  lemma SameHunkImages(flags: set<SecFlag>, k: Sink, addr: seq<nat>, addr': seq<nat>, bases: seq<Long>)
    requires DirectiveFlags(flags) && SinkOk(flags, k, |addr|) && |bases| == |addr| == |addr'| <= 0x1_0000_0000
    ensures LoadHunk(HunkOf(flags, k, addr), bases) == LoadHunk(HunkOf(flags, k, addr'), bases)
  {
    if !k.bss {
      LoadedSection(flags, k, addr, bases);
      LoadedSection(flags, k, addr', bases);
      var bytes := k.bytes + Padding(PadCount(|k.bytes|));
      PaddingLength(PadCount(|k.bytes|));
      hide LoadHunk, HunkOf, Relocated, Padding, PadCount;
      RelocatedUnique(bytes, k.relocs, bases, LoadHunk(HunkOf(flags, k, addr), bases).value,
                      LoadHunk(HunkOf(flags, k, addr'), bases).value);
    }
  }

  /** Where the section records happen to lie in the assembler's memory decides the order of the groups
      in the file, but nothing about the loaded program. */
  lemma AddressIndependence(lay: Layout, flags: seq<set<SecFlag>>, addr: seq<nat>, addr': seq<nat>, bases: seq<Long>)
    requires ProgramOk(lay, flags) && |addr| == |addr'| == |bases| == |flags| && Link(lay, flags, addr).Ok?
    ensures Link(lay, flags, addr').Ok?
    ensures LoadFile(Link(lay, flags, addr).value, bases) == LoadFile(Link(lay, flags, addr').value, bases)
  {
    LinkExact(lay, flags, addr);
    LinkExact(lay, flags, addr');
    var ks := LinkParts(lay, flags, addr);
    var ks' := LinkParts(lay, flags, addr');
    forall i | 0 <= i < |ks| ensures ks[i] == ks'[i] {
      assert WriteSection(lay, flags, i) == Ok(ks[i]) && WriteSection(lay, flags, i) == Ok(ks'[i]);
    }
    assert ks == ks';
    SinksOk(lay, flags, ks);
    FileRoundTrip(flags, ks, addr);
    FileRoundTrip(flags, ks, addr');
    forall i | 0 <= i < |ks|
      ensures LoadHunk(HunksOf(flags, ks, addr)[i], bases) == LoadHunk(HunksOf(flags, ks, addr')[i], bases)
    {
      assert DirectiveFlags(flags[i]);
      assert SinkOk(flags[i], ks[i], |flags|);
      SameHunkImages(flags[i], ks[i], addr, addr', bases);
    }
    SameLoads(HunksOf(flags, ks, addr), HunksOf(flags, ks, addr'), bases);
  }

  lemma {:induction false} SameLoads(a: seq<Hunk>, b: seq<Hunk>, bases: seq<Long>)
    requires |a| == |b| && forall i | 0 <= i < |a| :: LoadHunk(a[i], bases) == LoadHunk(b[i], bases)
    ensures LoadHunks(a, bases) == LoadHunks(b, bases)
    decreases |a|
  {
    if a == [] {
    } else {
      assert LoadHunk(a[0], bases) == LoadHunk(b[0], bases);
      hide LoadHunk;
      forall i | 0 <= i < |a| - 1 ensures LoadHunk(a[1..][i], bases) == LoadHunk(b[1..][i], bases) {
        assert LoadHunk(a[i + 1], bases) == LoadHunk(b[i + 1], bases);
      }
      SameLoads(a[1..], b[1..], bases);
    }
  }
}
