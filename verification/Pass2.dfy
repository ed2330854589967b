/** Pass 2 (src/codespace.c:389-630) as a function of the stored program. */
module Pass2 {
  import opened Basics
  import opened Entries

  /** What pass 2 reads: the entries of every section in order, and the section each symbol was
      pushed in (`symbol->sec`, absent when NULL). Symbols and sections are named by creation index. */
  datatype Layout = Layout(secs: seq<seq<Entry<nat>>>, place: map<nat, nat>) {
    ghost predicate Valid() {
      forall s | s in place :: place[s] < |secs|
    }
  }

  datatype Reloc = Reloc(target: nat, offset: Long)

  /** A section being written. For a BSS section `bytes` stands for the space reserved so far. */
  datatype Sink = Sink(bss: bool, pc: Long, bytes: seq<Byte>, relocs: seq<Reloc>)

  function Start(bss: bool): Sink {
    Sink(bss, 0, [], [])
  }

  const BLOCK: nat := 4096

  /** The first block is all the buffer there ever is: see `SecondPass.GrowthNeverFits`. */
  function Feed(k: Sink, bs: seq<Byte>): Result<Sink> {
    if !k.bss && |k.bytes| + |bs| > BLOCK then Fail(BufferOverrun)
    else Ok(k.(bytes := k.bytes + bs))
  }

  /** Feed some bytes and advance the program counter past them. */
  function Put(k: Sink, bs: seq<Byte>): Result<Sink> {
    var k' :- Feed(k, bs);
    Ok(k'.(pc := Wrap32(k.pc + |bs|)))
  }

  function PushReloc(k: Sink, target: nat, offset: Long): Result<Sink> {
    if offset % 2 == 1 then Fail(MisalignedAddress)
    else Ok(k.(relocs := k.relocs + [Reloc(target, offset)]))
  }

  /** The walk of `get_symbol_offset` along one entry list. */
  function Search(es: seq<Entry<nat>>, s: nat, ofs: Long): Result<Long> {
    if es == [] then Fail(UndeclaredSymbol)
    else if es[0] == Label(s) then Ok(ofs)
    else Search(es[1..], s, Wrap32(ofs + EntrySize(es[0])))
  }

  function SymbolOffset(lay: Layout, s: nat): Result<Long>
    requires lay.Valid()
  {
    if s !in lay.place then Fail(UndeclaredSymbol) else Search(lay.secs[lay.place[s]], s, 0)
  }

  /** A longword holding the offset of a symbol, with its relocation. */
  function PutAddress(lay: Layout, k: Sink, s: nat): Result<Sink>
    requires lay.Valid()
  {
    var ofs :- SymbolOffset(lay, s);
    var k' :- PushReloc(k, lay.place[s], k.pc);
    Put(k', Be32(ofs))
  }

  /** A word holding a distance. The comparison in the program is unsigned. */
  function PutRelative(lay: Layout, owner: nat, k: Sink, s: nat): Result<Sink>
    requires lay.Valid()
  {
    if s !in lay.place || lay.place[s] != owner then Fail(RelativeAddressTooLarge)
    else
      var ofs :- SymbolOffset(lay, s);
      var d := Wrap32(ofs - k.pc);
      if d > Wrap32(-32768) || d > 32767 then Fail(RelativeAddressTooLarge)
      else Put(k, Be16(d % 0x1_0000))
  }

  function WriteEa(lay: Layout, owner: nat, k: Sink, ea: Ea<nat>): Result<Sink>
    requires lay.Valid()
  {
    match |ea.ew|
    case 0 => Ok(k)
    case 1 => if ea.sym.Some? then PutRelative(lay, owner, k, ea.sym.value) else Put(k, Be16(ea.ew[0]))
    case 2 => if ea.sym.Some? then PutAddress(lay, k, ea.sym.value)
              else Put(k, Be32(ea.ew[0] as int * 0x1_0000 + ea.ew[1]))
    case _ => Fail(InvalidInstructionSize)
  }

  function WriteEas(lay: Layout, owner: nat, k: Sink, eas: seq<Ea<nat>>): Result<Sink>
    requires lay.Valid()
    decreases |eas|
  {
    if eas == [] then Ok(k)
    else
      var k' :- WriteEa(lay, owner, k, eas[0]);
      WriteEas(lay, owner, k', eas[1..])
  }

  function WriteInstr(lay: Layout, owner: nat, k: Sink, e: Entry<nat>): Result<Sink>
    requires lay.Valid() && e.Instr?
  {
    if k.pc % 2 == 1 then Fail(MisalignedInstruction)
    else if e.opsize != 2 then Fail(InvalidInstructionSize)
    else
      var k' :- Put(k, Be16(e.ops));
      WriteEas(lay, owner, k', e.eas)
  }

  /** One copy is written whatever the repeat count says. */
  function WriteData(lay: Layout, k: Sink, e: Entry<nat>): Result<Sink>
    requires lay.Valid() && e.Data?
  {
    match e.dsize
    case 1 => Put(k, [e.value % 0x100])
    case 2 => Put(k, Be16(e.value % 0x1_0000))
    case 4 => if e.tag.Some? then PutAddress(lay, k, e.tag.value) else Put(k, Be32(e.value))
    case _ => Ok(k.(pc := Wrap32(k.pc + e.dsize)))
  }

  function WriteEntry(lay: Layout, owner: nat, k: Sink, e: Entry<nat>): Result<Sink>
    requires lay.Valid()
  {
    match e
    case Instr(_, _, _) => WriteInstr(lay, owner, k, e)
    case Data(_, _, _, _) => WriteData(lay, k, e)
    case Label(_) => Ok(k)
  }

  function WriteEntries(lay: Layout, owner: nat, k: Sink, es: seq<Entry<nat>>): Result<Sink>
    requires lay.Valid()
    decreases |es|
  {
    if es == [] then Ok(k)
    else
      var k' :- WriteEntry(lay, owner, k, es[0]);
      WriteEntries(lay, owner, k', es[1..])
  }

  // ---------------------------------------------------------------- what a write adds

  ghost predicate Window(r: Reloc, lo: nat, hi: nat) {
    r.offset % 2 == 0 && lo <= r.offset && r.offset + 4 <= hi
  }

  /** Relocations wholly inside [lo, hi), even, ascending, at least four apart. */
  ghost predicate Spaced(rs: seq<Reloc>, lo: nat, hi: nat) {
    && (forall i | 0 <= i < |rs| :: Window(rs[i], lo, hi))
    && (forall i, j | 0 <= i < j < |rs| :: rs[i].offset + 4 <= rs[j].offset)
  }

  /** k' continues k: nothing already written changes, and new relocations mark new bytes. */
  ghost predicate Grows(k: Sink, k': Sink) {
    && k'.bss == k.bss
    && k.bytes <= k'.bytes
    && k.relocs <= k'.relocs
    && (|k'.bytes| <= 0x1_0000_0000 ==> Spaced(k'.relocs[|k.relocs|..], |k.bytes|, |k'.bytes|))
    && k'.pc == Wrap32(|k'.bytes|)
  }

  lemma SpacedAppend(a: seq<Reloc>, b: seq<Reloc>, lo: nat, mid: nat, hi: nat)
    requires lo <= mid <= hi && Spaced(a, lo, mid) && Spaced(b, mid, hi)
    ensures Spaced(a + b, lo, hi)
  {
    forall i | 0 <= i < |a + b| ensures Window((a + b)[i], lo, hi) {
      assert (a + b)[i] == if i < |a| then a[i] else b[i - |a|];
    }
    forall i, j | 0 <= i < j < |a + b| ensures (a + b)[i].offset + 4 <= (a + b)[j].offset {
      if i < |a| <= j { assert Window(a[i], lo, mid) && Window(b[j - |a|], mid, hi); }
    }
  }

  lemma GrowsTrans(a: Sink, b: Sink, c: Sink)
    requires Grows(a, b) && Grows(b, c)
    ensures Grows(a, c)
  {
    assert b.relocs == a.relocs + b.relocs[|a.relocs|..];
    assert c.relocs[|a.relocs|..] == b.relocs[|a.relocs|..] + c.relocs[|b.relocs|..];
    if |c.bytes| <= 0x1_0000_0000 {
      SpacedAppend(b.relocs[|a.relocs|..], c.relocs[|b.relocs|..], |a.bytes|, |b.bytes|, |c.bytes|);
    }
  }

  ghost predicate Synced(k: Sink) {
    k.pc == Wrap32(|k.bytes|)
  }

  lemma PutGrows(k: Sink, bs: seq<Byte>)
    requires Synced(k) && Put(k, bs).Ok?
    ensures var k' := Put(k, bs).value;
      Grows(k, k') && k'.bytes == k.bytes + bs && k'.relocs == k.relocs
  {
    WrapAdd(|k.bytes|, |bs|);
  }

  lemma PutAddressGrows(lay: Layout, k: Sink, s: nat)
    requires lay.Valid() && Synced(k) && PutAddress(lay, k, s).Ok?
    ensures SymbolOffset(lay, s).Ok? && s in lay.place
    ensures var k' := PutAddress(lay, k, s).value;
      && Grows(k, k')
      && k'.bytes == k.bytes + Be32(SymbolOffset(lay, s).value)
      && k'.relocs == k.relocs + [Reloc(lay.place[s], k.pc)]
  {
    hide Be32, Search;
    WrapAdd(|k.bytes|, 4);
    var k' := PutAddress(lay, k, s).value;
    assert k'.relocs[|k.relocs|..] == [Reloc(lay.place[s], k.pc)];
    assert |k'.bytes| <= 0x1_0000_0000 ==> Window(k'.relocs[|k.relocs|], |k.bytes|, |k'.bytes|);
  }

  lemma WriteEaGrows(lay: Layout, owner: nat, k: Sink, ea: Ea<nat>)
    requires lay.Valid() && Synced(k) && WriteEa(lay, owner, k, ea).Ok?
    ensures Grows(k, WriteEa(lay, owner, k, ea).value)
    ensures |WriteEa(lay, owner, k, ea).value.bytes| == |k.bytes| + 2 * |ea.ew|
  {
    match |ea.ew|
    case 0 =>
    case 1 =>
      if ea.sym.Some? {
        var d := Wrap32(SymbolOffset(lay, ea.sym.value).value - k.pc);
        PutGrows(k, Be16(d % 0x1_0000));
      } else {
        PutGrows(k, Be16(ea.ew[0]));
      }
    case 2 =>
      if ea.sym.Some? {
        PutAddressGrows(lay, k, ea.sym.value);
      } else {
        PutGrows(k, Be32(ea.ew[0] as int * 0x1_0000 + ea.ew[1]));
      }
    case _ =>
  }

  lemma {:induction false} WriteEasGrows(lay: Layout, owner: nat, k: Sink, eas: seq<Ea<nat>>)
    requires lay.Valid() && Synced(k) && WriteEas(lay, owner, k, eas).Ok?
    ensures Grows(k, WriteEas(lay, owner, k, eas).value)
    ensures |WriteEas(lay, owner, k, eas).value.bytes| == |k.bytes| + EwBytes(eas)
    decreases |eas|
  {
    if eas == [] {
    } else {
      var k' := WriteEa(lay, owner, k, eas[0]).value;
      WriteEaGrows(lay, owner, k, eas[0]);
      WriteEasGrows(lay, owner, k', eas[1..]);
      GrowsTrans(k, k', WriteEas(lay, owner, k, eas).value);
    }
  }

  /** Data records come in the three sizes `cs_push_data` accepts. */
  ghost predicate Storable(e: Entry<nat>) {
    match e
    case Instr(opsize, _, _) => opsize == 2
    case Data(dsize, _, _, tag) => (dsize == 1 || dsize == 2 || dsize == 4) && (tag.Some? ==> dsize == 4)
    case Label(_) => true
  }

  ghost predicate AllStorable(es: seq<Entry<nat>>) {
    forall i | 0 <= i < |es| :: Storable(es[i])
  }

  lemma StorableTail(es: seq<Entry<nat>>)
    requires AllStorable(es) && es != []
    ensures Storable(es[0]) && AllStorable(es[1..])
  {
  }

  lemma WriteEntryGrows(lay: Layout, owner: nat, k: Sink, e: Entry<nat>)
    requires lay.Valid() && Synced(k) && Storable(e) && WriteEntry(lay, owner, k, e).Ok?
    ensures Grows(k, WriteEntry(lay, owner, k, e).value)
    ensures |WriteEntry(lay, owner, k, e).value.bytes| == |k.bytes| + Emitted(e)
  {
    match e
    case Label(_) =>
    case Instr(_, ops, eas) =>
      var k' := Put(k, Be16(ops)).value;
      PutGrows(k, Be16(ops));
      WriteEasGrows(lay, owner, k', eas);
      GrowsTrans(k, k', WriteEntry(lay, owner, k, e).value);
    case Data(dsize, _, value, tag) =>
      if dsize == 1 { PutGrows(k, [value % 0x100]); }
      else if dsize == 2 { PutGrows(k, Be16(value % 0x1_0000)); }
      else if tag.Some? { PutAddressGrows(lay, k, tag.value); }
      else { PutGrows(k, Be32(value)); }
  }

  lemma {:induction false} WriteEntriesGrows(lay: Layout, owner: nat, k: Sink, es: seq<Entry<nat>>)
    requires lay.Valid() && Synced(k) && AllStorable(es) && WriteEntries(lay, owner, k, es).Ok?
    ensures Grows(k, WriteEntries(lay, owner, k, es).value)
    ensures |WriteEntries(lay, owner, k, es).value.bytes| == |k.bytes| + TotalEmitted(es)
    decreases |es|
  {
    if es == [] {
    } else {
      var k' := WriteEntry(lay, owner, k, es[0]).value;
      WriteEntryGrows(lay, owner, k, es[0]);
      WriteEntriesGrows(lay, owner, k', es[1..]);
      GrowsTrans(k, k', WriteEntries(lay, owner, k, es).value);
    }
  }
}
