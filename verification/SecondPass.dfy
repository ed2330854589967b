/** Pass 2 on the linked records (src/codespace.c:389-561, 585-630): bytes go into a growing buffer,
    relocations onto a list, symbols are looked up by walking the entries. */
module SecondPass {
  import opened Basics
  import opened Entries
  import opened CodeSpace
  import opened StoreRuns
  import P = Pass2
  import X = Executable

  // ---------------------------------------------------------------- a section while it is written

  ghost function AbsRelocs(rs: seq<RelocNode>): (r: seq<P.Reloc>)
    ensures |r| == |rs| && forall i | 0 <= i < |rs| :: r[i] == P.Reloc(rs[i].target.id, rs[i].offset)
  {
    seq(|rs|, i requires 0 <= i < |rs| => P.Reloc(rs[i].target.id, rs[i].offset))
  }

  /** A singly linked list of relocations, with its end. */
  ghost predicate RelocList(sec: Section)
    reads sec`freloc, sec`lreloc, sec`relocs, sec.relocs
  {
    && (sec.relocs == [] ==> sec.freloc == null && sec.lreloc == null)
    && (sec.relocs != [] ==>
          sec.freloc == sec.relocs[0] && sec.lreloc == sec.relocs[|sec.relocs| - 1] && sec.lreloc.next == null)
    && (forall i | 0 <= i < |sec.relocs| - 1 :: sec.relocs[i].next == sec.relocs[i + 1])
    && (forall i, j | 0 <= i < j < |sec.relocs| :: sec.relocs[i] != sec.relocs[j])
    && (forall i | 0 <= i < |sec.relocs| :: sec.relocs[i].owner == sec)
  }

  ghost function DataOf(sec: Section): set<object>
    reads sec`data
  {
    if sec.data == null then {} else {sec.data}
  }

  /** The first `size` bytes of the block are what was fed; a BSS section has a size and no block. */
  ghost predicate Buffered(sec: Section)
    reads sec`size, sec`block, sec`data, sec`bytes, DataOf(sec)
  {
    && sec.size == Wrap32(|sec.bytes|)
    && (Bss in sec.flags ==> sec.data == null)
    && (Bss !in sec.flags ==> |sec.bytes| <= P.BLOCK)
    && (sec.data == null ==> Bss in sec.flags || sec.bytes == [])
    && (sec.data != null ==> sec.data.Length == sec.block == P.BLOCK && sec.data[..|sec.bytes|] == sec.bytes)
  }

  ghost function SinkOf(sec: Section, pc: Long): P.Sink
    reads sec`bytes, sec`relocs
  {
    P.Sink(Bss in sec.flags, pc, sec.bytes, AbsRelocs(sec.relocs))
  }

  // ---------------------------------------------------------------- the buffer

  /** `x & 4096`. */
  function Mask4096(x: nat): nat {
    x / 0x1000 % 2 * 0x1000
  }

  /** The block size `cs_feed` asks for. Rounding up to whole pages would need `& ~4095`. */
  function Grown(block: nat, n: nat): nat {
    Mask4096(Wrap32(block + n + 4095))
  }

  /** The new block is never large enough, so the bytes after the first 4096 have no place. */
  lemma GrowthNeverFits(size: nat, n: nat)
    requires size <= 4096 && size + n > 4096
    ensures Grown(4096, n) < size + n
  {
  }

  /** The buffer as it is meant to be: a block of whole pages, and how much of it is in use. */
  datatype Paged = Paged(block: seq<Byte>, size: nat) {
    predicate Whole() { |block| % 4096 == 0 && size <= |block| }

    function Used(): seq<Byte>
      requires Whole()
    {
      block[..size]
    }
  }

  /** A block with room for n more bytes behind those of another, in whole pages. */
  function RoundUp(block: nat, n: nat): (r: nat)
    requires block % 4096 == 0
    ensures r % 4096 == 0 && block + n <= r < block + n + 4096
  {
    (block + n + 4095) / 4096 * 4096
  }

  function FeedPaged(p: Paged, bs: seq<Byte>): Paged
    requires p.Whole()
  {
    var more := if p.size + |bs| > |p.block| then RoundUp(|p.block|, |bs|) - |p.block| else 0;
    var room := p.block + X.Zeros(more);
    Paged(room[..p.size] + bs + room[p.size + |bs|..], p.size + |bs|)
  }

  lemma FeedPagedKeeps(p: Paged, bs: seq<Byte>)
    requires p.Whole()
    ensures FeedPaged(p, bs).Whole() && |p.block| <= |FeedPaged(p, bs).block|
    ensures FeedPaged(p, bs).Used() == p.Used() + bs
  {
    var p' := FeedPaged(p, bs);
    assert p'.block[..p'.size] == p.block[..p.size] + bs;
  }

  function FeedAllPaged(p: Paged, chunks: seq<seq<Byte>>): Paged
    requires p.Whole()
    decreases |chunks|
  {
    if chunks == [] then p
    else
      FeedPagedKeeps(p, chunks[0]);
      FeedAllPaged(FeedPaged(p, chunks[0]), chunks[1..])
  }

  function Concatenated(chunks: seq<seq<Byte>>): seq<Byte> {
    if chunks == [] then [] else chunks[0] + Concatenated(chunks[1..])
  }

  /** Had the mask been `& ~4095`, any sequence of chunks would fit: the capacity stays a multiple of a
      page that is at least the size, the block never shrinks, and what is in use is what was there
      followed by all that was fed. */
  lemma {:induction false} RoundingWouldFit(p: Paged, chunks: seq<seq<Byte>>)
    requires p.Whole()
    ensures var p' := FeedAllPaged(p, chunks);
      p'.Whole() && |p.block| <= |p'.block| && p'.Used() == p.Used() + Concatenated(chunks)
    decreases |chunks|
  {
    hide FeedPaged;
    if chunks == [] {
      assert p.Used() + [] == p.Used();
    } else {
      FeedPagedKeeps(p, chunks[0]);
      RoundingWouldFit(FeedPaged(p, chunks[0]), chunks[1..]);
      assert p.Used() + chunks[0] + Concatenated(chunks[1..]) == p.Used() + (chunks[0] + Concatenated(chunks[1..]));
    }
  }

  function Repeated(bs: seq<Byte>, n: nat): seq<Byte> {
    if n == 0 then [] else bs + Repeated(bs, n - 1)
  }

  function FeedTimes(k: P.Sink, bs: seq<Byte>, n: nat): Result<P.Sink>
    decreases n
  {
    if n == 0 then Ok(k)
    else
      var k' :- P.Feed(k, bs);
      FeedTimes(k', bs, n - 1)
  }

  /** Over any number of copies: the buffer holds the concatenation of all that was fed, and feeding
      succeeds exactly while the total stays within one block, or always for BSS. */
  lemma {:induction false} FeedTimesExact(k: P.Sink, bs: seq<Byte>, n: nat)
    requires k.bss || |k.bytes| <= P.BLOCK
    ensures FeedTimes(k, bs, n).Ok? <==> k.bss || |k.bytes| + |Repeated(bs, n)| <= P.BLOCK
    ensures FeedTimes(k, bs, n).Ok? ==> FeedTimes(k, bs, n).value == k.(bytes := k.bytes + Repeated(bs, n))
    ensures FeedTimes(k, bs, n).Fail? ==> FeedTimes(k, bs, n).error == BufferOverrun
    decreases n
  {
    if n == 0 {
      assert k.bytes + [] == k.bytes;
    } else if P.Feed(k, bs).Ok? {
      FeedTimesExact(P.Feed(k, bs).value, bs, n - 1);
      assert k.bytes + bs + Repeated(bs, n - 1) == k.bytes + Repeated(bs, n);
    }
  }

  lemma {:induction false} RepeatedLength(bs: seq<Byte>, n: nat)
    ensures |Repeated(bs, n)| == n * |bs|
    decreases n
  {
    if n == 0 {
    } else {
      RepeatedLength(bs, n - 1);
    }
  }

  /** `realloc`. */
  method Reallocate(data: array<Byte>, length: nat) returns (bigger: array<Byte>)
    ensures fresh(bigger) && bigger.Length == length
    ensures forall i | 0 <= i < length && i < data.Length :: bigger[i] == data[i]
  {
    bigger := new Byte[length](_ => 0);
    forall i | 0 <= i < length && i < data.Length {
      bigger[i] := data[i];
    }
  }

  /** `memcpy` of one chunk to the end of the buffer. */
  method Copy(sec: Section, bs: seq<Byte>)
    requires Buffered(sec) && sec.data != null && sec.size as int + |bs| <= P.BLOCK && Bss !in sec.flags
    modifies sec`size, sec`bytes, sec.data
    ensures Buffered(sec) && sec.bytes == old(sec.bytes) + bs
  {
    WrapSmall(|sec.bytes|);
    forall i | 0 <= i < |bs| {
      sec.data[sec.size as int + i] := bs[i];
    }
    sec.size := sec.size + |bs|;
    sec.bytes := sec.bytes + bs;
    assert sec.data[..|old(sec.bytes)|] == old(sec.bytes);
    WrapSmall(|sec.bytes|);
  }

  /** `cs_feed`. The length of a chunk is a `uint32_t`, and so is its sum with the size. */
  method Feed(sec: Section, bs: seq<Byte>, repeat: nat) returns (r: Result<()>)
    requires Buffered(sec) && |bs| < 0x1_0000_0000
    modifies sec`size, sec`block, sec`data, sec`bytes, DataOf(sec)
    ensures FeedTimes(old(SinkOf(sec, 0)), bs, repeat).Ok? ==>
      r.Ok? && Buffered(sec) && SinkOf(sec, 0) == FeedTimes(old(SinkOf(sec, 0)), bs, repeat).value
    ensures FeedTimes(old(SinkOf(sec, 0)), bs, repeat).Fail? ==>
      r == Fail(FeedTimes(old(SinkOf(sec, 0)), bs, repeat).error)
    ensures sec.data != null && sec.data != old(sec.data) ==> fresh(sec.data)
  {
    ghost var k := SinkOf(sec, 0);
    FeedTimesExact(k, bs, repeat);
    if Bss in sec.flags {
      RepeatedLength(bs, repeat);
      WrapAdd(|sec.bytes|, repeat * |bs|);
      sec.size := Wrap32(sec.size as int + repeat * |bs|);
      sec.bytes := sec.bytes + Repeated(bs, repeat);
      return Ok(());
    }
    if sec.data == null {
      sec.block := 4096;
      sec.data := new Byte[4096](_ => 0);
    }
    var left := repeat;
    while left > 0
      invariant Buffered(sec) && sec.data != null && sec.relocs == old(sec.relocs)
      invariant FeedTimes(SinkOf(sec, 0), bs, left) == FeedTimes(k, bs, repeat)
      invariant sec.data != old(sec.data) ==> fresh(sec.data)
    {
      WrapSmall(|sec.bytes|);
      if Wrap32(sec.size as int + |bs|) > sec.block {
        GrowthNeverFits(sec.size, |bs|);
        sec.block := Grown(sec.block, |bs|);
        sec.data := Reallocate(sec.data, sec.block);
      }
      if sec.size as int + |bs| > sec.data.Length { return Fail(BufferOverrun); }
      Copy(sec, bs);
      left := left - 1;
    }
    r := Ok(());
  }

  // ---------------------------------------------------------------- relocations

  /** Targets are told apart by their identity. */
  ghost predicate Identified(rs: seq<RelocNode>, secs: seq<Section>) {
    forall i | 0 <= i < |rs| :: rs[i].target.id < |secs| && secs[rs[i].target.id] == rs[i].target
  }

  /** A section that can be written to: its buffer and list are in order, and its relocations lead to
      sections of the store. */
  ghost predicate Open(sec: Section, secs: seq<Section>)
    reads sec`size, sec`block, sec`data, sec`bytes, sec`freloc, sec`lreloc, sec`relocs, DataOf(sec), sec.relocs
  {
    Buffered(sec) && RelocList(sec) && Identified(sec.relocs, secs)
  }

  /** The objects a section owns during pass 2. */
  ghost function Footprint(sec: Section): set<object>
    reads sec`data, sec`relocs
  {
    DataOf(sec) + set r | r in sec.relocs
  }

  lemma AbsRelocsAppend(rs: seq<RelocNode>, r: RelocNode)
    ensures AbsRelocs(rs + [r]) == AbsRelocs(rs) + [P.Reloc(r.target.id, r.offset)]
  {
  }

  /** Put a record at the end of the list. */
  method LinkReloc(owner: Section, out: RelocNode)
    requires RelocList(owner) && out !in owner.relocs && out.owner == owner && out.next == null
    modifies owner`freloc, owner`lreloc, owner`relocs, owner.relocs
    ensures RelocList(owner) && owner.relocs == old(owner.relocs) + [out]
  {
    ghost var before := owner.relocs;
    if owner.lreloc != null {
      assert before[|before| - 1] in before;
      assert forall i | 0 <= i < |before| - 1 :: before[i] != before[|before| - 1];
      owner.lreloc.next := out;
      owner.lreloc := out;
    } else {
      owner.freloc, owner.lreloc := out, out;
    }
    owner.relocs := owner.relocs + [out];
  }

  /** `cs_push_reloc`. */
  method PushReloc(owner: Section, target: Section, offset: Long, ghost secs: seq<Section>) returns (r: Result<()>)
    requires Open(owner, secs) && target.id < |secs| && secs[target.id] == target
    modifies owner`freloc, owner`lreloc, owner`relocs, Footprint(owner) - DataOf(owner)
    ensures P.PushReloc(old(SinkOf(owner, 0)), target.id, offset).Ok? ==>
      r.Ok? && Open(owner, secs) && SinkOf(owner, 0) == P.PushReloc(old(SinkOf(owner, 0)), target.id, offset).value
    ensures P.PushReloc(old(SinkOf(owner, 0)), target.id, offset).Fail? ==>
      r == Fail(P.PushReloc(old(SinkOf(owner, 0)), target.id, offset).error)
    ensures fresh(Footprint(owner) - old(Footprint(owner)))
  {
    hide Wrap32, Buffered, RelocList, AbsRelocs;
    if offset % 2 == 1 { return Fail(MisalignedAddress); }
    var out := new RelocNode(owner, target, offset);
    AbsRelocsAppend(owner.relocs, out);
    assert forall i | 0 <= i < |owner.relocs| :: owner.relocs[i] !in DataOf(owner);
    LinkReloc(owner, out);
    r := Ok(());
  }

  // ---------------------------------------------------------------- symbols

  lemma LayoutValid(cs: CodeSpace)
    requires cs.Built()
    ensures LayoutOf(cs.st).Valid() && |cs.secs| == |LayoutOf(cs.st).secs|
  {
    var lay := LayoutOf(cs.st);
    assert |cs.secs| == |cs.st.secs|;
    forall s | s in lay.place ensures lay.place[s] < |lay.secs| {
      SymAt(cs.syms, cs.st.syms, cs.secs, s);
    }
  }

  lemma SearchStep(es: seq<Entry<nat>>, s: nat, m: nat, ofs: Long)
    requires m < |es| && es[m] != Label(s)
    ensures P.Search(es[m..], s, ofs) == P.Search(es[m + 1..], s, Wrap32(ofs as int + EntrySize(es[m])))
  {
    assert es[m..][0] == es[m] && es[m..][1..] == es[m + 1..];
  }

  /** A label of the heap is a label of the value. */
  lemma SameLabel(e: Entry<Symbol>, s: Symbol, syms: seq<Symbol>)
    requires KnownEntry(e, syms) && Known(s, syms)
    ensures e == Label(s) <==> AbsEntry(e) == Label(s.id)
  {
  }

  /** The walk along the entries of one section. */
  method Walk(sec: Section, symbol: Symbol, ghost es: seq<Entry<nat>>, ghost syms: seq<Symbol>)
      returns (r: Result<Long>)
    requires sec.Linked() && NodesAre(sec.nodes, es) && KnownNodes(sec.nodes, syms) && Known(symbol, syms)
    ensures r == P.Search(es, symbol.id, 0)
  {
    hide Wrap32, P.Search, AbsEntry, KnownEntry, Known, EntrySize;
    var ofs: Long := 0;
    var entry := sec.first;
    ghost var m := 0;
    assert es[0..] == es;
    while entry != null
      invariant m <= |es| && entry == (if m < |es| then sec.nodes[m] else null)
      invariant P.Search(es, symbol.id, 0) == P.Search(es[m..], symbol.id, ofs)
      decreases |es| - m
    {
      SameLabel(sec.nodes[m].val, symbol, syms);
      if entry.val == Label(symbol) {
        SearchEnds(es[m..], symbol.id, ofs);
        return Ok(ofs);
      }
      SearchStep(es, symbol.id, m, ofs);
      ofs := Wrap32(ofs as int + entry.size);
      entry := entry.next;
      m := m + 1;
    }
    SearchEnds(es[m..], symbol.id, ofs);
    return Fail(UndeclaredSymbol);
  }

  /** `get_symbol_offset`. */
  method SymbolOffset(cs: CodeSpace, symbol: Symbol) returns (r: Result<Long>)
    requires cs.Built() && LayoutOf(cs.st).Valid() && Known(symbol, cs.syms)
    ensures r == P.SymbolOffset(LayoutOf(cs.st), symbol.id)
    ensures r.Ok? ==> symbol.sec != null && symbol.id in LayoutOf(cs.st).place
                      && LayoutOf(cs.st).place[symbol.id] == symbol.sec.id
                      && symbol.sec.id < |cs.secs| && cs.secs[symbol.sec.id] == symbol.sec
  {
    SymbolPlace(cs, symbol);
    hide SymsAre, SecsAre, AllKnown, Chained, P.Search;
    if symbol.sec == null { return Fail(UndeclaredSymbol); }
    r := Walk(symbol.sec, symbol, cs.st.secs[symbol.sec.id].entries, cs.syms);
  }

  lemma SearchEnds(es: seq<Entry<nat>>, s: nat, ofs: Long)
    ensures es == [] ==> P.Search(es, s, ofs) == Fail(UndeclaredSymbol)
    ensures es != [] && es[0] == Label(s) ==> P.Search(es, s, ofs) == Ok(ofs)
  {
  }

  /** The section a symbol points to is the one its value names, with the same entries. */
  lemma SymbolPlace(cs: CodeSpace, symbol: Symbol)
    requires cs.Built() && LayoutOf(cs.st).Valid() && Known(symbol, cs.syms)
    ensures var lay := LayoutOf(cs.st);
      && (symbol.sec == null <==> symbol.id !in lay.place)
      && (symbol.sec != null ==>
        && symbol.sec.id < |cs.secs| == |cs.st.secs| && symbol.sec == cs.secs[symbol.sec.id]
        && lay.place[symbol.id] == symbol.sec.id
        && lay.secs[symbol.sec.id] == cs.st.secs[symbol.sec.id].entries
        && symbol.sec.Linked()
        && NodesAre(symbol.sec.nodes, cs.st.secs[symbol.sec.id].entries)
        && KnownNodes(symbol.sec.nodes, cs.syms))
  {
    SymAt(cs.syms, cs.st.syms, cs.secs, symbol.id);
    if symbol.sec != null {
      SecAt(cs.secs, cs.st.secs, cs.pool, cs.st.syms[symbol.id].sec.value);
    }
  }

  // ---------------------------------------------------------------- fields

  /** The record and its program counter are where the specification says. */
  ghost predicate Follows(spec: Result<P.Sink>, sec: Section, secs: seq<Section>, r: Result<Long>)
    reads sec`size, sec`block, sec`data, sec`bytes, sec`freloc, sec`lreloc, sec`relocs, DataOf(sec), sec.relocs
  {
    match spec
    case Ok(k) => r.Ok? && Open(sec, secs) && SinkOf(sec, r.value) == k
    case Fail(e) => r == Fail(e)
  }

  lemma FeedOnce(k: P.Sink, bs: seq<Byte>)
    ensures FeedTimes(k, bs, 1) == P.Feed(k, bs)
  {
    if P.Feed(k, bs).Ok? { assert FeedTimes(P.Feed(k, bs).value, bs, 0) == P.Feed(k, bs); }
  }

  /** Feed one copy and advance the program counter past it. */
  method Put(sec: Section, bs: seq<Byte>, pc: Long, ghost secs: seq<Section>) returns (r: Result<Long>)
    requires Open(sec, secs) && |bs| <= 4
    modifies sec`size, sec`block, sec`data, sec`bytes, DataOf(sec)
    ensures Follows(P.Put(old(SinkOf(sec, pc)), bs), sec, secs, r)
    ensures fresh(Footprint(sec) - old(Footprint(sec)))
  {
    hide RelocList, Buffered, Wrap32, FeedTimes, AbsRelocs;
    FeedOnce(SinkOf(sec, 0), bs);
    var fed := Feed(sec, bs, 1);
    if fed.Fail? { return Fail(fed.error); }
    r := Ok(Wrap32(pc as int + |bs|));
  }

  /** What pass 2 may rely on while it writes into the current section. */
  ghost predicate Writing(cs: CodeSpace, node: Node)
    reads cs, cs.syms, cs.secs`first, cs.secs`curr, cs.secs`nodes, cs.secs`next, cs.pool, node`owner
  {
    && cs.Built() && LayoutOf(cs.st).Valid()
    && cs.curr != null && node.owner == cs.curr
    && cs.curr.id < |cs.secs| && cs.secs[cs.curr.id] == cs.curr
  }

  /** The program counter plays no part in recording a relocation. */
  lemma PutLater(k: P.Sink, pc: Long)
    ensures forall t: nat, o: Long {:trigger P.PushReloc(k, t, o)} ::
      P.PushReloc(k.(pc := pc), t, o)
      == match P.PushReloc(k, t, o) { case Ok(k') => Ok(k'.(pc := pc)) case Fail(e) => Fail(e) }
  {
  }

  /** A longword holding the offset of a symbol, with its relocation. */
  method PutAddress(cs: CodeSpace, node: Node, symbol: Symbol, pc: Long) returns (r: Result<Long>)
    requires Writing(cs, node) && Known(symbol, cs.syms) && Open(cs.curr, cs.secs)
    modifies cs.curr`size, cs.curr`block, cs.curr`data, cs.curr`bytes, cs.curr`freloc, cs.curr`lreloc, cs.curr`relocs
    modifies Footprint(cs.curr)
    ensures Follows(P.PutAddress(LayoutOf(cs.st), old(SinkOf(cs.curr, pc)), symbol.id), cs.curr, cs.secs, r)
    ensures fresh(Footprint(cs.curr) - old(Footprint(cs.curr)))
  {
    hide SymsAre, SecsAre, AllKnown, Chained, LayoutOf, Wrap32, Be32, P.SymbolOffset, RelocList, Buffered,
         AbsRelocs, P.Put;
    PutLater(SinkOf(cs.curr, 0), pc);
    var ofs := SymbolOffset(cs, symbol);
    if ofs.Fail? { return ofs; }
    var pushed := PushReloc(node.owner, symbol.sec, pc, cs.secs);
    if pushed.Fail? { return Fail(pushed.error); }
    r := Put(cs.curr, Be32(ofs.value), pc, cs.secs);
  }

  /** A word holding the distance to a symbol of the same section. */
  method PutRelative(cs: CodeSpace, node: Node, symbol: Symbol, pc: Long) returns (r: Result<Long>)
    requires Writing(cs, node) && Known(symbol, cs.syms) && Open(cs.curr, cs.secs)
    modifies cs.curr`size, cs.curr`block, cs.curr`data, cs.curr`bytes, DataOf(cs.curr)
    ensures Follows(P.PutRelative(LayoutOf(cs.st), cs.curr.id, old(SinkOf(cs.curr, pc)), symbol.id), cs.curr, cs.secs,
                    r)
    ensures fresh(Footprint(cs.curr) - old(Footprint(cs.curr)))
  {
    hide SymsAre, SecsAre, AllKnown, Chained, LayoutOf, Wrap32, Be16, P.SymbolOffset;
    SymbolPlace(cs, symbol);
    if symbol.sec != node.owner { return Fail(RelativeAddressTooLarge); }
    var ofs := SymbolOffset(cs, symbol);
    if ofs.Fail? { return ofs; }
    var d := Wrap32(ofs.value - pc);
    if d > Wrap32(-32768) || d > 32767 { return Fail(RelativeAddressTooLarge); }
    r := Put(cs.curr, Be16(d % 0x1_0000), pc, cs.secs);
  }

  /** `cs_write_ea`. */
  method WriteEa(cs: CodeSpace, node: Node, ea: Ea<Symbol>, pc: Long) returns (r: Result<Long>)
    requires Writing(cs, node) && (ea.sym.Some? ==> Known(ea.sym.value, cs.syms)) && Open(cs.curr, cs.secs)
    modifies cs.curr`size, cs.curr`block, cs.curr`data, cs.curr`bytes, cs.curr`freloc, cs.curr`lreloc, cs.curr`relocs
    modifies Footprint(cs.curr)
    ensures Follows(P.WriteEa(LayoutOf(cs.st), cs.curr.id, old(SinkOf(cs.curr, pc)), AbsEa(ea)), cs.curr, cs.secs, r)
    ensures fresh(Footprint(cs.curr) - old(Footprint(cs.curr)))
  {
    hide SymsAre, SecsAre, AllKnown, Chained, LayoutOf, Wrap32, Be16, Be32, P.PutAddress, P.PutRelative, P.Put;
    match |ea.ew|
    case 0 => r := Ok(pc);
    case 1 =>
      if ea.sym.Some? { r := PutRelative(cs, node, ea.sym.value, pc); }
      else { r := Put(cs.curr, Be16(ea.ew[0]), pc, cs.secs); }
    case 2 =>
      if ea.sym.Some? { r := PutAddress(cs, node, ea.sym.value, pc); }
      else { r := Put(cs.curr, Be32(ea.ew[0] as int * 0x1_0000 + ea.ew[1]), pc, cs.secs); }
    case _ => r := Fail(InvalidInstructionSize);
  }

  lemma EasStep(lay: P.Layout, owner: nat, k: P.Sink, eas: seq<Ea<Symbol>>, i: nat)
    requires lay.Valid() && i < |eas|
    ensures P.WriteEas(lay, owner, k, AbsEas(eas)[i..]) ==
      match P.WriteEa(lay, owner, k, AbsEa(eas[i])) {
        case Ok(k') => P.WriteEas(lay, owner, k', AbsEas(eas)[i + 1..])
        case Fail(e) => Fail(e)
      }
  {
    var es := AbsEas(eas);
    assert es[i..][0] == es[i] && es[i..][1..] == es[i + 1..];
  }

  lemma EasDone(lay: P.Layout, owner: nat, k: P.Sink, eas: seq<Ea<Symbol>>)
    requires lay.Valid()
    ensures P.WriteEas(lay, owner, k, AbsEas(eas)[|eas|..]) == Ok(k)
    ensures AbsEas(eas)[0..] == AbsEas(eas)
  {
  }

  /** The effective addresses of an instruction, one after the other. */
  method WriteEas(cs: CodeSpace, node: Node, eas: seq<Ea<Symbol>>, at: Long) returns (r: Result<Long>)
    requires Writing(cs, node) && KnownEas(eas, cs.syms) && Open(cs.curr, cs.secs)
    modifies cs.curr`size, cs.curr`block, cs.curr`data, cs.curr`bytes, cs.curr`freloc, cs.curr`lreloc, cs.curr`relocs
    modifies Footprint(cs.curr)
    ensures Follows(P.WriteEas(LayoutOf(cs.st), cs.curr.id, old(SinkOf(cs.curr, at)), AbsEas(eas)), cs.curr, cs.secs, r)
    ensures fresh(Footprint(cs.curr) - old(Footprint(cs.curr)))
  {
    hide SymsAre, SecsAre, AllKnown, Chained, LayoutOf, Wrap32, P.WriteEa, P.WriteEas, Open, AbsEas, AbsEa,
         Buffered, RelocList;
    ghost var lay, sec, k := LayoutOf(cs.st), cs.curr, SinkOf(cs.curr, at);
    var pc, i := at, 0;
    EasDone(lay, sec.id, k, eas);
    while i < |eas|
      invariant i <= |eas| && Open(sec, cs.secs)
      invariant P.WriteEas(lay, sec.id, SinkOf(sec, pc), AbsEas(eas)[i..]) == P.WriteEas(lay, sec.id, k, AbsEas(eas))
      invariant fresh(Footprint(sec) - old(Footprint(sec)))
    {
      EasStep(lay, sec.id, SinkOf(sec, pc), eas, i);
      var next := WriteEa(cs, node, eas[i], pc);
      if next.Fail? { return next; }
      pc := next.value;
      i := i + 1;
    }
    EasDone(lay, sec.id, SinkOf(sec, pc), eas);
    r := Ok(pc);
  }

  /** `cs_write_instr`. */
  method WriteInstr(cs: CodeSpace, node: Node, pc: Long) returns (r: Result<Long>)
    requires Writing(cs, node) && node.val.Instr? && KnownEntry(node.val, cs.syms) && Open(cs.curr, cs.secs)
    modifies cs.curr`size, cs.curr`block, cs.curr`data, cs.curr`bytes, cs.curr`freloc, cs.curr`lreloc, cs.curr`relocs
    modifies Footprint(cs.curr)
    ensures Follows(P.WriteInstr(LayoutOf(cs.st), cs.curr.id, old(SinkOf(cs.curr, pc)), AbsEntry(node.val)), cs.curr,
                    cs.secs, r)
    ensures fresh(Footprint(cs.curr) - old(Footprint(cs.curr)))
  {
    hide SymsAre, SecsAre, AllKnown, Chained, LayoutOf, Wrap32, P.WriteEas, P.Put, Open, AbsEas, AbsEa, Be16,
         Buffered, RelocList;
    if pc % 2 == 1 { return Fail(MisalignedInstruction); }
    if node.val.opsize != 2 { return Fail(InvalidInstructionSize); }
    var next := Put(cs.curr, Be16(node.val.ops), pc, cs.secs);
    if next.Fail? { return next; }
    r := WriteEas(cs, node, node.val.eas, next.value);
  }

  /** `cs_write_data`. */
  method WriteData(cs: CodeSpace, node: Node, pc: Long) returns (r: Result<Long>)
    requires Writing(cs, node) && node.val.Data? && KnownEntry(node.val, cs.syms) && Open(cs.curr, cs.secs)
    modifies cs.curr`size, cs.curr`block, cs.curr`data, cs.curr`bytes, cs.curr`freloc, cs.curr`lreloc, cs.curr`relocs
    modifies Footprint(cs.curr)
    ensures Follows(P.WriteData(LayoutOf(cs.st), old(SinkOf(cs.curr, pc)), AbsEntry(node.val)), cs.curr, cs.secs, r)
    ensures fresh(Footprint(cs.curr) - old(Footprint(cs.curr)))
  {
    hide SymsAre, SecsAre, AllKnown, Chained, LayoutOf, Wrap32, P.Put, P.PutAddress, Open, Be16, Be32, Buffered,
         RelocList;
    var data := node.val;
    match data.dsize
    case 1 => r := Put(cs.curr, [data.value % 0x100], pc, cs.secs);
    case 2 => r := Put(cs.curr, Be16(data.value % 0x1_0000), pc, cs.secs);
    case 4 =>
      if data.tag.Some? { r := PutAddress(cs, node, data.tag.value, pc); }
      else { r := Put(cs.curr, Be32(data.value), pc, cs.secs); }
    case _ => r := Ok(Wrap32(pc as int + data.dsize));
  }

  lemma EntriesStep(lay: P.Layout, owner: nat, k: P.Sink, es: seq<Entry<nat>>, m: nat)
    requires lay.Valid() && m < |es|
    ensures P.WriteEntries(lay, owner, k, es[m..]) ==
      match P.WriteEntry(lay, owner, k, es[m]) {
        case Ok(k') => P.WriteEntries(lay, owner, k', es[m + 1..])
        case Fail(e) => Fail(e)
      }
  {
    assert es[m..][0] == es[m] && es[m..][1..] == es[m + 1..];
  }

  lemma EntriesDone(lay: P.Layout, owner: nat, k: P.Sink, es: seq<Entry<nat>>)
    requires lay.Valid()
    ensures P.WriteEntries(lay, owner, k, es[|es|..]) == Ok(k) && es[0..] == es
  {
  }

  /** One entry of the section being written. */
  method WriteEntry(cs: CodeSpace, node: Node, pc: Long) returns (r: Result<Long>)
    requires Writing(cs, node) && KnownEntry(node.val, cs.syms) && Open(cs.curr, cs.secs)
    modifies cs.curr`size, cs.curr`block, cs.curr`data, cs.curr`bytes, cs.curr`freloc, cs.curr`lreloc, cs.curr`relocs
    modifies Footprint(cs.curr)
    ensures Follows(P.WriteEntry(LayoutOf(cs.st), cs.curr.id, old(SinkOf(cs.curr, pc)), AbsEntry(node.val)), cs.curr,
                    cs.secs, r)
    ensures fresh(Footprint(cs.curr) - old(Footprint(cs.curr)))
  {
    hide SymsAre, SecsAre, AllKnown, Chained, LayoutOf, Wrap32, P.WriteInstr, P.WriteData, Open, AbsEas, Buffered,
         RelocList;
    match node.val
    case Instr(_, _, _) => r := WriteInstr(cs, node, pc);
    case Data(_, _, _, _) => r := WriteData(cs, node, pc);
    case Label(_) => r := Ok(pc);
  }

  /** The lists of the store, and the entries of the section that is being written. */
  ghost predicate Underway(cs: CodeSpace, sec: Section, es: seq<Entry<nat>>)
    reads cs, cs.syms, cs.secs`first, cs.secs`curr, cs.secs`nodes, cs.secs`next, cs.pool
    reads sec`first, sec`curr, sec`nodes, sec.nodes
  {
    && cs.Built() && LayoutOf(cs.st).Valid() && cs.curr == sec && sec.id < |cs.secs| && cs.secs[sec.id] == sec
    && sec.Linked() && NodesAre(sec.nodes, es) && KnownNodes(sec.nodes, cs.syms)
  }

  /** One turn of the inner loop of `cs_write`. */
  method WriteNode(cs: CodeSpace, sec: Section, entry: Node, pc: Long, ghost es: seq<Entry<nat>>, ghost m: nat)
      returns (r: Result<Long>, next: Node?)
    requires Underway(cs, sec, es) && m < |es| == |sec.nodes| && entry == sec.nodes[m] && Open(sec, cs.secs)
    modifies sec`size, sec`block, sec`data, sec`bytes, sec`freloc, sec`lreloc, sec`relocs, Footprint(sec)
    ensures LayoutOf(cs.st).Valid()
    ensures Follows(P.WriteEntry(LayoutOf(cs.st), sec.id, old(SinkOf(sec, pc)), es[m]), sec, cs.secs, r)
    ensures fresh(Footprint(sec) - old(Footprint(sec)))
    ensures Underway(cs, sec, es) && next == (if m + 1 < |es| then sec.nodes[m + 1] else null)
  {
    hide SymsAre, SecsAre, AllKnown, Chained, LayoutOf, Wrap32, P.WriteEntry, Open, AbsEntry, KnownEntry, EntrySize,
         Buffered, RelocList;
    r := WriteEntry(cs, entry, pc);
    next := entry.next;
  }

  lemma FirstNode(cs: CodeSpace, sec: Section, es: seq<Entry<nat>>)
    requires Underway(cs, sec, es)
    ensures |sec.nodes| == |es| && sec.first == (if 0 < |es| then sec.nodes[0] else null) && LayoutOf(cs.st).Valid()
  {
  }

  /** The entries of the current section (the inner loop of `cs_write`). */
  method WriteSection(cs: CodeSpace, sec: Section, ghost es: seq<Entry<nat>>) returns (r: Result<Long>)
    requires Underway(cs, sec, es) && Open(sec, cs.secs)
    modifies sec`size, sec`block, sec`data, sec`bytes, sec`freloc, sec`lreloc, sec`relocs, Footprint(sec)
    ensures LayoutOf(cs.st).Valid()
    ensures Follows(P.WriteEntries(LayoutOf(cs.st), sec.id, old(SinkOf(sec, 0)), es), sec, cs.secs, r)
    ensures fresh(Footprint(sec) - old(Footprint(sec)))
  {
    hide LayoutOf, Wrap32, P.WriteEntry, P.WriteEntries, Open, Buffered, RelocList, Underway, EntrySize;
    FirstNode(cs, sec, es);
    ghost var lay, k := LayoutOf(cs.st), SinkOf(sec, 0);
    var pc: Long := 0;
    var entry := sec.first;
    ghost var m := 0;
    EntriesDone(lay, sec.id, k, es);
    while entry != null
      invariant m <= |es| == |sec.nodes| && entry == (if m < |es| then sec.nodes[m] else null)
      invariant Open(sec, cs.secs) && Underway(cs, sec, es)
      invariant P.WriteEntries(lay, sec.id, SinkOf(sec, pc), es[m..]) == P.WriteEntries(lay, sec.id, k, es)
      invariant fresh(Footprint(sec) - old(Footprint(sec)))
      decreases |es| - m
    {
      EntriesStep(lay, sec.id, SinkOf(sec, pc), es, m);
      var next: Result<Long>;
      next, entry := WriteNode(cs, sec, entry, pc, es, m);
      if next.Fail? { return next; }
      pc := next.value;
      m := m + 1;
    }
    EntriesDone(lay, sec.id, SinkOf(sec, pc), es);
    r := Ok(pc);
  }

  // ---------------------------------------------------------------- all sections

  lemma OpenAtStart(sec: Section, secs: seq<Section>)
    requires sec.Unwritten()
    ensures Open(sec, secs) && SinkOf(sec, 0) == P.Start(Bss in sec.flags) && Footprint(sec) == {}
  {
  }

  /** A section after pass 2. */
  ghost predicate Written(sec: Section, secs: seq<Section>, k: P.Sink)
    reads sec`size, sec`block, sec`data, sec`bytes, sec`freloc, sec`lreloc, sec`relocs, DataOf(sec), sec.relocs
  {
    Open(sec, secs) && SinkOf(sec, k.pc) == k
  }

  lemma SectionIs(cs: CodeSpace, i: nat)
    requires cs.Built() && LayoutOf(cs.st).Valid() && i < |cs.secs|
    ensures var sec, lay := cs.secs[i], LayoutOf(cs.st);
      && |cs.secs| == |lay.secs| == |FlagsOf(cs.st.secs)|
      && sec.id == i && sec.Linked() && NodesAre(sec.nodes, lay.secs[i]) && KnownNodes(sec.nodes, cs.syms)
      && FlagsOf(cs.st.secs)[i] == sec.flags
  {
    SecAt(cs.secs, cs.st.secs, cs.pool, i);
  }

  /** One section of the outer loop. */
  method WriteNext(cs: CodeSpace, sec: Section, ghost i: nat) returns (r: Result<()>)
    requires cs.Built() && LayoutOf(cs.st).Valid() && i < |cs.secs| && cs.secs[i] == sec && sec.Unwritten()
    modifies cs`curr, sec`size, sec`block, sec`data, sec`bytes, sec`freloc, sec`lreloc, sec`relocs
    ensures |LayoutOf(cs.st).secs| == |FlagsOf(cs.st.secs)| == |cs.secs|
    ensures match X.WriteSection(LayoutOf(cs.st), FlagsOf(cs.st.secs), i)
            case Ok(k) => r.Ok? && Written(sec, cs.secs, k)
            case Fail(e) => r == Fail(e)
    ensures fresh(Footprint(sec))
  {
    hide SymsAre, SecsAre, AllKnown, Chained, LayoutOf, FlagsOf, P.WriteEntries, X.WriteSection, Open, NodesAre;
    SectionIs(cs, i);
    OpenAtStart(sec, cs.secs);
    cs.curr := sec;
    ghost var lay := LayoutOf(cs.st);
    var pc := WriteSection(cs, sec, lay.secs[i]);
    WriteSectionIs(lay, FlagsOf(cs.st.secs), i);
    r := if pc.Ok? then Ok(()) else Fail(pc.error);
  }

  /** The sections written so far, and how the run over them ended. */
  ghost predicate Reached(lay: P.Layout, flags: seq<set<SecFlag>>, ks: seq<P.Sink>, r: Result<()>) {
    && lay.Valid() && |ks| <= |flags| == |lay.secs|
    && (forall j | 0 <= j < |ks| :: X.WriteSection(lay, flags, j) == Ok(ks[j]))
    && match r
       case Ok(_) => |ks| == |flags|
       case Fail(e) => |ks| < |flags| && X.WriteSection(lay, flags, |ks|) == Fail(e)
  }

  lemma ReachedExact(lay: P.Layout, flags: seq<set<SecFlag>>, ks: seq<P.Sink>, r: Result<()>)
    requires Reached(lay, flags, ks, r)
    ensures X.WriteSections(lay, flags, 0) == match r { case Ok(_) => Ok(ks) case Fail(e) => Fail(e) }
  {
    X.WriteSectionsFrom(lay, flags, ks, 0);
    assert ks[0..] == ks;
  }

  /** The sections from i on have not been written. */
  ghost predicate RestUnwritten(secs: seq<Section>, i: nat)
    reads secs`size, secs`data, secs`freloc, secs`lreloc, secs`bytes, secs`relocs
  {
    forall j | i <= j < |secs| :: secs[j].Unwritten()
  }

  lemma AllRest(secs: seq<Section>)
    requires AllUnwritten(secs)
    ensures RestUnwritten(secs, 0)
  {
  }

  /** Writing a section leaves the others as they are. */
  method WriteNextOf(cs: CodeSpace, sec: Section, ghost secs: seq<Section>, ghost ks: seq<P.Sink>)
      returns (r: Result<()>)
    requires cs.Built() && LayoutOf(cs.st).Valid() && secs == cs.secs && |ks| < |secs| && secs[|ks|] == sec
    requires forall j | 0 <= j < |ks| :: Written(secs[j], secs, ks[j])
    requires RestUnwritten(secs, |ks|)
    modifies cs`curr, sec`size, sec`block, sec`data, sec`bytes, sec`freloc, sec`lreloc, sec`relocs
    ensures cs.Built() && |LayoutOf(cs.st).secs| == |FlagsOf(cs.st.secs)| == |secs|
    ensures match X.WriteSection(LayoutOf(cs.st), FlagsOf(cs.st.secs), |ks|)
            case Ok(k) => r.Ok? && Written(sec, cs.secs, k)
            case Fail(e) => r == Fail(e)
    ensures forall j | 0 <= j < |ks| :: Written(secs[j], secs, ks[j])
    ensures RestUnwritten(secs, |ks| + 1)
    ensures fresh(Footprint(sec)) && forall j | 0 <= j < |ks| :: Footprint(secs[j]) == old(Footprint(secs[j]))
  {
    hide SymsAre, SecsAre, AllKnown, Chained, LayoutOf, FlagsOf, X.WriteSection, Written, cs.Built, Footprint, Open,
         Buffered, RelocList, SinkOf;
    SectionOrder(cs);
    r := WriteNext(cs, sec, |ks|);
    forall j | 0 <= j < |ks| ensures Written(secs[j], secs, ks[j]) && Footprint(secs[j]) == old(Footprint(secs[j])) {
      assert secs[j] != sec;
      assert sec !in old(DataOf(secs[j])) && cs !in old(DataOf(secs[j]));
      assert old(Buffered(secs[j])) ==> Buffered(secs[j]);
      assert old(Open(secs[j], secs)) ==> Open(secs[j], secs);
      assert old(Written(secs[j], secs, ks[j]));
    }
  }

  /** The outer loop of `cs_write`: every section in turn, each into a buffer and list of its own. */
  method WriteSections(cs: CodeSpace) returns (r: Result<()>, ghost ks: seq<P.Sink>)
    requires cs.Built() && LayoutOf(cs.st).Valid() && AllUnwritten(cs.secs)
    modifies cs`curr, cs.secs`size, cs.secs`block, cs.secs`data, cs.secs`bytes
    modifies cs.secs`freloc, cs.secs`lreloc, cs.secs`relocs
    ensures Reached(LayoutOf(cs.st), FlagsOf(cs.st.secs), ks, r) && |ks| <= |cs.secs|
    ensures forall j | 0 <= j < |ks| :: Written(cs.secs[j], cs.secs, ks[j]) && fresh(Footprint(cs.secs[j]))
  {
    hide SymsAre, SecsAre, AllKnown, Chained, LayoutOf, FlagsOf, X.WriteSection, Written, Footprint, cs.Built, Reached,
         AllUnwritten, RestUnwritten;
    ghost var lay, flags, secs := LayoutOf(cs.st), FlagsOf(cs.st.secs), cs.secs;
    SameCounts(cs);
    SectionOrder(cs);
    AllRest(secs);
    ks := [];
    var sec := cs.first;
    while sec != null
      invariant cs.Built()
      invariant |ks| <= |secs| && sec == (if |ks| < |secs| then secs[|ks|] else null)
      invariant forall j | 0 <= j < |ks| :: X.WriteSection(lay, flags, j) == Ok(ks[j])
      invariant forall j | 0 <= j < |ks| :: Written(secs[j], secs, ks[j])
      invariant forall j | 0 <= j < |ks| :: fresh(Footprint(secs[j]))
      invariant RestUnwritten(secs, |ks|)
      decreases |secs| - |ks|
    {
      ghost var i := |ks|;
      r := WriteNextOf(cs, sec, secs, ks);
      if r.Fail? {
        ReachedEnd(lay, flags, ks, r);
        return;
      }
      SectionAfter(cs, i);
      ks := ks + [X.WriteSection(lay, flags, i).value];
      sec := sec.next;
    }
    r := Ok(());
    ReachedEnd(lay, flags, ks, r);
  }

  lemma ReachedEnd(lay: P.Layout, flags: seq<set<SecFlag>>, ks: seq<P.Sink>, r: Result<()>)
    requires lay.Valid() && |ks| <= |flags| == |lay.secs|
    requires forall j | 0 <= j < |ks| :: X.WriteSection(lay, flags, j) == Ok(ks[j])
    requires r.Ok? ==> |ks| == |flags|
    requires r.Fail? ==> |ks| < |flags| && X.WriteSection(lay, flags, |ks|) == Fail(r.error)
    ensures Reached(lay, flags, ks, r)
  {
  }

  lemma SectionOrder(cs: CodeSpace)
    requires cs.Built()
    ensures cs.first == (if 0 < |cs.secs| then cs.secs[0] else null)
    ensures forall i, j | 0 <= i < j < |cs.secs| :: cs.secs[i] != cs.secs[j]
  {
  }

  lemma SectionAfter(cs: CodeSpace, i: nat)
    requires cs.Built() && i < |cs.secs|
    ensures cs.secs[i].next == (if i + 1 < |cs.secs| then cs.secs[i + 1] else null)
  {
  }

  lemma SameCounts(cs: CodeSpace)
    requires cs.Built()
    ensures |LayoutOf(cs.st).secs| == |FlagsOf(cs.st.secs)| == |cs.secs|
  {
  }

  lemma WriteSectionIs(lay: P.Layout, flags: seq<set<SecFlag>>, i: nat)
    requires lay.Valid() && |flags| == |lay.secs| && i < |flags|
    ensures X.WriteSection(lay, flags, i) == P.WriteEntries(lay, i, P.Start(Bss in flags[i]), lay.secs[i])
  {
  }
}
