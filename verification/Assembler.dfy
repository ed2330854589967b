/** The program as a whole: pass 1 over the source lines, pass 2 over the stored sections, and the
    load file (src/main.c:109-183, src/codespace.c:533-583). */
module Assembler {
  import opened Basics
  import opened Entries
  import opened CodeSpace
  import opened SecondPass
  import opened StoreRuns
  import opened HunkWriter
  import Build
  import M = Meaning
  import N = Naming
  import P = Pass2
  import R = Relocating
  import S = Store
  import W = SourceMeaning
  import X = Executable

  /** Where the section records lie in memory. */
  ghost function Addrs(secs: seq<Section>): (r: seq<nat>)
    ensures |r| == |secs| && forall i | 0 <= i < |secs| :: r[i] == secs[i].addr
  {
    seq(|secs|, i requires 0 <= i < |secs| => secs[i].addr)
  }

  lemma AddrsDistinct(cs: CodeSpace)
    requires cs.Built()
    ensures R.Distinct(Addrs(cs.secs)) && |cs.secs| == |cs.st.secs|
  {
  }

  lemma IdentifiedAddressed(rs: seq<RelocNode>, secs: seq<Section>)
    requires Identified(rs, secs) && R.Distinct(Addrs(secs))
    ensures Addressed(rs, Addrs(secs))
  {
  }

  /** Every section is registered, so no relocation can lead elsewhere. */
  lemma IdentifiedRegistered(handle: Handle, rs: seq<RelocNode>)
    requires Identified(rs, handle.sections)
    ensures handle.Registered(rs)
  {
  }

  /** Register the sections in creation order. */
  method RegisterAll(cs: CodeSpace, handle: Handle)
    requires cs.Built() && handle.sections == []
    modifies handle`sections
    ensures handle.sections == cs.secs && handle.InOrder() && cs.Built()
    ensures |cs.secs| == |cs.st.secs| && forall i | 0 <= i < |cs.secs| :: FlagsOf(cs.st.secs)[i] == cs.secs[i].flags
  {
    hide SymsAre, AllKnown;
    var sec := cs.first;
    while sec != null
      invariant |handle.sections| <= |cs.secs| && handle.sections == cs.secs[..|handle.sections|]
      invariant sec == (if |handle.sections| < |cs.secs| then cs.secs[|handle.sections|] else null)
      decreases |cs.secs| - |handle.sections|
    {
      ghost var i := |handle.sections|;
      handle.Register(sec);
      sec := sec.next;
    }
    forall i | 0 <= i < |cs.secs| ensures cs.secs[i].id == i && FlagsOf(cs.st.secs)[i] == cs.secs[i].flags {
      SecAt(cs.secs, cs.st.secs, cs.pool, i);
    }
  }

  /** Opening a file and registering sections leaves what pass 2 has written in place. */
  method OpenFile(cs: CodeSpace, ghost ks: seq<P.Sink>) returns (handle: Handle)
    requires cs.Built() && |ks| == |cs.secs|
    requires forall j | 0 <= j < |ks| :: Written(cs.secs[j], cs.secs, ks[j])
    ensures fresh(handle) && handle.file == [] && handle.sections == cs.secs && handle.InOrder() && cs.Built()
    ensures forall j | 0 <= j < |ks| :: Written(cs.secs[j], cs.secs, ks[j])
    ensures |cs.secs| == |cs.st.secs| && forall i | 0 <= i < |cs.secs| :: FlagsOf(cs.st.secs)[i] == cs.secs[i].flags
  {
    hide Written, cs.Built, Buffered, RelocList, SinkOf, Identified;
    forall j | 0 <= j < |ks|
      ensures Buffered(cs.secs[j]) && RelocList(cs.secs[j]) && SinkOf(cs.secs[j], ks[j].pc) == ks[j]
              && Identified(cs.secs[j].relocs, cs.secs)
    {
      OwnRelocs(cs.secs[j], cs.secs, ks[j]);
    }
    handle := new Handle();
    RegisterAll(cs, handle);
    forall j | 0 <= j < |ks| ensures Written(cs.secs[j], cs.secs, ks[j]) {
      assert handle !in DataOf(cs.secs[j]);
      assert old(Buffered(cs.secs[j])) ==> Buffered(cs.secs[j]);
      WrittenFrom(cs.secs[j], cs.secs, ks[j]);
    }
  }

  lemma ReadyToSave(handle: Handle, secs: seq<Section>, ks: seq<P.Sink>)
    requires handle.sections == secs && R.Distinct(Addrs(secs)) && |ks| == |secs|
    requires forall j | 0 <= j < |ks| :: Written(secs[j], secs, ks[j])
    ensures handle.Pending(ks, Addrs(secs), secs, 0)
    ensures forall j | 0 <= j < |secs| :: handle.Registered(secs[j].relocs)
  {
    hide Written, R.Distinct, Addressed, Identified;
    forall j | 0 <= j < |secs|
      ensures Addressed(secs[j].relocs, Addrs(secs)) && handle.Registered(secs[j].relocs)
    {
      OwnRelocs(secs[j], secs, ks[j]);
      IdentifiedAddressed(secs[j].relocs, secs);
      IdentifiedRegistered(handle, secs[j].relocs);
    }
  }

  /** Write the sections of the store to a file. The records of all relocation lists are in `nodes`. */
  method Save(cs: CodeSpace, ghost ks: seq<P.Sink>, ghost nodes: set<RelocNode>) returns (r: Result<seq<Byte>>)
    requires cs.Built() && |ks| == |cs.secs|
    requires forall j | 0 <= j < |ks| :: Written(cs.secs[j], cs.secs, ks[j])
    requires forall j, n | 0 <= j < |cs.secs| && n in cs.secs[j].relocs :: n in nodes
    modifies cs.secs`freloc, nodes
    ensures |ks| == |FlagsOf(cs.st.secs)|
    ensures r == X.ExecutableBytes(FlagsOf(cs.st.secs), ks, Addrs(cs.secs))
  {
    hide Written, cs.Built, X.ExecutableBytes, FlagsOf, R.Distinct, Addrs;
    AddrsDistinct(cs);
    var handle := OpenFile(cs, ks);
    ReadyToSave(handle, cs.secs, ks);
    ghost var flags, addr := FlagsOf(cs.st.secs), Addrs(cs.secs);
    var closed := handle.Close(flags, ks, addr, cs.secs, nodes);
    if closed.Fail? {
      assert forall j | 0 <= j < |handle.sections| :: handle.Registered(handle.sections[j].relocs);
      return Fail(closed.error);
    }
    assert [] + X.ExecutableBytes(flags, ks, addr).value == X.ExecutableBytes(flags, ks, addr).value;
    r := Ok(handle.file);
  }

  /** `cs_write`: the file it leaves behind is the one the specification of the second pass names, and it
      fails exactly when the specification does, with the same error. */
  method Write(cs: CodeSpace) returns (r: Result<seq<Byte>>)
    requires cs.Valid() && LayoutOf(cs.st).Valid()
    modifies cs`curr, cs.secs
    ensures LayoutOf(cs.st).Valid() && |LayoutOf(cs.st).secs| == |FlagsOf(cs.st.secs)|
    ensures r == X.Link(LayoutOf(cs.st), FlagsOf(cs.st.secs), Addrs(cs.secs))
  {
    hide SymsAre, SecsAre, AllKnown, Chained, AllUnwritten, LayoutOf, FlagsOf, Written, cs.Built, cs.Valid,
         X.Link, X.ExecutableBytes, Reached;
    ValidBuilt(cs);
    SameCounts(cs);
    ghost var ks: seq<P.Sink>;
    var written: Result<()>;
    written, ks := WriteSections(cs);
    LinkIs(LayoutOf(cs.st), FlagsOf(cs.st.secs), Addrs(cs.secs), ks, written);
    if written.Fail? { return Fail(written.error); }
    ghost var nodes := set i, n | 0 <= i < |cs.secs| && n in cs.secs[i].relocs :: n;
    forall n | n in nodes ensures fresh(n) {
      var i :| 0 <= i < |cs.secs| && n in cs.secs[i].relocs;
      assert n in Footprint(cs.secs[i]);
    }
    r := Save(cs, ks, nodes);
  }

  /** Loading a file puts the program in memory. */
  ghost predicate Loads(file: seq<Byte>, lay: P.Layout, flags: seq<set<SecFlag>>, bases: seq<Long>)
    requires lay.Valid() && |bases| == |flags| == |lay.secs|
  {
    var imgs := X.LoadFile(file, bases);
    imgs.Some? && |imgs.value| == |flags| && X.Realizes(imgs.value, lay, flags, bases, M.AddressOf(lay, bases))
  }

  /** The outcome of linking stored lines: the file, if there is one, means what was stored at whatever
      addresses its sections are loaded. */
  ghost predicate Linked(lay: P.Layout, flags: seq<set<SecFlag>>, addr: seq<nat>, r: Result<seq<Byte>>) {
    && X.ProgramOk(lay, flags) && |addr| == |flags|
    && r == X.Link(lay, flags, addr)
    && (r.Ok? ==> forall bases: seq<Long> | |bases| == |flags| :: Loads(r.value, lay, flags, bases))
  }

  lemma RunStored(lines: seq<S.Line>)
    requires (forall line | line in lines :: S.LineNamed(line) && LineOk(line)) && S.Run(S.EMPTY, lines).Ok?
    ensures StoreOk(S.Run(S.EMPTY, lines).value)
  {
    EmptyOk();
    RunOk(S.EMPTY, lines);
  }

  lemma FileLoads(st: S.State, addr: seq<nat>)
    requires StoreOk(st) && |st.secs| == |addr| < 0x1_0000_0000
    ensures LayoutOf(st).Valid() && |LayoutOf(st).secs| == |FlagsOf(st.secs)|
    ensures Linked(LayoutOf(st), FlagsOf(st.secs), addr, X.Link(LayoutOf(st), FlagsOf(st.secs), addr))
  {
    hide X.Realizes, X.LoadFile, X.Link;
    StoredProgram(st);
    var lay, flags := LayoutOf(st), FlagsOf(st.secs);
    var file := X.Link(lay, flags, addr);
    if file.Ok? {
      forall bases: seq<Long> | |bases| == |flags| ensures Loads(file.value, lay, flags, bases) {
        X.EndToEnd(lay, flags, addr, bases);
      }
    }
  }

  /** Pass 2 and the file, for a store that pass 1 has filled. */
  method Finish(cs: CodeSpace) returns (r: Result<seq<Byte>>, ghost addr: seq<nat>)
    requires cs.Valid() && StoreOk(cs.st)
    modifies cs`curr, cs.secs
    ensures cs.st == old(cs.st) && R.Distinct(addr)
    ensures |cs.st.secs| < 0x1_0000_0000 ==> Linked(LayoutOf(cs.st), FlagsOf(cs.st.secs), addr, r)
  {
    hide SymsAre, SecsAre, AllKnown, Chained, AllUnwritten, LayoutOf, FlagsOf, X.Link, Linked, StoreOk, R.Distinct,
         Addrs;
    AddrsDistinct(cs);
    LayoutValid(cs);
    addr := Addrs(cs.secs);
    if |cs.st.secs| < 0x1_0000_0000 { FileLoads(cs.st, addr); }
    r := Write(cs);
  }

  /** Some placing of the section records explains the outcome. */
  ghost predicate LinkedSomewhere(lay: P.Layout, flags: seq<set<SecFlag>>, r: Result<seq<Byte>>) {
    exists addr: seq<nat> :: R.Distinct(addr) && Linked(lay, flags, addr, r)
  }

  /** The file that is linked for a store means the program the store tells. */
  lemma OutcomeMeans(st: S.State, p: N.Program, addr: seq<nat>, r: Result<seq<Byte>>)
    requires StoreOk(st) && N.Tells(st, p) && |st.secs| < 0x1_0000_0000
    requires Linked(LayoutOf(st), FlagsOf(st.secs), addr, r)
    ensures r.Ok? ==> W.Means(r.value, p)
  {
    hide StoreOk, N.Tells, X.Link, X.ProgramOk, W.Means, Loads;
    W.FileMeans(st, p, addr);
  }

  /** What the lines say is what the store tells once they are stored. */
  lemma RunSaid(lines: seq<S.Line>)
    requires forall line | line in lines :: S.LineNamed(line)
    ensures match N.Said(N.BLANK, lines)
            case Fail(e) => S.Run(S.EMPTY, lines) == Fail(e)
            case Ok(p) => S.Run(S.EMPTY, lines).Ok? && N.Tells(S.Run(S.EMPTY, lines).value, p)
                          && |p.parts| == |S.Run(S.EMPTY, lines).value.secs|
  {
    hide N.Tells, N.Said, S.Run;
    N.BlankTells();
    N.RunTells(S.EMPTY, N.BLANK, lines);
    if N.Said(N.BLANK, lines).Ok? { W.TellsSize(S.Run(S.EMPTY, lines).value, N.Said(N.BLANK, lines).value); }
  }

  /** From source lines to a load file. The run fails exactly when storing the lines or linking what they
      stored does, with the same error. A file that is written means what the lines say: wherever it is
      loaded, every field holds its operand, and for a name the address of the label that the name stands for
      in its scope. `places` holds the addresses the allocator will give to the section records. */
  method Assemble(lines: seq<S.Line>, places: seq<nat>) returns (r: Result<seq<Byte>>)
    requires forall line | line in lines :: S.LineNamed(line) && LineOk(line)
    requires |places| == 2 * |lines| && forall i, j | 0 <= i < j < |places| :: places[i] != places[j]
    ensures S.Run(S.EMPTY, lines).Fail? ==> r == Fail(S.Run(S.EMPTY, lines).error)
    ensures S.Run(S.EMPTY, lines).Ok? && |S.Run(S.EMPTY, lines).value.secs| < 0x1_0000_0000 ==>
      var st := S.Run(S.EMPTY, lines).value; LinkedSomewhere(LayoutOf(st), FlagsOf(st.secs), r)
    ensures match N.Said(N.BLANK, lines)
            case Fail(e) => r == Fail(e)
            case Ok(p) => |p.parts| < 0x1_0000_0000 && r.Ok? ==> W.Means(r.value, p)
  {
    hide SymsAre, SecsAre, AllKnown, Chained, AllUnwritten, S.Run, S.LineNamed, LineOk, LayoutOf, FlagsOf, Linked,
         StoreOk, R.Distinct, N.Said, N.Tells, W.Means;
    RunSaid(lines);
    var cs := new CodeSpace();
    var built := Build.Run(cs, lines, places);
    if built.Fail? { return Fail(built.error); }
    RunStored(lines);
    ghost var addr: seq<nat>;
    r, addr := Finish(cs);
    if N.Said(N.BLANK, lines).Ok? && |cs.st.secs| < 0x1_0000_0000 {
      OutcomeMeans(cs.st, N.Said(N.BLANK, lines).value, addr, r);
    }
  }

  lemma ValidBuilt(cs: CodeSpace)
    requires cs.Valid()
    ensures cs.Built() && AllUnwritten(cs.secs)
  {
  }

  lemma LinkIs(lay: P.Layout, flags: seq<set<SecFlag>>, addr: seq<nat>, ks: seq<P.Sink>, r: Result<()>)
    requires Reached(lay, flags, ks, r)
    ensures r.Fail? ==> X.Link(lay, flags, addr) == Fail(r.error)
    ensures r.Ok? ==> |ks| == |flags| && X.Link(lay, flags, addr) == X.ExecutableBytes(flags, ks, addr)
  {
    hide X.WriteSections, X.WriteSection, X.ExecutableBytes;
    ReachedExact(lay, flags, ks, r);
  }
}
