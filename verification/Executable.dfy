/** From a stored program to a load file (src/codespace.c:533-583, src/ahf.c:107-260) and back into
    memory: the executable means what the program says. */
module Executable {
  import opened Basics
  import opened Entries
  import opened Pass2
  import opened Meaning
  import opened Agreement
  import opened HunkFormat
  import opened Relocating

  // ---------------------------------------------------------------- writing

  /** The flag sets a `section` directive can ask for (src/mnemonics_misc.c:63-88). */
  predicate DirectiveFlags(flags: set<SecFlag>) {
    && (Code in flags || Data_ in flags || Bss in flags)
    && !(Code in flags && Data_ in flags)
    && !(Code in flags && Bss in flags)
    && !(Data_ in flags && Bss in flags)
  }

  function KindOf(flags: set<SecFlag>): Result<Kind> {
    if Code in flags then Ok(CodeHunk)
    else if Data_ in flags then Ok(DataHunk)
    else if Bss in flags then Ok(BssHunk)
    else Fail(UnsupportedSectionType)
  }

  /** Longwords taken by a section, as computed in 32-bit arithmetic. */
  function LongCount(size: Long): Long {
    Wrap32(size as int + 3) / 4
  }

  /** The filler after a section, for j missing bytes: a no-op instruction, or its tail. */
  function Padding(j: nat): seq<Byte> {
    if j == 0 then [] else [if (j - 1) % 2 == 1 then 0x4e else 0x71] + Padding(j - 1)
  }

  function PadCount(size: nat): nat {
    (size + 3) / 4 * 4 - size
  }

  function SizeOf(k: Sink): Long {
    Wrap32(|k.bytes|)
  }

  /** One section as it goes into the file. Relocations against a BSS section have no place there. */
  function SectionBytes(flags: set<SecFlag>, k: Sink, addr: seq<nat>): Result<seq<Byte>> {
    var kind :- KindOf(flags);
    Ok(Be32(TypeWord(kind, Chip in flags, Fast in flags)) + (Be32(LongCount(SizeOf(k))) + (
       (if Bss in flags then [] else
        (k.bytes + Padding(PadCount(|k.bytes|))) + RelocBytes(Runs(StableSort(addr, k.relocs))))
       + Be32(HUNK_END))))
  }

  function SectionsBytes(flags: seq<set<SecFlag>>, ks: seq<Sink>, addr: seq<nat>): Result<seq<Byte>>
    requires |flags| == |ks|
    decreases |ks|
  {
    if ks == [] then Ok([])
    else
      var head :- SectionBytes(flags[0], ks[0], addr);
      var tail :- SectionsBytes(flags[1..], ks[1..], addr);
      Ok(head + tail)
  }

  function SizeTable(ks: seq<Sink>): seq<Long> {
    if ks == [] then [] else [LongCount(SizeOf(ks[0]))] + SizeTable(ks[1..])
  }

  function ExecutableBytes(flags: seq<set<SecFlag>>, ks: seq<Sink>, addr: seq<nat>): Result<seq<Byte>>
    requires |flags| == |ks|
  {
    var body :- SectionsBytes(flags, ks, addr);
    Ok(HeaderBytes(SizeTable(ks)) + body)
  }

  function WriteSection(lay: Layout, flags: seq<set<SecFlag>>, i: nat): Result<Sink>
    requires lay.Valid() && |flags| == |lay.secs| && i < |flags|
  {
    WriteEntries(lay, i, Start(Bss in flags[i]), lay.secs[i])
  }

  /** Pass 2 over sections i, i + 1, ... */
  function WriteSections(lay: Layout, flags: seq<set<SecFlag>>, i: nat): (r: Result<seq<Sink>>)
    requires lay.Valid() && |flags| == |lay.secs| && i <= |flags|
    ensures r.Ok? ==> |r.value| == |flags| - i
    decreases |flags| - i
  {
    if i == |flags| then Ok([])
    else
      var k :- WriteSection(lay, flags, i);
      var ks :- WriteSections(lay, flags, i + 1);
      Ok([k] + ks)
  }

  lemma {:induction false} WriteSectionsEach(lay: Layout, flags: seq<set<SecFlag>>, i: nat)
    requires lay.Valid() && |flags| == |lay.secs| && i <= |flags|
    ensures WriteSections(lay, flags, i).Ok? ==>
      && |WriteSections(lay, flags, i).value| == |flags| - i
      && forall j | i <= j < |flags| :: WriteSection(lay, flags, j) == Ok(WriteSections(lay, flags, i).value[j - i])
    decreases |flags| - i
  {
    if i >= |flags| {
    } else {
      WriteSectionsEach(lay, flags, i + 1);
      if WriteSections(lay, flags, i).Ok? {
        var ks, rest := WriteSections(lay, flags, i).value, WriteSections(lay, flags, i + 1).value;
        forall j | i <= j < |flags| ensures WriteSection(lay, flags, j) == Ok(ks[j - i]) {
          if j > i { assert ks[j - i] == rest[j - (i + 1)]; }
        }
      }
    }
  }

  /** Sections written one by one, up to the first that fails. */
  lemma {:induction false} WriteSectionsFrom(lay: Layout, flags: seq<set<SecFlag>>, ks: seq<Sink>, i: nat)
    requires lay.Valid() && |flags| == |lay.secs| && i <= |ks| <= |flags|
    requires forall j | i <= j < |ks| :: WriteSection(lay, flags, j) == Ok(ks[j])
    ensures |ks| == |flags| ==> WriteSections(lay, flags, i) == Ok(ks[i..])
    ensures |ks| < |flags| && WriteSection(lay, flags, |ks|).Fail? ==>
      WriteSections(lay, flags, i) == Fail(WriteSection(lay, flags, |ks|).error)
    decreases |ks| - i
  {
    hide WriteSection;
    if i == |ks| {
      assert ks[i..] == [];
    } else {
      WriteSectionsFrom(lay, flags, ks, i + 1);
      assert [ks[i]] + ks[i + 1..] == ks[i..];
    }
  }

  /** The second pass as a whole. */
  function Link(lay: Layout, flags: seq<set<SecFlag>>, addr: seq<nat>): Result<seq<Byte>>
    requires lay.Valid() && |flags| == |lay.secs|
  {
    var ks :- WriteSections(lay, flags, 0);
    ExecutableBytes(flags, ks, addr)
  }

  // ---------------------------------------------------------------- the hunks that are written

  function HunkOf(flags: set<SecFlag>, k: Sink, addr: seq<nat>): Hunk
    requires KindOf(flags).Ok?
  {
    Hunk(KindOf(flags).value, Chip in flags, Fast in flags, LongCount(SizeOf(k)),
         if Bss in flags then [] else k.bytes + Padding(PadCount(|k.bytes|)),
         if Bss in flags then [] else Runs(StableSort(addr, k.relocs)))
  }

  ghost predicate AllDirective(flags: seq<set<SecFlag>>) {
    forall i | 0 <= i < |flags| :: DirectiveFlags(flags[i])
  }

  ghost function HunksOf(flags: seq<set<SecFlag>>, ks: seq<Sink>, addr: seq<nat>): (hs: seq<Hunk>)
    requires |flags| == |ks| && AllDirective(flags)
    ensures |hs| == |ks|
    ensures forall i | 0 <= i < |ks| :: hs[i] == HunkOf(flags[i], ks[i], addr)
  {
    seq(|ks|, i requires 0 <= i < |ks| && DirectiveFlags(flags[i]) => HunkOf(flags[i], ks[i], addr))
  }

  lemma {:induction false} PaddingLength(j: nat)
    ensures |Padding(j)| == j
  {
    if j == 0 {
    } else {
      PaddingLength(j - 1);
    }
  }

  lemma SectionIsHunk(flags: set<SecFlag>, k: Sink, addr: seq<nat>)
    requires DirectiveFlags(flags)
    ensures SectionBytes(flags, k, addr) == Ok(HunkBytes(HunkOf(flags, k, addr)))
  {
    hide Be32, TypeWord, LongCount, StableSort, Runs, PadCount;
    var h := HunkOf(flags, k, addr);
    if Bss in flags {
      assert [] + (RelocBytes([]) + Be32(HUNK_END)) == [] + Be32(HUNK_END);
    } else {
      assert h.body + (RelocBytes(h.groups) + Be32(HUNK_END)) == h.body + RelocBytes(h.groups) + Be32(HUNK_END);
    }
  }

  lemma {:induction false} SectionsAreHunks(flags: seq<set<SecFlag>>, ks: seq<Sink>, addr: seq<nat>)
    requires |flags| == |ks| && AllDirective(flags)
    ensures SectionsBytes(flags, ks, addr) == Ok(HunksBytes(HunksOf(flags, ks, addr)))
    ensures SizeTable(ks) == Sizes(HunksOf(flags, ks, addr))
    decreases |ks|
  {
    if ks == [] {
    } else {
      assert DirectiveFlags(flags[0]);
      assert AllDirective(flags[1..]);
      SectionIsHunk(flags[0], ks[0], addr);
      SectionsAreHunks(flags[1..], ks[1..], addr);
      var hs := HunksOf(flags, ks, addr);
      assert hs[0] == HunkOf(flags[0], ks[0], addr) && hs[1..] == HunksOf(flags[1..], ks[1..], addr);
    }
  }

  /** Relocations of a written section. */
  ghost predicate SinkOk(flags: set<SecFlag>, k: Sink, n: nat) {
    && k.bss == (Bss in flags)
    && (!k.bss ==> |k.bytes| <= BLOCK && Spaced(k.relocs, 0, |k.bytes|) && InRange(k.relocs, n))
  }

  lemma {:induction false} SpacedCount(rs: seq<Reloc>, lo: nat, hi: nat)
    requires Spaced(rs, lo, hi) && lo <= hi
    ensures |rs| <= hi - lo
    decreases |rs|
  {
    if rs == [] {
    } else {
      assert Window(rs[0], lo, hi);
      var tail, lo' := rs[1..], rs[0].offset as int + 4;
      forall i | 0 <= i < |tail| ensures Window(tail[i], lo', hi) {
        assert Window(rs[i + 1], lo, hi);
      }
      SpacedCount(tail, lo', hi);
    }
  }

  lemma WrittenHunkOk(flags: set<SecFlag>, k: Sink, addr: seq<nat>)
    requires DirectiveFlags(flags) && SinkOk(flags, k, |addr|)
    ensures HunkOk(HunkOf(flags, k, addr))
  {
    hide StableSort, Runs, Padding, PadCount, LongCount, Spaced, InRange;
    if !k.bss {
      PaddedLength(k);
      SortedRunsOk(addr, k.relocs, |k.bytes|);
    }
  }

  /** With its filler a section fills the longwords it is given. */
  lemma PaddedLength(k: Sink)
    requires |k.bytes| <= BLOCK
    ensures |k.bytes + Padding(PadCount(|k.bytes|))| == 4 * LongCount(SizeOf(k))
  {
    PaddingLength(PadCount(|k.bytes|));
    WrapSmall(|k.bytes|);
    WrapSmall(|k.bytes| + 3);
  }

  lemma SortedRunsOk(addr: seq<nat>, rs: seq<Reloc>, size: nat)
    requires Spaced(rs, 0, size) && size <= BLOCK
    ensures GroupsOk(Runs(StableSort(addr, rs)))
  {
    hide StableSort, Runs, Spaced;
    SpacedCount(rs, 0, size);
    SortMembers(addr, rs);
    assert |multiset(StableSort(addr, rs))| == |multiset(rs)|;
    RunsOk(StableSort(addr, rs));
  }

  /** The reader recovers from the written file the kind, memory flags, size, padded contents and
      relocation groups of every section, in registration order. */
  lemma FileRoundTrip(flags: seq<set<SecFlag>>, ks: seq<Sink>, addr: seq<nat>)
    requires |flags| == |ks| == |addr| < 0x1_0000_0000 && AllDirective(flags)
    requires forall i | 0 <= i < |ks| :: SinkOk(flags[i], ks[i], |addr|)
    ensures ExecutableBytes(flags, ks, addr).Ok?
    ensures ReadFile(ExecutableBytes(flags, ks, addr).value) == Some(HunksOf(flags, ks, addr))
  {
    var hs := HunksOf(flags, ks, addr);
    SectionsAreHunks(flags, ks, addr);
    forall i | 0 <= i < |hs| ensures HunkOk(hs[i]) {
      WrittenHunkOk(flags[i], ks[i], addr);
    }
    RoundTrip(hs);
  }

  // ---------------------------------------------------------------- loading

  function Zeros(n: nat): seq<Byte> {
    seq(n, _ => 0)
  }

  /** A hunk in memory: contents relocated against the chosen base addresses, or cleared space. */
  function LoadHunk(h: Hunk, bases: seq<Long>): Option<seq<Byte>> {
    if h.kind.BssHunk? then Some(Zeros(4 * h.longs)) else Relocate(h.body, Flat(h.groups), bases)
  }

  function LoadHunks(hs: seq<Hunk>, bases: seq<Long>): Option<seq<seq<Byte>>>
    decreases |hs|
  {
    if hs == [] then Some([])
    else
      match LoadHunk(hs[0], bases)
      case None => None
      case Some(img) =>
        match LoadHunks(hs[1..], bases)
        case None => None
        case Some(imgs) => Some([img] + imgs)
  }

  function LoadFile(file: seq<Byte>, bases: seq<Long>): Option<seq<seq<Byte>>> {
    match ReadFile(file)
    case None => None
    case Some(hs) => LoadHunks(hs, bases)
  }

  lemma {:induction false} LoadEach(hs: seq<Hunk>, bases: seq<Long>)
    requires forall i | 0 <= i < |hs| :: LoadHunk(hs[i], bases).Some?
    ensures LoadHunks(hs, bases).Some? && |LoadHunks(hs, bases).value| == |hs|
    ensures forall i | 0 <= i < |hs| :: LoadHunk(hs[i], bases) == Some(LoadHunks(hs, bases).value[i])
    decreases |hs|
  {
    if hs == [] {
    } else {
      LoadEach(hs[1..], bases);
      var imgs := LoadHunks(hs, bases).value;
      forall i | 0 <= i < |hs| ensures LoadHunk(hs[i], bases) == Some(imgs[i]) {
        if i > 0 { assert hs[i] == hs[1..][i - 1]; }
      }
    }
  }

  /** Sorting and grouping do not show: the loaded contents are the written contents with the base of
      its target added to every marked longword. */
  lemma LoadedSection(flags: set<SecFlag>, k: Sink, addr: seq<nat>, bases: seq<Long>)
    requires DirectiveFlags(flags) && SinkOk(flags, k, |addr|) && !k.bss
    requires |bases| == |addr| <= 0x1_0000_0000
    ensures var h := HunkOf(flags, k, addr);
      && LoadHunk(h, bases).Some?
      && |LoadHunk(h, bases).value| == |k.bytes| + PadCount(|k.bytes|)
      && Relocated(k.bytes + Padding(PadCount(|k.bytes|)), k.relocs, bases, LoadHunk(h, bases).value)
      && Relocated(k.bytes, k.relocs, bases, LoadHunk(h, bases).value)
  {
    var pad := Padding(PadCount(|k.bytes|));
    var body, sorted := k.bytes + pad, StableSort(addr, k.relocs);
    PaddingLength(PadCount(|k.bytes|));
    SortedLoadable(addr, k.relocs, |k.bytes|);
    FlatRuns(sorted);
    assert KindOf(flags).Ok? && !KindOf(flags).value.BssHunk?;
    hide Relocate, Runs, Flat, StableSort, Padding, PadCount, Relocated, AllApart;
    forall i | 0 <= i < |sorted| ensures sorted[i].offset + 4 <= |body| && sorted[i].target < |bases| {
    }
    RelocateSound(body, sorted, bases);
    var img := Relocate(body, sorted, bases).value;
    RelocatedPermuted(body, sorted, k.relocs, bases, img);
    RelocatedPrefix(k.bytes, pad, k.relocs, bases, img);
  }

  lemma SortedLoadable(addr: seq<nat>, rs: seq<Reloc>, size: nat)
    requires Spaced(rs, 0, size) && InRange(rs, |addr|) && |addr| <= 0x1_0000_0000
    ensures var sorted := StableSort(addr, rs);
      && AllApart(sorted) && Loadable(rs, size, |addr|) && Loadable(sorted, size, |addr|)
      && multiset(sorted) == multiset(rs) && InRange(sorted, 0x1_0000_0000)
  {
    var sorted := StableSort(addr, rs);
    SortMembers(addr, rs);
    SpacedApart(rs, 0, size);
    SortApart(addr, rs);
    forall i | 0 <= i < |rs| ensures rs[i].offset + 4 <= size && rs[i].target < |addr| {
      assert Window(rs[i], 0, size);
    }
    forall i | 0 <= i < |sorted| ensures sorted[i].offset + 4 <= size && sorted[i].target < |addr| {
      assert sorted[i] in multiset(rs);
      var j :| 0 <= j < |rs| && rs[j] == sorted[i];
    }
  }

  ghost predicate Contained(k: Sink, n: nat) {
    InRange(k.relocs, n) && (k.bss || |k.bytes| <= BLOCK)
  }

  lemma {:induction false} WriteEasContained(lay: Layout, owner: nat, k: Sink, eas: seq<Ea<nat>>)
    requires lay.Valid() && Contained(k, |lay.secs|) && WriteEas(lay, owner, k, eas).Ok?
    ensures Contained(WriteEas(lay, owner, k, eas).value, |lay.secs|)
    decreases |eas|
  {
    if eas == [] {
    } else {
      WriteEasContained(lay, owner, WriteEa(lay, owner, k, eas[0]).value, eas[1..]);
    }
  }

  lemma {:induction false} WriteEntriesContained(lay: Layout, owner: nat, k: Sink, es: seq<Entry<nat>>)
    requires lay.Valid() && Contained(k, |lay.secs|) && WriteEntries(lay, owner, k, es).Ok?
    ensures Contained(WriteEntries(lay, owner, k, es).value, |lay.secs|)
    decreases |es|
  {
    if es == [] {
    } else {
      if es[0].Instr? { WriteEasContained(lay, owner, Put(k, Be16(es[0].ops)).value, es[0].eas); }
      WriteEntriesContained(lay, owner, WriteEntry(lay, owner, k, es[0]).value, es[1..]);
    }
  }

  lemma WrittenSinkOk(lay: Layout, flags: seq<set<SecFlag>>, i: nat)
    requires lay.Valid() && |flags| == |lay.secs| && i < |flags| && AllPlain(lay.secs[i])
    requires WriteSection(lay, flags, i).Ok?
    ensures SinkOk(flags[i], WriteSection(lay, flags, i).value, |lay.secs|)
    ensures Grows(Start(Bss in flags[i]), WriteSection(lay, flags, i).value)
    ensures |WriteSection(lay, flags, i).value.bytes| == TotalEmitted(lay.secs[i])
  {
    var k := WriteSection(lay, flags, i).value;
    WriteEntriesGrows(lay, i, Start(Bss in flags[i]), lay.secs[i]);
    WriteEntriesContained(lay, i, Start(Bss in flags[i]), lay.secs[i]);
    assert k.relocs[0..] == k.relocs;
  }

  /** A program pass 2 can be asked to write: labels where their symbols say, single data copies. */
  ghost predicate ProgramOk(lay: Layout, flags: seq<set<SecFlag>>) {
    && LabelsPlaced(lay)
    && |flags| == |lay.secs| < 0x1_0000_0000
    && AllDirective(flags)
    && forall i | 0 <= i < |lay.secs| :: AllPlain(lay.secs[i])
  }

  /** Behind its n bytes a section is filled up to the next longword with the end of 71 4e 71: no-op instructions. */
  ghost predicate Filled(img: seq<Byte>, n: nat) {
    n <= |img| == (n + 3) / 4 * 4 && img[n..] == [0x71, 0x4e, 0x71][3 - (|img| - n)..]
  }

  /** A section of n bytes without contents is cleared memory, up to the next longword. */
  ghost predicate Cleared(img: seq<Byte>, n: nat) {
    |img| == 4 * ((n + 3) % 0x1_0000_0000 / 4) && forall i | 0 <= i < |img| :: img[i] == 0
  }

  lemma Filler(n: nat)
    requires n < 4
    ensures Padding(n) == [0x71, 0x4e, 0x71][3 - n..]
  {
    assert Padding(0) == [];
    assert Padding(1) == [0x71];
    assert Padding(2) == [0x4e, 0x71];
    assert Padding(3) == [0x71, 0x4e, 0x71];
  }

  lemma BehindUntouched(rs: seq<Reloc>, n: nat, j: nat)
    requires Spaced(rs, 0, n) && n <= j
    ensures Untouched(j, rs)
  {
    forall i | 0 <= i < |rs| ensures rs[i].offset + 4 <= j { assert Window(rs[i], 0, n); }
  }

  /** The filler reaches memory: nothing is relocated there. */
  lemma FillerLoaded(k: Sink, bases: seq<Long>, img: seq<Byte>)
    requires Spaced(k.relocs, 0, |k.bytes|) && |img| == |k.bytes| + PadCount(|k.bytes|)
    requires Relocated(k.bytes + Padding(PadCount(|k.bytes|)), k.relocs, bases, img)
    ensures Filled(img, |k.bytes|)
  {
    hide Adjusted, Spaced, Untouched, Padding;
    var n, pad := |k.bytes|, Padding(PadCount(|k.bytes|));
    var body := k.bytes + pad;
    Filler(PadCount(n));
    PaddingLength(PadCount(n));
    forall j | n <= j < |img| ensures img[j] == body[j] { BehindUntouched(k.relocs, n, j); }
    assert img[n..] == body[n..] == pad;
  }

  lemma BssCleared(n: nat)
    ensures Cleared(Zeros(4 * LongCount(Wrap32(n))), n)
  {
    WrapAdd(n, 3);
  }

  /** What it means for memory to hold a program whose sections start at the given bases. */
  ghost predicate Realizes(imgs: seq<seq<Byte>>, lay: Layout, flags: seq<set<SecFlag>>, bases: seq<Long>,
                           addr: Addresses<nat>)
    requires |imgs| == |flags| == |bases| == |lay.secs|
  {
    forall i | 0 <= i < |imgs| ::
      && LabelsAt(lay.secs[i], 0, bases[i], addr)
      && (Bss !in flags[i] ==>
            EntriesAt(imgs[i], lay.secs[i], 0, bases[i], addr) && Filled(imgs[i], TotalEmitted(lay.secs[i])))
      && (Bss in flags[i] ==> Cleared(imgs[i], TotalEmitted(lay.secs[i])))
  }

  lemma SectionRealized(lay: Layout, flags: seq<set<SecFlag>>, i: nat, addr: seq<nat>, bases: seq<Long>)
    requires ProgramOk(lay, flags) && i < |flags| && |addr| == |bases| == |flags|
    requires WriteSection(lay, flags, i).Ok? && KindOf(flags[i]).Ok?
    ensures var img := LoadHunk(HunkOf(flags[i], WriteSection(lay, flags, i).value, addr), bases);
      && img.Some?
      && (Bss !in flags[i] ==> EntriesAt(img.value, lay.secs[i], 0, bases[i], AddressOf(lay, bases))
                               && Filled(img.value, TotalEmitted(lay.secs[i])))
      && (Bss in flags[i] ==> Cleared(img.value, TotalEmitted(lay.secs[i])))
  {
    assert AllPlain(lay.secs[i]);
    assert DirectiveFlags(flags[i]);
    hide Wrap32, Grows, Relocated, AllPlain, OnTheWay, EntriesAt, WriteEntries, Padding, Filled, Cleared, LongCount,
         PadCount, Spaced;
    WrittenSinkOk(lay, flags, i);
    var k := WriteSection(lay, flags, i).value;
    if Bss in flags[i] {
      BssCleared(|k.bytes|);
    } else {
      LoadedSection(flags[i], k, addr, bases);
      FillerLoaded(k, bases, LoadHunk(HunkOf(flags[i], k, addr), bases).value);
      OnTheWayStart(k);
      EntriesSound(lay, i, Start(false), lay.secs[i], k, bases,
                   LoadHunk(HunkOf(flags[i], k, addr), bases).value);
    }
  }

  /** The sections pass 2 produces, one by one. */
  ghost predicate AreWritten(lay: Layout, flags: seq<set<SecFlag>>, ks: seq<Sink>) {
    && lay.Valid() && |ks| == |flags| == |lay.secs|
    && forall i | 0 <= i < |ks| :: WriteSection(lay, flags, i) == Ok(ks[i])
  }

  lemma SinksOk(lay: Layout, flags: seq<set<SecFlag>>, ks: seq<Sink>)
    requires ProgramOk(lay, flags) && AreWritten(lay, flags, ks)
    ensures forall i | 0 <= i < |ks| :: SinkOk(flags[i], ks[i], |flags|)
  {
    forall i | 0 <= i < |ks| ensures SinkOk(flags[i], ks[i], |flags|) {
      assert WriteSection(lay, flags, i) == Ok(ks[i]);
      WrittenSinkOk(lay, flags, i);
    }
  }

  lemma HunksLoad(lay: Layout, flags: seq<set<SecFlag>>, ks: seq<Sink>, addr: seq<nat>, bases: seq<Long>)
    requires ProgramOk(lay, flags) && AreWritten(lay, flags, ks) && |addr| == |bases| == |flags|
    ensures forall i | 0 <= i < |ks| :: LoadHunk(HunksOf(flags, ks, addr)[i], bases).Some?
  {
    forall i | 0 <= i < |ks| ensures LoadHunk(HunksOf(flags, ks, addr)[i], bases).Some? {
      assert WriteSection(lay, flags, i) == Ok(ks[i]);
      assert DirectiveFlags(flags[i]);
      SectionRealized(lay, flags, i, addr, bases);
    }
  }

  lemma HunksRealized(lay: Layout, flags: seq<set<SecFlag>>, ks: seq<Sink>, addr: seq<nat>, bases: seq<Long>,
                      imgs: seq<seq<Byte>>)
    requires ProgramOk(lay, flags) && AreWritten(lay, flags, ks) && |addr| == |bases| == |flags| == |imgs|
    requires forall i | 0 <= i < |ks| :: LoadHunk(HunksOf(flags, ks, addr)[i], bases) == Some(imgs[i])
    ensures Realizes(imgs, lay, flags, bases, AddressOf(lay, bases))
  {
    hide EntriesAt, LabelsAt, AddressOf, LoadHunk, WriteSection, HunkOf, Wrap32, LabelsPlaced, Filled, Cleared;
    forall i | 0 <= i < |imgs|
      ensures LabelsAt(lay.secs[i], 0, bases[i], AddressOf(lay, bases))
      ensures Bss !in flags[i] ==>
        EntriesAt(imgs[i], lay.secs[i], 0, bases[i], AddressOf(lay, bases))
        && Filled(imgs[i], TotalEmitted(lay.secs[i]))
      ensures Bss in flags[i] ==> Cleared(imgs[i], TotalEmitted(lay.secs[i]))
    {
      assert WriteSection(lay, flags, i) == Ok(ks[i]);
      assert DirectiveFlags(flags[i]);
      LabelsSound(lay, i, bases);
      SectionRealized(lay, flags, i, addr, bases);
      assert LoadHunk(HunksOf(flags, ks, addr)[i], bases) == Some(imgs[i]);
    }
  }

  lemma LinkParts(lay: Layout, flags: seq<set<SecFlag>>, addr: seq<nat>) returns (ks: seq<Sink>)
    requires lay.Valid() && |flags| == |lay.secs| && Link(lay, flags, addr).Ok?
    ensures AreWritten(lay, flags, ks)
    ensures Link(lay, flags, addr) == ExecutableBytes(flags, ks, addr)
  {
    ks := WriteSections(lay, flags, 0).value;
    WriteSectionsEach(lay, flags, 0);
    forall i | 0 <= i < |ks| ensures WriteSection(lay, flags, i) == Ok(ks[i]) {
      assert WriteSection(lay, flags, i) == Ok(ks[i - 0]);
    }
  }

  /** A hunk has the kind and the memory that the flags of its section ask for. */
  ghost predicate HunkSays(h: Hunk, flags: set<SecFlag>) {
    && (h.kind.CodeHunk? <==> Code in flags) && (h.kind.DataHunk? <==> Data_ in flags)
    && (h.kind.BssHunk? <==> Bss in flags) && (h.chip <==> Chip in flags) && (h.fast <==> Fast in flags)
  }

  /** The file has one hunk for each section, in order. */
  ghost predicate HunksSay(file: seq<Byte>, flags: seq<set<SecFlag>>) {
    match ReadFile(file)
    case None => false
    case Some(hs) => |hs| == |flags| && forall i | 0 <= i < |hs| :: HunkSays(hs[i], flags[i])
  }

  lemma HunksRead(lay: Layout, flags: seq<set<SecFlag>>, addr: seq<nat>)
    requires ProgramOk(lay, flags) && |addr| == |flags| && Link(lay, flags, addr).Ok?
    ensures HunksSay(Link(lay, flags, addr).value, flags)
  {
    hide ReadFile, ExecutableBytes, Link;
    var ks := LinkParts(lay, flags, addr);
    SinksOk(lay, flags, ks);
    FileRoundTrip(flags, ks, addr);
    forall i | 0 <= i < |flags| ensures HunkSays(HunkOf(flags[i], ks[i], addr), flags[i]) {
      assert DirectiveFlags(flags[i]);
    }
  }

  /** The assembler and linker as a whole: whatever bases the loader picks, and wherever the section
      records lie in the assembler's own memory, loading the written file gives an image in which every
      label is the address of its place and every field, read back as the CPU does, its operand. */
  lemma EndToEnd(lay: Layout, flags: seq<set<SecFlag>>, addr: seq<nat>, bases: seq<Long>)
    requires ProgramOk(lay, flags) && |addr| == |bases| == |flags| && Link(lay, flags, addr).Ok?
    ensures var imgs := LoadFile(Link(lay, flags, addr).value, bases);
      && imgs.Some? && |imgs.value| == |flags|
      && Realizes(imgs.value, lay, flags, bases, AddressOf(lay, bases))
  {
    var ks := LinkParts(lay, flags, addr);
    SinksOk(lay, flags, ks);
    FileRoundTrip(flags, ks, addr);
    HunksLoad(lay, flags, ks, addr, bases);
    LoadEach(HunksOf(flags, ks, addr), bases);
    HunksRealized(lay, flags, ks, addr, bases, LoadHunks(HunksOf(flags, ks, addr), bases).value);
  }
}
