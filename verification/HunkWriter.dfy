/** The load-file writer (src/ahf.c): relocations sorted in place on their list, grouped and written. */
module HunkWriter {
  import opened Basics
  import opened Entries
  import opened CodeSpace
  import opened SecondPass
  import opened HunkFormat
  import P = Pass2
  import R = Relocating
  import X = Executable

  // ---------------------------------------------------------------- sorting a linked list in place

  /** The list from `head` on visits exactly these records, each once, and ends. */
  ghost predicate Listed(head: RelocNode?, rs: seq<RelocNode>)
    reads rs
  {
    && (rs == [] ==> head == null)
    && (rs != [] ==> head == rs[0] && rs[|rs| - 1].next == null)
    && (forall i | 0 <= i < |rs| - 1 :: rs[i].next == rs[i + 1])
    && (forall i, j | 0 <= i < j < |rs| :: rs[i] != rs[j])
  }

  function SwapAt<T>(s: seq<T>, k: nat): (r: seq<T>)
    requires k + 1 < |s|
    ensures |r| == |s| && multiset(r) == multiset(s)
  {
    assert s == s[..k] + [s[k]] + [s[k + 1]] + s[k + 2..];
    s[..k] + [s[k + 1]] + [s[k]] + s[k + 2..]
  }

  /** Number of members of a list that come after a larger key. */
  function Smaller(addr: seq<nat>, r: P.Reloc, rs: seq<P.Reloc>): nat {
    if rs == [] then 0 else (if R.Key(addr, rs[0]) < R.Key(addr, r) then 1 else 0) + Smaller(addr, r, rs[1..])
  }

  function Inversions(addr: seq<nat>, rs: seq<P.Reloc>): nat {
    if rs == [] then 0 else Smaller(addr, rs[0], rs[1..]) + Inversions(addr, rs[1..])
  }

  lemma {:induction false} SmallerSwap(addr: seq<nat>, r: P.Reloc, rs: seq<P.Reloc>, k: nat)
    requires k + 1 < |rs|
    ensures Smaller(addr, r, SwapAt(rs, k)) == Smaller(addr, r, rs)
    decreases k
  {
    var sw := SwapAt(rs, k);
    if k == 0 {
      assert sw[1..][1..] == rs[1..][1..] == rs[2..];
      assert sw[0] == rs[1] && sw[1..][0] == rs[0] && rs[1..][0] == rs[1];
    } else {
      assert sw[0] == rs[0] && sw[1..] == SwapAt(rs[1..], k - 1);
      SmallerSwap(addr, r, rs[1..], k - 1);
    }
  }

  /** Each exchange of neighbours that are out of order removes one inversion. */
  lemma {:induction false} SwapInversions(addr: seq<nat>, rs: seq<P.Reloc>, k: nat)
    requires k + 1 < |rs| && R.Key(addr, rs[k]) > R.Key(addr, rs[k + 1])
    ensures Inversions(addr, SwapAt(rs, k)) + 1 == Inversions(addr, rs)
    decreases k
  {
    var sw := SwapAt(rs, k);
    if k == 0 {
      assert sw[1..][1..] == rs[1..][1..] == rs[2..];
      assert sw[0] == rs[1] && sw[1..][0] == rs[0] && rs[1..][0] == rs[1];
    } else {
      assert sw[0] == rs[0] && sw[1..] == SwapAt(rs[1..], k - 1);
      SmallerSwap(addr, rs[0], rs[1..], k - 1);
      SwapInversions(addr, rs[1..], k - 1);
    }
  }

  /** Exchanging neighbours with different targets does not change the order against any one section. */
  lemma {:induction false} SwapAgainst(rs: seq<P.Reloc>, k: nat, t: nat)
    requires k + 1 < |rs| && rs[k].target != rs[k + 1].target
    ensures R.Against(SwapAt(rs, k), t) == R.Against(rs, t)
    decreases k
  {
    var sw := SwapAt(rs, k);
    if k == 0 {
      assert sw[1..][1..] == rs[1..][1..] == rs[2..];
      assert sw[0] == rs[1] && sw[1..][0] == rs[0] && rs[1..][0] == rs[1];
    } else {
      assert sw[0] == rs[0] && sw[1..] == SwapAt(rs[1..], k - 1);
      SwapAgainst(rs[1..], k - 1, t);
    }
  }

  lemma AbsSwap(rs: seq<RelocNode>, k: nat)
    requires k + 1 < |rs|
    ensures AbsRelocs(SwapAt(rs, k)) == SwapAt(AbsRelocs(rs), k)
  {
  }

  lemma {:induction false} AdjacentOrdered(addr: seq<nat>, rs: seq<P.Reloc>, i: nat, j: nat)
    requires i < j < |rs| && forall m | 0 <= m < |rs| - 1 :: R.Key(addr, rs[m]) <= R.Key(addr, rs[m + 1])
    ensures R.Key(addr, rs[i]) <= R.Key(addr, rs[j])
    decreases j - i
  {
    if i + 1 >= j {
    } else {
      AdjacentOrdered(addr, rs, i + 1, j);
    }
  }

  /** Relink two neighbours so that they change places. */
  method Exchange(sec: Section, last: RelocNode?, curr: RelocNode, ghost rs: seq<RelocNode>, ghost k: nat)
    requires Listed(sec.freloc, rs) && k + 1 < |rs| && curr == rs[k] && last == (if k == 0 then null else rs[k - 1])
    modifies sec`freloc, rs
    ensures Listed(sec.freloc, SwapAt(rs, k))
  {
    ghost var sw := SwapAt(rs, k);
    assert sw[k] == rs[k + 1] && sw[k + 1] == rs[k];
    assert forall i | 0 <= i < |rs| && i != k && i != k + 1 :: sw[i] == rs[i];
    var next := curr.next;
    if last != null { last.next := next; } else { sec.freloc := next; }
    curr.next := next.next;
    next.next := curr;
  }

  lemma HeadOf(head: RelocNode?, rs: seq<RelocNode>)
    requires Listed(head, rs) && rs != []
    ensures head == rs[0]
  {
  }

  lemma NextOf(head: RelocNode?, rs: seq<RelocNode>, k: nat)
    requires Listed(head, rs) && k < |rs|
    ensures rs[k].next == (if k + 1 < |rs| then rs[k + 1] else null)
  {
  }

  /** The target of every relocation lies where the list of addresses says. */
  ghost predicate Addressed(rs: seq<RelocNode>, addr: seq<nat>) {
    R.Distinct(addr)
    && forall i | 0 <= i < |rs| :: rs[i].target.id < |addr| && addr[rs[i].target.id] == rs[i].target.addr
  }

  /** The same relocations against every section, in the same order. */
  ghost predicate SameAgainst(a: seq<P.Reloc>, b: seq<P.Reloc>) {
    forall t :: R.Against(a, t) == R.Against(b, t)
  }

  ghost predicate OrderedUpTo(addr: seq<nat>, rs: seq<P.Reloc>, k: nat) {
    forall m | 0 <= m < k && m + 1 < |rs| :: R.Key(addr, rs[m]) <= R.Key(addr, rs[m + 1])
  }

  lemma Untouched(addr: seq<nat>, v: seq<P.Reloc>)
    ensures SameAgainst(v, v) && OrderedUpTo(addr, v, 0)
  {
  }

  lemma SameAgainstTrans(a: seq<P.Reloc>, b: seq<P.Reloc>, c: seq<P.Reloc>)
    requires SameAgainst(a, b) && SameAgainst(b, c)
    ensures SameAgainst(a, c)
  {
    forall t ensures R.Against(a, t) == R.Against(c, t) {
      assert R.Against(a, t) == R.Against(b, t) && R.Against(b, t) == R.Against(c, t);
    }
  }

  /** What one exchange does to the value of the list. */
  lemma SwapStep(addr: seq<nat>, rs: seq<RelocNode>, k: nat, v0: seq<P.Reloc>)
    requires k + 1 < |rs| && Addressed(rs, addr) && rs[k].target.addr > rs[k + 1].target.addr
    requires SameAgainst(AbsRelocs(rs), v0)
    ensures Addressed(SwapAt(rs, k), addr) && SameAgainst(AbsRelocs(SwapAt(rs, k)), v0)
    ensures Inversions(addr, AbsRelocs(SwapAt(rs, k))) < Inversions(addr, AbsRelocs(rs))
  {
    var v := AbsRelocs(rs);
    AbsSwap(rs, k);
    SwapInversions(addr, v, k);
    SwapAddressed(rs, addr, k);
    forall t ensures R.Against(SwapAt(v, k), t) == R.Against(v0, t) { SwapAgainst(v, k, t); }
  }

  lemma KeepStep(addr: seq<nat>, rs: seq<RelocNode>, k: nat)
    requires k + 1 < |rs| && Addressed(rs, addr) && rs[k].target.addr <= rs[k + 1].target.addr
    requires OrderedUpTo(addr, AbsRelocs(rs), k)
    ensures OrderedUpTo(addr, AbsRelocs(rs), k + 1)
  {
    assert AbsRelocs(rs)[k].target == rs[k].target.id && AbsRelocs(rs)[k + 1].target == rs[k + 1].target.id;
  }

  lemma OrderedAll(addr: seq<nat>, rs: seq<P.Reloc>, k: nat)
    requires OrderedUpTo(addr, rs, k) && k + 1 >= |rs|
    ensures R.Ordered(addr, rs)
  {
    forall i, j | 0 <= i < j < |rs| ensures R.Key(addr, rs[i]) <= R.Key(addr, rs[j]) {
      AdjacentOrdered(addr, rs, i, j);
    }
  }

  /** One sweep over the list. */
  method Sweep(sec: Section, ghost addr: seq<nat>, ghost rs0: seq<RelocNode>)
      returns (sorted: bool, ghost rs: seq<RelocNode>)
    requires Listed(sec.freloc, rs0) && rs0 != [] && Addressed(rs0, addr)
    modifies sec`freloc, rs0
    ensures Listed(sec.freloc, rs) && multiset(rs) == multiset(rs0)
    ensures SameAgainst(AbsRelocs(rs), AbsRelocs(rs0))
    ensures sorted ==> rs == rs0 && R.Ordered(addr, AbsRelocs(rs))
    ensures !sorted ==> Inversions(addr, AbsRelocs(rs)) < Inversions(addr, AbsRelocs(rs0))
  {
    hide SameAgainst, OrderedUpTo, Addressed, AbsRelocs, Inversions, R.Ordered, SwapAt, Listed;
    Untouched(addr, AbsRelocs(rs0));
    HeadOf(sec.freloc, rs0);
    rs := rs0;
    var curr := sec.freloc;
    var last: RelocNode? := null;
    sorted := true;
    ghost var k := 0;
    while curr.next != null
      invariant k < |rs| == |rs0| && Listed(sec.freloc, rs) && multiset(rs) == multiset(rs0)
      invariant curr == rs[k] && last == (if k == 0 then null else rs[k - 1])
      invariant SameAgainst(AbsRelocs(rs), AbsRelocs(rs0)) && Addressed(rs, addr)
      invariant sorted ==> rs == rs0 && OrderedUpTo(addr, AbsRelocs(rs), k)
      invariant !sorted ==> Inversions(addr, AbsRelocs(rs)) < Inversions(addr, AbsRelocs(rs0))
      decreases |rs| - k
    {
      NextOf(sec.freloc, rs, k);
      var next := curr.next;
      if curr.target.addr > next.target.addr {
        SwapStep(addr, rs, k, AbsRelocs(rs0));
        SwappedAt(rs, k);
        MembersOf(rs0, rs);
        Exchange(sec, last, curr, rs, k);
        rs := SwapAt(rs, k);
        curr := next;
        sorted := false;
      } else if sorted {
        KeepStep(addr, rs, k);
      }
      NextOf(sec.freloc, rs, k);
      last := curr;
      curr := curr.next;
      k := k + 1;
    }
    NextOf(sec.freloc, rs, k);
    if sorted { OrderedAll(addr, AbsRelocs(rs), k); }
  }

  lemma SwappedAt<T>(s: seq<T>, k: nat)
    requires k + 1 < |s|
    ensures SwapAt(s, k)[k] == s[k + 1] && SwapAt(s, k)[k + 1] == s[k]
  {
  }

  lemma SwapAddressed(rs: seq<RelocNode>, addr: seq<nat>, k: nat)
    requires Addressed(rs, addr) && k + 1 < |rs|
    ensures Addressed(SwapAt(rs, k), addr)
  {
    var sw := SwapAt(rs, k);
    forall i | 0 <= i < |sw| ensures sw[i].target.id < |addr| && addr[sw[i].target.id] == sw[i].target.addr {
      assert sw[i] in multiset(rs);
    }
  }

  /** The bubble sort of `ahf_close`. It ends, keeps exactly the records of the list, and leaves them in
      the order of a stable sort by address of the target section. */
  method BubbleSort(sec: Section, ghost addr: seq<nat>, ghost rs0: seq<RelocNode>) returns (ghost rs: seq<RelocNode>)
    requires Listed(sec.freloc, rs0) && rs0 != [] && Addressed(rs0, addr)
    modifies sec`freloc, rs0
    ensures Listed(sec.freloc, rs) && multiset(rs) == multiset(rs0)
    ensures AbsRelocs(rs) == R.StableSort(addr, AbsRelocs(rs0))
  {
    hide SameAgainst, Addressed, AbsRelocs, Inversions, R.Ordered, R.StableSort, Listed;
    Untouched(addr, AbsRelocs(rs0));
    rs := rs0;
    var sorted := false;
    while !sorted
      invariant Listed(sec.freloc, rs) && multiset(rs) == multiset(rs0) && rs != []
      invariant SameAgainst(AbsRelocs(rs), AbsRelocs(rs0)) && Addressed(rs, addr)
      invariant forall i | 0 <= i < |rs| :: rs[i] in rs0
      invariant sorted ==> R.Ordered(addr, AbsRelocs(rs))
      decreases Inversions(addr, AbsRelocs(rs)), if sorted then 0 else 1
    {
      ghost var before := rs;
      sorted, rs := Sweep(sec, addr, rs);
      SameAddressed(before, rs, addr);
      SameAgainstTrans(AbsRelocs(rs), AbsRelocs(before), AbsRelocs(rs0));
      MembersOf(rs0, rs);
    }
    SortedIsStable(addr, rs0, rs);
  }

  lemma MembersOf<T>(a: seq<T>, b: seq<T>)
    requires multiset(a) == multiset(b)
    ensures forall i | 0 <= i < |b| :: b[i] in a
  {
    forall i | 0 <= i < |b| ensures b[i] in a {
      assert b[i] in multiset(a);
    }
  }

  lemma SameAddressed(a: seq<RelocNode>, b: seq<RelocNode>, addr: seq<nat>)
    requires Addressed(a, addr) && multiset(a) == multiset(b)
    ensures Addressed(b, addr) && (a != [] ==> b != [])
  {
    MembersOf(a, b);
    assert |multiset(a)| == |a| && |multiset(b)| == |b|;
  }

  lemma SortedIsStable(addr: seq<nat>, rs0: seq<RelocNode>, rs: seq<RelocNode>)
    requires Addressed(rs0, addr) && Addressed(rs, addr) && R.Ordered(addr, AbsRelocs(rs))
    requires SameAgainst(AbsRelocs(rs), AbsRelocs(rs0))
    ensures AbsRelocs(rs) == R.StableSort(addr, AbsRelocs(rs0))
  {
    var v := AbsRelocs(rs0);
    R.SortOrdered(addr, v);
    R.SortInRange(addr, v);
    forall t ensures R.Against(AbsRelocs(rs), t) == R.Against(R.StableSort(addr, v), t) {
      R.SortAgainst(addr, v, t);
    }
    R.StableUnique(addr, AbsRelocs(rs), R.StableSort(addr, v));
  }

  // ---------------------------------------------------------------- writing

  /** `ahf_handle`. Appending to `file` stands for `fwrite`. */
  class Handle {
    var sections: seq<Section>
    var file: seq<Byte>

    constructor ()
      ensures sections == [] && file == []
    {
      sections, file := [], [];
    }

    /** `ahf_register`. */
    method Register(section: Section)
      modifies this`sections
      ensures sections == old(sections) + [section]
    {
      sections := sections + [section];
    }

    method PutLong(v: Long)
      modifies this`file
      ensures file == old(file) + Be32(v)
    {
      file := file + Be32(v);
    }

    /** The sections were registered in creation order. */
    ghost predicate InOrder() reads this`sections {
      forall i | 0 <= i < |sections| :: sections[i].id == i
    }

    ghost predicate Registered(rs: seq<RelocNode>) reads this`sections {
      forall i | 0 <= i < |rs| :: rs[i].target in sections
    }

    /** Look up a section by identity. */
    method IndexOf(section: Section) returns (id: int)
      requires InOrder()
      ensures section in sections ==> id == section.id
      ensures section !in sections ==> id == -1
    {
      id := -1;
      for i := 0 to |sections|
        invariant forall j | 0 <= j < i :: sections[j] != section
      {
        if sections[i] == section { return i; }
      }
    }

    /** Write the offsets of the run that starts at `crel`; the record after it is returned. */
    method PutOffsets(crel: RelocNode, count: nat, ghost head: RelocNode?, ghost rs: seq<RelocNode>, ghost m: nat)
        returns (next: RelocNode?)
      requires Listed(head, rs) && m + count <= |rs| && m < |rs| && crel == rs[m]
      modifies this`file
      ensures next == (if m + count < |rs| then rs[m + count] else null)
      ensures file == old(file) + LongsBytes(R.Offsets(AbsRelocs(rs)[m..m + count]))
    {
      hide Listed, Be32, LongsBytes, R.Offsets, AbsRelocs;
      next := crel;
      NoLongs(AbsRelocs(rs), m);
      var i := 0;
      while i < count
        invariant i <= count && next == (if m + i < |rs| then rs[m + i] else null)
        invariant file == old(file) + LongsBytes(R.Offsets(AbsRelocs(rs)[m..m + i]))
      {
        NextOf(head, rs, m + i);
        OneMoreLong(rs, m, i);
        PutLong(next.offset);
        next := next.next;
        i := i + 1;
      }
    }

    /** Count the entries of the span that starts at `crel`. */
    method CountSpan(crel: RelocNode, ghost head: RelocNode?, ghost rs: seq<RelocNode>, ghost m: nat,
                     ghost all: seq<Section>)
        returns (count: nat)
      requires Listed(head, rs) && m < |rs| && crel == rs[m] && Identified(rs, all)
      ensures m + count <= |rs| && count == R.RunLength(AbsRelocs(rs)[m..])
    {
      hide Listed, R.RunLength, AbsRelocs;
      count := 0;
      var curr: RelocNode? := crel;
      while curr != null && curr.target == crel.target
        invariant m + count <= |rs| && curr == (if m + count < |rs| then rs[m + count] else null)
        invariant forall i | m <= i < m + count :: rs[i].target == crel.target
        decreases |rs| - count
      {
        NextOf(head, rs, m + count);
        count := count + 1;
        curr := curr.next;
      }
      SpanIsRun(rs, m, count, all);
    }

    /** One group: its count, its section, and its offsets. */
    method PutGroup(crel: RelocNode, ghost head: RelocNode?, ghost rs: seq<RelocNode>, ghost m: nat,
                    ghost all: seq<Section>)
        returns (next: RelocNode?, r: Result<()>)
      requires InOrder() && Listed(head, rs) && m < |rs| && crel == rs[m] && Identified(rs, all)
      modifies this`file
      ensures var n := R.RunLength(AbsRelocs(rs)[m..]);
        && m + n <= |rs|
        && (r.Ok? ==> next == (if m + n < |rs| then rs[m + n] else null))
        && (r.Ok? ==> file == old(file) + Be32(Wrap32(n)) + Be32(Wrap32(rs[m].target.id))
                                + LongsBytes(R.Offsets(AbsRelocs(rs)[m..m + n])))
      ensures r.Fail? ==> r.error == UnresolvedSection && rs[m].target !in sections
    {
      hide Listed, Be32, LongsBytes, R.Offsets, R.RunLength, AbsRelocs, Wrap32, Identified;
      next := null;
      var count := CountSpan(crel, head, rs, m, all);
      var id := IndexOf(crel.target);
      if id == -1 { return next, Fail(UnresolvedSection); }
      PutLong(Wrap32(count));
      PutLong(Wrap32(id));
      next := PutOffsets(crel, count, head, rs, m);
      r := Ok(());
    }

    /** The groups of a sorted list. */
    method PutGroups(head: RelocNode?, ghost rs: seq<RelocNode>, ghost all: seq<Section>) returns (r: Result<()>)
      requires InOrder() && Listed(head, rs) && Identified(rs, all)
      modifies this`file
      ensures r.Ok? ==> file == old(file) + GroupsBytes(R.Runs(AbsRelocs(rs)))
      ensures r.Fail? ==> r.error == UnresolvedSection && !Registered(rs)
    {
      hide Listed, Be32, LongsBytes, R.Offsets, R.RunLength, AbsRelocs, Wrap32, Identified, GroupsBytes, R.Runs;
      ghost var v := AbsRelocs(rs);
      var crel := head;
      ghost var m := 0;
      ghost var done: seq<Byte> := [];
      assert v[0..] == v && [] + GroupsBytes(R.Runs(v[0..])) == GroupsBytes(R.Runs(v));
      HeadIs(head, rs);
      while crel != null
        invariant m <= |rs| && crel == (if m < |rs| then rs[m] else null)
        invariant file == old(file) + done
        invariant done + GroupsBytes(R.Runs(v[m..])) == GroupsBytes(R.Runs(v))
        decreases |rs| - m
      {
        RunBytes(rs, m);
        ghost var n := R.RunLength(v[m..]);
        ghost var group := Be32(Wrap32(n)) + Be32(Wrap32(rs[m].target.id)) + LongsBytes(R.Offsets(v[m..m + n]));
        crel, r := PutGroup(crel, head, rs, m, all);
        if r.Fail? { return; }
        done := done + group;
        m := m + n;
      }
      NoRuns(v);
      assert done + [] == done;
      r := Ok(());
    }

    /** The filler up to the next longword. */
    method PutPadding(size: nat)
      modifies this`file
      ensures file == old(file) + X.Padding(X.PadCount(size))
    {
      hide X.Padding;
      var j := (size + 3) / 4 * 4 - size;
      ghost var done: seq<Byte> := [];
      assert done + X.Padding(j) == X.Padding(j);
      while j > 0
        invariant 0 <= j
        invariant file == old(file) + done && done + X.Padding(j) == X.Padding(X.PadCount(size))
      {
        ghost var step: seq<Byte> := [if (j - 1) % 2 == 1 then 0x4e else 0x71];
        PaddingStep(j);
        assert done + step + X.Padding(j - 1) == done + (step + X.Padding(j - 1));
        j := j - 1;
        file := file + [if j % 2 == 1 then 0x4e else 0x71];
        done := done + step;
      }
      NoPadding();
      assert done + [] == done;
    }

    /** The contents of a section, with filler. */
    method PutContents(sec: Section)
      requires Buffered(sec) && Bss !in sec.flags
      modifies this`file
      ensures file == old(file) + (sec.bytes + X.Padding(X.PadCount(|sec.bytes|)))
    {
      hide X.Padding, X.PadCount, Wrap32, Buffered;
      BufferHolds(sec);
      ghost var pad := X.Padding(X.PadCount(|sec.bytes|));
      if sec.data != null { file := file + sec.data[..sec.size]; }
      assert file == old(file) + sec.bytes;
      PutPadding(sec.size);
      assert old(file) + sec.bytes + pad == old(file) + (sec.bytes + pad);
    }

    /** The relocation block of a section: sort the list, then write its groups. */
    method PutRelocs(sec: Section, ghost addr: seq<nat>, ghost all: seq<Section>) returns (r: Result<()>)
      requires InOrder() && RelocList(sec) && Identified(sec.relocs, all) && Addressed(sec.relocs, addr)
      modifies this`file, sec`freloc, sec.relocs
      ensures r.Ok? ==> file == old(file) + RelocBytes(R.Runs(R.StableSort(addr, AbsRelocs(sec.relocs))))
      ensures r.Fail? ==> r.error == UnresolvedSection && !Registered(sec.relocs)
    {
      hide AbsRelocs, R.StableSort, R.Runs, GroupsBytes, Be32, Identified, Addressed, Listed;
      ghost var rs0 := sec.relocs;
      RelocsListed(sec);
      NothingToRelocate(addr);
      if sec.freloc != null {
        PutLong(HUNK_RELOC32);
        ghost var rs := BubbleSort(sec, addr, rs0);
        SameIdentified(rs0, rs, all);
        r := PutGroups(sec.freloc, rs, all);
        if r.Fail? {
          MembersOf(rs0, rs);
          MembersOf(rs, rs0);
          return;
        }
        PutLong(0);
        SomethingToRelocate(addr, AbsRelocs(rs0));
        ghost var gs := R.Runs(R.StableSort(addr, AbsRelocs(rs0)));
        assert old(file) + Be32(HUNK_RELOC32) + GroupsBytes(gs) + Be32(0)
            == old(file) + (Be32(HUNK_RELOC32) + GroupsBytes(gs) + Be32(0));
      }
      r := Ok(());
    }

    /** One section: type, size, contents, relocations, end. */
    method PutSection(sec: Section, ghost k: P.Sink, ghost addr: seq<nat>, ghost all: seq<Section>)
        returns (r: Result<()>)
      requires InOrder() && Written(sec, all, k) && Addressed(sec.relocs, addr)
      modifies this`file, sec`freloc, sec.relocs
      ensures r.Ok? ==> X.SectionBytes(sec.flags, k, addr).Ok?
      ensures r.Ok? ==> file == old(file) + X.SectionBytes(sec.flags, k, addr).value
      ensures r.Fail? ==> X.SectionBytes(sec.flags, k, addr) == Fail(r.error)
                          || (r.error == UnresolvedSection && !Registered(sec.relocs))
    {
      hide R.StableSort, R.Runs, RelocBytes, Be32, Identified, Addressed, X.LongCount, X.SectionBytes, X.Padding,
           X.PadCount, Buffered, RelocList, Wrap32;
      WrittenParts(sec, all, k);
      assert this !in DataOf(sec);
      var kind: Kind;
      if Code in sec.flags { kind := CodeHunk; }
      else if Data_ in sec.flags { kind := DataHunk; }
      else if Bss in sec.flags { kind := BssHunk; }
      else {
        UnknownType(sec.flags, k, addr);
        return Fail(UnsupportedSectionType);
      }
      var id := TypeWord(kind, Chip in sec.flags, Fast in sec.flags);
      PutLong(id);
      PutLong(X.LongCount(sec.size));
      ghost var head := Be32(id) + Be32(X.LongCount(sec.size));
      if Bss in sec.flags {
        PutLong(HUNK_END);
        SectionParts(old(file), sec.flags, k, addr, kind, [], []);
        return Ok(());
      }
      PutContents(sec);
      r := PutRelocs(sec, addr, all);
      if r.Fail? { return; }
      PutLong(HUNK_END);
      SectionParts(old(file), sec.flags, k, addr, kind, k.bytes + X.Padding(X.PadCount(|k.bytes|)),
                   RelocBytes(R.Runs(R.StableSort(addr, k.relocs))));
    }

    /** The header: magic number, no libraries, hunk count, first and last hunk, and the size table. */
    method PutHeader(ghost ks: seq<P.Sink>)
      requires |ks| == |sections| && forall i | 0 <= i < |ks| :: sections[i].size == X.SizeOf(ks[i])
      modifies this`file
      ensures file == old(file) + HeaderBytes(X.SizeTable(ks))
    {
      hide Be32, LongsBytes, X.LongCount, Wrap32, X.SizeTable, HeaderFields;
      PutLong(HUNK_HEADER);
      PutLong(0);
      PutLong(Wrap32(|sections|));
      PutLong(0);
      PutLong(Wrap32(|sections| - 1));
      ghost var head := file;
      ghost var sizes := X.SizeTable(ks);
      ghost var done: seq<Byte> := [];
      assert ks[0..] == ks && [] + LongsBytes(X.SizeTable(ks[0..])) == LongsBytes(sizes);
      var i := 0;
      while i < |sections|
        invariant i <= |sections| && file == head + done
        invariant done + LongsBytes(X.SizeTable(ks[i..])) == LongsBytes(sizes)
      {
        OneMoreSize(ks, i);
        PutLong(X.LongCount(sections[i].size));
        done := done + Be32(X.LongCount(X.SizeOf(ks[i])));
        i := i + 1;
      }
      NoSizes(ks);
      assert done + [] == done;
      SizeTableLength(ks);
      HeaderParts(old(file), sizes, |sections|);
    }

    /** Sections from i on, waiting to be put in the file. */
    ghost predicate Pending(ks: seq<P.Sink>, addr: seq<nat>, all: seq<Section>, i: nat)
      reads *
    {
      && |ks| == |sections|
      && forall j | i <= j < |sections| ::
           Written(sections[j], all, ks[j]) && Addressed(sections[j].relocs, addr)
    }

    /** Putting one section in the file leaves those after it as they are. */
    method PutNext(sec: Section, ghost i: nat, ghost ks: seq<P.Sink>, ghost addr: seq<nat>, ghost all: seq<Section>)
        returns (r: Result<()>)
      requires InOrder() && i < |sections| && sections[i] == sec && Pending(ks, addr, all, i)
      modifies this`file, sec`freloc, sec.relocs
      ensures Pending(ks, addr, all, i + 1)
      ensures r.Ok? ==> X.SectionBytes(sec.flags, ks[i], addr).Ok?
                        && file == old(file) + X.SectionBytes(sec.flags, ks[i], addr).value
      ensures r.Fail? ==> X.SectionBytes(sec.flags, ks[i], addr) == Fail(r.error)
                          || (r.error == UnresolvedSection && !Registered(sec.relocs))
    {
      hide X.SectionBytes, Written, Identified, Addressed, Registered, Buffered, RelocList, Open, SinkOf;
      forall j | i <= j < |sections|
        ensures Buffered(sections[j]) && RelocList(sections[j]) && SinkOf(sections[j], ks[j].pc) == ks[j]
        ensures Identified(sections[j].relocs, all)
        ensures forall r | r in sections[j].relocs :: r.owner == sections[j]
      {
        OwnRelocs(sections[j], all, ks[j]);
      }
      r := PutSection(sec, ks[i], addr, all);
      forall j | i + 1 <= j < |sections| ensures Written(sections[j], all, ks[j]) {
        assert sections[j] != sec;
        assert sec !in old(DataOf(sections[j])) && this !in old(DataOf(sections[j]));
        assert forall r | r in sec.relocs :: r !in sections[j].relocs && r !in old(DataOf(sections[j]));
        assert old(Buffered(sections[j])) ==> Buffered(sections[j]);
        assert forall m | 0 <= m < |sections[j].relocs| :: sections[j].relocs[m] !in sec.relocs;
        assert forall m | 0 <= m < |sec.relocs| :: sec.relocs[m] !in sections[j].relocs;
        assert old(RelocList(sections[j])) ==> RelocList(sections[j]);
        WrittenFrom(sections[j], all, ks[j]);
      }
    }

    /** Writing the header changes none of the sections. */
    method Begin(ghost ks: seq<P.Sink>, ghost addr: seq<nat>, ghost all: seq<Section>)
      requires InOrder() && Pending(ks, addr, all, 0)
      modifies this`file
      ensures Pending(ks, addr, all, 0) && file == old(file) + HeaderBytes(X.SizeTable(ks))
    {
      hide Written, Identified, Addressed, Buffered, RelocList, SinkOf, HeaderBytes;
      SizesAre(ks, addr, all);
      forall j | 0 <= j < |sections|
        ensures Buffered(sections[j]) && RelocList(sections[j]) && SinkOf(sections[j], ks[j].pc) == ks[j]
        ensures Identified(sections[j].relocs, all)
      {
        OwnRelocs(sections[j], all, ks[j]);
      }
      PutHeader(ks);
      forall j | 0 <= j < |sections| ensures Written(sections[j], all, ks[j]) {
        assert this !in old(DataOf(sections[j]));
        assert old(Buffered(sections[j])) ==> Buffered(sections[j]);
        WrittenFrom(sections[j], all, ks[j]);
      }
    }

    /** `ahf_close`. The records of all relocation lists are in `nodes`. */
    method Close(ghost flags: seq<set<SecFlag>>, ghost ks: seq<P.Sink>, ghost addr: seq<nat>, ghost all: seq<Section>,
                 ghost nodes: set<RelocNode>) returns (r: Result<()>)
      requires InOrder() && Pending(ks, addr, all, 0) && |flags| == |sections|
      requires forall j | 0 <= j < |sections| :: flags[j] == sections[j].flags
      requires forall j, n | 0 <= j < |sections| && n in sections[j].relocs :: n in nodes
      modifies this`file, sections`freloc, nodes
      ensures r.Ok? ==> X.ExecutableBytes(flags, ks, addr).Ok?
      ensures r.Ok? ==> file == old(file) + X.ExecutableBytes(flags, ks, addr).value
      ensures r.Fail? ==> X.ExecutableBytes(flags, ks, addr) == Fail(r.error)
                          || (r.error == UnresolvedSection
                              && exists j :: 0 <= j < |sections| && !Registered(sections[j].relocs))
    {
      hide X.SectionBytes, X.SectionsBytes, HeaderBytes, Registered, Written, Identified, Addressed;
      Begin(ks, addr, all);
      ghost var header := file;
      ghost var done: seq<Byte> := [];
      ghost var whole := X.SectionsBytes(flags, ks, addr);
      assert flags[0..] == flags && ks[0..] == ks;
      Unsplit(whole);
      var i := 0;
      while i < |sections|
        invariant i <= |sections| && Pending(ks, addr, all, i)
        invariant file == header + done
        invariant whole == Joined(done, X.SectionsBytes(flags[i..], ks[i..], addr))
      {
        SectionsStep(flags, ks, addr, i, done);
        r := PutNext(sections[i], i, ks, addr, all);
        if r.Fail? { return; }
        done := done + X.SectionBytes(flags[i], ks[i], addr).value;
        i := i + 1;
      }
      SectionsDone(flags, ks, addr);
      assert done + [] == done;
      assert old(file) + HeaderBytes(X.SizeTable(ks)) + done == old(file) + (HeaderBytes(X.SizeTable(ks)) + done);
      r := Ok(());
    }

    lemma SizesAre(ks: seq<P.Sink>, addr: seq<nat>, all: seq<Section>)
      requires Pending(ks, addr, all, 0)
      ensures forall i | 0 <= i < |ks| :: sections[i].size == X.SizeOf(ks[i])
    {
      forall i | 0 <= i < |ks| ensures sections[i].size == X.SizeOf(ks[i]) {
        WrittenParts(sections[i], all, ks[i]);
      }
    }
  }

  /** Bytes already written, followed by a result. */
  ghost function Joined(done: seq<Byte>, rest: Result<seq<Byte>>): Result<seq<Byte>> {
    match rest case Ok(bs) => Ok(done + bs) case Fail(e) => Fail(e)
  }

  lemma Unsplit(r: Result<seq<Byte>>)
    ensures Joined([], r) == r
  {
    if r.Ok? { assert [] + r.value == r.value; }
  }

  lemma SectionsStep(flags: seq<set<SecFlag>>, ks: seq<P.Sink>, addr: seq<nat>, i: nat, done: seq<Byte>)
    requires |flags| == |ks| && i < |ks|
    ensures var one := X.SectionBytes(flags[i], ks[i], addr);
      Joined(done, X.SectionsBytes(flags[i..], ks[i..], addr)) ==
        match one
        case Ok(bs) => Joined(done + bs, X.SectionsBytes(flags[i + 1..], ks[i + 1..], addr))
        case Fail(e) => Fail(e)
  {
    hide X.SectionBytes;
    assert ks[i..][0] == ks[i] && ks[i..][1..] == ks[i + 1..];
    assert flags[i..][0] == flags[i] && flags[i..][1..] == flags[i + 1..];
    var one, rest := X.SectionBytes(flags[i], ks[i], addr), X.SectionsBytes(flags[i + 1..], ks[i + 1..], addr);
    if one.Ok? && rest.Ok? { assert done + (one.value + rest.value) == done + one.value + rest.value; }
  }

  lemma SectionsDone(flags: seq<set<SecFlag>>, ks: seq<P.Sink>, addr: seq<nat>)
    requires |flags| == |ks|
    ensures X.SectionsBytes(flags[|ks|..], ks[|ks|..], addr) == Ok([])
  {
  }

  lemma WrittenFrom(sec: Section, all: seq<Section>, k: P.Sink)
    requires Buffered(sec) && RelocList(sec) && Identified(sec.relocs, all) && SinkOf(sec, k.pc) == k
    ensures Written(sec, all, k)
  {
  }

  lemma OwnRelocs(sec: Section, all: seq<Section>, k: P.Sink)
    requires Written(sec, all, k)
    ensures Buffered(sec) && RelocList(sec) && SinkOf(sec, k.pc) == k && Identified(sec.relocs, all)
    ensures forall r | r in sec.relocs :: r.owner == sec
  {
  }

  lemma WrittenParts(sec: Section, all: seq<Section>, k: P.Sink)
    requires Written(sec, all, k)
    ensures Buffered(sec) && RelocList(sec) && sec.size == X.SizeOf(k) && k.bss == (Bss in sec.flags)
    ensures k.bytes == sec.bytes && k.relocs == AbsRelocs(sec.relocs) && Identified(sec.relocs, all)
  {
  }

  lemma UnknownType(flags: set<SecFlag>, k: P.Sink, addr: seq<nat>)
    requires Code !in flags && Data_ !in flags && Bss !in flags
    ensures X.SectionBytes(flags, k, addr) == Fail(UnsupportedSectionType)
  {
  }

  lemma SectionParts(before: seq<Byte>, flags: set<SecFlag>, k: P.Sink, addr: seq<nat>, kind: Kind, body: seq<Byte>,
                     relocs: seq<Byte>)
    requires X.KindOf(flags) == Ok(kind)
    requires body == if Bss in flags then [] else k.bytes + X.Padding(X.PadCount(|k.bytes|))
    requires relocs == if Bss in flags then [] else RelocBytes(R.Runs(R.StableSort(addr, k.relocs)))
    ensures X.SectionBytes(flags, k, addr).Ok?
    ensures before + X.SectionBytes(flags, k, addr).value
      == before + Be32(TypeWord(kind, Chip in flags, Fast in flags)) + Be32(X.LongCount(X.SizeOf(k)))
         + body + relocs + Be32(HUNK_END)
  {
    hide Be32, TypeWord, X.LongCount, X.SizeOf, X.Padding, X.PadCount, R.Runs, R.StableSort, RelocBytes;
    var a, b, c := Be32(TypeWord(kind, Chip in flags, Fast in flags)), Be32(X.LongCount(X.SizeOf(k))), Be32(HUNK_END);
    FiveParts(before, a, b, body, relocs, c);
    if Bss in flags { assert [] + [] == body + relocs; }
  }

  lemma FiveParts(before: seq<Byte>, a: seq<Byte>, b: seq<Byte>, body: seq<Byte>, relocs: seq<Byte>, c: seq<Byte>)
    ensures before + (a + (b + (body + relocs + c))) == before + a + b + body + relocs + c
  {
  }

  lemma OneMoreSize(ks: seq<P.Sink>, i: nat)
    requires i < |ks|
    ensures LongsBytes(X.SizeTable(ks[i..]))
         == Be32(X.LongCount(X.SizeOf(ks[i]))) + LongsBytes(X.SizeTable(ks[i + 1..]))
  {
    assert ks[i..][0] == ks[i] && ks[i..][1..] == ks[i + 1..];
    var rest := X.SizeTable(ks[i + 1..]);
    assert ([X.LongCount(X.SizeOf(ks[i]))] + rest)[1..] == rest;
  }

  lemma NoSizes(ks: seq<P.Sink>)
    ensures LongsBytes(X.SizeTable(ks[|ks|..])) == []
  {
  }

  lemma {:induction false} SizeTableLength(ks: seq<P.Sink>)
    ensures |X.SizeTable(ks)| == |ks|
    decreases |ks|
  {
    if ks == [] {
    } else {
      SizeTableLength(ks[1..]);
    }
  }

  lemma HeaderParts(before: seq<Byte>, sizes: seq<Long>, n: nat)
    requires n == |sizes|
    ensures before + Be32(HUNK_HEADER) + Be32(0) + Be32(Wrap32(n)) + Be32(0) + Be32(Wrap32(n - 1)) + LongsBytes(sizes)
         == before + HeaderBytes(sizes)
  {
    hide Be32, LongsBytes, Wrap32;
  }

  lemma PaddingStep(j: nat)
    requires j > 0
    ensures X.Padding(j) == [if (j - 1) % 2 == 1 then 0x4e else 0x71] + X.Padding(j - 1)
  {
  }

  lemma NoPadding()
    ensures X.Padding(0) == []
  {
  }

  lemma BufferHolds(sec: Section)
    requires Buffered(sec) && Bss !in sec.flags
    ensures sec.size == |sec.bytes|
    ensures if sec.data == null then sec.bytes == []
            else sec.size <= sec.data.Length && sec.data[..sec.size] == sec.bytes
  {
    WrapSmall(|sec.bytes|);
  }

  lemma RelocsListed(sec: Section)
    requires RelocList(sec)
    ensures Listed(sec.freloc, sec.relocs) && (sec.freloc == null <==> sec.relocs == [])
  {
  }

  lemma NothingToRelocate(addr: seq<nat>)
    ensures RelocBytes(R.Runs(R.StableSort(addr, AbsRelocs([])))) == []
  {
  }

  lemma SomethingToRelocate(addr: seq<nat>, v: seq<P.Reloc>)
    requires v != []
    ensures R.Runs(R.StableSort(addr, v)) != []
  {
    R.SortMembers(addr, v);
    assert |multiset(R.StableSort(addr, v))| == |multiset(v)|;
  }

  lemma SameIdentified(a: seq<RelocNode>, b: seq<RelocNode>, all: seq<Section>)
    requires Identified(a, all) && multiset(a) == multiset(b)
    ensures Identified(b, all)
  {
    MembersOf(a, b);
  }

  lemma HeadIs(head: RelocNode?, rs: seq<RelocNode>)
    requires Listed(head, rs)
    ensures head == (if 0 < |rs| then rs[0] else null)
  {
  }

  lemma NoLongs(v: seq<P.Reloc>, m: nat)
    requires m <= |v|
    ensures LongsBytes(R.Offsets(v[m..m + 0])) == []
  {
  }

  lemma {:induction false} LongsAppend(vs: seq<Long>, x: Long)
    ensures LongsBytes(vs + [x]) == LongsBytes(vs) + Be32(x)
    decreases |vs|
  {
    if vs == [] {
      assert LongsBytes([x]) == Be32(x) + [];
    } else {
      assert (vs + [x])[1..] == vs[1..] + [x];
      LongsAppend(vs[1..], x);
    }
  }

  lemma {:induction false} OffsetsAppend(v: seq<P.Reloc>, r: P.Reloc)
    ensures R.Offsets(v + [r]) == R.Offsets(v) + [r.offset]
    decreases |v|
  {
    if v == [] {
    } else {
      assert (v + [r])[1..] == v[1..] + [r];
      OffsetsAppend(v[1..], r);
    }
  }

  lemma OneMoreLong(rs: seq<RelocNode>, m: nat, i: nat)
    requires m + i < |rs|
    ensures LongsBytes(R.Offsets(AbsRelocs(rs)[m..m + (i + 1)]))
         == LongsBytes(R.Offsets(AbsRelocs(rs)[m..m + i])) + Be32(rs[m + i].offset)
  {
    var v := AbsRelocs(rs);
    assert v[m..m + (i + 1)] == v[m..m + i] + [v[m + i]];
    OffsetsAppend(v[m..m + i], v[m + i]);
    LongsAppend(R.Offsets(v[m..m + i]), v[m + i].offset);
  }

  lemma SpanIsRun(rs: seq<RelocNode>, m: nat, count: nat, all: seq<Section>)
    requires m < |rs| && 0 < count && m + count <= |rs| && Identified(rs, all)
    requires forall i | m <= i < m + count :: rs[i].target == rs[m].target
    requires m + count < |rs| ==> rs[m + count].target != rs[m].target
    ensures count == R.RunLength(AbsRelocs(rs)[m..])
  {
    var v := AbsRelocs(rs)[m..];
    var n := R.RunLength(v);
    assert forall i | 0 <= i < |v| :: v[i].target == rs[m + i].target.id;
    assert forall i | 0 <= i < count :: v[i].target == v[0].target;
    assert count < |v| ==> v[count].target != v[0].target;
  }

  lemma RunBytes(rs: seq<RelocNode>, m: nat)
    requires m < |rs|
    ensures var v := AbsRelocs(rs);
      var n := R.RunLength(v[m..]);
      && m + n <= |rs|
      && GroupsBytes(R.Runs(v[m..])) == Be32(Wrap32(n)) + Be32(Wrap32(rs[m].target.id))
           + LongsBytes(R.Offsets(v[m..m + n])) + GroupsBytes(R.Runs(v[m + n..]))
  {
    hide Be32, LongsBytes, R.Offsets, Wrap32, GroupsBytes, R.Runs, R.RunLength;
    var v := AbsRelocs(rs);
    var n := R.RunLength(v[m..]);
    assert v[m..][..n] == v[m..m + n] && v[m..][n..] == v[m + n..];
    R.MarksOffsets(v[m..m + n], v[m].target);
    RunsStep(v[m..]);
    GroupsStep(Group(Wrap32(v[m].target), R.Offsets(v[m..m + n])), R.Runs(v[m + n..]));
  }

  lemma RunsStep(v: seq<P.Reloc>)
    requires v != []
    ensures var n := R.RunLength(v);
      R.Runs(v) == [Group(Wrap32(v[0].target), R.Offsets(v[..n]))] + R.Runs(v[n..])
  {
  }

  lemma GroupsStep(g: Group, gs: seq<Group>)
    ensures GroupsBytes([g] + gs)
         == Be32(Wrap32(|g.offsets|)) + Be32(g.target) + LongsBytes(g.offsets) + GroupsBytes(gs)
  {
    assert ([g] + gs)[1..] == gs;
  }

  lemma NoRuns(v: seq<P.Reloc>)
    ensures GroupsBytes(R.Runs(v[|v|..])) == []
  {
  }
}
