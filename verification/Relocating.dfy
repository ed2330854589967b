/** Relocation lists as values: the order `ahf_close` brings them into, the runs it groups them in,
    and what a loader does with them. */
module Relocating {
  import opened Basics
  import opened Pass2
  import opened Meaning
  import opened HunkFormat

  // ---------------------------------------------------------------- stable sorting by address

  /** `addr[i]` is the address of section i in memory, which is what the program compares. */
  function Key(addr: seq<nat>, r: Reloc): nat {
    if r.target < |addr| then addr[r.target] else 0
  }

  ghost predicate Distinct(addr: seq<nat>) {
    forall i, j | 0 <= i < j < |addr| :: addr[i] != addr[j]
  }

  ghost predicate InRange(rs: seq<Reloc>, n: nat) {
    forall i | 0 <= i < |rs| :: rs[i].target < n
  }

  ghost predicate Ordered(addr: seq<nat>, rs: seq<Reloc>) {
    forall i, j | 0 <= i < j < |rs| :: Key(addr, rs[i]) <= Key(addr, rs[j])
  }

  /** The relocations against one section, in list order. */
  function Against(rs: seq<Reloc>, t: nat): seq<Reloc> {
    if rs == [] then []
    else if rs[0].target == t then [rs[0]] + Against(rs[1..], t)
    else Against(rs[1..], t)
  }

  function Insert(addr: seq<nat>, r: Reloc, rs: seq<Reloc>): seq<Reloc> {
    if rs == [] || Key(addr, r) <= Key(addr, rs[0]) then [r] + rs
    else [rs[0]] + Insert(addr, r, rs[1..])
  }

  /** Relocations by address of their target, pass-2 order kept among equals. */
  function StableSort(addr: seq<nat>, rs: seq<Reloc>): seq<Reloc> {
    if rs == [] then [] else Insert(addr, rs[0], StableSort(addr, rs[1..]))
  }

  lemma {:induction false} InsertMembers(addr: seq<nat>, r: Reloc, rs: seq<Reloc>)
    ensures multiset(Insert(addr, r, rs)) == multiset(rs) + multiset{r}
    decreases |rs|
  {
    if rs == [] || Key(addr, r) <= Key(addr, rs[0]) {
    } else {
      InsertMembers(addr, r, rs[1..]);
      assert rs == [rs[0]] + rs[1..];
    }
  }

  lemma {:induction false} SortMembers(addr: seq<nat>, rs: seq<Reloc>)
    ensures multiset(StableSort(addr, rs)) == multiset(rs)
    decreases |rs|
  {
    if rs == [] {
    } else {
      SortMembers(addr, rs[1..]);
      InsertMembers(addr, rs[0], StableSort(addr, rs[1..]));
      assert rs == [rs[0]] + rs[1..];
    }
  }

  lemma InsertedIn(addr: seq<nat>, r: Reloc, rs: seq<Reloc>, j: nat)
    requires j < |Insert(addr, r, rs)|
    ensures Insert(addr, r, rs)[j] == r || exists i :: 0 <= i < |rs| && rs[i] == Insert(addr, r, rs)[j]
  {
    hide Insert, Key;
    InsertMembers(addr, r, rs);
    var x := Insert(addr, r, rs)[j];
    assert x in multiset(Insert(addr, r, rs));
    if x != r { assert x in rs; }
  }

  lemma {:induction false} InsertOrdered(addr: seq<nat>, r: Reloc, rs: seq<Reloc>)
    requires Ordered(addr, rs)
    ensures Ordered(addr, Insert(addr, r, rs))
    decreases |rs|
  {
    if rs == [] || Key(addr, r) <= Key(addr, rs[0]) {
    } else {
      var tail := Insert(addr, r, rs[1..]);
      InsertOrdered(addr, r, rs[1..]);
      forall j | 0 <= j < |tail| ensures Key(addr, rs[0]) <= Key(addr, tail[j]) {
        InsertedIn(addr, r, rs[1..], j);
      }
    }
  }

  lemma {:induction false} SortOrdered(addr: seq<nat>, rs: seq<Reloc>)
    ensures Ordered(addr, StableSort(addr, rs))
    decreases |rs|
  {
    if rs == [] {
    } else {
      SortOrdered(addr, rs[1..]);
      InsertOrdered(addr, rs[0], StableSort(addr, rs[1..]));
    }
  }

  lemma {:induction false} InsertAgainst(addr: seq<nat>, r: Reloc, rs: seq<Reloc>, t: nat)
    requires Distinct(addr) && r.target < |addr| && InRange(rs, |addr|)
    ensures Against(Insert(addr, r, rs), t) == (if r.target == t then [r] else []) + Against(rs, t)
    decreases |rs|
  {
    if rs == [] || Key(addr, r) <= Key(addr, rs[0]) {
      assert ([r] + rs)[1..] == rs;
    } else {
      assert InRange(rs[1..], |addr|);
      InsertAgainst(addr, r, rs[1..], t);
      var out := Insert(addr, r, rs);
      assert out[0] == rs[0] && out[1..] == Insert(addr, r, rs[1..]);
      assert r.target != rs[0].target;
    }
  }

  /** The sort is stable: relocations against the same section keep their order. */
  lemma {:induction false} SortAgainst(addr: seq<nat>, rs: seq<Reloc>, t: nat)
    requires Distinct(addr) && InRange(rs, |addr|)
    ensures Against(StableSort(addr, rs), t) == Against(rs, t)
    decreases |rs|
  {
    if rs == [] {
    } else {
      assert InRange(rs[1..], |addr|);
      SortAgainst(addr, rs[1..], t);
      SortInRange(addr, rs[1..]);
      InsertAgainst(addr, rs[0], StableSort(addr, rs[1..]), t);
    }
  }

  lemma SortInRange(addr: seq<nat>, rs: seq<Reloc>)
    requires InRange(rs, |addr|)
    ensures InRange(StableSort(addr, rs), |addr|)
  {
    SortMembers(addr, rs);
    var s := StableSort(addr, rs);
    forall i | 0 <= i < |s| ensures s[i].target < |addr| {
      assert s[i] in multiset(rs);
    }
  }

  lemma {:induction false} AgainstHead(rs: seq<Reloc>, t: nat)
    requires Against(rs, t) != []
    ensures exists i :: 0 <= i < |rs| && rs[i] == Against(rs, t)[0] && rs[i].target == t
    decreases |rs|
  {
    if rs[0].target == t {
    } else {
      AgainstHead(rs[1..], t);
      var i :| 0 <= i < |rs[1..]| && rs[1..][i] == Against(rs[1..], t)[0] && rs[1..][i].target == t;
      assert rs[i + 1] == Against(rs, t)[0];
    }
  }

  lemma SameEmptiness(a: seq<Reloc>, b: seq<Reloc>)
    requires forall t :: Against(a, t) == Against(b, t)
    ensures a == [] ==> b == []
  {
    if b != [] {
      var t := b[0].target;
      assert Against(a, t) == Against(b, t);
      assert Against(b, t)[0] == b[0];
    }
  }

  /** An ordered list is determined by its members against each section, in order; so any in-place
      sort that swaps only on strict inequality ends with `StableSort`. */
  lemma {:induction false} StableUnique(addr: seq<nat>, a: seq<Reloc>, b: seq<Reloc>)
    requires Distinct(addr) && InRange(a, |addr|) && InRange(b, |addr|)
    requires Ordered(addr, a) && Ordered(addr, b)
    requires forall t :: Against(a, t) == Against(b, t)
    ensures a == b
    decreases |a|
  {
    SameEmptiness(a, b);
    SameEmptiness(b, a);
    if a == [] {
    } else {
      var t := a[0].target;
      assert Against(a, t) == Against(b, t);
      AgainstHead(b, t);
      var u := b[0].target;
      assert Against(a, u) == Against(b, u);
      AgainstHead(a, u);
      assert Key(addr, a[0]) == Key(addr, b[0]);
      assert t == u;
      forall v ensures Against(a[1..], v) == Against(b[1..], v) {
        assert Against(a, v) == Against(b, v);
        if v == t {
          assert Against(a, v)[1..] == Against(a[1..], v);
          assert Against(b, v)[1..] == Against(b[1..], v);
        }
      }
      StableUnique(addr, a[1..], b[1..]);
      assert a == [a[0]] + a[1..] && b == [b[0]] + b[1..];
    }
  }

  // ---------------------------------------------------------------- runs

  function Offsets(rs: seq<Reloc>): seq<Long> {
    if rs == [] then [] else [rs[0].offset] + Offsets(rs[1..])
  }

  /** Length of the run of equal targets at the head of a list. */
  function RunLength(rs: seq<Reloc>): (n: nat)
    requires rs != []
    ensures 1 <= n <= |rs|
    ensures forall i | 0 <= i < n :: rs[i].target == rs[0].target
    ensures n < |rs| ==> rs[n].target != rs[0].target
  {
    if |rs| > 1 && rs[1].target == rs[0].target then
      assert forall i | 1 <= i < |rs| :: rs[i] == rs[1..][i - 1];
      1 + RunLength(rs[1..])
    else 1
  }

  /** One group for each run of equal targets. */
  function Runs(rs: seq<Reloc>): seq<Group>
    decreases |rs|
  {
    if rs == [] then []
    else
      var n := RunLength(rs);
      [Group(Wrap32(rs[0].target), Offsets(rs[..n]))] + Runs(rs[n..])
  }

  function Marks(target: nat, offsets: seq<Long>): seq<Reloc> {
    if offsets == [] then [] else [Reloc(target, offsets[0])] + Marks(target, offsets[1..])
  }

  /** The relocations a list of groups stands for. */
  function Flat(gs: seq<Group>): seq<Reloc> {
    if gs == [] then [] else Marks(gs[0].target, gs[0].offsets) + Flat(gs[1..])
  }

  lemma {:induction false} MarksOffsets(rs: seq<Reloc>, t: nat)
    requires forall i | 0 <= i < |rs| :: rs[i].target == t
    ensures Marks(t, Offsets(rs)) == rs && |Offsets(rs)| == |rs|
    decreases |rs|
  {
    if rs == [] {
    } else {
      MarksOffsets(rs[1..], t);
      assert rs == [rs[0]] + rs[1..];
      assert Offsets(rs)[1..] == Offsets(rs[1..]);
    }
  }

  lemma RunsCons(rs: seq<Reloc>)
    requires rs != [] && rs[0].target < 0x1_0000_0000
    ensures var n := RunLength(rs);
      Runs(rs) == [Group(rs[0].target, Offsets(rs[..n]))] + Runs(rs[n..])
  {
    WrapSmall(rs[0].target);
  }

  /** Grouping loses nothing and reorders nothing. */
  lemma {:induction false} FlatRuns(rs: seq<Reloc>)
    requires InRange(rs, 0x1_0000_0000)
    ensures Flat(Runs(rs)) == rs
    decreases |rs|
  {
    if rs == [] {
    } else {
      var n := RunLength(rs);
      FlatRuns(rs[n..]);
      MarksOffsets(rs[..n], rs[0].target);
      RunsCons(rs);
      hide Wrap32, Runs, RunLength;
      assert rs == rs[..n] + rs[n..];
    }
  }

  lemma {:induction false} RunsOk(rs: seq<Reloc>)
    requires |rs| < 0x1_0000_0000
    ensures GroupsOk(Runs(rs))
    decreases |rs|
  {
    if rs == [] {
    } else {
      var n := RunLength(rs);
      RunsOk(rs[n..]);
      MarksOffsets(rs[..n], rs[0].target);
    }
  }

  lemma {:induction false} AgainstNone(rs: seq<Reloc>, t: nat)
    requires forall i | 0 <= i < |rs| :: rs[i].target != t
    ensures Against(rs, t) == []
    decreases |rs|
  {
    if rs == [] {
    } else {
      AgainstNone(rs[1..], t);
    }
  }

  lemma {:induction false} AgainstAll(rs: seq<Reloc>, t: nat)
    requires forall i | 0 <= i < |rs| :: rs[i].target == t
    ensures Against(rs, t) == rs
    decreases |rs|
  {
    if rs == [] {
    } else {
      AgainstAll(rs[1..], t);
      assert rs == [rs[0]] + rs[1..];
    }
  }

  lemma {:induction false} AgainstAppend(a: seq<Reloc>, b: seq<Reloc>, t: nat)
    ensures Against(a + b, t) == Against(a, t) + Against(b, t)
    decreases |a|
  {
    if a == [] {
      assert a + b == b;
    } else {
      assert (a + b)[1..] == a[1..] + b;
      AgainstAppend(a[1..], b, t);
    }
  }

  ghost predicate OneGroupEach(gs: seq<Group>) {
    forall i, j | 0 <= i < j < |gs| :: gs[i].target != gs[j].target
  }

  ghost predicate HasGroup(gs: seq<Group>, t: nat) {
    exists j :: 0 <= j < |gs| && gs[j].target == t
  }

  ghost predicate HoldsAll(gs: seq<Group>, rs: seq<Reloc>) {
    && (forall i | 0 <= i < |gs| :: gs[i].offsets == Offsets(Against(rs, gs[i].target)) && gs[i].offsets != [])
    && (forall i | 0 <= i < |rs| :: HasGroup(gs, rs[i].target))
  }

  lemma HasGroupMore(g: Group, gs: seq<Group>, t: nat)
    requires t == g.target || HasGroup(gs, t)
    ensures HasGroup([g] + gs, t)
  {
    if t == g.target {
      assert ([g] + gs)[0] == g;
    } else {
      var j :| 0 <= j < |gs| && gs[j].target == t;
      assert ([g] + gs)[j + 1] == gs[j];
    }
  }

  function CountAll(gs: seq<Group>): nat {
    if gs == [] then 0 else |gs[0].offsets| + CountAll(gs[1..])
  }

  lemma {:induction false} HoldsMore(g: Group, gs: seq<Group>, head: seq<Reloc>, rest: seq<Reloc>)
    requires head != [] && (forall i | 0 <= i < |head| :: head[i].target == g.target)
    requires (forall i | 0 <= i < |rest| :: rest[i].target != g.target)
    requires g.offsets == Offsets(head) && OneGroupEach(gs) && HoldsAll(gs, rest)
    ensures OneGroupEach([g] + gs) && HoldsAll([g] + gs, head + rest)
  {
    var all, rs := [g] + gs, head + rest;
    forall j | 0 <= j < |all|
      ensures all[j].offsets == Offsets(Against(rs, all[j].target)) && all[j].offsets != []
      ensures j > 0 ==> all[j].target != g.target
    {
      var u := all[j].target;
      AgainstAppend(head, rest, u);
      if j == 0 {
        AgainstAll(head, u);
        AgainstNone(rest, u);
        assert head + [] == head;
      } else {
        assert all[j] == gs[j - 1];
        AgainstNone(rest, g.target);
        assert u != g.target;
        AgainstNone(head, u);
        assert [] + Against(rest, u) == Against(rest, u);
      }
    }
    forall i | 0 <= i < |rs| ensures HasGroup(all, rs[i].target) {
      assert i < |head| ==> rs[i] == head[i];
      assert i >= |head| ==> rs[i] == rest[i - |head|];
      HasGroupMore(g, gs, rs[i].target);
    }
  }

  /** In an ordered list nothing after a run goes back to its section. */
  lemma RunIsComplete(addr: seq<nat>, rs: seq<Reloc>)
    requires Distinct(addr) && InRange(rs, |addr|) && Ordered(addr, rs) && rs != []
    ensures var rest := rs[RunLength(rs)..];
      && InRange(rest, |addr|) && Ordered(addr, rest)
      && forall i | 0 <= i < |rest| :: rest[i].target != rs[0].target
  {
    var n := RunLength(rs);
    forall i | 0 <= i < |rs| - n ensures rs[n..][i].target != rs[0].target {
      assert Key(addr, rs[0]) <= Key(addr, rs[n]) <= Key(addr, rs[n + i]);
    }
  }

  lemma RunIsUniform(rs: seq<Reloc>)
    requires rs != []
    ensures var head := rs[..RunLength(rs)];
      head != [] && rs == head + rs[RunLength(rs)..] && forall i | 0 <= i < |head| :: head[i].target == rs[0].target
  {
    var n := RunLength(rs);
    hide RunLength;
    assert rs == rs[..n] + rs[n..];
  }

  lemma CountMore(g: Group, gs: seq<Group>)
    ensures CountAll([g] + gs) == |g.offsets| + CountAll(gs)
  {
    assert ([g] + gs)[1..] == gs;
  }

  /** In an ordered list the runs are the sections: one group for every section referred to, holding
      exactly the offsets against it. */
  lemma {:induction false} RunsOfOrdered(addr: seq<nat>, rs: seq<Reloc>)
    requires Distinct(addr) && InRange(rs, |addr|) && Ordered(addr, rs) && |addr| <= 0x1_0000_0000
    ensures OneGroupEach(Runs(rs)) && HoldsAll(Runs(rs), rs) && CountAll(Runs(rs)) == |rs|
    decreases |rs|
  {
    if rs == [] {
    } else {
      RunIsComplete(addr, rs);
      RunIsUniform(rs);
      RunsCons(rs);
      assert rs[0].target < |addr|;
      hide *;
      var n, t := RunLength(rs), rs[0].target;
      var head, rest := rs[..n], rs[n..];
      RunsOfOrdered(addr, rest);
      MarksOffsets(head, t);
      HoldsMore(Group(t, Offsets(head)), Runs(rest), head, rest);
      CountMore(Group(t, Offsets(head)), Runs(rest));
    }
  }

  lemma {:induction false} AgainstSpaced(rs: seq<Reloc>, t: nat, lo: nat, hi: nat)
    requires Spaced(rs, lo, hi)
    ensures Spaced(Against(rs, t), lo, hi)
    decreases |rs|
  {
    if rs == [] {
    } else {
      assert Window(rs[0], lo, hi);
      var lo' := rs[0].offset as int + 4;
      var tail := rs[1..];
      forall i | 0 <= i < |tail| ensures Window(tail[i], lo', hi) {
        assert tail[i] == rs[i + 1] && Window(rs[i + 1], lo, hi);
      }
      AgainstSpaced(tail, t, lo', hi);
      var a := Against(tail, t);
      forall i | 0 <= i < |a| ensures Window(a[i], lo, hi) && rs[0].offset + 4 <= a[i].offset {
        assert Window(a[i], lo', hi);
      }
    }
  }

  lemma {:induction false} OffsetsAscend(rs: seq<Reloc>, lo: nat, hi: nat)
    requires Spaced(rs, lo, hi)
    ensures forall i, j | 0 <= i < j < |Offsets(rs)| :: Offsets(rs)[i] < Offsets(rs)[j]
    ensures |Offsets(rs)| == |rs| && forall i | 0 <= i < |rs| :: Offsets(rs)[i] == rs[i].offset
    decreases |rs|
  {
    if rs == [] {
    } else {
      var tail := rs[1..];
      forall i | 0 <= i < |tail| ensures Window(tail[i], lo, hi) {
        assert Window(rs[i + 1], lo, hi);
      }
      OffsetsAscend(tail, lo, hi);
    }
  }

  ghost predicate Ascending(g: Group) {
    forall i, j | 0 <= i < j < |g.offsets| :: g.offsets[i] < g.offsets[j]
  }

  /** What the writer puts in the file for one section: one group per section referred to, counts
      adding up to the number of relocations, pass-2 order inside every group, so ascending offsets. */
  lemma GroupingSound(addr: seq<nat>, rs: seq<Reloc>, hi: nat)
    requires Distinct(addr) && |addr| <= 0x1_0000_0000 && InRange(rs, |addr|) && Spaced(rs, 0, hi)
    ensures var gs := Runs(StableSort(addr, rs));
      && OneGroupEach(gs) && HoldsAll(gs, rs) && CountAll(gs) == |rs|
      && forall i | 0 <= i < |gs| :: Ascending(gs[i])
  {
    var s := StableSort(addr, rs);
    var gs := Runs(s);
    SortOrdered(addr, rs);
    SortInRange(addr, rs);
    SortMembers(addr, rs);
    RunsOfOrdered(addr, s);
    assert |multiset(s)| == |s| && |multiset(rs)| == |rs|;
    forall i | 0 <= i < |gs|
      ensures gs[i].offsets == Offsets(Against(rs, gs[i].target)) && Ascending(gs[i])
    {
      SortAgainst(addr, rs, gs[i].target);
      AgainstSpaced(rs, gs[i].target, 0, hi);
      OffsetsAscend(Against(rs, gs[i].target), 0, hi);
    }
    forall i | 0 <= i < |rs| ensures HasGroup(gs, rs[i].target) {
      assert rs[i] in multiset(s);
      var k :| 0 <= k < |s| && s[k] == rs[i];
    }
  }

  // ---------------------------------------------------------------- loading

  /** Add a base address to the longword at some offset. */
  function Patch(img: seq<Byte>, at: nat, base: Long): seq<Byte>
    requires at + 4 <= |img|
  {
    img[..at] + Be32(Wrap32(Read32(img, at) as int + base)) + img[at + 4..]
  }

  /** What a loader does with the relocations of a hunk: one after the other, in file order. */
  function Relocate(img: seq<Byte>, rs: seq<Reloc>, bases: seq<Long>): Option<seq<Byte>>
    decreases |rs|
  {
    if rs == [] then Some(img)
    else if rs[0].offset + 4 > |img| || rs[0].target >= |bases| then None
    else Relocate(Patch(img, rs[0].offset, bases[rs[0].target]), rs[1..], bases)
  }

  predicate Apart(a: Reloc, b: Reloc) {
    a.offset + 4 <= b.offset || b.offset + 4 <= a.offset
  }

  ghost predicate ApartFromAll(r: Reloc, rs: seq<Reloc>) {
    forall i | 0 <= i < |rs| :: Apart(r, rs[i])
  }

  ghost predicate AllApart(rs: seq<Reloc>) {
    rs == [] || (ApartFromAll(rs[0], rs[1..]) && AllApart(rs[1..]))
  }

  ghost predicate Loadable(rs: seq<Reloc>, size: nat, n: nat) {
    forall i | 0 <= i < |rs| :: rs[i].offset + 4 <= size && rs[i].target < n
  }

  lemma PatchedLong(img: seq<Byte>, at: nat, base: Long)
    requires at + 4 <= |img|
    ensures |Patch(img, at, base)| == |img|
    ensures Read32(Patch(img, at, base), at) == Wrap32(Read32(img, at) as int + base)
    ensures forall p | 0 <= p < |img| && (p < at || at + 4 <= p) :: Patch(img, at, base)[p] == img[p]
  {
    var out := Patch(img, at, base);
    assert out[at..at + 4] == Be32(Wrap32(Read32(img, at) as int + base));
    Read32Slice(out, at, Wrap32(Read32(img, at) as int + base));
  }

  lemma SameLong(a: seq<Byte>, b: seq<Byte>, at: nat)
    requires at + 4 <= |a| && at + 4 <= |b|
    requires forall p | at <= p < at + 4 :: a[p] == b[p]
    ensures Read32(a, at) == Read32(b, at)
  {
  }

  /** Relocations that do not overlap each add their base to the longword they mark, whatever the
      order they are applied in. */
  lemma {:induction false} RelocateSound(img: seq<Byte>, rs: seq<Reloc>, bases: seq<Long>)
    requires AllApart(rs) && Loadable(rs, |img|, |bases|)
    ensures Relocate(img, rs, bases).Some?
    ensures |Relocate(img, rs, bases).value| == |img|
    ensures Relocated(img, rs, bases, Relocate(img, rs, bases).value)
    decreases |rs|
  {
    if rs == [] {
    } else {
      var r := rs[0];
      var mid := Patch(img, r.offset, bases[r.target]);
      PatchedLong(img, r.offset, bases[r.target]);
      RelocateSound(mid, rs[1..], bases);
      RelocateStep(img, rs, bases, mid, Relocate(img, rs, bases).value);
    }
  }

  lemma RelocateStep(img: seq<Byte>, rs: seq<Reloc>, bases: seq<Long>, mid: seq<Byte>, out: seq<Byte>)
    requires rs != [] && AllApart(rs) && Loadable(rs, |img|, |bases|) && |mid| == |img| == |out|
    requires Read32(mid, rs[0].offset) == Wrap32(Read32(img, rs[0].offset) as int + bases[rs[0].target])
    requires forall p | 0 <= p < |img| && (p < rs[0].offset || rs[0].offset + 4 <= p) :: mid[p] == img[p]
    requires Relocated(mid, rs[1..], bases, out)
    ensures Relocated(img, rs, bases, out)
  {
    hide Read32, Wrap32;
    var r, tail := rs[0], rs[1..];
    forall p: nat | p < |img| && Untouched(p, rs) ensures out[p] == img[p] {
      assert p < rs[0].offset || rs[0].offset + 4 <= p;
      assert Untouched(p, tail) by {
        forall i | 0 <= i < |tail| ensures p < tail[i].offset || tail[i].offset + 4 <= p {
          assert tail[i] == rs[i + 1];
        }
      }
    }
    forall i | 0 <= i < |rs| ensures Adjusted(img, rs[i], bases, out) {
      if i == 0 {
        forall p | r.offset as int <= p < r.offset as int + 4 ensures out[p] == mid[p] {
          assert Untouched(p, tail) by {
            forall m | 0 <= m < |tail| ensures p < tail[m].offset || tail[m].offset + 4 <= p {
              assert Apart(r, tail[m]);
            }
          }
        }
        SameLong(out, mid, r.offset);
      } else {
        assert rs[i] == tail[i - 1] && Adjusted(mid, tail[i - 1], bases, out);
        assert Apart(r, tail[i - 1]);
        SameLong(mid, img, rs[i].offset);
      }
    }
  }

  lemma SpacedApart(rs: seq<Reloc>, lo: nat, hi: nat)
    requires Spaced(rs, lo, hi)
    ensures AllApart(rs)
    decreases |rs|
  {
    if rs == [] {
    } else {
      var tail := rs[1..];
      forall i | 0 <= i < |tail| ensures Window(tail[i], lo, hi) && Apart(rs[0], tail[i]) {
        assert Window(rs[i + 1], lo, hi);
      }
      SpacedApart(tail, lo, hi);
    }
  }

  lemma {:induction false} InsertApart(addr: seq<nat>, r: Reloc, rs: seq<Reloc>)
    requires ApartFromAll(r, rs) && AllApart(rs)
    ensures AllApart(Insert(addr, r, rs))
    decreases |rs|
  {
    if rs == [] || Key(addr, r) <= Key(addr, rs[0]) {
      assert ([r] + rs)[1..] == rs;
    } else {
      var tail := Insert(addr, r, rs[1..]);
      InsertApart(addr, r, rs[1..]);
      InsertMembers(addr, r, rs[1..]);
      forall i | 0 <= i < |tail| ensures Apart(rs[0], tail[i]) {
        assert tail[i] in multiset(tail);
        assert Apart(r, rs[0]);
      }
      assert ([rs[0]] + tail)[1..] == tail;
    }
  }

  lemma {:induction false} SortApart(addr: seq<nat>, rs: seq<Reloc>)
    requires AllApart(rs)
    ensures AllApart(StableSort(addr, rs))
    decreases |rs|
  {
    if rs == [] {
    } else {
      var s := StableSort(addr, rs[1..]);
      SortApart(addr, rs[1..]);
      SortMembers(addr, rs[1..]);
      forall i | 0 <= i < |s| ensures Apart(rs[0], s[i]) {
        assert s[i] in multiset(rs[1..]);
      }
      InsertApart(addr, rs[0], s);
    }
  }

  /** The image after relocation does not depend on the order of the list. */
  lemma RelocatedPermuted(bytes: seq<Byte>, a: seq<Reloc>, b: seq<Reloc>, bases: seq<Long>, img: seq<Byte>)
    requires multiset(a) == multiset(b) && Relocated(bytes, a, bases, img)
    ensures Relocated(bytes, b, bases, img)
  {
    forall i | 0 <= i < |b| ensures Adjusted(bytes, b[i], bases, img) {
      assert b[i] in multiset(a);
      var j :| 0 <= j < |a| && a[j] == b[i];
    }
    forall p: nat | p < |bytes| && Untouched(p, b) ensures img[p] == bytes[p] {
      forall i | 0 <= i < |a| ensures p < a[i].offset || a[i].offset + 4 <= p {
        assert a[i] in multiset(b);
        var j :| 0 <= j < |b| && b[j] == a[i];
      }
    }
  }

  /** Relocating padded contents relocates the contents. */
  lemma RelocatedPrefix(bytes: seq<Byte>, pad: seq<Byte>, rs: seq<Reloc>, bases: seq<Long>, img: seq<Byte>)
    requires Relocated(bytes + pad, rs, bases, img) && Loadable(rs, |bytes|, |bases|)
    ensures Relocated(bytes, rs, bases, img)
  {
    hide Read32, Wrap32;
    forall i | 0 <= i < |rs| ensures Adjusted(bytes, rs[i], bases, img) {
      assert Adjusted(bytes + pad, rs[i], bases, img);
      SameLong(bytes + pad, bytes, rs[i].offset);
    }
    forall p: nat | p < |bytes| && Untouched(p, rs) ensures img[p] == bytes[p] {
      assert (bytes + pad)[p] == bytes[p];
    }
  }
}
