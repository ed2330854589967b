/** AmigaDOS load files: what the bytes written by src/ahf.c stand for, and a reader for them
    (AmigaDOS Technical Reference Manual, section 2.3). */
module HunkFormat {
  import opened Basics

  const HUNK_CODE: Long := 0x3e9
  const HUNK_DATA: Long := 0x3ea
  const HUNK_BSS: Long := 0x3eb
  const HUNK_RELOC32: Long := 0x3ec
  const HUNK_END: Long := 0x3f2
  const HUNK_HEADER: Long := 0x3f3
  const HUNK_CHIP: Long := 0x4000_0000
  const HUNK_FAST: Long := 0x8000_0000

  datatype Kind = CodeHunk | DataHunk | BssHunk

  /** Offsets of the longwords to which the base of hunk `target` is added. */
  datatype Group = Group(target: Long, offsets: seq<Long>)

  datatype Hunk = Hunk(kind: Kind, chip: bool, fast: bool, longs: Long, body: seq<Byte>, groups: seq<Group>)

  ghost predicate GroupOk(g: Group) {
    0 < |g.offsets| < 0x1_0000_0000
  }

  ghost predicate GroupsOk(gs: seq<Group>) {
    forall i | 0 <= i < |gs| :: GroupOk(gs[i])
  }

  ghost predicate HunkOk(h: Hunk) {
    && (h.kind.BssHunk? ==> h.body == [] && h.groups == [])
    && (!h.kind.BssHunk? ==> |h.body| == 4 * h.longs)
    && GroupsOk(h.groups)
  }

  // ---------------------------------------------------------------- writing

  function KindId(k: Kind): Long {
    match k
    case CodeHunk => HUNK_CODE
    case DataHunk => HUNK_DATA
    case BssHunk => HUNK_BSS
  }

  function TypeWord(kind: Kind, chip: bool, fast: bool): Long {
    KindId(kind) as int + (if chip then HUNK_CHIP else 0) + (if fast then HUNK_FAST else 0)
  }

  function LongsBytes(vs: seq<Long>): seq<Byte> {
    if vs == [] then [] else Be32(vs[0]) + LongsBytes(vs[1..])
  }

  function GroupsBytes(gs: seq<Group>): seq<Byte> {
    if gs == [] then []
    else Be32(Wrap32(|gs[0].offsets|)) + Be32(gs[0].target) + LongsBytes(gs[0].offsets) + GroupsBytes(gs[1..])
  }

  /** The relocation block; left out altogether when there is nothing to relocate. */
  function RelocBytes(gs: seq<Group>): seq<Byte> {
    if gs == [] then [] else Be32(HUNK_RELOC32) + GroupsBytes(gs) + Be32(0)
  }

  function HunkBytes(h: Hunk): seq<Byte> {
    Be32(TypeWord(h.kind, h.chip, h.fast)) + (Be32(h.longs) + (h.body + (RelocBytes(h.groups) + Be32(HUNK_END))))
  }

  function HunksBytes(hs: seq<Hunk>): seq<Byte> {
    if hs == [] then [] else HunkBytes(hs[0]) + HunksBytes(hs[1..])
  }

  function Sizes(hs: seq<Hunk>): seq<Long> {
    if hs == [] then [] else [hs[0].longs] + Sizes(hs[1..])
  }

  function HeaderFields(magic: Long, names: Long, count: Long, first: Long, last: Long, sizes: seq<Long>): seq<Byte> {
    Be32(magic) + (Be32(names) + (Be32(count) + (Be32(first) + (Be32(last) + LongsBytes(sizes)))))
  }

  /** Header: no resident libraries, hunk count, first and last hunk, size table. */
  function HeaderBytes(sizes: seq<Long>): seq<Byte> {
    HeaderFields(HUNK_HEADER, 0, Wrap32(|sizes|), 0, Wrap32(|sizes| - 1), sizes)
  }

  function FileBytes(hs: seq<Hunk>): seq<Byte> {
    HeaderBytes(Sizes(hs)) + HunksBytes(hs)
  }

  // ---------------------------------------------------------------- reading

  datatype Parsed<+T> = Malformed | Parsed(value: T, rest: seq<Byte>) {
    predicate IsFailure() { Malformed? }
    function PropagateFailure<U>(): Parsed<U> requires Malformed? { Malformed }
    function Extract(): (T, seq<Byte>) requires Parsed? { (value, rest) }
  }

  function TakeLong(s: seq<Byte>): Parsed<Long> {
    if |s| < 4 then Malformed else Parsed(Read32(s, 0), s[4..])
  }

  function TakeLongs(s: seq<Byte>, n: nat): Parsed<seq<Long>>
    decreases n
  {
    if n == 0 then Parsed([], s)
    else
      var (v, s1) :- TakeLong(s);
      var (vs, s2) :- TakeLongs(s1, n - 1);
      Parsed([v] + vs, s2)
  }

  lemma {:induction false} TakeLongsShrinks(s: seq<Byte>, n: nat)
    ensures TakeLongs(s, n).Parsed? ==> |TakeLongs(s, n).rest| + 4 * n == |s| && |TakeLongs(s, n).value| == n
    decreases n
  {
    if n == 0 || |s| < 4 {
    } else {
      TakeLongsShrinks(s[4..], n - 1);
    }
  }

  /** Groups of relocations up to a zero count. */
  function TakeGroups(s: seq<Byte>): Parsed<seq<Group>>
    decreases |s|
  {
    var (n, s1) :- TakeLong(s);
    if n == 0 then Parsed([], s1)
    else
      var (target, s2) :- TakeLong(s1);
      var (offsets, s3) :- TakeLongs(s2, n);
      TakeLongsShrinks(s2, n);
      var (more, s4) :- TakeGroups(s3);
      Parsed([Group(target, offsets)] + more, s4)
  }

  lemma {:induction false} TakeGroupsShrinks(s: seq<Byte>)
    ensures TakeGroups(s).Parsed? ==> |TakeGroups(s).rest| + 4 <= |s|
    decreases |s|
  {
    if !TakeGroups(s).Parsed? || Read32(s, 0) == 0 {
    } else {
      var n := Read32(s, 0);
      var s2 := s[4..][4..];
      TakeLongsShrinks(s2, n);
      TakeGroupsShrinks(TakeLongs(s2, n).rest);
    }
  }

  /** Any number of relocation blocks, then the end mark. */
  function TakeBlocks(s: seq<Byte>): Parsed<seq<Group>>
    decreases |s|
  {
    var (id, s1) :- TakeLong(s);
    if id == HUNK_END then Parsed([], s1)
    else if id != HUNK_RELOC32 then Malformed
    else
      var (gs, s2) :- TakeGroups(s1);
      TakeGroupsShrinks(s1);
      var (more, s3) :- TakeBlocks(s2);
      Parsed(gs + more, s3)
  }

  function KindOfId(id: int): Option<Kind> {
    if id == HUNK_CODE then Some(CodeHunk)
    else if id == HUNK_DATA then Some(DataHunk)
    else if id == HUNK_BSS then Some(BssHunk)
    else None
  }

  function TakeHunk(s: seq<Byte>): Parsed<Hunk> {
    var (id, s1) :- TakeLong(s);
    var (longs, s2) :- TakeLong(s1);
    var kind := KindOfId(id % HUNK_CHIP);
    if kind.None? then Malformed
    else
      var chip, fast := id / HUNK_CHIP % 2 == 1, id / HUNK_FAST == 1;
      if kind.value.BssHunk? then
        var (gs, s3) :- TakeBlocks(s2);
        Parsed(Hunk(BssHunk, chip, fast, longs, [], gs), s3)
      else if |s2| < 4 * longs then Malformed
      else
        var (gs, s3) :- TakeBlocks(s2[4 * longs..]);
        Parsed(Hunk(kind.value, chip, fast, longs, s2[..4 * longs], gs), s3)
  }

  function TakeHunks(s: seq<Byte>, n: nat): Parsed<seq<Hunk>>
    decreases n
  {
    if n == 0 then Parsed([], s)
    else
      var (h, s1) :- TakeHunk(s);
      var (hs, s2) :- TakeHunks(s1, n - 1);
      Parsed([h] + hs, s2)
  }

  /** The header up to its size table: how many hunks the file holds. */
  function TakeHeader(s: seq<Byte>): Parsed<Long> {
    var (magic, s1) :- TakeLong(s);
    var (names, s2) :- TakeLong(s1);
    var (n, s3) :- TakeLong(s2);
    var (first, s4) :- TakeLong(s3);
    var (last, s5) :- TakeLong(s4);
    if magic != HUNK_HEADER || names != 0 || first != 0 || last != Wrap32(n as int - 1) then Malformed
    else Parsed(n, s5)
  }

  /** A whole load file. The size table must repeat the sizes of the hunks. */
  function ReadFile(s: seq<Byte>): Option<seq<Hunk>> {
    match TakeHeader(s)
    case Malformed => None
    case Parsed(n, s1) =>
      match TakeLongs(s1, n)
      case Malformed => None
      case Parsed(sizes, s2) =>
        match TakeHunks(s2, n)
        case Malformed => None
        case Parsed(hs, s3) => if s3 == [] && Sizes(hs) == sizes then Some(hs) else None
  }

  // ---------------------------------------------------------------- round trip

  lemma TakeLongBe32(v: Long, rest: seq<Byte>)
    ensures TakeLong(Be32(v) + rest) == Parsed(v, rest)
  {
    var s := Be32(v) + rest;
    assert s[0..4] == Be32(v);
    Read32Slice(s, 0, v);
    assert s[4..] == rest;
  }

  lemma {:induction false} TakeLongsBytes(vs: seq<Long>, rest: seq<Byte>)
    ensures TakeLongs(LongsBytes(vs) + rest, |vs|) == Parsed(vs, rest)
    decreases |vs|
  {
    if vs == [] {
      assert LongsBytes(vs) + rest == rest;
    } else {
      assert LongsBytes(vs) + rest == Be32(vs[0]) + (LongsBytes(vs[1..]) + rest);
      TakeLongBe32(vs[0], LongsBytes(vs[1..]) + rest);
      TakeLongsBytes(vs[1..], rest);
      assert [vs[0]] + vs[1..] == vs;
    }
  }

  lemma {:induction false} TakeGroupsBytes(gs: seq<Group>, rest: seq<Byte>)
    requires GroupsOk(gs)
    ensures TakeGroups(GroupsBytes(gs) + Be32(0) + rest) == Parsed(gs, rest)
    decreases |gs|
  {
    if gs == [] {
      assert GroupsBytes(gs) + Be32(0) + rest == Be32(0) + rest;
      TakeLongBe32(0, rest);
    } else {
      var g := gs[0];
      assert GroupOk(g);
      var r1 := GroupsBytes(gs[1..]) + Be32(0) + rest;
      var r2 := LongsBytes(g.offsets) + r1;
      var r3 := Be32(g.target) + r2;
      assert GroupsBytes(gs) + Be32(0) + rest == Be32(Wrap32(|g.offsets|)) + r3;
      WrapSmall(|g.offsets|);
      hide TakeLong, Be32, Wrap32, LongsBytes;
      TakeLongBe32(|g.offsets|, r3);
      TakeLongBe32(g.target, r2);
      TakeLongsBytes(g.offsets, r1);
      TakeGroupsBytes(gs[1..], rest);
      assert [g] + gs[1..] == gs;
    }
  }

  lemma TakeBlocksBytes(gs: seq<Group>, rest: seq<Byte>)
    requires GroupsOk(gs)
    ensures TakeBlocks(RelocBytes(gs) + Be32(HUNK_END) + rest) == Parsed(gs, rest)
  {
    var tail := Be32(HUNK_END) + rest;
    TakeLongBe32(HUNK_END, rest);
    if gs == [] {
      assert RelocBytes(gs) + Be32(HUNK_END) + rest == tail;
    } else {
      var s1 := GroupsBytes(gs) + Be32(0) + tail;
      assert RelocBytes(gs) + Be32(HUNK_END) + rest == Be32(HUNK_RELOC32) + s1;
      hide TakeLong, Be32, GroupsBytes, TakeGroups;
      TakeLongBe32(HUNK_RELOC32, s1);
      TakeGroupsBytes(gs, tail);
      assert TakeBlocks(tail) == Parsed([], rest);
      assert gs + [] == gs;
    }
  }

  lemma TypeWordParts(kind: Kind, chip: bool, fast: bool)
    ensures var id := TypeWord(kind, chip, fast);
      && KindOfId(id % HUNK_CHIP) == Some(kind)
      && (id / HUNK_CHIP % 2 == 1 <==> chip)
      && (id / HUNK_FAST == 1 <==> fast)
  {
  }

  lemma TakeHunkFields(h: Hunk, s2: seq<Byte>, rest: seq<Byte>)
    requires HunkOk(h) && s2 == h.body + (RelocBytes(h.groups) + Be32(HUNK_END) + rest)
    ensures TakeHunk(Be32(TypeWord(h.kind, h.chip, h.fast)) + (Be32(h.longs) + s2)) == Parsed(h, rest)
  {
    var id := TypeWord(h.kind, h.chip, h.fast);
    TakeLongBe32(id, Be32(h.longs) + s2);
    TakeLongBe32(h.longs, s2);
    TypeWordParts(h.kind, h.chip, h.fast);
    TakeBlocksBytes(h.groups, rest);
    var s3 := RelocBytes(h.groups) + Be32(HUNK_END) + rest;
    if h.kind.BssHunk? {
      assert s2 == s3;
    } else {
      assert s2[..4 * h.longs] == h.body;
      assert s2[4 * h.longs..] == s3;
    }
  }

  lemma TakeHunkBytes(h: Hunk, rest: seq<Byte>)
    requires HunkOk(h)
    ensures TakeHunk(HunkBytes(h) + rest) == Parsed(h, rest)
  {
    hide TakeHunk, Be32, TypeWord, RelocBytes;
    var a, b, c := Be32(TypeWord(h.kind, h.chip, h.fast)), Be32(h.longs), h.body;
    var d, e := RelocBytes(h.groups), Be32(HUNK_END);
    TakeHunkFields(h, c + (d + e + rest), rest);
    assert a + (b + (c + (d + e))) + rest == a + (b + (c + (d + e + rest)));
  }

  ghost predicate HunksOk(hs: seq<Hunk>) {
    forall i | 0 <= i < |hs| :: HunkOk(hs[i])
  }

  lemma {:induction false} TakeHunksBytes(hs: seq<Hunk>)
    requires HunksOk(hs)
    ensures TakeHunks(HunksBytes(hs), |hs|) == Parsed(hs, [])
    decreases |hs|
  {
    hide TakeHunk, HunkBytes;
    if hs == [] {
    } else {
      assert HunkOk(hs[0]);
      TakeHunkBytes(hs[0], HunksBytes(hs[1..]));
      TakeHunksBytes(hs[1..]);
      assert [hs[0]] + hs[1..] == hs;
    }
  }

  lemma {:induction false} SizesLength(hs: seq<Hunk>)
    ensures |Sizes(hs)| == |hs|
    decreases |hs|
  {
    if hs == [] {
    } else {
      SizesLength(hs[1..]);
    }
  }

  lemma TakeHeaderFields(magic: Long, names: Long, n: Long, first: Long, last: Long, sizes: seq<Long>, rest: seq<Byte>)
    requires magic == HUNK_HEADER && names == 0 && first == 0 && last == Wrap32(n as int - 1)
    ensures TakeHeader(HeaderFields(magic, names, n, first, last, sizes) + rest) == Parsed(n, LongsBytes(sizes) + rest)
  {
    var s5 := LongsBytes(sizes) + rest;
    var s4 := Be32(last) + s5;
    var s3 := Be32(first) + s4;
    var s2 := Be32(n) + s3;
    var s1 := Be32(names) + s2;
    Regroup(Be32(magic), Be32(names), Be32(n), Be32(first), Be32(last), LongsBytes(sizes), rest);
    TakeLongBe32(magic, s1);
    TakeLongBe32(names, s2);
    TakeLongBe32(n, s3);
    TakeLongBe32(first, s4);
    TakeLongBe32(last, s5);
  }

  lemma Regroup(a: seq<Byte>, b: seq<Byte>, c: seq<Byte>, d: seq<Byte>, e: seq<Byte>, f: seq<Byte>, g: seq<Byte>)
    ensures a + (b + (c + (d + (e + f)))) + g == a + (b + (c + (d + (e + (f + g)))))
  {
  }

  /** Reading back any written file gives the same hunks: kinds, memory flags, sizes, contents and
      relocation groups. */
  lemma RoundTrip(hs: seq<Hunk>)
    requires |hs| < 0x1_0000_0000 && HunksOk(hs)
    ensures ReadFile(FileBytes(hs)) == Some(hs)
  {
    var sizes := Sizes(hs);
    SizesLength(hs);
    WrapSmall(|hs|);
    WrapAdd(|sizes|, -1);
    TakeHeaderFields(HUNK_HEADER, 0, |hs|, 0, Wrap32(|hs| - 1), sizes, HunksBytes(hs));
    TakeLongsBytes(sizes, HunksBytes(hs));
    TakeHunksBytes(hs);
  }

  // ---------------------------------------------------------------- the bytes of the format

  /** The type of a hunk: memory in the two top bits, the kind in the low bytes. */
  lemma TypeBytes(kind: Kind, chip: bool, fast: bool)
    ensures Be32(TypeWord(kind, chip, fast))
         == [(if chip then 0x40 else 0) + (if fast then 0x80 else 0), 0, 3,
             match kind case CodeHunk => 0xe9 case DataHunk => 0xea case BssHunk => 0xeb]
  {
  }

  lemma MarkBytes()
    ensures Be32(HUNK_HEADER) == [0, 0, 3, 0xf3] && Be32(HUNK_RELOC32) == [0, 0, 3, 0xec]
    ensures Be32(HUNK_END) == [0, 0, 3, 0xf2] && Be32(0) == [0, 0, 0, 0]
  {
  }

  /** A hunk: type, size in longwords, contents, relocations if there are any, and the end mark. */
  lemma HunkLayout(h: Hunk)
    ensures HunkBytes(h) ==
      [(if h.chip then 0x40 else 0) + (if h.fast then 0x80 else 0), 0, 3,
       match h.kind case CodeHunk => 0xe9 case DataHunk => 0xea case BssHunk => 0xeb]
      + Be32(h.longs) + h.body
      + (if h.groups == [] then [] else [0, 0, 3, 0xec] + GroupsBytes(h.groups) + [0, 0, 0, 0])
      + [0, 0, 3, 0xf2]
  {
    hide Be32, TypeWord, GroupsBytes;
    TypeBytes(h.kind, h.chip, h.fast);
    MarkBytes();
  }

  /** A file: the header mark, no library names, the number of hunks, the first and the last of them, their sizes, and
      the hunks. */
  lemma FileLayout(hs: seq<Hunk>)
    requires 0 < |hs| < 0x1_0000_0000
    ensures FileBytes(hs) ==
      [0, 0, 3, 0xf3] + [0, 0, 0, 0] + Be32(|hs|) + [0, 0, 0, 0] + Be32(|hs| - 1) + LongsBytes(Sizes(hs))
      + HunksBytes(hs)
  {
    hide Be32, LongsBytes, HunksBytes, Wrap32, Sizes;
    MarkBytes();
    SizesLength(hs);
    WrapSmall(|hs|);
    WrapSmall(|hs| - 1);
    Flatten(Be32(HUNK_HEADER), Be32(0), Be32(|hs|), Be32(0), Be32(|hs| - 1), LongsBytes(Sizes(hs)), HunksBytes(hs));
  }

  lemma Flatten(a: seq<Byte>, b: seq<Byte>, c: seq<Byte>, d: seq<Byte>, e: seq<Byte>, f: seq<Byte>, g: seq<Byte>)
    ensures a + (b + (c + (d + (e + f)))) + g == a + b + c + d + e + f + g
  {
  }
}
