/** Which addressing mode an operand gets, and what the processor makes of it (src/mangle.c:568-667,
    src/operand.c:292-593). */
module Selection {
  import opened Basics
  import opened Registers
  import opened Values
  import opened Addressing
  import opened Operands

  /** A register that stands for a base: an address register or the program counter, without scale, and not as a
      word. */
  predicate IsBase(r: Reg) {
    && (8 <= r.idx <= 15 || r.idx == REG_PC || r.idx == REG_ZPC)
    && r.scale == 0 && (r.size == RSIZE_DEFAULT || r.size == RSIZE_L)
  }

  /** A data or address register with a size and a scale. */
  predicate IsIndex(r: Reg) {
    (r.IsData() || r.IsAddr()) && r.scale < 4 && (r.size == RSIZE_DEFAULT || r.size == RSIZE_W || r.size == RSIZE_L)
  }

  predicate RolesOk(k: Roles) {
    && (k.address.Some? ==> IsBase(k.address.value))
    && (k.index.Some? ==> IsIndex(k.index.value))
  }

  function BaseFor(r: Option<Reg>): Base
    requires r.Some? ==> IsBase(r.value)
  {
    if r.None? then NoAn
    else if r.value.idx == REG_PC then Pc
    else if r.value.idx == REG_ZPC then NoPc
    else An(r.value.idx - REG_A0)
  }

  /** An index without a size is a word. */
  function IndexWanted(r: Option<Reg>): Option<Index>
    requires r.Some? ==> IsIndex(r.value)
  {
    if r.None? then None else Some(Index(r.value.idx, r.value.size == RSIZE_L, r.value.scale))
  }

  /** What the source line says. */
  function Wanted(k: Roles, disp: Long): Location
    requires RolesOk(k)
  {
    Memory(BaseFor(k.address), IndexWanted(k.index), disp)
  }

  lemma SelectSettled(k: Roles, disp: Value, counted: bool)
    requires RolesOk(k)
    ensures var arg := Settle(Select(k, disp, counted));
      && Settled(arg) && MayIndex(arg.reg)
      && IndexFor(arg.reg) == (if arg.mode.AddrDisplace? || arg.mode.PcDisplace? then None else IndexWanted(k.index))
      && arg.value == disp && arg.areg.idx == (if k.address.Some? then k.address.value.idx else REG_ERR)
  {
  }

  /** The displacement the processor works with: an unsigned word with the top bit set is extended. */
  function Effective(disp: Value): Long {
    if disp.size == VSIZE_W && disp.uint >= 0x8000 then Wrap32(disp.uint as int - 0x1_0000) else disp.uint
  }

  lemma EffectiveWord(disp: Value)
    requires Number(disp)
    ensures Displaced(disp) == Effective(disp)
    ensures -32768 <= Signed32(disp.uint) <= 32767 ==>
      Wrap32(SignExtend16(Low(disp.uint))) == disp.uint == Effective(disp)
    ensures -128 <= Signed32(disp.uint) <= 127 ==>
      Wrap32(SignExtend8(disp.uint % 0x100)) == disp.uint == Effective(disp)
    ensures Effective(disp) == disp.uint <==> !(disp.size == VSIZE_W && disp.uint >= 0x8000)
  {
    WordExact(disp.uint);
    ByteExact(disp.uint);
  }

  /** With a base, decoding gives back the base, the index with its size and scale, and the displacement as
      the processor extends it, whichever of the 8-bit, 16-bit and base displacement forms is picked. */
  lemma BasedSelected(k: Roles, disp: Value, opsize: OpSize)
    requires RolesOk(k) && Number(disp) && k.address.Some?
    ensures var arg := Settle(Select(k, disp, true));
      Settled(arg) && Encoded(arg, opsize) == Some(Wanted(k, Effective(disp)))
  {
    hide FullWords, BriefWord, Extension, SignExtend16, SignExtend8, Wrap32, Effective, Displaced;
    var arg := Settle(Select(k, disp, true));
    SelectSettled(k, disp, true);
    EffectiveWord(disp);
    var base := BaseFor(k.address);
    match arg.mode
    case PcDisplace =>
      if base == NoPc { FullRead(arg.reg, disp, Pc, NoPc, 0x80); }
    case AddrIndex8 =>
      BriefRead(arg.reg, disp.uint, base, NoAn);
    case PcIndex8 =>
      if base == NoPc { FullRead(arg.reg, disp, Pc, NoPc, 0x80); }
      else { BriefRead(arg.reg, disp.uint, Pc, NoPc); }
    case AddrIndexBase =>
      FullRead(arg.reg, disp, base, NoAn, 0);
    case PcIndexBase =>
      FullRead(arg.reg, disp, Pc, NoPc, if base == NoPc then 0x80 else 0);
    case _ =>
  }

  /** Without a base the operand is never encoded as written. */
  lemma BaselessSelected(k: Roles, disp: Value, opsize: OpSize)
    requires RolesOk(k) && Number(disp) && k.address.None?
    ensures var arg := Settle(Select(k, disp, true));
      Settled(arg) && Encoded(arg, opsize) != Some(Wanted(k, disp.uint))
  {
    hide FullWords, BriefWord, Extension, SignExtend16, SignExtend8, Wrap32, Displaced;
    var arg := Settle(Select(k, disp, true));
    SelectSettled(k, disp, true);
    if arg.mode == AddrIndexBase { MissingBaseRead(arg.reg, disp, An(0), NoAn); }
  }

  /** So an operand means to the processor what the line says exactly when it has a base and its
      displacement was not written as an unsigned word with the top bit set. */
  lemma SelectExact(k: Roles, disp: Value, opsize: OpSize)
    requires RolesOk(k) && Number(disp)
    ensures var arg := Settle(Select(k, disp, true));
      && Settled(arg)
      && (Encoded(arg, opsize) == Some(Wanted(k, disp.uint))
          <==> k.address.Some? && !(disp.size == VSIZE_W && disp.uint >= 0x8000))
  {
    hide Encoded, Select, Effective;
    EffectiveWord(disp);
    if k.address.Some? { BasedSelected(k, disp, opsize); } else { BaselessSelected(k, disp, opsize); }
  }

  /** The form that is picked: one extension word for a signed 16-bit displacement without index and for a signed
      8-bit one with an index; otherwise, and always with the suppressed program counter, the displacement takes one
      or two words of its own, as its size says. */
  lemma FormPicked(k: Roles, disp: Value, opsize: OpSize)
    requires RolesOk(k) && Number(disp) && k.address.Some?
    ensures var arg, v := Settle(Select(k, disp, true)), Signed32(disp.uint);
      var brief := k.address.value.idx != REG_ZPC
                   && if k.index.None? then -32768 <= v <= 32767 else -128 <= v <= 127;
      && Settled(arg) && GetEa(arg, opsize).Ok? && GetEa(arg, opsize).value.Some?
      && |GetEa(arg, opsize).value.value.ew| == if brief then 1 else if disp.size == VSIZE_W then 2 else 3
  {
    hide FullHead, BriefWord;
    SelectSettled(k, disp, true);
  }

  /** 40000(a0) addresses 25536 bytes below a0. */
  lemma UnsignedWordExtended(opsize: OpSize)
    ensures var a0 := Reg(REG_A0, 0, RSIZE_DEFAULT);
      var arg := Settle(Select(Roles(Some(a0), None), Value(40000, VSIZE_W, None), true));
      Settled(arg) && Encoded(arg, opsize) == Some(Memory(An(0), None, Wrap32(-25536)))
  {
    hide Encoded, Select;
    BasedSelected(Roles(Some(Reg(REG_A0, 0, RSIZE_DEFAULT)), None), Value(40000, VSIZE_W, None), opsize);
  }

  /** Without a displacement, which includes one that cannot be read: the operand is right exactly when it
      has a base and an index, or its base is the suppressed program counter. */
  lemma NoDisplacementExact(k: Roles, opsize: OpSize)
    requires RolesOk(k)
    ensures var arg := Settle(Select(k, NO_VALUE, false));
      && Settled(arg)
      && (Encoded(arg, opsize) == Some(Wanted(k, 0))
          <==> k.address.Some? && (k.index.Some? || k.address.value.idx == REG_ZPC))
  {
    hide FullWords, BriefWord, Extension, SignExtend16, SignExtend8, Wrap32;
    var arg := Settle(Select(k, NO_VALUE, false));
    SelectSettled(k, NO_VALUE, false);
    var base := BaseFor(k.address);
    ByteExact(0);
    if base == NoPc {
      FullRead(arg.reg, NO_VALUE, Pc, NoPc, 0x80);
    } else if k.index.Some? {
      if base != NoAn { BriefRead(arg.reg, 0, base, if base == Pc then NoPc else NoAn); }
    } else {
      NoIndexRead(arg.reg, base);
    }
  }

  /** The mark for a missing index is taken for the last address register. */
  lemma NoIndexRead(reg: Reg, base: Base)
    requires reg.idx == REG_ERR && (reg.size == RSIZE_W || reg.size == RSIZE_L) && reg.scale < 4
    ensures Extension(base, NoAn, [BriefWord(reg, 0)])
         == Some(Memory(base, Some(Index(15, reg.size == RSIZE_L, reg.scale)), 0))
    ensures Extension(base, NoPc, [BriefWord(reg, 0)]) == Extension(base, NoAn, [BriefWord(reg, 0)])
  {
    hide BriefWord;
    assert BriefWord(reg, 0) == BriefWord(reg.(idx := 15), 0) by { SameBrief(reg); }
    BriefFields(reg.(idx := 15), 0);
  }

  lemma SameBrief(reg: Reg)
    requires reg.idx == REG_ERR && (reg.size == RSIZE_W || reg.size == RSIZE_L) && reg.scale < 4
    ensures BriefWord(reg, 0) == BriefWord(reg.(idx := 15), 0)
  {
    hide BriefWord;
    BriefIs(reg, 0);
    BriefIs(reg.(idx := 15), 0);
    Quotient(-1, 16, -1, 15);
    Quotient(15, 16, 0, 15);
  }
}
