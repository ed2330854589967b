/** Addressing modes: their encoding (src/operand.c:292-593), and the decoder of the M68000 Family
    Programmer's Reference Manual, sections 2.1 and 2.2, that must undo it. */
module Addressing {
  import opened Basics
  import opened Entries
  import opened Registers
  import opened Values

  datatype Mode =
    | ModeError
    | DataDirect | AddrDirect | AddrIndirect | PostIncrement | PreDecrement
    | AddrDisplace | AddrIndex8 | AddrIndexBase
    | PcDisplace | PcIndex8 | PcIndexBase
    | AbsoluteShort | AbsoluteLong | Immediate
    | Ccr | Sr | Quoted

  datatype OpSize = OsDefault | OsByte | OsWord | OsLong

  /** `operand_t`, without bit fields. */
  datatype Operand = Operand(mode: Mode, areg: Reg, reg: Reg, value: Value)

  /** The index register has a size and a scale that fit their fields. */
  predicate Settled(arg: Operand) {
    (arg.reg.size == RSIZE_W || arg.reg.size == RSIZE_L) && arg.reg.scale < 4
  }

  function High(v: Long): Word { v / 0x1_0000 }

  function Low(v: Long): Word { v % 0x1_0000 }

  /** A register number in a field of one byte. */
  function RegNumber(idx: int, base: int): nat { (idx - base) % 0x100 }

  /** The index fields common to both extension word formats. */
  function IndexFields(reg: Reg): nat
    requires (reg.size == RSIZE_W || reg.size == RSIZE_L) && reg.scale < 4
  {
    reg.size * 0x800 + reg.scale * 0x200
  }

  function BriefWord(reg: Reg, v: Long): Word
    requires (reg.size == RSIZE_W || reg.size == RSIZE_L) && reg.scale < 4
  {
    reg.idx % 16 * 0x1000 + IndexFields(reg) + v % 0x100
  }

  /** The first extension word of the base displacement format. `suppressBase` is the bit that marks a
      missing base. */
  function FullHead(reg: Reg, size: nat, suppressBase: nat): Word
    requires (reg.size == RSIZE_W || reg.size == RSIZE_L) && reg.scale < 4
    requires suppressBase == 0 || suppressBase == 0x40 || suppressBase == 0x80
  {
    var index := if reg.idx != REG_ERR then reg.idx % 16 * 0x1000 else if suppressBase == 0x40 then 0 else 0x40;
    index + IndexFields(reg) + (0x100 + suppressBase + size % 4 * 0x10)
  }

  function FullWords(reg: Reg, value: Value, suppressBase: nat): seq<Word>
    requires (reg.size == RSIZE_W || reg.size == RSIZE_L) && reg.scale < 4
    requires suppressBase == 0 || suppressBase == 0x40 || suppressBase == 0x80
  {
    var w := FullHead(reg, value.size, suppressBase);
    if value.size == VSIZE_W then [w, Low(value.uint)]
    else if value.size == VSIZE_L then [w, High(value.uint), Low(value.uint)]
    else [w]
  }

  /** `get_ea`. None stands for a return value of 0. The address register mode marks a missing base with
      the bit that suppresses the index. */
  function GetEa(arg: Operand, opsize: OpSize): Result<Option<Ea<string>>>
    requires Settled(arg)
  {
    var v := arg.value;
    var long := [High(v.uint), Low(v.uint)];
    var pcBase := if arg.areg.idx == REG_ZPC then 0x80 else 0;
    match arg.mode
    case ModeError => Fail(InvalidAddressingMode)
    case DataDirect => Ok(Some(Ea(0, RegNumber(arg.reg.idx, REG_D0), [], None)))
    case AddrDirect => Ok(Some(Ea(1, RegNumber(arg.areg.idx, REG_A0), [], None)))
    case AddrIndirect => Ok(Some(Ea(2, RegNumber(arg.areg.idx, REG_A0), [], None)))
    case PostIncrement => Ok(Some(Ea(3, RegNumber(arg.areg.idx, REG_A0), [], None)))
    case PreDecrement => Ok(Some(Ea(4, RegNumber(arg.areg.idx, REG_A0), [], None)))
    case AddrDisplace => Ok(Some(Ea(5, RegNumber(arg.areg.idx, REG_A0), [Low(v.uint)], None)))
    case AddrIndex8 => Ok(Some(Ea(6, RegNumber(arg.areg.idx, REG_A0), [BriefWord(arg.reg, v.uint)], None)))
    case AddrIndexBase =>
      if arg.areg.idx != REG_ERR then Ok(Some(Ea(6, RegNumber(arg.areg.idx, REG_A0), FullWords(arg.reg, v, 0), None)))
      else Ok(Some(Ea(6, 0, FullWords(arg.reg, v, 0x40), None)))
    case AbsoluteShort =>
      if v.size == VSIZE_W then
        if v.uint > 65535 then Fail(AddressOutOfBounds) else Ok(Some(Ea(7, 0, [Low(v.uint)], None)))
      else if v.uint > 65535 then Ok(Some(Ea(7, 1, long, v.symbol)))
      else if v.symbol.Some? then Fail(InvalidAddressSize)
      else Ok(Some(Ea(7, 0, [Low(v.uint)], None)))
    case AbsoluteLong =>
      if v.size == VSIZE_L then Ok(Some(Ea(7, 1, long, v.symbol)))
      else if v.uint == Wrap32(SignExtend16(Low(v.uint))) then Ok(Some(Ea(7, 0, [Low(v.uint)], None)))
      else if v.size == VSIZE_W then Fail(InvalidSizeOperand)
      else Ok(Some(Ea(7, 1, long, v.symbol)))
    case Immediate =>
      (match opsize
       case OsByte =>
         if v.uint > 127 && v.uint < Wrap32(-128) then Fail(ValueOutOfBounds)
         else Ok(Some(Ea(7, 4, [v.uint % 0x100], None)))
       case OsWord =>
         if v.uint > 32767 && v.uint < Wrap32(-32768) then Fail(ValueOutOfBounds)
         else Ok(Some(Ea(7, 4, [Low(v.uint)], None)))
       case OsLong => Ok(Some(Ea(7, 4, long, v.symbol)))
       case OsDefault => Ok(None))
    case PcDisplace =>
      if arg.areg.idx == REG_ZPC then Ok(Some(Ea(7, 3, FullWords(arg.reg, v, pcBase), None)))
      else Ok(Some(Ea(7, 2, [Low(v.uint)], v.symbol)))
    case PcIndex8 =>
      if arg.areg.idx == REG_ZPC then Ok(Some(Ea(7, 3, FullWords(arg.reg, v, pcBase), None)))
      else Ok(Some(Ea(7, 3, [BriefWord(arg.reg, v.uint)], None)))
    case PcIndexBase => Ok(Some(Ea(7, 3, FullWords(arg.reg, v, pcBase), None)))
    case Ccr => Fail(InvalidAddressingMode)
    case Sr => Fail(InvalidAddressingMode)
    case Quoted => Fail(MissingFeature)
  }

  // ---------------------------------------------------------------- the processor's reading

  /** What an address is counted from; the last two are a suppressed register. */
  datatype Base = An(n: nat) | Pc | NoAn | NoPc

  /** Registers 0 to 7 are data registers, 8 to 15 address registers. */
  datatype Index = Index(reg: nat, long: bool, scale: nat)

  datatype Location =
    | InData(n: nat)
    | InAddress(n: nat)
    | Memory(base: Base, index: Option<Index>, disp: Long)
    | Increment(n: nat)
    | Decrement(n: nat)
    | Absolute(addr: Long)
    | Constant(value: int)

  function IndexOf(w: Word): Index {
    Index(w / 0x1000, w / 0x800 % 2 == 1, w / 0x200 % 4)
  }

  /** Section 2.1: the brief and the full extension word formats, without memory indirection. */
  function Extension(base: Base, suppressed: Base, ew: seq<Word>): Option<Location> {
    if ew == [] then None
    else if ew[0] / 0x100 % 2 == 0 then
      if |ew| == 1 then Some(Memory(base, Some(IndexOf(ew[0])), Wrap32(SignExtend8(ew[0] % 0x100)))) else None
    else
      var from := if ew[0] / 0x80 % 2 == 1 then suppressed else base;
      var index := if ew[0] / 0x40 % 2 == 1 then None else Some(IndexOf(ew[0]));
      if ew[0] % 0x10 != 0 then None
      else match ew[0] / 0x10 % 4
        case 1 => if |ew| == 1 then Some(Memory(from, index, 0)) else None
        case 2 => if |ew| == 2 then Some(Memory(from, index, Wrap32(SignExtend16(ew[1])))) else None
        case 3 => if |ew| == 3 then Some(Memory(from, index, ew[1] as int * 0x1_0000 + ew[2])) else None
        case _ => None
  }

  /** Section 2.2: the addressing modes. */
  function Decode<S>(ea: Ea<S>, opsize: OpSize): Option<Location> {
    var w := if |ea.ew| == 1 then Wrap32(SignExtend16(ea.ew[0])) else 0;
    if ea.reg >= 8 then None
    else match (ea.mode, |ea.ew|)
      case (0, 0) => Some(InData(ea.reg))
      case (1, 0) => Some(InAddress(ea.reg))
      case (2, 0) => Some(Memory(An(ea.reg), None, 0))
      case (3, 0) => Some(Increment(ea.reg))
      case (4, 0) => Some(Decrement(ea.reg))
      case (5, 1) => Some(Memory(An(ea.reg), None, w))
      case (6, _) => Extension(An(ea.reg), NoAn, ea.ew)
      case (7, _) =>
        (match (ea.reg, |ea.ew|)
         case (0, 1) => Some(Absolute(w))
         case (1, 2) => Some(Absolute(ea.ew[0] as int * 0x1_0000 + ea.ew[1]))
         case (2, 1) => Some(Memory(Pc, None, w))
         case (3, _) => Extension(Pc, NoPc, ea.ew)
         case (4, _) =>
           (match (opsize, |ea.ew|)
            case (OsByte, 1) => Some(Constant(SignExtend8(ea.ew[0] % 0x100)))
            case (OsWord, 1) => Some(Constant(SignExtend16(ea.ew[0])))
            case (OsLong, 2) => Some(Constant(ea.ew[0] as int * 0x1_0000 + ea.ew[1]))
            case (_, _) => None)
         case (_, _) => None)
      case (_, _) => None
  }

  /** The location an operand is encoded as, if it is encoded at all. */
  function Encoded(arg: Operand, opsize: OpSize): Option<Location>
    requires Settled(arg)
  {
    match GetEa(arg, opsize)
    case Ok(Some(ea)) => Decode(ea, opsize)
    case _ => None
  }

  // ---------------------------------------------------------------- encoding, then decoding

  /** A register as the processor numbers it. */
  function IndexFor(reg: Reg): Option<Index>
    requires reg.idx >= REG_ERR
  {
    if reg.idx == REG_ERR then None else Some(Index(reg.idx, reg.size == RSIZE_L, reg.scale))
  }

  /** A displacement as the processor reads it back from a word or a longword. */
  function Displaced(value: Value): Long {
    if value.size == VSIZE_W then Wrap32(SignExtend16(Low(value.uint)))
    else if value.size == VSIZE_L then value.uint
    else 0
  }

  predicate Indexes(reg: Reg) {
    (reg.size == RSIZE_W || reg.size == RSIZE_L) && reg.scale < 4 && (reg.IsData() || reg.IsAddr())
  }

  /** The fields of an index word with nine low bits b. */
  lemma IndexWord(w: int, i: int, s: int, c: int, b: int)
    requires w == i * 0x1000 + s * 0x800 + c * 0x200 + b && 0 <= s < 2 && 0 <= c < 4 && 0 <= b < 0x200 && 0 <= i
    ensures w / 0x1000 == i && w / 0x800 % 2 == s && w / 0x200 % 4 == c
  {
    Quotient(w, 0x200, i * 8 + s * 4 + c, b);
    Quotient(w, 0x800, i * 2 + s, c * 0x200 + b);
    Quotient(w, 0x1000, i, s * 0x800 + c * 0x200 + b);
    Quotient(i * 8 + s * 4 + c, 4, i * 2 + s, c);
    Quotient(i * 2 + s, 2, i, s);
  }

  lemma AtLeastOnce(k: int, d: int)
    requires k >= 1 && d >= 0
    ensures k * d >= d
  {
    assert k * d == (k - 1) * d + d;
  }

  lemma Quotient(w: int, d: int, q: int, r: int)
    requires 0 <= r < d && w == q * d + r
    ensures w / d == q && w % d == r
  {
    var p, m := w / d, w % d;
    assert w == p * d + m;
    assert (q - p) * d == q * d - p * d == m - r;
    if q > p { AtLeastOnce(q - p, d); }
    if q < p { AtLeastOnce(p - q, d); }
  }

  /** The low bits of such a word. */
  lemma LowBits(w: int, m: int, b: int)
    requires w == m * 0x200 + b && 0 <= b < 0x200
    ensures w / 0x100 % 2 == b / 0x100 && w / 0x80 % 2 == b / 0x80 % 2 && w / 0x40 % 2 == b / 0x40 % 2
    ensures w / 0x10 % 4 == b / 0x10 % 4 && w % 0x10 == b % 0x10 && w % 0x100 == b % 0x100
  {
    Quotient(w, 0x100, m * 2 + b / 0x100, b % 0x100);
    Quotient(w, 0x80, m * 4 + b / 0x80, b % 0x80);
    Quotient(w, 0x40, m * 8 + b / 0x40, b % 0x40);
    Quotient(w, 0x10, m * 32 + b / 0x10, b % 0x10);
    Quotient(m * 2 + b / 0x100, 2, m, b / 0x100);
    Quotient(m * 4 + b / 0x80, 2, m * 2 + b / 0x80 / 2, b / 0x80 % 2);
    Quotient(m * 8 + b / 0x40, 2, m * 4 + b / 0x40 / 2, b / 0x40 % 2);
    Quotient(m * 32 + b / 0x10, 4, m * 8 + b / 0x10 / 4, b / 0x10 % 4);
  }

  lemma BriefFields(reg: Reg, v: Long)
    requires Indexes(reg)
    ensures var w := BriefWord(reg, v);
      && w / 0x1000 == reg.idx && w / 0x800 % 2 == reg.size && w / 0x200 % 4 == reg.scale
      && w / 0x100 % 2 == 0 && w % 0x100 == v % 0x100
  {
    hide BriefWord;
    var b := v % 0x100;
    var w := reg.idx * 0x1000 + reg.size * 0x800 + reg.scale * 0x200 + b;
    BriefSum(reg, v);
    IndexWord(w, reg.idx, reg.size, reg.scale, b);
    LowBits(w, reg.idx * 8 + reg.size * 4 + reg.scale, b);
  }

  lemma BriefSum(reg: Reg, v: Long)
    requires Indexes(reg)
    ensures BriefWord(reg, v) == reg.idx * 0x1000 + reg.size * 0x800 + reg.scale * 0x200 + v % 0x100
  {
    hide BriefWord;
    Quotient(reg.idx, 16, 0, reg.idx);
    BriefIs(reg, v);
  }

  lemma BriefIs(reg: Reg, v: Long)
    requires (reg.size == RSIZE_W || reg.size == RSIZE_L) && reg.scale < 4
    ensures BriefWord(reg, v) == reg.idx % 16 * 0x1000 + (reg.size * 0x800 + reg.scale * 0x200) + v % 0x100
  {
  }

  lemma BriefRead(reg: Reg, v: Long, base: Base, suppressed: Base)
    requires Indexes(reg)
    ensures Extension(base, suppressed, [BriefWord(reg, v)])
         == Some(Memory(base, IndexFor(reg), Wrap32(SignExtend8(v % 0x100))))
  {
    hide BriefWord, SignExtend8, Wrap32;
    BriefFields(reg, v);
  }

  predicate MayIndex(reg: Reg) {
    Indexes(reg) || (reg.idx == REG_ERR && (reg.size == RSIZE_W || reg.size == RSIZE_L) && reg.scale < 4)
  }

  lemma FullFields(reg: Reg, size: nat, suppressBase: nat)
    requires MayIndex(reg) && (suppressBase == 0 || suppressBase == 0x80) && VSIZE_Z <= size <= VSIZE_L
    ensures var w: Word := FullHead(reg, size, suppressBase);
      && w / 0x100 % 2 == 1 && w / 0x80 % 2 == suppressBase / 0x80 && w % 0x10 == 0 && w / 0x10 % 4 == size
      && w / 0x40 % 2 == (if reg.idx == REG_ERR then 1 else 0)
      && (reg.idx != REG_ERR ==> w / 0x1000 == reg.idx && w / 0x800 % 2 == reg.size && w / 0x200 % 4 == reg.scale)
  {
    hide FullHead;
    var low := 0x100 + suppressBase + (if reg.idx == REG_ERR then 0x40 else 0) + size * 0x10;
    var idx := if reg.idx == REG_ERR then 0 else reg.idx;
    var w := idx * 0x1000 + reg.size * 0x800 + reg.scale * 0x200 + low;
    FullSum(reg, size, suppressBase);
    LowField(suppressBase, reg.idx == REG_ERR, size, low);
    IndexWord(w, idx, reg.size, reg.scale, low);
    LowBits(w, idx * 8 + reg.size * 4 + reg.scale, low);
  }

  lemma FullSum(reg: Reg, size: nat, suppressBase: nat)
    requires MayIndex(reg) && (suppressBase == 0 || suppressBase == 0x80) && VSIZE_Z <= size <= VSIZE_L
    ensures FullHead(reg, size, suppressBase)
         == (if reg.idx == REG_ERR then 0 else reg.idx) * 0x1000 + reg.size * 0x800 + reg.scale * 0x200
            + (0x100 + suppressBase + (if reg.idx == REG_ERR then 0x40 else 0) + size * 0x10)
  {
    Quotient(size, 4, 0, size);
    if reg.idx != REG_ERR { Quotient(reg.idx, 16, 0, reg.idx); }
  }

  lemma LowField(suppressBase: nat, noIndex: bool, size: nat, low: int)
    requires (suppressBase == 0 || suppressBase == 0x80) && VSIZE_Z <= size <= VSIZE_L
    requires low == 0x100 + suppressBase + (if noIndex then 0x40 else 0) + size * 0x10
    ensures 0 <= low < 0x200 && low / 0x100 == 1 && low / 0x80 % 2 == suppressBase / 0x80
    ensures low / 0x40 % 2 == (if noIndex then 1 else 0) && low / 0x10 % 4 == size && low % 0x10 == 0
  {
  }

  /** The base displacement format, with a base register or with the program counter suppressed by its
      own bit, is read back for every index and displacement. */
  lemma FullRead(reg: Reg, value: Value, base: Base, suppressed: Base, suppressBase: nat)
    requires MayIndex(reg) && (suppressBase == 0 || suppressBase == 0x80) && VSIZE_Z <= value.size <= VSIZE_L
    ensures Extension(base, suppressed, FullWords(reg, value, suppressBase))
         == Some(Memory(if suppressBase == 0 then base else suppressed, IndexFor(reg), Displaced(value)))
  {
    hide SignExtend16, Wrap32, FullHead;
    FullFields(reg, value.size, suppressBase);
    assert High(value.uint) as int * 0x1_0000 + Low(value.uint) == value.uint;
  }

  /** The bit that is set for a missing base register suppresses the index: address register 0 is used,
      and an index is lost. */
  lemma MissingBaseRead(reg: Reg, value: Value, base: Base, suppressed: Base)
    requires MayIndex(reg) && VSIZE_Z <= value.size <= VSIZE_L
    ensures Extension(base, suppressed, FullWords(reg, value, 0x40)) == Some(Memory(base, None, Displaced(value)))
  {
    hide SignExtend16, Wrap32, FullHead;
    MissingBaseFields(reg, value.size);
    assert High(value.uint) as int * 0x1_0000 + Low(value.uint) == value.uint;
  }

  lemma MissingBaseFields(reg: Reg, size: nat)
    requires MayIndex(reg) && VSIZE_Z <= size <= VSIZE_L
    ensures var w: Word := FullHead(reg, size, 0x40);
      && w / 0x100 % 2 == 1 && w / 0x80 % 2 == 0 && w % 0x10 == 0 && w / 0x10 % 4 == size && w / 0x40 % 2 == 1
  {
    hide FullHead;
    var idx := if reg.idx == REG_ERR then 0 else reg.idx;
    var low := 0x140 + size * 0x10;
    MissingBaseSum(reg, size);
    LowField(0, true, size, low);
    LowBits(idx * 0x1000 + reg.size * 0x800 + reg.scale * 0x200 + low, idx * 8 + reg.size * 4 + reg.scale, low);
  }

  lemma MissingBaseSum(reg: Reg, size: nat)
    requires MayIndex(reg) && VSIZE_Z <= size <= VSIZE_L
    ensures FullHead(reg, size, 0x40)
         == (if reg.idx == REG_ERR then 0 else reg.idx) * 0x1000 + reg.size * 0x800 + reg.scale * 0x200
            + (0x140 + size * 0x10)
  {
    Quotient(size, 4, 0, size);
    if reg.idx != REG_ERR { Quotient(reg.idx, 16, 0, reg.idx); }
  }

  /** A word displacement is what was written unless it was written as an unsigned word. */
  lemma WordExact(u: Long)
    ensures Wrap32(SignExtend16(Low(u))) == u <==> u < 0x8000 || u >= 0xffff_8000
  {
  }

  lemma ByteExact(u: Long)
    ensures Wrap32(SignExtend8(u % 0x100)) == u <==> u < 0x80 || u >= 0xffff_ff80
  {
  }

  /** Numbers as `getval` leaves them. */
  predicate Number(v: Value) {
    v.symbol.None? && ((v.size == VSIZE_W && v.uint <= 0xffff) || v.size == VSIZE_L)
  }

  /** An absolute address, short or long as its number asks: it is what was written exactly unless it was
      written as an unsigned word with the top bit set, which the processor extends. */
  lemma AbsoluteExact(arg: Operand, opsize: OpSize)
    requires Settled(arg) && Number(arg.value)
    requires arg.mode == if arg.value.size == VSIZE_W then AbsoluteShort else AbsoluteLong
    ensures Encoded(arg, opsize) == Some(Absolute(arg.value.uint))
       <==> !(arg.value.size == VSIZE_W && arg.value.uint >= 0x8000)
  {
    WordExact(arg.value.uint);
    assert High(arg.value.uint) as int * 0x1_0000 + Low(arg.value.uint) == arg.value.uint;
  }

  function Signed32(v: Long): int {
    if v < 0x8000_0000 then v else v - 0x1_0000_0000
  }

  /** An absolute address is refused exactly in these cases: a short one that is marked as a word and is none, or
      that is not and names a symbol; a long one that is marked as a word and is not what the processor extends. */
  lemma AbsoluteRefused(arg: Operand, opsize: OpSize)
    requires Settled(arg) && (arg.mode == AbsoluteShort || arg.mode == AbsoluteLong)
    ensures var u, word := arg.value.uint, arg.value.size == VSIZE_W;
      GetEa(arg, opsize).Fail? <==>
        if arg.mode == AbsoluteShort then if word then u > 0xffff else u <= 0xffff && arg.value.symbol.Some?
        else word && 0x8000 <= u < 0xffff_8000
    ensures GetEa(arg, opsize).Fail? ==>
      GetEa(arg, opsize).error == if arg.mode == AbsoluteLong then InvalidSizeOperand
                                  else if arg.value.size == VSIZE_W then AddressOutOfBounds
                                  else InvalidAddressSize
  {
    WordExact(arg.value.uint);
  }

  /** An immediate number is encoded exactly when the operation size holds it as a signed number, and then
      read back; a longword is always encoded, and nothing without a size. */
  lemma ImmediateExact(arg: Operand, opsize: OpSize)
    requires Settled(arg) && arg.mode == Immediate
    ensures var n := Signed32(arg.value.uint);
      var fits := match opsize case OsByte => -128 <= n <= 127 case OsWord => -32768 <= n <= 32767 case _ => true;
      && (fits <==> GetEa(arg, opsize).Ok?)
      && (opsize == OsDefault ==> GetEa(arg, opsize) == Ok(None))
      && (fits && opsize != OsDefault ==>
            Encoded(arg, opsize) == Some(Constant(if opsize == OsLong then arg.value.uint else n)))
  {
    WordExact(arg.value.uint);
    ByteExact(arg.value.uint);
    assert High(arg.value.uint) as int * 0x1_0000 + Low(arg.value.uint) == arg.value.uint;
  }
}
