/** Machine integers, big-endian storage and error results shared by every component. */
module Basics {

  type Byte = b: int | 0 <= b < 0x100
  type Word = w: int | 0 <= w < 0x1_0000
  type Long = v: int | 0 <= v < 0x1_0000_0000

  datatype Option<+T> = None | Some(value: T)

  /** What `fail(...)` reports before the process exits (src/error.h).
      Two are not codes of the program: BufferOverrun marks a write outside a block, an array or a record, and
      TooManyFields the plain exit of the tokenizer (src/mangle.c:170). */
  datatype Error =
    | UnmatchedParentheses
    | ValueOutOfBounds
    | AddressOutOfBounds
    | InvalidSizeOperand
    | InvalidSymbol
    | InvalidRegister
    | InvalidArgument
    | InvalidBitfield
    | InvalidOperand
    | InvalidNumberOfArguments
    | TooManyRegisters
    | TooManyDisplacements
    | UnterminatedString
    | MisplacedEscaping
    | InvalidString
    | InvalidSectionName
    | InvalidAddressingMode
    | InvalidInstructionSize
    | RestoreWithoutStore
    | InvalidAddressSize
    | RelativeAddressTooLarge
    | UndeclaredSymbol
    | MisalignedInstruction
    | MisalignedAddress
    | UnresolvedSection
    | UnsupportedSectionType
    | MissingFeature
    | TooManyFields
    | BufferOverrun

  datatype Result<+T> = Ok(value: T) | Fail(error: Error) {
    predicate IsFailure() { Fail? }
    function PropagateFailure<U>(): Result<U> requires Fail? { Fail(error) }
    function Extract(): T requires Ok? { value }
  }

  /** Arithmetic on `uint32_t`. */
  function Wrap32(x: int): Long {
    x % 0x1_0000_0000
  }

  /** Sign extension of a 16-bit word, as the CPU does for displacements. */
  function SignExtend16(w: Word): int {
    if w < 0x8000 then w else w - 0x1_0000
  }

  function SignExtend8(b: Byte): int {
    if b < 0x80 then b else b - 0x100
  }

  /** A word as it is laid out in the file: most significant byte first. */
  function Be16(w: Word): (s: seq<Byte>)
    ensures |s| == 2
  {
    [w / 0x100, w % 0x100]
  }

  function Be32(v: Long): (s: seq<Byte>)
    ensures |s| == 4
  {
    [v / 0x100_0000, v / 0x1_0000 % 0x100, v / 0x100 % 0x100, v % 0x100]
  }

  function Read16(s: seq<Byte>, i: nat): Word
    requires i + 2 <= |s|
  {
    var hi: int, lo: int := s[i], s[i + 1];
    hi * 0x100 + lo
  }

  function Read32(s: seq<Byte>, i: nat): Long
    requires i + 4 <= |s|
  {
    var a: int, b: int, c: int, d: int := s[i], s[i + 1], s[i + 2], s[i + 3];
    a * 0x100_0000 + b * 0x1_0000 + c * 0x100 + d
  }

  lemma Read16Be16(w: Word)
    ensures Read16(Be16(w), 0) == w
  {
  }

  lemma Read32Be32(v: Long)
    ensures Read32(Be32(v), 0) == v
  {
    var a, b, c := v / 0x100, v / 0x1_0000, v / 0x100_0000;
    assert b == a / 0x100 && c == b / 0x100;
  }

  /** Four bytes are determined by the longword they hold. */
  lemma Be32Read32(s: seq<Byte>, i: nat)
    requires i + 4 <= |s|
    ensures Be32(Read32(s, i)) == s[i..i + 4]
  {
    var v := Read32(s, i);
    var a: int, b: int, c: int := s[i], s[i + 1], s[i + 2];
    assert v / 0x100_0000 == a;
    assert v / 0x1_0000 == a * 0x100 + b;
    assert v / 0x100 == a * 0x1_0000 + b * 0x100 + c;
  }

  /** The bytes of a word and of a longword, from the most significant one on. */
  lemma BytesOf(a: Byte, b: Byte, c: Byte, d: Byte)
    ensures Be16(a as int * 0x100 + b) == [a, b]
    ensures Be32(a as int * 0x100_0000 + b as int * 0x1_0000 + c as int * 0x100 + d) == [a, b, c, d]
  {
    hide Be32;
    var s := [a, b, c, d];
    Be32Read32(s, 0);
    assert s[0..4] == s;
  }

  lemma Read16Slice(s: seq<Byte>, i: nat, w: Word)
    requires i + 2 <= |s| && s[i..i + 2] == Be16(w)
    ensures Read16(s, i) == w
  {
    assert s[i] == s[i..i + 2][0] && s[i + 1] == s[i..i + 2][1];
    Read16Be16(w);
  }

  lemma Read32Slice(s: seq<Byte>, i: nat, v: Long)
    requires i + 4 <= |s| && s[i..i + 4] == Be32(v)
    ensures Read32(s, i) == v
  {
    assert s[i] == s[i..i + 4][0] && s[i + 1] == s[i..i + 4][1];
    assert s[i + 2] == s[i..i + 4][2] && s[i + 3] == s[i..i + 4][3];
    Read32Be32(v);
  }

  lemma WrapSmall(x: int)
    requires 0 <= x < 0x1_0000_0000
    ensures Wrap32(x) == x
  {
  }

  lemma WrapAdd(x: int, y: int)
    ensures Wrap32(Wrap32(x) + y) == Wrap32(x + y)
  {
  }

  lemma WrapCong(a: int, b: int, x: int)
    requires Wrap32(a) == Wrap32(b)
    ensures Wrap32(a + x) == Wrap32(b + x)
  {
    WrapAdd(a, x);
    WrapAdd(b, x);
  }

  lemma WrapCancel(a: int, x: Long, y: Long)
    requires Wrap32(a + x) == Wrap32(a + y)
    ensures x == y
  {
    WrapCong(a + x, a + y, -a);
    WrapSmall(x);
    WrapSmall(y);
  }

  /** A distance modulo 2^32, added back to the place it was taken from. */
  lemma WrapDistance(b: int, n: int, ofs: int)
    ensures Wrap32(b + n + Wrap32(ofs - Wrap32(n))) == Wrap32(b + ofs)
  {
  }
}
