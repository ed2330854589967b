/** The dc directive: strings with escapes and range-checked numbers (src/mnemonics_data.c:53-159), and
    how it gets its operands (src/mangle.c:224-316). */
module Constants {
  import opened Basics
  import opened Text
  import opened Values
  import opened Addressing
  import opened Lines
  import S = Store

  // ---------------------------------------------------------------- strings

  /** Before the opening quote, inside the string, behind the closing quote. */
  datatype Quoting = Before | Inside | Behind

  function ByteOf(c: char): Byte { c as int % 0x100 }

  /** What an escaped character stands for. */
  function Unescaped(c: char): Byte {
    if c == '0' then 0 else if c == 't' then 9 else if c == 'r' then 13 else if c == 'n' then 10 else ByteOf(c)
  }

  /** The bytes that the string operand t stands for, from place i on. */
  function DecodeFrom(t: string, i: nat, q: Quoting): Result<seq<Byte>>
    decreases |t| - i
  {
    if i >= |t| then Ok([])
    else if q == Inside then
      if t[i] == '\\' then
        if i + 1 >= |t| then Fail(MisplacedEscaping)
        else
          var rest :- DecodeFrom(t, i + 2, q);
          Ok([Unescaped(t[i + 1])] + rest)
      else if t[i] == '"' then DecodeFrom(t, i + 1, Behind)
      else
        var rest :- DecodeFrom(t, i + 1, q);
        Ok([ByteOf(t[i])] + rest)
    else if IsSpace(t[i]) then DecodeFrom(t, i + 1, q)
    else if q == Before && t[i] == '"' then DecodeFrom(t, i + 1, Inside)
    else Fail(InvalidString)
  }

  // ---------------------------------------------------------------- operands of dc

  /** An operand of dc: a number, or text that is not one. */
  datatype Arg = NumberArg(uint: Long) | StringArg(text: string)

  function ByteItems(bs: seq<Byte>): (r: seq<S.Item>)
    ensures |r| == |bs| && forall i | 0 <= i < |bs| :: r[i] == S.Constant(1, bs[i], None)
  {
    seq(|bs|, i requires 0 <= i < |bs| => S.Constant(1, bs[i], None))
  }

  /** What one operand pushes. Long text is a symbol; without a size nothing is pushed. */
  function ItemsOf(arg: Arg, opsize: OpSize): Result<seq<S.Item>> {
    match (opsize, arg)
    case (OsByte, StringArg(t)) =>
      var bs :- DecodeFrom(t, 0, Before);
      Ok(ByteItems(bs))
    case (OsByte, NumberArg(u)) => if u > 255 then Fail(ValueOutOfBounds) else Ok([S.Constant(1, u, None)])
    case (OsWord, StringArg(_)) => Fail(InvalidAddressingMode)
    case (OsWord, NumberArg(u)) => if u > 65535 then Fail(ValueOutOfBounds) else Ok([S.Constant(2, u, None)])
    case (OsLong, StringArg(t)) => Ok([S.Constant(4, 0, Some(t))])
    case (OsLong, NumberArg(u)) => Ok([S.Constant(4, u, None)])
    case (OsDefault, _) => Ok([])
  }

  function AllItems(args: seq<Arg>, i: nat, opsize: OpSize): Result<seq<S.Item>>
    requires i <= |args|
    decreases |args| - i
  {
    if i == |args| then Ok([])
    else
      var head :- ItemsOf(args[i], opsize);
      var tail :- AllItems(args, i + 1, opsize);
      Ok(head + tail)
  }

  /** Items already collected, followed by a result. */
  ghost function Collected<T>(done: seq<T>, rest: Result<seq<T>>): Result<seq<T>> {
    match rest case Ok(xs) => Ok(done + xs) case Fail(e) => Fail(e)
  }

  lemma CollectedNone<T>(done: seq<T>)
    ensures Collected(done, Ok([])) == Ok(done)
  {
    assert done + [] == done;
  }

  lemma CollectedMore<T>(done: seq<T>, xs: seq<T>, rest: Result<seq<T>>)
    ensures Collected(done, Collected(xs, rest)) == Collected(done + xs, rest)
  {
    if rest.Ok? { assert done + (xs + rest.value) == done + xs + rest.value; }
  }

  lemma DecodeStep(t: string, i: nat, q: Quoting)
    requires i < |t|
    ensures q == Inside && t[i] == '\\' && i + 1 < |t| ==>
      DecodeFrom(t, i, q) == Collected([Unescaped(t[i + 1])], DecodeFrom(t, i + 2, q))
    ensures q == Inside && t[i] == '\\' && i + 1 == |t| ==> DecodeFrom(t, i, q) == Fail(MisplacedEscaping)
    ensures q == Inside && t[i] == '"' ==> DecodeFrom(t, i, q) == DecodeFrom(t, i + 1, Behind)
    ensures q == Inside && t[i] != '\\' && t[i] != '"' ==>
      DecodeFrom(t, i, q) == Collected([ByteOf(t[i])], DecodeFrom(t, i + 1, q))
    ensures q != Inside && IsSpace(t[i]) ==> DecodeFrom(t, i, q) == DecodeFrom(t, i + 1, q)
    ensures q == Before && t[i] == '"' ==> DecodeFrom(t, i, q) == DecodeFrom(t, i + 1, Inside)
    ensures q != Inside && !IsSpace(t[i]) && (q == Behind || t[i] != '"') ==> DecodeFrom(t, i, q) == Fail(InvalidString)
  {
  }

  lemma ByteItemsMore(bs: seq<Byte>, b: Byte)
    ensures ByteItems(bs + [b]) == ByteItems(bs) + [S.Constant(1, b, None)]
  {
  }

  /** The loop over the characters of a string operand. */
  method PushString(t: string) returns (r: Result<seq<S.Item>>)
    ensures r == ItemsOf(StringArg(t), OsByte)
  {
    hide DecodeFrom, IsSpace, ByteOf, Unescaped;
    var items: seq<S.Item> := [];
    ghost var bs: seq<Byte> := [];
    var i, q := 0, Before;
    CollectedStart(DecodeFrom(t, 0, Before));
    while i < |t|
      invariant i <= |t| && items == ByteItems(bs)
      invariant Collected(bs, DecodeFrom(t, i, q)) == DecodeFrom(t, 0, Before)
    {
      DecodeStep(t, i, q);
      if q == Inside {
        if t[i] == '\\' {
          i := i + 1;
          if i == |t| { return Fail(MisplacedEscaping); }
          var b := Unescaped(t[i]);
          CollectedMore(bs, [b], DecodeFrom(t, i + 1, q));
          ByteItemsMore(bs, b);
          items, bs := items + [S.Constant(1, b, None)], bs + [b];
        } else if t[i] == '"' {
          q := Behind;
        } else {
          var b := ByteOf(t[i]);
          CollectedMore(bs, [b], DecodeFrom(t, i + 1, q));
          ByteItemsMore(bs, b);
          items, bs := items + [S.Constant(1, b, None)], bs + [b];
        }
      } else if !IsSpace(t[i]) {
        if q == Before && t[i] == '"' { q := Inside; }
        else { return Fail(InvalidString); }
      }
      i := i + 1;
    }
    DecodeEnd(t, i, q);
    CollectedNone(bs);
    r := Ok(items);
  }

  lemma CollectedStart<T>(r: Result<seq<T>>)
    ensures Collected([], r) == r
  {
    if r.Ok? { assert [] + r.value == r.value; }
  }

  lemma DecodeEnd(t: string, i: nat, q: Quoting)
    requires i >= |t|
    ensures DecodeFrom(t, i, q) == Ok([])
  {
  }

  /** `asm_dc`: what it pushes, in order. */
  method AsmDc(args: seq<Arg>, opsize: OpSize) returns (r: Result<seq<S.Item>>)
    ensures r == AllItems(args, 0, opsize)
  {
    hide DecodeFrom;
    var items: seq<S.Item> := [];
    var i := 0;
    CollectedStart(AllItems(args, 0, opsize));
    while i < |args|
      invariant i <= |args|
      invariant Collected(items, AllItems(args, i, opsize)) == AllItems(args, 0, opsize)
    {
      var one: Result<seq<S.Item>>;
      match opsize {
        case OsByte =>
          match args[i] {
            case StringArg(t) => one := PushString(t);
            case NumberArg(u) => one := if u > 255 then Fail(ValueOutOfBounds) else Ok([S.Constant(1, u, None)]);
          }
        case OsWord =>
          match args[i] {
            case StringArg(_) => one := Fail(InvalidAddressingMode);
            case NumberArg(u) => one := if u > 65535 then Fail(ValueOutOfBounds) else Ok([S.Constant(2, u, None)]);
          }
        case OsLong =>
          match args[i] {
            case StringArg(t) => one := Ok([S.Constant(4, 0, Some(t))]);
            case NumberArg(u) => one := Ok([S.Constant(4, u, None)]);
          }
        case OsDefault => one := Ok([]);
      }
      AllItemsStep(args, i, opsize);
      if one.Fail? { return one; }
      CollectedMore(items, one.value, AllItems(args, i + 1, opsize));
      items := items + one.value;
      i := i + 1;
    }
    CollectedNone(items);
    r := Ok(items);
  }

  lemma AllItemsStep(args: seq<Arg>, i: nat, opsize: OpSize)
    requires i < |args|
    ensures AllItems(args, i, opsize) ==
      match ItemsOf(args[i], opsize)
      case Ok(xs) => Collected(xs, AllItems(args, i + 1, opsize))
      case Fail(e) => Fail(e)
  {
  }

  // ---------------------------------------------------------------- lines with dc

  const MNEMONIC_ROOM := 32

  /** The first full stop of a mnemonic, or the place after its end. */
  function DotAt(s: string, t: nat, end: nat): (r: nat)
    requires t <= end + 1
    ensures t <= r <= end + 1
    decreases end + 1 - t
  {
    if t == end + 1 || At(s, t) == '.' then t else DotAt(s, t + 1, end)
  }

  function SizeNamed(c: char): Result<OpSize> {
    if Lower(c) == 'b' then Ok(OsByte) else if Lower(c) == 'w' then Ok(OsWord) else if Lower(c) == 'l' then Ok(OsLong)
    else Fail(InvalidInstructionSize)
  }

  /** Name and size of a mnemonic. The record has room for 31 characters. */
  function MnemonicAt(s: string, start: nat, end: nat): Result<(string, OpSize)>
    requires start <= end <= |s|
  {
    var t := DotAt(s, start, end);
    var stop := if t > end then end else t;
    var size :- if At(s, t) == '.' && t + 2 == end then SizeNamed(At(s, t + 1)) else Ok(OsDefault);
    if stop - start >= MNEMONIC_ROOM then Fail(BufferOverrun) else Ok((s[start..stop], size))
  }

  /** `mnemangle`. */
  method MneMangle(s: string, start: nat, end: nat) returns (r: Result<(string, OpSize)>)
    requires start <= end <= |s|
    ensures r == MnemonicAt(s, start, end)
  {
    var t := start;
    while t <= end && At(s, t) != '.'
      invariant start <= t <= end + 1 && DotAt(s, t, end) == DotAt(s, start, end)
      decreases end + 1 - t
    {
      t := t + 1;
    }
    var opsize := OsDefault;
    if At(s, t) == '.' && t + 2 == end {
      var size := SizeNamed(At(s, t + 1));
      if size.Fail? { return Fail(size.error); }
      opsize := size.value;
    }
    var stop := if t > end then end else t;
    if stop - start >= MNEMONIC_ROOM { return Fail(BufferOverrun); }
    r := Ok((s[start..stop], opsize));
  }

  /** An operand of a directive: a number if it can be read as one, its text otherwise. */
  function ArgAt(s: string, start: nat, end: nat): Result<Arg>
    requires start <= end <= |s|
  {
    var p :- ValueAt(s, start, end, false);
    Ok(if p.ok then NumberArg(p.val.uint) else StringArg(s[start..end]))
  }

  predicate FieldsIn(s: string, fs: seq<Option<Field>>) {
    forall i | 0 <= i < |fs| && fs[i].Some? :: fs[i].value.from < fs[i].value.end <= |s|
  }

  /** The operands of a directive, from field i on. */
  function ArgsOf(s: string, fs: seq<Option<Field>>, i: nat): Result<seq<Arg>>
    requires FieldsIn(s, fs)
    decreases |fs| - i
  {
    if i >= |fs| then Ok([])
    else if fs[i].None? then ArgsOf(s, fs, i + 1)
    else
      var head :- ArgAt(s, fs[i].value.from, fs[i].value.end);
      var tail :- ArgsOf(s, fs, i + 1);
      Ok([head] + tail)
  }

  lemma ArgsStep(s: string, fs: seq<Option<Field>>, i: nat)
    requires FieldsIn(s, fs) && i < |fs|
    ensures ArgsOf(s, fs, i) ==
      if fs[i].None? then ArgsOf(s, fs, i + 1)
      else match ArgAt(s, fs[i].value.from, fs[i].value.end) {
        case Ok(a) => Collected([a], ArgsOf(s, fs, i + 1))
        case Fail(e) => Fail(e)
      }
  {
  }

  /** The operand loop of `mangle`, for a directive. It also looks behind the last field, where the arrays
      hold no fields. */
  method ReadArgs(s: string, starts: array<int>, ends: array<int>, ofs: nat, ghost fs: seq<Option<Field>>)
      returns (r: Result<seq<Arg>>)
    requires starts.Length == ends.Length == FIELDS && ofs == |fs| && ofs + 2 <= FIELDS && FieldsIn(s, fs)
    requires forall j | 0 <= j < |fs| :: FieldIn(starts[j], ends[j], fs[j])
    requires forall j | |fs| <= j < FIELDS :: starts[j] == -1 && ends[j] == -1
    ensures r == ArgsOf(s, fs, 2)
  {
    hide ArgAt, ValueAt, ArgsOf;
    var args: seq<Arg> := [];
    var i := 0;
    CollectedStart(ArgsOf(s, fs, 2));
    while i < ofs
      invariant i <= ofs && Collected(args, ArgsOf(s, fs, i + 2)) == ArgsOf(s, fs, 2)
    {
      if starts[i + 2] != -1 && ends[i + 2] != -1 {
        ArgsStep(s, fs, i + 2);
        var parsed := GetVal(s, starts[i + 2], ends[i + 2], false);
        ArgIs(s, starts[i + 2], ends[i + 2]);
        if parsed.Fail? { return Fail(parsed.error); }
        var arg := if parsed.value.ok then NumberArg(parsed.value.val.uint)
                   else StringArg(s[starts[i + 2]..ends[i + 2]]);
        CollectedMore(args, [arg], ArgsOf(s, fs, i + 3));
        args := args + [arg];
      } else {
        if i + 2 < |fs| { ArgsStep(s, fs, i + 2); } else { ArgsEnd(s, fs, i + 2); ArgsEnd(s, fs, i + 3); }
      }
      i := i + 1;
    }
    ArgsEnd(s, fs, i + 2);
    CollectedNone(args);
    r := Ok(args);
  }

  lemma ArgIs(s: string, start: nat, end: nat)
    requires start <= end <= |s|
    ensures ArgAt(s, start, end) ==
      match ValueAt(s, start, end, false) {
        case Ok(p) => Ok(if p.ok then NumberArg(p.val.uint) else StringArg(s[start..end]))
        case Fail(e) => Fail(e)
      }
  {
  }

  lemma ArgsEnd(s: string, fs: seq<Option<Field>>, i: nat)
    requires FieldsIn(s, fs) && i >= |fs|
    ensures ArgsOf(s, fs, i) == Ok([])
  {
  }
}
