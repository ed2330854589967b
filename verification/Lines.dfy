/** Source lines: cutting them into label, mnemonic and operands (src/mangle.c:76-283). */
module Lines {
  import opened Basics
  import opened Text
  import opened Values

  datatype Place = Inactive | InLabel | InMnemonic | InOperands

  /** A stretch of the line. */
  datatype Field = Field(from: nat, end: nat)

  /** The automaton: fields closed so far (the first may be missing), the start of the one that is open,
      the depth of parentheses, and whether a string is open. */
  datatype Row = Row(place: Place, fields: seq<Option<Field>>, open: Option<nat>, stack: int, quoted: bool)

  const START := Row(Inactive, [], None, 0, false)

  /** The last field that may be open while operands are scanned. */
  const MAX_FIELD := 128

  function CloseAt(k: Row, i: nat): Row
    requires k.open.Some?
  {
    k.(fields := k.fields + [Some(Field(k.open.value, i))], open := None)
  }

  /** A character that starts an operand. */
  function Opening(c: char, k: Row): Row {
    if c == '(' then k.(stack := k.stack + 1) else if c == '"' then k.(quoted := !k.quoted) else k
  }

  /** A character inside an operand, other than a backslash. */
  function Inner(c: char, i: nat, k: Row): Row
    requires k.open.Some?
  {
    if c == ')' then k.(stack := k.stack - 1)
    else if c == '(' || c == '"' then Opening(c, k)
    else if k.stack == 0 && !k.quoted && (IsSpace(c) || c == ',') then CloseAt(k, i)
    else k
  }

  function Turn(c: char, i: nat, k: Row): Result<Row> {
    match k.place
    case Inactive =>
      if !StartsSymbol(c) then Ok(k)
      else if i == 0 then Ok(k.(place := InLabel, open := Some(i)))
      else Ok(k.(place := InMnemonic, fields := k.fields + [None], open := Some(i)))
    case InLabel =>
      if k.open.None? then if IsSpace(c) then Ok(k) else Ok(k.(place := InMnemonic, open := Some(i)))
      else if IsSpace(c) || c == ':' then Ok(CloseAt(k, i))
      else Ok(k)
    case InMnemonic =>
      if k.open.Some? then if IsSpace(c) then Ok(CloseAt(k, i)) else Ok(k)
      else if IsSpace(c) then Ok(k)
      else Ok(Opening(c, k.(place := InOperands, open := Some(i))))
    case InOperands =>
      if |k.fields| > MAX_FIELD then Fail(TooManyFields)
      else if k.open.Some? then Ok(Inner(c, i, k))
      else if IsSpace(c) then Ok(k)
      else Ok(Opening(c, k.(open := Some(i))))
  }

  /** A backslash takes the next character with it, once operands have begun. */
  predicate Escapes(c: char, k: Row) {
    c == '\\' && ((k.place == InOperands && |k.fields| <= MAX_FIELD) || (k.place == InMnemonic && k.open.None?))
  }

  /** A comment starts at the beginning of the line or after whitespace. */
  predicate CommentAt(s: string, i: nat) {
    (At(s, i) == ';' || At(s, i) == '*') && (i == 0 || IsSpace(At(s, i - 1)))
  }

  predicate Stops(s: string, i: nat) {
    At(s, i) == '\0' || At(s, i) == '\r' || At(s, i) == '\n' || CommentAt(s, i)
  }

  /** The place after a character, never beyond the end mark. */
  function After(s: string, i: nat, escaped: bool): nat {
    if !escaped then i + 1 else if At(s, i + 1) != '\0' then i + 2 else i + 1
  }

  /** Where the scan of a line from i on ends, and how. */
  function RowFrom(s: string, i: nat, k: Row): Result<(Row, nat)>
    decreases |s| - i
  {
    if Stops(s, i) then Ok((k, i))
    else
      var k' :- Turn(s[i], i, k);
      RowFrom(s, After(s, i, Escapes(s[i], k)), k')
  }

  /** The fields of a line: label or nothing, mnemonic, operands. */
  function FieldsOf(s: string): Result<seq<Option<Field>>> {
    var (k, i) :- RowFrom(s, 0, START);
    if k.quoted then Fail(UnterminatedString)
    else if k.stack != 0 then Fail(UnmatchedParentheses)
    else Ok(if k.open.Some? && k.open.value != i then CloseAt(k, i).fields else k.fields)
  }

  // ---------------------------------------------------------------- the program

  const FIELDS := 256

  /** What the arrays hold: start and end of the closed fields, -1 for none, and the start of the open one. */
  ghost predicate Holds(starts: array<int>, ends: array<int>, fields: seq<Option<Field>>, open: Option<nat>)
    reads starts, ends
  {
    && starts.Length == ends.Length == FIELDS && |fields| < FIELDS
    && (forall j | 0 <= j < |fields| :: FieldIn(starts[j], ends[j], fields[j]))
    && starts[|fields|] == (if open.Some? then open.value else -1)
    && (forall j | |fields| < j < FIELDS :: starts[j] == -1) && (forall j | |fields| <= j < FIELDS :: ends[j] == -1)
  }

  predicate FieldIn(start: int, end: int, f: Option<Field>) {
    match f case None => start == -1 && end == -1 case Some(f) => start == f.from && end == f.end
  }

  /** The number of closed fields in each state. */
  predicate Counted(k: Row) {
    match k.place
    case Inactive => k.fields == [] && k.open.None?
    case InLabel => |k.fields| <= 1 && (k.open.Some? <==> k.fields == [])
    case InMnemonic => 1 <= |k.fields| <= 2 && (k.open.Some? <==> |k.fields| == 1)
    case InOperands => 2 <= |k.fields| <= if k.open.Some? then MAX_FIELD else MAX_FIELD + 1
  }

  lemma TurnCounted(c: char, i: nat, k: Row)
    requires Counted(k) && Turn(c, i, k).Ok? && (k.open.Some? ==> k.open.value < i)
    ensures var k' := Turn(c, i, k).value; Counted(k') && (k'.open.Some? ==> k'.open.value <= i)
  {
  }

  lemma RowStep(s: string, i: nat, k: Row)
    ensures Stops(s, i) ==> RowFrom(s, i, k) == Ok((k, i))
    ensures !Stops(s, i) ==>
      i < |s| && RowFrom(s, i, k)
                 == match Turn(s[i], i, k)
                    case Ok(k') => RowFrom(s, After(s, i, Escapes(s[i], k)), k')
                    case Fail(e) => Fail(e)
  {
  }

  /** Close the open field. */
  method PutEnd(starts: array<int>, ends: array<int>, ofs: nat, i: nat, ghost fields: seq<Option<Field>>,
                ghost open: nat)
    requires starts != ends && Holds(starts, ends, fields, Some(open)) && ofs == |fields| && ofs + 1 < FIELDS
    modifies ends
    ensures Holds(starts, ends, fields + [Some(Field(open, i))], None)
  {
    ends[ofs] := i;
  }

  /** Open a field. */
  method PutStart(starts: array<int>, ends: array<int>, ofs: nat, i: nat, ghost fields: seq<Option<Field>>)
    requires starts != ends && Holds(starts, ends, fields, None) && ofs == |fields|
    modifies starts
    ensures Holds(starts, ends, fields, Some(i))
  {
    starts[ofs] := i;
  }

  /** The effect of a character on nesting and strings, as an operand starts. */
  method Open(c: char, stack: int, quoted: bool) returns (stack': int, quoted': bool)
    ensures forall k: Row | k.stack == stack && k.quoted == quoted ::
      Opening(c, k) == k.(stack := stack', quoted := quoted')
  {
    stack', quoted' := stack, quoted;
    if c == '(' { stack' := stack + 1; }
    else if c == '"' { quoted' := !quoted; }
  }

  /** One character of the line: the switch over the state. */
  method Character(c: char, i: nat, starts: array<int>, ends: array<int>, ofs: nat, stack: int, quoted: bool,
                   place: Place, ghost k: Row)
      returns (ofs': nat, stack': int, quoted': bool, place': Place, escaped: bool, r: Result<()>)
    requires starts != ends && Holds(starts, ends, k.fields, k.open) && ofs == |k.fields| && Counted(k)
    requires k.place == place && k.stack == stack && k.quoted == quoted
    modifies starts, ends
    ensures match Turn(c, i, k)
            case Fail(e) => r == Fail(e)
            case Ok(k') => r.Ok? && Holds(starts, ends, k'.fields, k'.open) && ofs' == |k'.fields|
                           && escaped == Escapes(c, k)
                           && k'.place == place' && k'.stack == stack' && k'.quoted == quoted'
  {
    hide StartsSymbol, Holds;
    ofs', stack', quoted', place', escaped, r := ofs, stack, quoted, place, false, Ok(());
    var busy := IsOpen(starts, ends, ofs, k);
    match place {
      case Inactive =>
        if StartsSymbol(c) {
          if i == 0 {
            PutStart(starts, ends, ofs, i, k.fields);
            place' := InLabel;
          } else {
            ofs' := Skip(starts, ends, ofs, k);
            PutStart(starts, ends, ofs', i, k.fields + [None]);
            place' := InMnemonic;
          }
        }
      case InLabel =>
        if !busy {
          if !IsSpace(c) {
            PutStart(starts, ends, ofs, i, k.fields);
            place' := InMnemonic;
          }
        } else if IsSpace(c) || c == ':' {
          PutEnd(starts, ends, ofs, i, k.fields, k.open.value);
          ofs' := ofs + 1;
        }
      case InMnemonic =>
        if busy {
          if IsSpace(c) {
            PutEnd(starts, ends, ofs, i, k.fields, k.open.value);
            ofs' := ofs + 1;
          }
        } else if !IsSpace(c) {
          PutStart(starts, ends, ofs, i, k.fields);
          place' := InOperands;
          stack', quoted' := Open(c, stack, quoted);
          escaped := c == '\\';
        }
      case InOperands =>
        if ofs > MAX_FIELD { r := Fail(TooManyFields); }
        else if busy {
          if c == '(' { stack' := stack + 1; }
          else if c == ')' { stack' := stack - 1; }
          else if c == '"' { quoted' := !quoted; }
          else if c == '\\' { escaped := true; }
          else if stack == 0 && !quoted && (IsSpace(c) || c == ',') {
            PutEnd(starts, ends, ofs, i, k.fields, k.open.value);
            ofs' := ofs + 1;
          }
        } else if !IsSpace(c) {
          PutStart(starts, ends, ofs, i, k.fields);
          stack', quoted' := Open(c, stack, quoted);
          escaped := c == '\\';
        }
    }
  }

  method IsOpen(starts: array<int>, ends: array<int>, ofs: nat, ghost k: Row) returns (busy: bool)
    requires Holds(starts, ends, k.fields, k.open) && ofs == |k.fields|
    ensures busy == k.open.Some?
  {
    busy := starts[ofs] != -1;
  }

  /** A line without label leaves the first field empty. */
  method Skip(starts: array<int>, ends: array<int>, ofs: nat, ghost k: Row) returns (ofs': nat)
    requires Holds(starts, ends, k.fields, k.open) && ofs == |k.fields| && k.open.None? && ofs + 1 < FIELDS
    ensures ofs' == ofs + 1 && Holds(starts, ends, k.fields + [None], None)
  {
    ofs' := ofs + 1;
  }

  /** The line loop of `mangle`: starts and ends of fields go into two arrays of 256, which are never
      exceeded. */
  method Tokenize(s: string) returns (r: Result<nat>, starts: array<int>, ends: array<int>)
    ensures fresh(starts) && fresh(ends) && starts.Length == ends.Length == FIELDS
    ensures match FieldsOf(s)
            case Fail(e) => r == Fail(e)
            case Ok(fs) => r == Ok(|fs|) && |fs| < FIELDS
                           && (forall j | 0 <= j < |fs| :: FieldIn(starts[j], ends[j], fs[j]))
                           && forall j | |fs| <= j < FIELDS :: starts[j] == -1 && ends[j] == -1
  {
    hide RowFrom, Turn, Stops, Holds, Counted, Escapes;
    starts, ends := NewArrays();
    var ofs: nat, i: nat, stack: int, quoted, place := 0, 0, 0, false, Inactive;
    ghost var k := START;
    StartCounted();
    while !Stops(s, i)
      invariant Holds(starts, ends, k.fields, k.open) && ofs == |k.fields| && Counted(k)
      invariant starts != ends && fresh(starts) && fresh(ends)
      invariant k.open.Some? ==> k.open.value < i
      invariant k.place == place && k.stack == stack && k.quoted == quoted
      invariant RowFrom(s, i, k) == RowFrom(s, 0, START)
      decreases |s| - i
    {
      RowStep(s, i, k);
      var c, escaped := s[i], false;
      var turned: Result<()>;
      ofs, stack, quoted, place, escaped, turned := Character(c, i, starts, ends, ofs, stack, quoted, place, k);
      RoomToClose(k);
      if turned.Fail? { return Fail(turned.error), starts, ends; }
      TurnCounted(c, i, k);
      k := Turn(c, i, k).value;
      if escaped && At(s, i + 1) != '\0' { i := i + 1; }
      i := i + 1;
    }
    RowStep(s, i, k);
    RoomToClose(k);
    if quoted { return Fail(UnterminatedString), starts, ends; }
    if stack != 0 { return Fail(UnmatchedParentheses), starts, ends; }
    var busy := IsOpen(starts, ends, ofs, k);
    HeldStart(starts, ends, k);
    if busy && starts[ofs] != i {
      PutEnd(starts, ends, ofs, i, k.fields, k.open.value);
      ofs := ofs + 1;
      HeldAll(starts, ends, k.fields + [Some(Field(k.open.value, i))]);
    } else {
      HeldAll(starts, ends, k.fields);
    }
    r := Ok(ofs);
  }

  method NewArrays() returns (starts: array<int>, ends: array<int>)
    ensures fresh(starts) && fresh(ends) && starts != ends && Holds(starts, ends, [], None)
    ensures starts.Length == ends.Length == FIELDS
  {
    starts, ends := new int[FIELDS](_ => -1), new int[FIELDS](_ => -1);
  }

  lemma StartCounted()
    ensures Counted(START)
  {
  }

  lemma RoomToClose(k: Row)
    ensures Counted(k) && k.open.Some? ==> |k.fields| + 1 < FIELDS
  {
  }

  lemma HeldStart(starts: array<int>, ends: array<int>, k: Row)
    requires Holds(starts, ends, k.fields, k.open)
    ensures |k.fields| < FIELDS == starts.Length && (k.open.Some? ==> starts[|k.fields|] == k.open.value)
  {
  }

  lemma HeldAll(starts: array<int>, ends: array<int>, fields: seq<Option<Field>>)
    requires Holds(starts, ends, fields, None)
    ensures starts.Length == ends.Length == FIELDS && |fields| < FIELDS
    ensures forall j | 0 <= j < |fields| :: FieldIn(starts[j], ends[j], fields[j])
    ensures forall j | |fields| <= j < FIELDS :: starts[j] == -1 && ends[j] == -1
  {
  }
}
