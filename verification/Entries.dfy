/** The records pass 1 stores in a section (src/codespace.h), over an arbitrary kind S of symbol
    reference: names in a source line, identities in the store, object references in the heap. */
module Entries {
  import opened Basics

  /** An effective address: opcode fields, extension words, and the symbol tagging the first word. */
  datatype Ea<+S> = Ea(mode: nat, reg: nat, ew: seq<Word>, sym: Option<S>)

  datatype Entry<+S> =
    | Instr(opsize: nat, ops: Word, eas: seq<Ea<S>>)
    | Data(dsize: nat, repeat: Long, value: Long, tag: Option<S>)
    | Label(sym: S)

  datatype SymFlag = Declare | Reference
  datatype SecFlag = Code | Data_ | Bss | Chip | Fast

  /** Bytes taken by the extension words of some effective addresses. */
  function EwBytes<S>(eas: seq<Ea<S>>): nat {
    if eas == [] then 0 else 2 * |eas[0].ew| + EwBytes(eas[1..])
  }

  /** The `size` field an entry is pushed with. */
  function EntrySize<S>(e: Entry<S>): Long {
    match e
    case Instr(opsize, _, eas) => Wrap32(opsize + EwBytes(eas))
    case Data(dsize, repeat, _, _) => Wrap32(dsize * repeat)
    case Label(_) => 0
  }

  /** The number of bytes pass 2 writes for an entry. */
  function Emitted<S>(e: Entry<S>): nat {
    match e
    case Instr(opsize, _, eas) => opsize + EwBytes(eas)
    case Data(dsize, _, _, _) => dsize
    case Label(_) => 0
  }

  function TotalEmitted<S>(es: seq<Entry<S>>): nat {
    if es == [] then 0 else Emitted(es[0]) + TotalEmitted(es[1..])
  }

  /** The sum of the size fields of a run of entries. */
  function SizeSum<S>(es: seq<Entry<S>>): nat {
    if es == [] then 0 else EntrySize(es[0]) + SizeSum(es[1..])
  }

  /** A data record whose stored size is the size of the single copy that is written. */
  predicate SingleCopy<S>(e: Entry<S>) {
    e.Data? ==> Wrap32(e.dsize * e.repeat) == e.dsize
  }
}
