/** The two address computations of the assembler agree: the sum `get_symbol_offset` forms over entry
    sizes (src/codespace.c:585-607), and the program counter carried by pass 2. */
module Agreement {
  import opened Basics
  import opened Entries
  import opened Pass2
  import opened Meaning

  lemma {:induction false} SearchHit(pre: seq<Entry<nat>>, post: seq<Entry<nat>>, s: nat, ofs: Long)
    requires Label(s) !in pre
    ensures Search(pre + [Label(s)] + post, s, ofs) == Ok(Wrap32(ofs + SizeSum(pre)))
    decreases |pre|
  {
    hide Wrap32, EntrySize;
    var es := pre + [Label(s)] + post;
    if pre == [] {
      assert es[0] == Label(s);
      WrapSmall(ofs);
    } else {
      assert es[0] == pre[0] && es[1..] == pre[1..] + [Label(s)] + post;
      SearchHit(pre[1..], post, s, Wrap32(ofs + EntrySize(pre[0])));
      WrapAdd(ofs + EntrySize(pre[0]), SizeSum(pre[1..]));
    }
  }

  /** The search succeeds exactly for labels that are in the list. */
  lemma {:induction false} SearchExact(es: seq<Entry<nat>>, s: nat, ofs: Long)
    ensures Search(es, s, ofs).Ok? <==> Label(s) in es
    ensures Search(es, s, ofs).Fail? ==> Search(es, s, ofs).error == UndeclaredSymbol
    decreases |es|
  {
    if es == [] || es[0] == Label(s) {
    } else {
      SearchExact(es[1..], s, Wrap32(ofs + EntrySize(es[0])));
      assert es == [es[0]] + es[1..];
    }
  }

  lemma {:induction false} SizeSumAppend(a: seq<Entry<nat>>, b: seq<Entry<nat>>)
    ensures SizeSum(a + b) == SizeSum(a) + SizeSum(b)
    decreases |a|
  {
    if a == [] {
      assert a + b == b;
    } else {
      assert (a + b)[1..] == a[1..] + b;
      SizeSumAppend(a[1..], b);
    }
  }

  lemma {:induction false} TotalEmittedAppend(a: seq<Entry<nat>>, b: seq<Entry<nat>>)
    ensures TotalEmitted(a + b) == TotalEmitted(a) + TotalEmitted(b)
    decreases |a|
  {
    if a == [] {
      assert a + b == b;
    } else {
      assert (a + b)[1..] == a[1..] + b;
      TotalEmittedAppend(a[1..], b);
    }
  }

  lemma {:induction false} WriteAppend(lay: Layout, owner: nat, k: Sink, a: seq<Entry<nat>>, b: seq<Entry<nat>>)
    requires lay.Valid()
    ensures WriteEntries(lay, owner, k, a + b) ==
            match WriteEntries(lay, owner, k, a)
            case Ok(k') => WriteEntries(lay, owner, k', b)
            case Fail(e) => Fail(e)
    decreases |a|
  {
    if a == [] {
      assert a + b == b;
    } else {
      assert (a + b)[0] == a[0] && (a + b)[1..] == a[1..] + b;
      match WriteEntry(lay, owner, k, a[0])
      case Fail(_) =>
      case Ok(k') => WriteAppend(lay, owner, k', a[1..], b);
    }
  }

  lemma {:induction false} SizesMatch(es: seq<Entry<nat>>)
    requires AllStorable(es) && forall i | 0 <= i < |es| :: SingleCopy(es[i])
    ensures Wrap32(SizeSum(es)) == Wrap32(TotalEmitted(es))
    decreases |es|
  {
    if es == [] {
    } else {
      SizesMatch(es[1..]);
      assert Storable(es[0]) && SingleCopy(es[0]);
      assert EntrySize(es[0]) == Wrap32(Emitted(es[0]));
      WrapAdd(Emitted(es[0]), SizeSum(es[1..]));
      WrapCong(SizeSum(es[1..]), TotalEmitted(es[1..]), Emitted(es[0]));
    }
  }

  /** When pass 2 reaches the first entry of a label, `get_symbol_offset` names that very place: the
      program counter, which is also the number of bytes in the section. Forward references and
      references from other sections included, as the answer does not depend on who asks. */
  lemma TwoPassAgreement(lay: Layout, i: nat, j: nat, s: nat, bss: bool)
    requires lay.Valid() && i < |lay.secs| && j < |lay.secs[i]| && lay.secs[i][j] == Label(s)
    requires s in lay.place && lay.place[s] == i && Label(s) !in lay.secs[i][..j]
    requires AllStorable(lay.secs[i][..j]) && forall m | 0 <= m < j :: SingleCopy(lay.secs[i][m])
    requires WriteEntries(lay, i, Start(bss), lay.secs[i][..j]).Ok?
    ensures var k := WriteEntries(lay, i, Start(bss), lay.secs[i][..j]).value;
      && SymbolOffset(lay, s) == Ok(k.pc)
      && k.pc == Wrap32(|k.bytes|)
  {
    var pre := lay.secs[i][..j];
    assert lay.secs[i] == pre + [Label(s)] + lay.secs[i][j + 1..];
    SearchHit(pre, lay.secs[i][j + 1..], s, 0);
    SizesMatch(pre);
    WriteEntriesGrows(lay, i, Start(bss), pre);
  }

  ghost predicate AgreesAt(lay: Layout, owner: nat, bss: bool, es: seq<Entry<nat>>, j: nat)
    requires lay.Valid() && j <= |es|
  {
    && WriteEntries(lay, owner, Start(bss), es[..j]).Ok?
    && Wrap32(SizeSum(es[..j])) == WriteEntries(lay, owner, Start(bss), es[..j]).value.pc
  }

  /** The two computations agree at every entry boundary of a section exactly when every data record
      was pushed with a size that is the size of one copy, that is, in effect, with repeat count one. */
  lemma AgreementExact(lay: Layout, owner: nat, bss: bool, es: seq<Entry<nat>>)
    requires lay.Valid() && AllStorable(es) && WriteEntries(lay, owner, Start(bss), es).Ok?
    ensures (forall j: nat | j <= |es| :: AgreesAt(lay, owner, bss, es, j))
       <==> (forall m: nat | m < |es| :: SingleCopy(es[m]))
  {
    forall j: nat | j <= |es|
      ensures WriteEntries(lay, owner, Start(bss), es[..j]).Ok?
      ensures WriteEntries(lay, owner, Start(bss), es[..j]).value.pc == Wrap32(TotalEmitted(es[..j]))
    {
      assert es == es[..j] + es[j..];
      WriteAppend(lay, owner, Start(bss), es[..j], es[j..]);
      WriteEntriesGrows(lay, owner, Start(bss), es[..j]);
    }
    if forall m: nat | m < |es| :: SingleCopy(es[m]) {
      forall j: nat | j <= |es| ensures AgreesAt(lay, owner, bss, es, j) {
        SizesMatch(es[..j]);
      }
    }
    if forall j: nat | j <= |es| :: AgreesAt(lay, owner, bss, es, j) {
      forall m: nat | m < |es| ensures SingleCopy(es[m]) {
        BoundaryStep(lay, owner, bss, es, m);
      }
    }
  }

  lemma BoundaryStep(lay: Layout, owner: nat, bss: bool, es: seq<Entry<nat>>, m: nat)
    requires lay.Valid() && AllStorable(es) && m < |es|
    requires AgreesAt(lay, owner, bss, es, m) && AgreesAt(lay, owner, bss, es, m + 1)
    requires forall j: nat | j <= |es| && WriteEntries(lay, owner, Start(bss), es[..j]).Ok? ::
      WriteEntries(lay, owner, Start(bss), es[..j]).value.pc == Wrap32(TotalEmitted(es[..j]))
    ensures SingleCopy(es[m])
  {
    hide WriteEntries, Wrap32;
    var e := es[m];
    var before := es[..m];
    assert es[..m + 1] == before + [e];
    SizeSumAppend(before, [e]);
    TotalEmittedAppend(before, [e]);
    assert SizeSum([e]) == EntrySize(e) && TotalEmitted([e]) == Emitted(e);
    assert Storable(e);
    WrapCong(SizeSum(before), TotalEmitted(before), EntrySize(e));
    if e.Data? { WrapCancel(TotalEmitted(before), EntrySize(e), Emitted(e)); }
  }

  /** A repeated record: the label after it is taken to be at 2 but stands at 1. */
  lemma RepeatCountBreaksAgreement()
    ensures var lay := Layout([[Data(1, 2, 0, None), Label(0)]], map[0 := 0]);
      && lay.Valid()
      && SymbolOffset(lay, 0) == Ok(2)
      && WriteEntries(lay, 0, Start(false), lay.secs[0][..1]).Ok?
      && WriteEntries(lay, 0, Start(false), lay.secs[0][..1]).value.pc == 1
  {
    var es: seq<Entry<nat>> := [Data(1, 2, 0, None), Label(0)];
    var lay := Layout([es], map[0 := 0]);
    assert es[1..] == [Label(0)];
    assert es[..1] == [es[0]];
    assert Search(es, 0, 0) == Search(es[1..], 0, 2);
    assert WriteEntry(lay, 0, Start(false), es[0]).value.pc == 1;
  }

  // ---------------------------------------------------------------- labels

  /** Every label stands in the section its symbol was pushed in, and nowhere else in it. */
  ghost predicate LabelsPlaced(lay: Layout) {
    && lay.Valid()
    && (forall i, m | 0 <= i < |lay.secs| && 0 <= m < |lay.secs[i]| && lay.secs[i][m].Label? ::
          lay.secs[i][m].sym in lay.place && lay.place[lay.secs[i][m].sym] == i)
    && (forall i, m, n | 0 <= i < |lay.secs| && 0 <= m < n < |lay.secs[i]| && lay.secs[i][m].Label? ::
          lay.secs[i][n] != lay.secs[i][m])
  }

  lemma LabelOffset(lay: Layout, i: nat, j: nat)
    requires LabelsPlaced(lay) && i < |lay.secs| && j < |lay.secs[i]| && lay.secs[i][j].Label?
    ensures SymbolOffset(lay, lay.secs[i][j].sym) == Ok(Wrap32(SizeSum(lay.secs[i][..j])))
  {
    var es := lay.secs[i];
    var s := es[j].sym;
    assert Label(s) !in es[..j];
    assert es == es[..j] + [Label(s)] + es[j + 1..];
    SearchHit(es[..j], es[j + 1..], s, 0);
  }

  lemma LabelAddress(lay: Layout, i: nat, j: nat, bases: seq<Long>)
    requires LabelsPlaced(lay) && |bases| == |lay.secs| && i < |lay.secs| && j < |lay.secs[i]|
    requires AllPlain(lay.secs[i]) && lay.secs[i][j].Label?
    ensures var s := lay.secs[i][j].sym;
      && s in AddressOf(lay, bases)
      && AddressOf(lay, bases)[s] == Wrap32(bases[i] + TotalEmitted(lay.secs[i][..j]))
  {
    LabelOffset(lay, i, j);
    SizesMatch(lay.secs[i][..j]);
    WrapAdd(TotalEmitted(lay.secs[i][..j]), bases[i]);
  }

  lemma {:induction false} LabelsFrom(lay: Layout, i: nat, j: nat, bases: seq<Long>)
    requires LabelsPlaced(lay) && |bases| == |lay.secs| && i < |lay.secs| && j <= |lay.secs[i]|
    requires AllPlain(lay.secs[i])
    ensures LabelsAt(lay.secs[i][j..], TotalEmitted(lay.secs[i][..j]), bases[i], AddressOf(lay, bases))
    decreases |lay.secs[i]| - j
  {
    var es := lay.secs[i];
    if j >= |es| {
    } else {
      LabelsFrom(lay, i, j + 1, bases);
      assert es[j..][0] == es[j] && es[j..][1..] == es[j + 1..];
      assert es[..j + 1] == es[..j] + [es[j]];
      TotalEmittedAppend(es[..j], [es[j]]);
      assert Plain(es[j]);
      WidthEmitted(es[j]);
      if es[j].Label? { LabelAddress(lay, i, j, bases); }
    }
  }

  /** Every label of every section, BSS or not, gets the address of the place where it stands. */
  lemma LabelsSound(lay: Layout, i: nat, bases: seq<Long>)
    requires LabelsPlaced(lay) && |bases| == |lay.secs| && i < |lay.secs| && AllPlain(lay.secs[i])
    ensures LabelsAt(lay.secs[i], 0, bases[i], AddressOf(lay, bases))
  {
    LabelsFrom(lay, i, 0, bases);
    assert lay.secs[i][0..] == lay.secs[i] && lay.secs[i][..0] == [];
  }
}
