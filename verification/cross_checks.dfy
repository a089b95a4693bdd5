/** Where the balance calculator and the CSV allocator meet. They read the same
    transaction differently on purpose (a zero converted amount, zero parts, exact
    amounts); on the transactions where neither difference applies, they agree. */
module CrossChecks {
  import opened Ledger
  import Balances
  import CsvExport

  /** The two defaults for the converted amount differ only on an explicit 0: the
      calculator falls back to the transaction amount, the export keeps the 0. */
  lemma AmountDefaultsDiffer(t: Transaction)
    ensures t.baseCurrencyAmount != Some(0.0) ==> CsvExport.BaseAmount(t) == Balances.EffectiveAmount(t)
    ensures t.baseCurrencyAmount == Some(0.0) ==>
      CsvExport.BaseAmount(t) == 0.0 && Balances.EffectiveAmount(t) == t.amount
  {
  }

  /** No split counts zero parts. */
  predicate NoZeroParts(ss: seq<Split>) {
    forall k :: 0 <= k < |ss| ==> ss[k].parts != Some(0.0)
  }

  /** The export's total of parts, taken from the front. */
  lemma {:induction false} TotalPartsFront(ss: seq<Split>)
    requires ss != []
    ensures CsvExport.TotalParts(ss) == ss[0].parts.GetOr(1.0) + CsvExport.TotalParts(ss[1..])
    decreases |ss|
  {
    var n := |ss|;
    if n > 1 {
      var init := ss[..n - 1];
      TotalPartsFront(init);
      assert init[1..] == ss[1..][..n - 2];
      assert CsvExport.TotalParts(ss[1..]) == CsvExport.TotalParts(init[1..]) + ss[n - 1].parts.GetOr(1.0);
    } else {
      assert ss[..0] == [] && ss[1..] == [];
    }
  }

  /** Without exact amounts and without zero parts, both totals of parts agree, and every
      split is parts-based for the calculator. */
  lemma {:induction false} PartsTotalsAgree(ss: seq<Split>)
    requires !CsvExport.HasExactAmounts(ss) && NoZeroParts(ss)
    ensures Balances.PartsSplits(ss) == ss
    ensures CsvExport.TotalParts(ss) == Balances.PartsTotal(ss)
  {
    if ss != [] {
      assert !CsvExport.HasExactAmounts(ss[1..]) && NoZeroParts(ss[1..]) by {
        forall k | 0 <= k < |ss[1..]|
          ensures ss[1..][k].exactAmount.None? && ss[1..][k].parts != Some(0.0)
        {
          assert ss[1..][k] == ss[k + 1];
        }
      }
      PartsTotalsAgree(ss[1..]);
      TotalPartsFront(ss);
      assert ss[0].exactAmount.None? && ss[0].parts != Some(0.0);
      assert ss == [ss[0]] + ss[1..];
    }
  }

  lemma ScaleSwap(b: real, p: real, total: real)
    requires total != 0.0
    ensures CsvExport.PartsShare(b, p, total) == b / total * p
  {
  }

  /** On a transaction with only parts-based splits, none of zero parts, a positive total
      of parts and no explicit zero converted amount, the export's unrounded share of a
      split is exactly what the calculator charges it: the amount per part times its
      parts. */
  lemma PartsModeAgrees(t: Transaction, s: Split)
    requires !CsvExport.HasExactAmounts(t.splits) && NoZeroParts(t.splits)
    requires CsvExport.TotalParts(t.splits) > 0.0
    requires t.baseCurrencyAmount != Some(0.0)
    requires s in t.splits
    ensures Balances.PartsTotal(Balances.PartsSplits(t.splits)) > 0.0
    ensures CsvExport.RawShare(t, s) == Balances.PerPart(t) * Balances.PartsOrOne(s)
  {
    PartsTotalsAgree(t.splits);
    AmountDefaultsDiffer(t);
    NoExactSplits(t.splits);
    var b, total := CsvExport.BaseAmount(t), CsvExport.TotalParts(t.splits);
    var p := s.parts.GetOr(1.0);
    var k :| 0 <= k < |t.splits| && t.splits[k] == s;
    assert s.parts != Some(0.0);
    assert Balances.PartsOrOne(s) == p;
    assert CsvExport.RawShare(t, s) == CsvExport.PartsShare(b, p, total);
    assert Balances.ExactTotal([]) == 0.0;
    assert Balances.PerPart(t) == b / total;
    ScaleSwap(b, p, total);
  }

  lemma {:induction false} NoExactSplits(ss: seq<Split>)
    requires !CsvExport.HasExactAmounts(ss)
    ensures Balances.ExactSplits(ss) == []
  {
    if ss != [] {
      assert !CsvExport.HasExactAmounts(ss[1..]) by {
        forall k | 0 <= k < |ss[1..]|
          ensures ss[1..][k].exactAmount.None?
        {
          assert ss[1..][k] == ss[k + 1];
        }
      }
      NoExactSplits(ss[1..]);
      assert ss[0].exactAmount.None?;
    }
  }
}
