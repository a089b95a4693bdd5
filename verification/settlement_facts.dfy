/** What the greedy settlement contract pins down: the run of turns is unique, on
    balances in whole cents with equal totals the turns settle everyone exactly, and
    two small groups show where the reported payments still fall short. */
module SettlementFacts {
  import opened Ledger
  import opened Money
  import opened Settlements
  import opened Sorting

  // ---------------------------------------------------------------------------
  // The greedy run is unique

  /** Two greedy runs agree on every turn both have taken. */
  lemma {:induction false} GreedyPrefix(cs: seq<MemberBalance>, ds: seq<MemberBalance>,
                                        s1: seq<Step>, s2: seq<Step>, n: nat)
    requires Greedy(cs, ds, s1) && Greedy(cs, ds, s2)
    requires n <= |s1| && n <= |s2|
    ensures s1[..n] == s2[..n]
  {
    if n > 0 {
      GreedyPrefix(cs, ds, s1, s2, n - 1);
      var k := n - 1;
      assert GreedyTurn(cs, ds, s1[..k], s1[k]) && GreedyTurn(cs, ds, s2[..k], s2[k]);
      assert s1[k] == s2[k];
      assert s1[..n] == s1[..k] + [s1[k]];
      assert s2[..n] == s2[..k] + [s2[k]];
    }
  }

  /** A stopped greedy run cannot be extended by another greedy turn. */
  lemma StoppedIsLast(cs: seq<MemberBalance>, ds: seq<MemberBalance>, s: seq<Step>, t: seq<Step>)
    requires Greedy(cs, ds, s) && Stopped(cs, ds, s)
    requires Greedy(cs, ds, t) && |s| <= |t|
    ensures |s| == |t|
  {
    if |s| < |t| {
      var k := |s|;
      assert GreedyTurn(cs, ds, t[..k], t[k]);
      assert s[..k] == s;
      GreedyPrefix(cs, ds, s, t, k);
    }
  }

  /** The contract of the settlement loop allows exactly one run of turns. */
  lemma GreedyUnique(cs: seq<MemberBalance>, ds: seq<MemberBalance>, s1: seq<Step>, s2: seq<Step>)
    requires Greedy(cs, ds, s1) && Stopped(cs, ds, s1)
    requires Greedy(cs, ds, s2) && Stopped(cs, ds, s2)
    ensures s1 == s2
  {
    if |s1| <= |s2| {
      StoppedIsLast(cs, ds, s1, s2);
    } else {
      StoppedIsLast(cs, ds, s2, s1);
    }
    GreedyPrefix(cs, ds, s1, s2, |s1|);
    assert s1[..|s1|] == s1 && s2[..|s2|] == s2;
  }

  // ---------------------------------------------------------------------------
  // Whole cents

  predicate CentsBalances(xs: seq<MemberBalance>) {
    forall k :: 0 <= k < |xs| ==> IsCents(xs[k].balance)
  }

  predicate CentsAmounts(steps: seq<Step>, n: nat)
    requires n <= |steps|
  {
    forall k :: 0 <= k < n ==> IsCents(steps[k].amount)
  }

  /** Totals of whole-cent turns are whole cents. */
  lemma {:induction false} SettledCents(steps: seq<Step>, p: nat)
    requires CentsAmounts(steps, |steps|)
    ensures IsCents(SettledTo(steps, p)) && IsCents(SettledFrom(steps, p))
  {
    if steps == [] {
      assert 0.0 * 100.0 == 0 as real;
    } else {
      var init, last := steps[..|steps| - 1], steps[|steps| - 1];
      assert CentsAmounts(init, |init|) by {
        forall k | 0 <= k < |init|
          ensures IsCents(init[k].amount)
        {
          assert init[k] == steps[k];
        }
      }
      SettledCents(init, p);
      assert IsCents(last.amount);
      assert 0.0 * 100.0 == 0 as real;
      CentsArithmetic(SettledTo(init, p), if last.creditor == p then last.amount else 0.0);
      CentsArithmetic(SettledFrom(init, p), if last.debtor == p then last.amount else 0.0);
    }
  }

  /** On whole-cent balances every greedy turn moves a whole number of cents. */
  lemma {:induction false} GreedyCents(cs: seq<MemberBalance>, ds: seq<MemberBalance>, steps: seq<Step>, n: nat)
    requires CentsBalances(cs) && CentsBalances(ds)
    requires Greedy(cs, ds, steps) && n <= |steps|
    ensures CentsAmounts(steps, n)
  {
    if n > 0 {
      var k := n - 1;
      GreedyCents(cs, ds, steps, k);
      PrefixCents(steps, k);
      GreedyTurnAt(cs, ds, steps, k);
      TurnCents(cs, ds, steps[..k], steps[k]);
    }
  }

  /** Turn k of a greedy run is the greedy turn after the turns before it. */
  lemma GreedyTurnAt(cs: seq<MemberBalance>, ds: seq<MemberBalance>, steps: seq<Step>, k: nat)
    requires Greedy(cs, ds, steps) && k < |steps|
    ensures k > 0 ==> steps[..k][k - 1].creditor < |cs| && steps[..k][k - 1].debtor < |ds|
    ensures GreedyTurn(cs, ds, steps[..k], steps[k])
  {
    if k > 0 {
      assert steps[..k][k - 1] == steps[k - 1];
    }
  }

  lemma PrefixCents(steps: seq<Step>, k: nat)
    requires k <= |steps| && CentsAmounts(steps, k)
    ensures CentsAmounts(steps[..k], k)
  {
    forall l | 0 <= l < k
      ensures IsCents(steps[..k][l].amount)
    {
      assert steps[..k][l] == steps[l];
    }
  }

  /** A greedy turn after whole-cent turns, on whole-cent balances, is whole cents. */
  lemma TurnCents(cs: seq<MemberBalance>, ds: seq<MemberBalance>, before: seq<Step>, st: Step)
    requires CentsBalances(cs) && CentsBalances(ds) && CentsAmounts(before, |before|)
    requires before != [] ==> before[|before| - 1].creditor < |cs| && before[|before| - 1].debtor < |ds|
    requires GreedyTurn(cs, ds, before, st)
    ensures IsCents(st.amount)
  {
    var c, d := st.creditor, st.debtor;
    SettledCents(before, c);
    SettledCents(before, d);
    CentsArithmetic(cs[c].balance, SettledTo(before, c));
    CentsArithmetic(ds[d].balance, SettledFrom(before, d));
  }

  // Totals over the first n positions of a work list.

  function BalanceOfFirst(xs: seq<MemberBalance>, n: nat): real
    requires n <= |xs|
  {
    if n == 0 then 0.0 else BalanceOfFirst(xs, n - 1) + xs[n - 1].balance
  }

  function LeftToFirst(cs: seq<MemberBalance>, steps: seq<Step>, n: nat): real
    requires n <= |cs|
  {
    if n == 0 then 0.0 else LeftToFirst(cs, steps, n - 1) + LeftTo(cs, steps, n - 1)
  }

  function LeftFromFirst(ds: seq<MemberBalance>, steps: seq<Step>, n: nat): real
    requires n <= |ds|
  {
    if n == 0 then 0.0 else LeftFromFirst(ds, steps, n - 1) + LeftFrom(ds, steps, n - 1)
  }

  lemma {:induction false} LeftToFirstIs(cs: seq<MemberBalance>, steps: seq<Step>, n: nat)
    requires n <= |cs|
    ensures LeftToFirst(cs, steps, n) == BalanceOfFirst(cs, n) - ReceivedByFirst(steps, n)
  {
    if n > 0 {
      LeftToFirstIs(cs, steps, n - 1);
    }
  }

  lemma {:induction false} LeftFromFirstIs(ds: seq<MemberBalance>, steps: seq<Step>, n: nat)
    requires n <= |ds|
    ensures LeftFromFirst(ds, steps, n) == BalanceOfFirst(ds, n) - PaidByFirst(steps, n)
  {
    if n > 0 {
      LeftFromFirstIs(ds, steps, n - 1);
    }
  }

  lemma {:induction false} LeftToAllZero(cs: seq<MemberBalance>, steps: seq<Step>, n: nat)
    requires n <= |cs|
    requires forall c :: 0 <= c < n ==> LeftTo(cs, steps, c) >= 0.0
    requires LeftToFirst(cs, steps, n) == 0.0
    ensures forall c :: 0 <= c < n ==> LeftTo(cs, steps, c) == 0.0
  {
    if n > 0 {
      assert LeftToFirst(cs, steps, n - 1) >= 0.0 by {
        LeftToNonNegative(cs, steps, n - 1);
      }
      LeftToAllZero(cs, steps, n - 1);
    }
  }

  lemma {:induction false} LeftToNonNegative(cs: seq<MemberBalance>, steps: seq<Step>, n: nat)
    requires n <= |cs|
    requires forall c :: 0 <= c < n ==> LeftTo(cs, steps, c) >= 0.0
    ensures LeftToFirst(cs, steps, n) >= 0.0
  {
    if n > 0 {
      LeftToNonNegative(cs, steps, n - 1);
    }
  }

  lemma {:induction false} LeftFromAllZero(ds: seq<MemberBalance>, steps: seq<Step>, n: nat)
    requires n <= |ds|
    requires forall d :: 0 <= d < n ==> LeftFrom(ds, steps, d) >= 0.0
    requires LeftFromFirst(ds, steps, n) == 0.0
    ensures forall d :: 0 <= d < n ==> LeftFrom(ds, steps, d) == 0.0
  {
    if n > 0 {
      assert LeftFromFirst(ds, steps, n - 1) >= 0.0 by {
        LeftFromNonNegative(ds, steps, n - 1);
      }
      LeftFromAllZero(ds, steps, n - 1);
    }
  }

  lemma {:induction false} LeftFromNonNegative(ds: seq<MemberBalance>, steps: seq<Step>, n: nat)
    requires n <= |ds|
    requires forall d :: 0 <= d < n ==> LeftFrom(ds, steps, d) >= 0.0
    ensures LeftFromFirst(ds, steps, n) >= 0.0
  {
    if n > 0 {
      LeftFromNonNegative(ds, steps, n - 1);
    }
  }

  /** On whole-cent work lists whose two sides add up to the same total, the turns of
      the loop settle everyone exactly, and each turn is either reported at exactly
      the amount it moves or is a turn of exactly one cent, which is not reported.
      The facts required besides whole cents and equal totals are what the loop's
      contract guarantees. */
  lemma WholeCentsSettle(cs: seq<MemberBalance>, ds: seq<MemberBalance>, steps: seq<Step>)
    requires CentsBalances(cs) && CentsBalances(ds)
    requires BalanceOfFirst(cs, |cs|) == BalanceOfFirst(ds, |ds|)
    requires Greedy(cs, ds, steps)
    requires forall k :: 0 <= k < |steps| ==> steps[k].amount >= Threshold
    requires forall c :: 0 <= c < |cs| ==> SettledTo(steps, c) <= cs[c].balance
    requires forall d :: 0 <= d < |ds| ==> SettledFrom(steps, d) <= ds[d].balance
    requires || (forall c :: 0 <= c < |cs| ==> cs[c].balance - SettledTo(steps, c) < Threshold)
             || (forall d :: 0 <= d < |ds| ==> ds[d].balance - SettledFrom(steps, d) < Threshold)
    ensures forall c :: 0 <= c < |cs| ==> SettledTo(steps, c) == cs[c].balance
    ensures forall d :: 0 <= d < |ds| ==> SettledFrom(steps, d) == ds[d].balance
    ensures forall k :: 0 <= k < |steps| ==>
      || steps[k].amount == Threshold
      || (steps[k].amount > Threshold && Round2(steps[k].amount) == steps[k].amount)
  {
    GreedyCents(cs, ds, steps, |steps|);
    CentTurns(steps);
    LeftToCents(cs, steps);
    LeftFromCents(ds, steps);
    if forall c :: 0 <= c < |cs| ==> cs[c].balance - SettledTo(steps, c) < Threshold {
      CreditorsDrained(cs, ds, steps);
    } else {
      DebtorsDrained(cs, ds, steps);
    }
  }

  /** A turn of whole cents and at least one cent is one cent or is reported as is. */
  lemma CentTurns(steps: seq<Step>)
    requires CentsAmounts(steps, |steps|)
    requires forall k :: 0 <= k < |steps| ==> steps[k].amount >= Threshold
    ensures forall k :: 0 <= k < |steps| ==>
      || steps[k].amount == Threshold
      || (steps[k].amount > Threshold && Round2(steps[k].amount) == steps[k].amount)
  {
    forall k | 0 <= k < |steps|
      ensures steps[k].amount == Threshold || Round2(steps[k].amount) == steps[k].amount
    {
      RoundCentsIdentity(steps[k].amount);
    }
  }

  /** What is left to a creditor after whole-cent turns is whole cents, never negative. */
  lemma LeftToCents(cs: seq<MemberBalance>, steps: seq<Step>)
    requires CentsBalances(cs) && CentsAmounts(steps, |steps|)
    requires forall c :: 0 <= c < |cs| ==> SettledTo(steps, c) <= cs[c].balance
    ensures forall c :: 0 <= c < |cs| ==> IsCents(LeftTo(cs, steps, c)) && LeftTo(cs, steps, c) >= 0.0
  {
    forall c | 0 <= c < |cs|
      ensures IsCents(LeftTo(cs, steps, c)) && LeftTo(cs, steps, c) >= 0.0
    {
      SettledCents(steps, c);
      CentsArithmetic(cs[c].balance, SettledTo(steps, c));
    }
  }

  /** What is left for a debtor after whole-cent turns is whole cents, never negative. */
  lemma LeftFromCents(ds: seq<MemberBalance>, steps: seq<Step>)
    requires CentsBalances(ds) && CentsAmounts(steps, |steps|)
    requires forall d :: 0 <= d < |ds| ==> SettledFrom(steps, d) <= ds[d].balance
    ensures forall d :: 0 <= d < |ds| ==> IsCents(LeftFrom(ds, steps, d)) && LeftFrom(ds, steps, d) >= 0.0
  {
    forall d | 0 <= d < |ds|
      ensures IsCents(LeftFrom(ds, steps, d)) && LeftFrom(ds, steps, d) >= 0.0
    {
      SettledCents(steps, d);
      CentsArithmetic(ds[d].balance, SettledFrom(steps, d));
    }
  }

  /** The turns leave both sides with the same total still open. */
  lemma LeftTotalsEqual(cs: seq<MemberBalance>, ds: seq<MemberBalance>, steps: seq<Step>)
    requires StepsWithin(steps, |cs|, |ds|)
    requires BalanceOfFirst(cs, |cs|) == BalanceOfFirst(ds, |ds|)
    ensures LeftToFirst(cs, steps, |cs|) == LeftFromFirst(ds, steps, |ds|)
  {
    MovedConserved(steps, |cs|, |ds|);
    LeftToFirstIs(cs, steps, |cs|);
    LeftFromFirstIs(ds, steps, |ds|);
  }

  /** Once every creditor has less than a cent left, in whole cents nothing is left on
      either side. */
  lemma CreditorsDrained(cs: seq<MemberBalance>, ds: seq<MemberBalance>, steps: seq<Step>)
    requires StepsWithin(steps, |cs|, |ds|)
    requires BalanceOfFirst(cs, |cs|) == BalanceOfFirst(ds, |ds|)
    requires forall c :: 0 <= c < |cs| ==> IsCents(LeftTo(cs, steps, c)) && LeftTo(cs, steps, c) >= 0.0
    requires forall d :: 0 <= d < |ds| ==> LeftFrom(ds, steps, d) >= 0.0
    requires forall c :: 0 <= c < |cs| ==> cs[c].balance - SettledTo(steps, c) < Threshold
    ensures forall c :: 0 <= c < |cs| ==> SettledTo(steps, c) == cs[c].balance
    ensures forall d :: 0 <= d < |ds| ==> SettledFrom(steps, d) == ds[d].balance
  {
    forall c | 0 <= c < |cs|
      ensures LeftTo(cs, steps, c) == 0.0 && SettledTo(steps, c) == cs[c].balance
    {
      SmallCentsZero(LeftTo(cs, steps, c));
    }
    LeftTotalsEqual(cs, ds, steps);
    LeftToAllZeroSum(cs, steps, |cs|);
    LeftFromAllZero(ds, steps, |ds|);
    forall d | 0 <= d < |ds|
      ensures SettledFrom(steps, d) == ds[d].balance
    {
      assert LeftFrom(ds, steps, d) == 0.0;
    }
  }

  /** Once every debtor has less than a cent left, in whole cents nothing is left on
      either side. */
  lemma DebtorsDrained(cs: seq<MemberBalance>, ds: seq<MemberBalance>, steps: seq<Step>)
    requires StepsWithin(steps, |cs|, |ds|)
    requires BalanceOfFirst(cs, |cs|) == BalanceOfFirst(ds, |ds|)
    requires forall c :: 0 <= c < |cs| ==> LeftTo(cs, steps, c) >= 0.0
    requires forall d :: 0 <= d < |ds| ==> IsCents(LeftFrom(ds, steps, d)) && LeftFrom(ds, steps, d) >= 0.0
    requires forall d :: 0 <= d < |ds| ==> ds[d].balance - SettledFrom(steps, d) < Threshold
    ensures forall c :: 0 <= c < |cs| ==> SettledTo(steps, c) == cs[c].balance
    ensures forall d :: 0 <= d < |ds| ==> SettledFrom(steps, d) == ds[d].balance
  {
    forall d | 0 <= d < |ds|
      ensures LeftFrom(ds, steps, d) == 0.0 && SettledFrom(steps, d) == ds[d].balance
    {
      SmallCentsZero(LeftFrom(ds, steps, d));
    }
    LeftTotalsEqual(cs, ds, steps);
    LeftFromAllZeroSum(ds, steps, |ds|);
    LeftToAllZero(cs, steps, |cs|);
    forall c | 0 <= c < |cs|
      ensures SettledTo(steps, c) == cs[c].balance
    {
      assert LeftTo(cs, steps, c) == 0.0;
    }
  }

  lemma {:induction false} LeftToAllZeroSum(cs: seq<MemberBalance>, steps: seq<Step>, n: nat)
    requires n <= |cs|
    requires forall c :: 0 <= c < n ==> LeftTo(cs, steps, c) == 0.0
    ensures LeftToFirst(cs, steps, n) == 0.0
  {
    if n > 0 {
      LeftToAllZeroSum(cs, steps, n - 1);
    }
  }

  lemma {:induction false} LeftFromAllZeroSum(ds: seq<MemberBalance>, steps: seq<Step>, n: nat)
    requires n <= |ds|
    requires forall d :: 0 <= d < n ==> LeftFrom(ds, steps, d) == 0.0
    ensures LeftFromFirst(ds, steps, n) == 0.0
  {
    if n > 0 {
      LeftFromAllZeroSum(ds, steps, n - 1);
    }
  }

  // ---------------------------------------------------------------------------
  // Where the payments fall short

  /** Two members owed one cent each and one member owing two cents: the balances add
      up to 0, but neither one-cent entry counts as a creditor, so there is no one to
      pay and nothing is proposed while the debtor still owes two cents. */
  lemma SubCentEntriesIgnored()
    ensures var bs := [MemberBalance("a", "A", 0.01), MemberBalance("b", "B", 0.01), MemberBalance("c", "C", -0.02)];
      && bs[0].balance + bs[1].balance + bs[2].balance == 0.0
      && Creditors(bs) == []
      && Debtors(bs) == [MemberBalance("c", "C", 0.02)]
  {
  }

  /** A turn of a little more than a cent is reported, rounded down to exactly one cent:
      the reported payments are at least a cent, not more than a cent. */
  lemma CentPaymentReported()
    ensures var cs, ds := [MemberBalance("a", "A", 0.012)], [MemberBalance("b", "B", 0.012)];
      && StepsWithin([Step(0, 0, 0.012)], |cs|, |ds|)
      && Emit([Step(0, 0, 0.012)], cs, ds) == [Settlement("b", "B", "a", "A", 0.01)]
  {
    assert JsRound(0.012 * 100.0) == 1;
    assert [Step(0, 0, 0.012)][..0] == [];
  }

  function OneCentGroup(): seq<MemberBalance> {
    [MemberBalance("a", "A", 0.05), MemberBalance("b", "B", -0.04),
     MemberBalance("c", "C", -0.03), MemberBalance("d", "D", 0.02)]
  }

  /** The greedy run on `OneCentGroup`: B pays A 0.04, which leaves A owed exactly one
      cent; C then pays that cent to A; C and D settle the last 0.02. */
  function OneCentRun(): seq<Step> {
    [Step(0, 0, 0.04), Step(0, 1, 0.01), Step(1, 1, 0.02)]
  }

  function OneCentCreditors(): seq<MemberBalance> {
    [MemberBalance("a", "A", 0.05), MemberBalance("d", "D", 0.02)]
  }

  function OneCentDebtors(): seq<MemberBalance> {
    [MemberBalance("b", "B", 0.04), MemberBalance("c", "C", 0.03)]
  }

  /** The work lists of `OneCentGroup`: creditors and debtors, each largest first. */
  lemma OneCentWorkLists()
    ensures Creditors(OneCentGroup()) == OneCentCreditors()
    ensures Debtors(OneCentGroup()) == OneCentDebtors()
  {
    OneCentEntries();
    SortedPair(OneCentCreditors()[0], OneCentCreditors()[1]);
    SortedPair(OneCentDebtors()[0], OneCentDebtors()[1]);
    assert OneCentCreditors() == [OneCentCreditors()[0], OneCentCreditors()[1]];
    assert OneCentDebtors() == [OneCentDebtors()[0], OneCentDebtors()[1]];
  }

  lemma OneCentEntries()
    ensures CreditorEntries(OneCentGroup()) == OneCentCreditors()
    ensures DebtorEntries(OneCentGroup()) == OneCentDebtors()
  {
    var bs := OneCentGroup();
    assert bs[1..][1..][1..][1..] == [];
    assert CreditorEntries(bs[1..][1..][1..]) == [bs[3]];
    assert DebtorEntries(bs[1..][1..][1..]) == [];
    assert DebtorEntries(bs[1..][1..]) == [MemberBalance("c", "C", 0.03)];
  }

  /** Two entries already in order are left as they are by the sort. */
  lemma SortedPair(a: MemberBalance, b: MemberBalance)
    requires AtLeast(a, b)
    ensures InsertionSort([a, b], AtLeast) == [a, b]
  {
    assert [a, b][1..] == [b];
    assert [b][1..] == [];
    assert InsertionSort([b], AtLeast) == [b];
  }

  /** Each turn of `OneCentRun` is the greedy one after the turns before it. */
  lemma OneCentFirstTurn()
    ensures GreedyTurn(OneCentCreditors(), OneCentDebtors(), [], Step(0, 0, 0.04))
  {
  }

  lemma OneCentSecondTurn()
    ensures GreedyTurn(OneCentCreditors(), OneCentDebtors(), [Step(0, 0, 0.04)], Step(0, 1, 0.01))
  {
    var cs, ds, before := OneCentCreditors(), OneCentDebtors(), [Step(0, 0, 0.04)];
    assert before[..0] == [];
    assert LeftTo(cs, before, 0) == 0.01 && LeftFrom(ds, before, 0) == 0.0;
    assert LeftFrom(ds, before, 1) == 0.03;
  }

  lemma OneCentThirdTurn()
    ensures GreedyTurn(OneCentCreditors(), OneCentDebtors(), [Step(0, 0, 0.04), Step(0, 1, 0.01)], Step(1, 1, 0.02))
  {
    var cs, ds, before := OneCentCreditors(), OneCentDebtors(), [Step(0, 0, 0.04), Step(0, 1, 0.01)];
    var first := before[..1];
    assert first == [Step(0, 0, 0.04)] && first[..0] == [];
    assert SettledTo(first, 0) == 0.04 && SettledTo(first, 1) == 0.0 && SettledFrom(first, 1) == 0.0;
    assert LeftTo(cs, before, 0) == 0.0 && LeftFrom(ds, before, 1) == 0.02;
    assert LeftTo(cs, before, 1) == 0.02;
  }

  lemma OneCentRunIsGreedy()
    ensures Greedy(OneCentCreditors(), OneCentDebtors(), OneCentRun())
    ensures Stopped(OneCentCreditors(), OneCentDebtors(), OneCentRun())
  {
    var cs, ds := OneCentCreditors(), OneCentDebtors();
    var s0, s1, s2 := Step(0, 0, 0.04), Step(0, 1, 0.01), Step(1, 1, 0.02);
    assert Greedy(cs, ds, []);
    OneCentFirstTurn();
    GreedyStep(cs, ds, [], s0);
    OneCentSecondTurn();
    assert [] + [s0] == [s0];
    GreedyStep(cs, ds, [s0], s1);
    OneCentThirdTurn();
    assert [s0] + [s1] == [s0, s1];
    GreedyStep(cs, ds, [s0, s1], s2);
    assert [s0, s1] + [s2] == OneCentRun();
    OneCentStops();
  }

  lemma OneCentStops()
    ensures StepsWithin(OneCentRun(), 2, 2)
    ensures PositionsAfter(OneCentCreditors(), OneCentDebtors(), OneCentRun()) == (2, 2)
  {
    var cs, ds := OneCentCreditors(), OneCentDebtors();
    var s0, s1, s2 := Step(0, 0, 0.04), Step(0, 1, 0.01), Step(1, 1, 0.02);
    assert [] + [s0] == [s0] && [s0] + [s1] == [s0, s1] && [s0, s1] + [s2] == OneCentRun();
    AppendStep([], s0, 1, 1);
    AppendStep([s0], s1, 1, 1);
    AppendStep([s0, s1], s2, 1, 1);
    var run := OneCentRun();
    assert SettledTo(run, 1) == 0.02 && SettledFrom(run, 1) == 0.03;
    assert LeftTo(cs, run, 1) == 0.0 && LeftFrom(ds, run, 1) == 0.0;
  }

  /** The payments reported for `OneCentRun`: the one-cent turn is left out. */
  lemma OneCentEmit()
    ensures StepsWithin(OneCentRun(), 2, 2)
    ensures Emit(OneCentRun(), OneCentCreditors(), OneCentDebtors())
         == [Settlement("b", "B", "a", "A", 0.04), Settlement("c", "C", "d", "D", 0.02)]
  {
    var cs, ds, run := OneCentCreditors(), OneCentDebtors(), OneCentRun();
    var two := run[..2];
    var one := two[..1];
    assert two == [Step(0, 0, 0.04), Step(0, 1, 0.01)] && one == [Step(0, 0, 0.04)] && one[..0] == [];
    RoundCentsIdentity(0.04);
    RoundCentsIdentity(0.02);
    var first, last := Settlement("b", "B", "a", "A", 0.04), Settlement("c", "C", "d", "D", 0.02);
    assert Report(Step(0, 0, 0.04), cs, ds) == first;
    assert Report(Step(1, 1, 0.02), cs, ds) == last;
    assert Emit(one, cs, ds) == [first];
    assert Emit(two, cs, ds) == [first];
  }

  /** On `OneCentGroup`, whose work lists `OneCentWorkLists` computes, the turns settle
      everyone exactly, yet only two payments are proposed: the one-cent turn from C to A
      is carried out but not reported, so following the payments leaves A owed 0.01 and
      C owing 0.01. Any run that meets the loop's contract is this one. */
  lemma OneCentTurnUnreported(steps: seq<Step>)
    requires Greedy(OneCentCreditors(), OneCentDebtors(), steps)
    requires Stopped(OneCentCreditors(), OneCentDebtors(), steps)
    ensures steps == [Step(0, 0, 0.04), Step(0, 1, 0.01), Step(1, 1, 0.02)]
    ensures Emit(steps, OneCentCreditors(), OneCentDebtors())
         == [Settlement("b", "B", "a", "A", 0.04), Settlement("c", "C", "d", "D", 0.02)]
  {
    OneCentRunIsGreedy();
    GreedyUnique(OneCentCreditors(), OneCentDebtors(), steps, OneCentRun());
    OneCentEmit();
  }
}
