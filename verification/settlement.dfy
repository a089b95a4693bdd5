/** The greedy settlement solver: pairs the largest remaining creditor with the largest
    remaining debtor, moves the smaller of their two balances, and advances past
    whichever side drops below a cent. */
module Settlements {
  import opened Ledger
  import opened Money
  import opened Sorting

  /** Balances within a cent of zero count as settled. */
  const Threshold: real := 0.01

  /** The order of both work lists: a larger balance comes first. A comparator of
      `b.balance - a.balance` keeps a before b exactly when a's balance is not smaller,
      and the stable sort keeps equal balances in input order. */
  predicate AtLeast(a: MemberBalance, b: MemberBalance) {
    a.balance >= b.balance
  }

  lemma AtLeastIsTotalPreorder()
    ensures Total(AtLeast) && Transitive(AtLeast)
  {
  }

  /** The entries owed money, copied. */
  function CreditorEntries(bs: seq<MemberBalance>): seq<MemberBalance> {
    if bs == [] then []
    else (if bs[0].balance > Threshold then [bs[0]] else []) + CreditorEntries(bs[1..])
  }

  /** The entries owing money, copied with their balance made positive. */
  function DebtorEntries(bs: seq<MemberBalance>): seq<MemberBalance> {
    if bs == [] then []
    else (if bs[0].balance < -Threshold then [bs[0].(balance := Abs(bs[0].balance))] else [])
         + DebtorEntries(bs[1..])
  }

  function Creditors(bs: seq<MemberBalance>): seq<MemberBalance> {
    InsertionSort(CreditorEntries(bs), AtLeast)
  }

  function Debtors(bs: seq<MemberBalance>): seq<MemberBalance> {
    InsertionSort(DebtorEntries(bs), AtLeast)
  }

  /** The entry a debtor record was copied from. */
  predicate OwesAs(b: MemberBalance, x: MemberBalance) {
    b.balance < -Threshold && x == MemberBalance(b.memberId, b.memberName, -b.balance)
  }

  lemma {:induction false} CreditorEntriesMembers(bs: seq<MemberBalance>)
    ensures forall x :: x in CreditorEntries(bs) <==> x in bs && x.balance > Threshold
  {
    if bs != [] {
      CreditorEntriesMembers(bs[1..]);
      assert bs == [bs[0]] + bs[1..];
    }
  }

  lemma {:induction false} DebtorEntriesMembers(bs: seq<MemberBalance>)
    ensures forall x :: x in DebtorEntries(bs) <==> exists b :: b in bs && OwesAs(b, x)
  {
    if bs != [] {
      DebtorEntriesMembers(bs[1..]);
      assert bs == [bs[0]] + bs[1..];
      forall x | x in DebtorEntries(bs)
        ensures exists b :: b in bs && OwesAs(b, x)
      {
        if x !in DebtorEntries(bs[1..]) {
          assert OwesAs(bs[0], x);
        }
      }
      forall x | exists b :: b in bs && OwesAs(b, x)
        ensures x in DebtorEntries(bs)
      {
        var b :| b in bs && OwesAs(b, x);
        if b != bs[0] {
          assert b in bs[1..];
        }
      }
    }
  }

  /** The creditors are exactly the entries with more than a cent owed to them, largest
      first, with entries of equal balance in input order. */
  lemma CreditorsSpec(bs: seq<MemberBalance>, v: MemberBalance)
    ensures forall x :: x in Creditors(bs) <==> x in bs && x.balance > Threshold
    ensures SortedBy(Creditors(bs), AtLeast)
    ensures EquivalentTo(Creditors(bs), AtLeast, v) == EquivalentTo(CreditorEntries(bs), AtLeast, v)
  {
    CreditorEntriesMembers(bs);
    AtLeastIsTotalPreorder();
    InsertionSortSorted(CreditorEntries(bs), AtLeast);
    InsertionSortStable(CreditorEntries(bs), AtLeast, v);
    forall x
      ensures x in Creditors(bs) <==> x in CreditorEntries(bs)
    {
      assert x in Creditors(bs) <==> x in multiset(Creditors(bs));
      assert x in CreditorEntries(bs) <==> x in multiset(CreditorEntries(bs));
    }
  }

  /** The debtors are exactly the entries owing more than a cent, with the amount owed as
      a positive balance, largest first, entries of equal balance in input order. */
  lemma DebtorsSpec(bs: seq<MemberBalance>, v: MemberBalance)
    ensures forall x :: x in Debtors(bs) <==> exists b :: b in bs && OwesAs(b, x)
    ensures SortedBy(Debtors(bs), AtLeast)
    ensures EquivalentTo(Debtors(bs), AtLeast, v) == EquivalentTo(DebtorEntries(bs), AtLeast, v)
  {
    DebtorEntriesMembers(bs);
    AtLeastIsTotalPreorder();
    InsertionSortSorted(DebtorEntries(bs), AtLeast);
    InsertionSortStable(DebtorEntries(bs), AtLeast, v);
    forall x
      ensures x in Debtors(bs) <==> x in DebtorEntries(bs)
    {
      assert x in Debtors(bs) <==> x in multiset(Debtors(bs));
      assert x in DebtorEntries(bs) <==> x in multiset(DebtorEntries(bs));
    }
  }

  /** One turn of the loop: `amount` moves from debtor number `debtor` to creditor number
      `creditor` (positions in the sorted work lists), whether or not it is reported. */
  datatype Step = Step(creditor: nat, debtor: nat, amount: real)

  predicate StepsWithin(steps: seq<Step>, creditors: nat, debtors: nat) {
    forall k :: 0 <= k < |steps| ==> steps[k].creditor < creditors && steps[k].debtor < debtors
  }

  /** The total moved to creditor c. */
  function SettledTo(steps: seq<Step>, c: nat): real {
    if steps == [] then 0.0
    else
      var last := steps[|steps| - 1];
      SettledTo(steps[..|steps| - 1], c) + (if last.creditor == c then last.amount else 0.0)
  }

  /** The total moved away from debtor d. */
  function SettledFrom(steps: seq<Step>, d: nat): real {
    if steps == [] then 0.0
    else
      var last := steps[|steps| - 1];
      SettledFrom(steps[..|steps| - 1], d) + (if last.debtor == d then last.amount else 0.0)
  }

  /** Everything the steps move. */
  function Moved(steps: seq<Step>): real {
    if steps == [] then 0.0 else Moved(steps[..|steps| - 1]) + steps[|steps| - 1].amount
  }

  /** What the first n creditors receive, in total. */
  function ReceivedByFirst(steps: seq<Step>, n: nat): real {
    if n == 0 then 0.0 else ReceivedByFirst(steps, n - 1) + SettledTo(steps, n - 1)
  }

  /** What the first n debtors pay, in total. */
  function PaidByFirst(steps: seq<Step>, n: nat): real {
    if n == 0 then 0.0 else PaidByFirst(steps, n - 1) + SettledFrom(steps, n - 1)
  }

  lemma {:induction false} ReceivedByFirstAppend(steps: seq<Step>, st: Step, n: nat)
    ensures ReceivedByFirst(steps + [st], n) == ReceivedByFirst(steps, n) + (if st.creditor < n then st.amount else 0.0)
    ensures PaidByFirst(steps + [st], n) == PaidByFirst(steps, n) + (if st.debtor < n then st.amount else 0.0)
  {
    if n > 0 {
      ReceivedByFirstAppend(steps, st, n - 1);
      AppendStep(steps, st, n - 1, n - 1);
    }
  }

  /** Money is only moved, never made or lost: all creditors together receive exactly
      what all debtors together pay. */
  lemma {:induction false} MovedConserved(steps: seq<Step>, creditors: nat, debtors: nat)
    requires StepsWithin(steps, creditors, debtors)
    ensures ReceivedByFirst(steps, creditors) == Moved(steps)
    ensures PaidByFirst(steps, debtors) == Moved(steps)
  {
    if steps == [] {
      ZeroReceived(creditors, debtors);
    } else {
      var init, last := steps[..|steps| - 1], steps[|steps| - 1];
      assert steps == init + [last];
      MovedConserved(init, creditors, debtors);
      ReceivedByFirstAppend(init, last, creditors);
      ReceivedByFirstAppend(init, last, debtors);
    }
  }

  lemma {:induction false} ZeroReceived(creditors: nat, debtors: nat)
    ensures ReceivedByFirst([], creditors) == 0.0 && PaidByFirst([], debtors) == 0.0
  {
    if creditors > 0 {
      ZeroReceived(creditors - 1, debtors);
    }
    if debtors > 0 {
      ZeroReceived(creditors, debtors - 1);
    }
  }

  /** The payment a step reports: from its debtor to its creditor, rounded to cents. */
  function Report(st: Step, cs: seq<MemberBalance>, ds: seq<MemberBalance>): (s: Settlement)
    requires st.creditor < |cs| && st.debtor < |ds|
    ensures s.fromMemberId == ds[st.debtor].memberId && s.fromMemberName == ds[st.debtor].memberName
    ensures s.toMemberId == cs[st.creditor].memberId && s.toMemberName == cs[st.creditor].memberName
    ensures st.amount - 0.005 < s.amount <= st.amount + 0.005 && IsCents(s.amount)
  {
    Settlement(ds[st.debtor].memberId, ds[st.debtor].memberName,
               cs[st.creditor].memberId, cs[st.creditor].memberName, Round2(st.amount))
  }

  /** The settlements reported for a run of steps: one per step that moves more than a
      cent; a step of exactly one cent is carried out but not reported. */
  function Emit(steps: seq<Step>, cs: seq<MemberBalance>, ds: seq<MemberBalance>): seq<Settlement>
    requires StepsWithin(steps, |cs|, |ds|)
  {
    if steps == [] then []
    else
      var last := steps[|steps| - 1];
      Emit(steps[..|steps| - 1], cs, ds) + (if last.amount > Threshold then [Report(last, cs, ds)] else [])
  }

  /** Every reported settlement stems from one step of more than a cent. */
  lemma {:induction false} EmitFromSteps(steps: seq<Step>, cs: seq<MemberBalance>, ds: seq<MemberBalance>)
    requires StepsWithin(steps, |cs|, |ds|)
    ensures |Emit(steps, cs, ds)| <= |steps|
    ensures forall s :: s in Emit(steps, cs, ds) ==>
      exists k :: 0 <= k < |steps| && steps[k].amount > Threshold && s == Report(steps[k], cs, ds)
  {
    if steps != [] {
      var init := steps[..|steps| - 1];
      EmitFromSteps(init, cs, ds);
      forall s | s in Emit(steps, cs, ds)
        ensures exists k :: 0 <= k < |steps| && steps[k].amount > Threshold && s == Report(steps[k], cs, ds)
      {
        if s in Emit(init, cs, ds) {
          var k :| 0 <= k < |init| && init[k].amount > Threshold && s == Report(init[k], cs, ds);
          assert steps[k] == init[k];
        } else {
          assert steps[|steps| - 1].amount > Threshold;
        }
      }
    }
  }

  /** Reported payments are whole cents of at least one cent, no more of them than steps. */
  lemma {:induction false} EmitAmounts(steps: seq<Step>, cs: seq<MemberBalance>, ds: seq<MemberBalance>)
    requires StepsWithin(steps, |cs|, |ds|)
    ensures |Emit(steps, cs, ds)| <= |steps|
    ensures forall s :: s in Emit(steps, cs, ds) ==> s.amount >= 0.01 && IsCents(s.amount)
  {
    EmitFromSteps(steps, cs, ds);
    forall s | s in Emit(steps, cs, ds)
      ensures s.amount >= 0.01 && IsCents(s.amount)
    {
      var k :| 0 <= k < |steps| && steps[k].amount > Threshold && s == Report(steps[k], cs, ds);
      RoundAtLeastCent(steps[k].amount);
    }
  }

  lemma AppendStep(steps: seq<Step>, st: Step, c: nat, d: nat)
    ensures SettledTo(steps + [st], c) == SettledTo(steps, c) + (if st.creditor == c then st.amount else 0.0)
    ensures SettledFrom(steps + [st], d) == SettledFrom(steps, d) + (if st.debtor == d then st.amount else 0.0)
  {
    assert (steps + [st])[..|steps|] == steps;
  }

  lemma AppendEmit(steps: seq<Step>, st: Step, cs: seq<MemberBalance>, ds: seq<MemberBalance>)
    requires StepsWithin(steps, |cs|, |ds|)
    requires st.creditor < |cs| && st.debtor < |ds|
    ensures StepsWithin(steps + [st], |cs|, |ds|)
    ensures Emit(steps + [st], cs, ds) == Emit(steps, cs, ds) + (if st.amount > Threshold then [Report(st, cs, ds)] else [])
  {
    assert (steps + [st])[..|steps|] == steps;
  }

  /** Unique member ids, as the member table guarantees. */
  predicate DistinctIds(bs: seq<MemberBalance>) {
    forall p, q :: 0 <= p < q < |bs| ==> bs[p].memberId != bs[q].memberId
  }

  /** A reported payment goes from a member owing more than a cent to a member owed more
      than a cent, and is a whole number of cents of at least one cent. */
  predicate Reportable(s: Settlement, bs: seq<MemberBalance>) {
    && s.amount >= 0.01
    && IsCents(s.amount)
    && (exists b :: b in bs && b.balance < -Threshold && b.memberId == s.fromMemberId && b.memberName == s.fromMemberName)
    && (exists b :: b in bs && b.balance > Threshold && b.memberId == s.toMemberId && b.memberName == s.toMemberName)
  }

  lemma EmitReportable(steps: seq<Step>, bs: seq<MemberBalance>)
    requires StepsWithin(steps, |Creditors(bs)|, |Debtors(bs)|)
    ensures forall s :: s in Emit(steps, Creditors(bs), Debtors(bs)) ==> Reportable(s, bs)
    ensures DistinctIds(bs) ==>
      forall s :: s in Emit(steps, Creditors(bs), Debtors(bs)) ==> s.fromMemberId != s.toMemberId
  {
    var cs, ds := Creditors(bs), Debtors(bs);
    CreditorsSpec(bs, MemberBalance("", "", 0.0));
    DebtorsSpec(bs, MemberBalance("", "", 0.0));
    EmitFromSteps(steps, cs, ds);
    forall s | s in Emit(steps, cs, ds)
      ensures Reportable(s, bs)
      ensures DistinctIds(bs) ==> s.fromMemberId != s.toMemberId
    {
      var k :| 0 <= k < |steps| && steps[k].amount > Threshold && s == Report(steps[k], cs, ds);
      RoundAtLeastCent(steps[k].amount);
      var c, d := cs[steps[k].creditor], ds[steps[k].debtor];
      assert c in cs && d in ds;
      var b :| b in bs && OwesAs(b, d);
      assert c in bs && c.balance > Threshold;
      if DistinctIds(bs) {
        var p :| 0 <= p < |bs| && bs[p] == b;
        var q :| 0 <= q < |bs| && bs[q] == c;
        assert p != q;
      }
    }
  }

  /** Takes `amount` off the balance at position p of a work list. */
  function Pay(xs: seq<MemberBalance>, p: nat, amount: real): (r: seq<MemberBalance>)
    requires p < |xs|
    ensures |r| == |xs|
  {
    xs[p := xs[p].(balance := xs[p].balance - amount)]
  }

  /** Moves past position p once what is left there is below a cent. */
  function Advance(xs: seq<MemberBalance>, p: nat): nat
    requires p < |xs|
  {
    if xs[p].balance < Threshold then p + 1 else p
  }

  /** What is left of creditor c's balance once the steps are done. */
  function LeftTo(cs: seq<MemberBalance>, steps: seq<Step>, c: nat): real
    requires c < |cs|
  {
    cs[c].balance - SettledTo(steps, c)
  }

  /** What is left of debtor d's debt once the steps are done. */
  function LeftFrom(ds: seq<MemberBalance>, steps: seq<Step>, d: nat): real
    requires d < |ds|
  {
    ds[d].balance - SettledFrom(steps, d)
  }

  /** Where the loop stands on a work list after a turn at p that leaves `left` there. */
  function NextPosition(left: real, p: nat): nat {
    if left < Threshold then p + 1 else p
  }

  /** The pair of positions the loop stands at after the steps: (0, 0) before the
      first turn. */
  function PositionsAfter(cs: seq<MemberBalance>, ds: seq<MemberBalance>, steps: seq<Step>): (nat, nat)
    requires steps != [] ==> steps[|steps| - 1].creditor < |cs| && steps[|steps| - 1].debtor < |ds|
  {
    if steps == [] then (0, 0)
    else
      var last := steps[|steps| - 1];
      (NextPosition(LeftTo(cs, steps, last.creditor), last.creditor),
       NextPosition(LeftFrom(ds, steps, last.debtor), last.debtor))
  }

  /** After the turns `before`, the greedy turn is `st`: it stands where those turns
      left the loop, and moves the smaller of what is left to the creditor and of the
      debtor there. */
  predicate GreedyTurn(cs: seq<MemberBalance>, ds: seq<MemberBalance>, before: seq<Step>, st: Step)
    requires before != [] ==> before[|before| - 1].creditor < |cs| && before[|before| - 1].debtor < |ds|
  {
    && st.creditor < |cs| && st.debtor < |ds|
    && PositionsAfter(cs, ds, before) == (st.creditor, st.debtor)
    && st.amount == Min(LeftTo(cs, before, st.creditor), LeftFrom(ds, before, st.debtor))
  }

  /** Every turn is the greedy one after the turns before it. */
  predicate Greedy(cs: seq<MemberBalance>, ds: seq<MemberBalance>, steps: seq<Step>) {
    && StepsWithin(steps, |cs|, |ds|)
    && forall k :: 0 <= k < |steps| ==> GreedyTurn(cs, ds, steps[..k], steps[k])
  }

  /** The loop has stopped: it has moved past every creditor or past every debtor. */
  predicate Stopped(cs: seq<MemberBalance>, ds: seq<MemberBalance>, steps: seq<Step>)
    requires StepsWithin(steps, |cs|, |ds|)
  {
    PositionsAfter(cs, ds, steps).0 == |cs| || PositionsAfter(cs, ds, steps).1 == |ds|
  }

  /** The greedy turn at the current positions extends a greedy run. */
  lemma GreedyStep(cs: seq<MemberBalance>, ds: seq<MemberBalance>, steps: seq<Step>, st: Step)
    requires Greedy(cs, ds, steps)
    requires GreedyTurn(cs, ds, steps, st)
    ensures Greedy(cs, ds, steps + [st])
  {
    var steps' := steps + [st];
    forall k | 0 <= k < |steps'|
      ensures GreedyTurn(cs, ds, steps'[..k], steps'[k])
    {
      if k < |steps| {
        assert steps'[..k] == steps[..k];
      } else {
        assert steps'[..k] == steps;
      }
    }
  }

  /** What the loop keeps about a work list at position p: each entry is its sorted
      original less what has moved through it, never negative, and below a cent exactly
      at the positions already passed. */
  ghost predicate Remaining(originals: seq<MemberBalance>, xs: seq<MemberBalance>, p: nat, settled: nat -> real) {
    && |xs| == |originals| && p <= |xs|
    && (forall c :: 0 <= c < |xs| ==> xs[c] == originals[c].(balance := originals[c].balance - settled(c)))
    && (forall c :: 0 <= c < |xs| ==> xs[c].balance >= 0.0)
    && (forall c :: 0 <= c < |xs| ==> (xs[c].balance < Threshold <==> c < p))
  }

  /** The turns so far visit position pairs in strictly increasing order, all behind the
      current pair (i, j), each moving at least a cent. */
  ghost predicate Advancing(steps: seq<Step>, i: nat, j: nat) {
    && |steps| <= i + j
    && (forall k :: 0 <= k < |steps| ==>
          && steps[k].amount >= Threshold && steps[k].creditor <= i && steps[k].debtor <= j
          && k <= steps[k].creditor + steps[k].debtor < i + j)
    && (forall k, l :: 0 <= k < l < |steps| ==>
          && steps[k].creditor <= steps[l].creditor && steps[k].debtor <= steps[l].debtor
          && steps[k].creditor + steps[k].debtor < steps[l].creditor + steps[l].debtor)
  }

  ghost predicate LoopInvariant(cs: seq<MemberBalance>, ds: seq<MemberBalance>,
                                creditors: seq<MemberBalance>, debtors: seq<MemberBalance>,
                                i: nat, j: nat, steps: seq<Step>) {
    && StepsWithin(steps, |cs|, |ds|)
    && Remaining(cs, creditors, i, (c: nat) => SettledTo(steps, c))
    && Remaining(ds, debtors, j, (d: nat) => SettledFrom(steps, d))
    && Advancing(steps, i, j)
  }

  lemma PayRemaining(originals: seq<MemberBalance>, xs: seq<MemberBalance>, p: nat,
                     settled: nat -> real, settled': nat -> real, amount: real)
    requires Remaining(originals, xs, p, settled) && p < |xs|
    requires 0.0 <= amount <= xs[p].balance
    requires forall c :: settled'(c) == settled(c) + (if c == p then amount else 0.0)
    ensures Remaining(originals, Pay(xs, p, amount), Advance(Pay(xs, p, amount), p), settled')
  {
  }

  /** A turn at (i, j) that moves past at least one of the two positions keeps the
      turns in order. */
  lemma AdvancingStep(steps: seq<Step>, i: nat, j: nat, amount: real, i': nat, j': nat)
    requires Advancing(steps, i, j)
    requires amount >= Threshold
    requires i <= i' && j <= j' && i + j < i' + j'
    ensures Advancing(steps + [Step(i, j, amount)], i', j')
  {
  }

  /** The totals after one more step. */
  lemma SettledAfter(steps: seq<Step>, st: Step)
    ensures forall c: nat :: SettledTo(steps + [st], c) == SettledTo(steps, c) + (if c == st.creditor then st.amount else 0.0)
    ensures forall d: nat :: SettledFrom(steps + [st], d) == SettledFrom(steps, d) + (if d == st.debtor then st.amount else 0.0)
  {
    forall c: nat
      ensures SettledTo(steps + [st], c) == SettledTo(steps, c) + (if c == st.creditor then st.amount else 0.0)
      ensures SettledFrom(steps + [st], c) == SettledFrom(steps, c) + (if c == st.debtor then st.amount else 0.0)
    {
      AppendStep(steps, st, c, c);
    }
  }

  /** One turn keeps the invariant and moves at least one position forward. */
  lemma Turn(cs: seq<MemberBalance>, ds: seq<MemberBalance>,
             creditors: seq<MemberBalance>, debtors: seq<MemberBalance>,
             i: nat, j: nat, steps: seq<Step>)
    requires LoopInvariant(cs, ds, creditors, debtors, i, j, steps)
    requires i < |creditors| && j < |debtors|
    ensures var amount := Min(creditors[i].balance, debtors[j].balance);
      var creditors', debtors' := Pay(creditors, i, amount), Pay(debtors, j, amount);
      var i', j' := Advance(creditors', i), Advance(debtors', j);
      && LoopInvariant(cs, ds, creditors', debtors', i', j', steps + [Step(i, j, amount)])
      && i + j < i' + j'
  {
    var amount := Min(creditors[i].balance, debtors[j].balance);
    var st := Step(i, j, amount);
    SettledAfter(steps, st);
    PayRemaining(cs, creditors, i, (c: nat) => SettledTo(steps, c), (c: nat) => SettledTo(steps + [st], c), amount);
    PayRemaining(ds, debtors, j, (d: nat) => SettledFrom(steps, d), (d: nat) => SettledFrom(steps + [st], d), amount);
    var creditors', debtors' := Pay(creditors, i, amount), Pay(debtors, j, amount);
    assert creditors'[i].balance == 0.0 || debtors'[j].balance == 0.0;
    var i', j' := Advance(creditors', i), Advance(debtors', j);
    AdvancingStep(steps, i, j, amount, i', j');
  }

  /** The turn the loop takes is the greedy one, and it leaves the loop where
      `PositionsAfter` says. */
  lemma TurnGreedy(cs: seq<MemberBalance>, ds: seq<MemberBalance>,
                   creditors: seq<MemberBalance>, debtors: seq<MemberBalance>,
                   i: nat, j: nat, steps: seq<Step>)
    requires LoopInvariant(cs, ds, creditors, debtors, i, j, steps)
    requires i < |creditors| && j < |debtors|
    ensures var amount := Min(creditors[i].balance, debtors[j].balance);
      && amount == Min(LeftTo(cs, steps, i), LeftFrom(ds, steps, j))
      && PositionsAfter(cs, ds, steps + [Step(i, j, amount)])
         == (Advance(Pay(creditors, i, amount), i), Advance(Pay(debtors, j, amount), j))
  {
    var amount := Min(creditors[i].balance, debtors[j].balance);
    var st := Step(i, j, amount);
    assert creditors[i].balance == LeftTo(cs, steps, i);
    assert debtors[j].balance == LeftFrom(ds, steps, j);
    AppendStep(steps, st, i, j);
  }

  /** When the loop stops, one side is used up, and what has moved respects every
      balance. */
  lemma Finish(cs: seq<MemberBalance>, ds: seq<MemberBalance>,
               creditors: seq<MemberBalance>, debtors: seq<MemberBalance>,
               i: nat, j: nat, steps: seq<Step>)
    requires LoopInvariant(cs, ds, creditors, debtors, i, j, steps)
    requires i == |cs| || j == |ds|
    ensures |steps| > 0 ==> |steps| <= |cs| + |ds| - 1
    ensures |cs| == 0 || |ds| == 0 ==> steps == []
    ensures forall c :: 0 <= c < |cs| ==> SettledTo(steps, c) <= cs[c].balance
    ensures forall d :: 0 <= d < |ds| ==> SettledFrom(steps, d) <= ds[d].balance
    ensures || (forall c :: 0 <= c < |cs| ==> cs[c].balance - SettledTo(steps, c) < Threshold)
            || (forall d :: 0 <= d < |ds| ==> ds[d].balance - SettledFrom(steps, d) < Threshold)
  {
    if |steps| > 0 {
      var last := steps[|steps| - 1];
      assert last.creditor < |cs| && last.debtor < |ds|;
    }
    forall c | 0 <= c < |cs|
      ensures SettledTo(steps, c) <= cs[c].balance
    {
      assert creditors[c].balance >= 0.0;
    }
    forall d | 0 <= d < |ds|
      ensures SettledFrom(steps, d) <= ds[d].balance
    {
      assert debtors[d].balance >= 0.0;
    }
    if i == |cs| {
      forall c | 0 <= c < |cs|
        ensures cs[c].balance - SettledTo(steps, c) < Threshold
      {
        assert creditors[c].balance < Threshold;
      }
    } else {
      forall d | 0 <= d < |ds|
        ensures ds[d].balance - SettledFrom(steps, d) < Threshold
      {
        assert debtors[d].balance < Threshold;
      }
    }
  }

  /** Before the first turn nothing has moved and no position has been passed. */
  lemma Start(cs: seq<MemberBalance>, ds: seq<MemberBalance>)
    requires forall c :: 0 <= c < |cs| ==> cs[c].balance > Threshold
    requires forall d :: 0 <= d < |ds| ==> ds[d].balance > Threshold
    ensures LoopInvariant(cs, ds, cs, ds, 0, 0, [])
  {
    assert forall c: nat :: SettledTo([], c) == 0.0;
    assert forall d: nat :: SettledFrom([], d) == 0.0;
  }

  /** The sorted work lists start with every balance above a cent. */
  lemma StartAboveThreshold(bs: seq<MemberBalance>)
    ensures forall c :: 0 <= c < |Creditors(bs)| ==> Creditors(bs)[c].balance > Threshold
    ensures forall d :: 0 <= d < |Debtors(bs)| ==> Debtors(bs)[d].balance > Threshold
  {
    var cs, ds := Creditors(bs), Debtors(bs);
    CreditorsSpec(bs, MemberBalance("", "", 0.0));
    DebtorsSpec(bs, MemberBalance("", "", 0.0));
    forall c | 0 <= c < |cs|
      ensures cs[c].balance > Threshold
    {
      assert cs[c] in cs;
    }
    forall d | 0 <= d < |ds|
      ensures ds[d].balance > Threshold
    {
      assert ds[d] in ds;
      var b :| b in bs && OwesAs(b, ds[d]);
    }
  }

  /** The loop over two indices of `calculateSettlements`, run on the sorted work lists. */
  method SettleSorted(cs: seq<MemberBalance>, ds: seq<MemberBalance>)
    returns (settlements: seq<Settlement>, ghost steps: seq<Step>)
    requires forall c :: 0 <= c < |cs| ==> cs[c].balance > Threshold
    requires forall d :: 0 <= d < |ds| ==> ds[d].balance > Threshold
    ensures StepsWithin(steps, |cs|, |ds|)
    ensures settlements == Emit(steps, cs, ds)
    ensures forall s :: s in settlements ==> s.amount >= 0.01 && IsCents(s.amount)
    ensures |cs| == 0 || |ds| == 0 ==> settlements == []
    ensures |settlements| > 0 ==> |settlements| <= |cs| + |ds| - 1
    ensures |steps| > 0 ==> |steps| <= |cs| + |ds| - 1
    ensures |cs| == 0 || |ds| == 0 ==> steps == []
    ensures Greedy(cs, ds, steps) && Stopped(cs, ds, steps)
    ensures forall k, l :: 0 <= k < l < |steps| ==>
      && steps[k].creditor <= steps[l].creditor && steps[k].debtor <= steps[l].debtor
      && steps[k].creditor + steps[k].debtor < steps[l].creditor + steps[l].debtor
    ensures forall k :: 0 <= k < |steps| ==> steps[k].amount >= Threshold
    ensures forall c :: 0 <= c < |cs| ==> SettledTo(steps, c) <= cs[c].balance
    ensures forall d :: 0 <= d < |ds| ==> SettledFrom(steps, d) <= ds[d].balance
    ensures || (forall c :: 0 <= c < |cs| ==> cs[c].balance - SettledTo(steps, c) < Threshold)
            || (forall d :: 0 <= d < |ds| ==> ds[d].balance - SettledFrom(steps, d) < Threshold)
  {
    var creditors, debtors := cs, ds;
    Start(cs, ds);
    settlements := [];
    steps := [];
    var i: nat, j: nat := 0, 0;
    while i < |creditors| && j < |debtors|
      invariant LoopInvariant(cs, ds, creditors, debtors, i, j, steps)
      invariant Greedy(cs, ds, steps) && PositionsAfter(cs, ds, steps) == (i, j)
      invariant settlements == Emit(steps, cs, ds)
      decreases |cs| - i + |ds| - j
    {
      var amount := Min(creditors[i].balance, debtors[j].balance);
      ghost var st := Step(i, j, amount);
      AppendEmit(steps, st, cs, ds);
      TurnGreedy(cs, ds, creditors, debtors, i, j, steps);
      GreedyStep(cs, ds, steps, st);
      if amount > Threshold {
        settlements := settlements + [Settlement(debtors[j].memberId, debtors[j].memberName,
                                                 creditors[i].memberId, creditors[i].memberName,
                                                 Round2(amount))];
      }
      Turn(cs, ds, creditors, debtors, i, j, steps);
      steps := steps + [st];
      creditors := Pay(creditors, i, amount);
      debtors := Pay(debtors, j, amount);
      i := Advance(creditors, i);
      j := Advance(debtors, j);
    }
    Finish(cs, ds, creditors, debtors, i, j, steps);
    EmitAmounts(steps, cs, ds);
  }

  /** `calculateSettlements`: sorts both sides, then settles them greedily. Besides the
      payments it returns the run of loop turns behind them, against which its
      bookkeeping is stated. */
  method CalculateSettlements(balances: seq<MemberBalance>)
    returns (settlements: seq<Settlement>, ghost steps: seq<Step>)
    ensures StepsWithin(steps, |Creditors(balances)|, |Debtors(balances)|)
    ensures settlements == Emit(steps, Creditors(balances), Debtors(balances))
    // every reported payment is well formed and between opposite sides
    ensures forall s :: s in settlements ==> Reportable(s, balances)
    ensures DistinctIds(balances) ==> forall s :: s in settlements ==> s.fromMemberId != s.toMemberId
    // nothing to settle when one side is empty; otherwise fewer payments than members involved
    ensures |Creditors(balances)| == 0 || |Debtors(balances)| == 0 ==> settlements == []
    ensures |settlements| <= |steps|
    // each turn moves the smaller remainder at the loop's current positions, until a side is used up
    ensures Greedy(Creditors(balances), Debtors(balances), steps)
    ensures Stopped(Creditors(balances), Debtors(balances), steps)
    ensures |steps| > 0 ==> |steps| <= |Creditors(balances)| + |Debtors(balances)| - 1
    // creditor-major order: the pair of positions strictly advances
    ensures forall k, l :: 0 <= k < l < |steps| ==>
      && steps[k].creditor <= steps[l].creditor && steps[k].debtor <= steps[l].debtor
      && steps[k].creditor + steps[k].debtor < steps[l].creditor + steps[l].debtor
    ensures forall k :: 0 <= k < |steps| ==> steps[k].amount >= Threshold
    // nobody receives more than owed or pays more than owing
    ensures forall c :: 0 <= c < |Creditors(balances)| ==> SettledTo(steps, c) <= Creditors(balances)[c].balance
    ensures forall d :: 0 <= d < |Debtors(balances)| ==> SettledFrom(steps, d) <= Debtors(balances)[d].balance
    // one side ends within a cent of settled throughout
    ensures || (forall c :: 0 <= c < |Creditors(balances)| ==>
                  Creditors(balances)[c].balance - SettledTo(steps, c) < Threshold)
            || (forall d :: 0 <= d < |Debtors(balances)| ==>
                  Debtors(balances)[d].balance - SettledFrom(steps, d) < Threshold)
  {
    var creditors := Creditors(balances);
    var debtors := Debtors(balances);
    StartAboveThreshold(balances);
    settlements, steps := SettleSorted(creditors, debtors);
    EmitFromSteps(steps, creditors, debtors);
    EmitReportable(steps, balances);
  }
}
