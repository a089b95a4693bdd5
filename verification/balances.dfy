/** The balance calculator of src/composables/useBalances.ts: it folds a group's
    transactions into one signed balance per member, then rounds each balance to cents.

    The fold is modelled step by step, as the source performs it (payer first, then the
    exact splits, then the parts-based splits); `Delta` is an independent closed form of
    what one transaction does to one member, and the lemmas connect the two. */
module Balances {
  import opened Ledger
  import opened Money

  // ---------------------------------------------------------------------------
  // Per-transaction inputs, with the source's falsy (`||`) defaults

  /** `base_currency_amount || amount`: an absent OR ZERO converted amount falls back
      to the transaction amount. */
  function EffectiveAmount(t: Transaction): real {
    match t.baseCurrencyAmount
    case Some(b) => if b != 0.0 then b else t.amount
    case None => t.amount
  }

  /** `type || 'expense'`: legacy rows without a type are expenses. */
  function Kind(t: Transaction): TransactionType {
    t.kind.GetOr(Expense)
  }

  /** `x * payerMultiplier`: the payer is credited, except for income, where the payer
      received the money and is debited. The multiplier is written as a negation. */
  function PayerSigned(k: TransactionType, x: real): real {
    if k == Income then -x else x
  }

  /** `x * splitMultiplier`: split members are debited, except for income, where they
      are credited. */
  function SplitSigned(k: TransactionType, x: real): real {
    if k == Income then x else -x
  }

  predicate IsExact(s: Split) {
    s.exactAmount.Some?
  }

  /** `split.exact_amount || 0` */
  function ExactValue(s: Split): real {
    s.exactAmount.GetOr(0.0)
  }

  /** `split.parts || 1`: absent or zero parts count as one part. */
  function PartsOrOne(s: Split): real {
    match s.parts
    case Some(p) => if p != 0.0 then p else 1.0
    case None => 1.0
  }

  function ExactSplits(ss: seq<Split>): seq<Split> {
    if ss == [] then []
    else (if IsExact(ss[0]) then [ss[0]] else []) + ExactSplits(ss[1..])
  }

  function PartsSplits(ss: seq<Split>): seq<Split> {
    if ss == [] then []
    else (if IsExact(ss[0]) then [] else [ss[0]]) + PartsSplits(ss[1..])
  }

  /** `totalExactAmount` after the loop over `es`. */
  function ExactTotal(es: seq<Split>): real {
    if es == [] then 0.0 else ExactValue(es[0]) + ExactTotal(es[1..])
  }

  /** `totalParts`, the reduce over `ps`. */
  function PartsTotal(ps: seq<Split>): real {
    if ps == [] then 0.0 else PartsOrOne(ps[0]) + PartsTotal(ps[1..])
  }

  // ---------------------------------------------------------------------------
  // The fold, as the source performs it

  /** `balances[id] += d`. An id that is not a member accumulates NaN in the source under
      a key that is never read back; the visible effect is none, and so it is here. */
  function Credit(acc: map<string, real>, id: string, d: real): (r: map<string, real>)
    ensures r.Keys == acc.Keys
  {
    if id in acc then acc[id := acc[id] + d] else acc
  }

  /** A loop over splits that credits each split's member `amountOf(split)`, in order. */
  function CreditEach(acc: map<string, real>, ss: seq<Split>, amountOf: Split -> real): (r: map<string, real>)
    ensures r.Keys == acc.Keys
  {
    if ss == [] then acc
    else CreditEach(Credit(acc, ss[0].memberId, amountOf(ss[0])), ss[1..], amountOf)
  }

  /** What the loop over the exact splits credits: `exact_amount * splitMultiplier`. */
  function ExactAmount(k: TransactionType): Split -> real {
    s => SplitSigned(k, ExactValue(s))
  }

  /** What the loop over the parts-based splits credits: `amountPerPart * parts *
      splitMultiplier`, written `rate * parts` with `rate = amountPerPart * splitMultiplier`
      (the same factors in another order, which makes no difference over exact reals). */
  function PartsAmount(rate: real): Split -> real {
    s => rate * PartsOrOne(s)
  }

  /** The payer's credit followed by the loop over the exact splits. */
  function AfterExact(acc: map<string, real>, t: Transaction): (r: map<string, real>)
    ensures r.Keys == acc.Keys
  {
    var amount := EffectiveAmount(t);
    var afterPayer := Credit(acc, t.payer.id, PayerSigned(Kind(t), amount));
    CreditEach(afterPayer, ExactSplits(t.splits), ExactAmount(Kind(t)))
  }

  /** `amountPerPart`: what remains after the exact splits, divided by the total parts. */
  function PerPart(t: Transaction): real
    requires PartsTotal(PartsSplits(t.splits)) > 0.0
  {
    (EffectiveAmount(t) - ExactTotal(ExactSplits(t.splits))) / PartsTotal(PartsSplits(t.splits))
  }

  /** `amountPerPart * splitMultiplier`. */
  function SignedPerPart(t: Transaction): real
    requires PartsTotal(PartsSplits(t.splits)) > 0.0
  {
    SplitSigned(Kind(t), PerPart(t))
  }

  /** The body of `transactions.forEach` in `calculateBalances`. When no parts-based
      split contributes a positive total, nothing further happens. */
  function ApplyTransaction(acc: map<string, real>, t: Transaction): (r: map<string, real>)
    ensures r.Keys == acc.Keys
  {
    var parts := PartsSplits(t.splits);
    if PartsTotal(parts) > 0.0 then CreditEach(AfterExact(acc, t), parts, PartsAmount(SignedPerPart(t)))
    else AfterExact(acc, t)
  }

  function Fold(acc: map<string, real>, ts: seq<Transaction>): (r: map<string, real>)
    ensures r.Keys == acc.Keys
  {
    if ts == [] then acc else Fold(ApplyTransaction(acc, ts[0]), ts[1..])
  }

  function MemberIds(members: seq<Member>): set<string> {
    set m | m in members :: m.id
  }

  /** Every member starts at zero. */
  function InitialBalances(members: seq<Member>): map<string, real> {
    map id | id in MemberIds(members) :: 0.0
  }

  /** The unrounded accumulator after all transactions. */
  function Accumulate(members: seq<Member>, ts: seq<Transaction>): (r: map<string, real>)
    ensures r.Keys == MemberIds(members)
  {
    Fold(InitialBalances(members), ts)
  }

  // ---------------------------------------------------------------------------
  // A closed form: what one transaction does to one member

  /** The exact amounts charged to `id` in `ss`. */
  function ExactShare(ss: seq<Split>, id: string): real {
    if ss == [] then 0.0
    else (if ss[0].memberId == id && IsExact(ss[0]) then ExactValue(ss[0]) else 0.0) + ExactShare(ss[1..], id)
  }

  /** The number of parts `id` holds among the parts-based splits of `ss`. */
  function PartsWeight(ss: seq<Split>, id: string): real {
    if ss == [] then 0.0
    else (if ss[0].memberId == id && !IsExact(ss[0]) then PartsOrOne(ss[0]) else 0.0) + PartsWeight(ss[1..], id)
  }

  /** The change transaction t makes to member id's balance: the payer is credited the
      amount (debited for income); each split member is charged its exact amount, and the
      remainder is shared by parts (with the opposite sign). */
  function Delta(t: Transaction, id: string): real {
    PayerDelta(t, id) + ExactDelta(t, id) + PartsDelta(t, id)
  }

  /** The payer is credited the amount, or debited it for income. */
  function PayerDelta(t: Transaction, id: string): real {
    if id == t.payer.id then PayerSigned(Kind(t), EffectiveAmount(t)) else 0.0
  }

  /** Exact splits are charged (for income: paid) their exact amounts. */
  function ExactDelta(t: Transaction, id: string): real {
    SplitSigned(Kind(t), ExactShare(t.splits, id))
  }

  /** The remainder is shared by parts, when the parts add up to a positive total. */
  function PartsDelta(t: Transaction, id: string): real {
    if PartsTotal(PartsSplits(t.splits)) > 0.0 then SignedPerPart(t) * PartsWeight(t.splits, id)
    else 0.0
  }

  /** The sum of the deltas of all transactions for member id. */
  function NetDelta(ts: seq<Transaction>, id: string): real {
    if ts == [] then 0.0 else Delta(ts[0], id) + NetDelta(ts[1..], id)
  }

  // ---------------------------------------------------------------------------
  // The result

  /** `calculateBalances`: one entry per member in input order, with the member's net
      delta over all transactions rounded to cents. */
  function CalculateBalances(members: seq<Member>, ts: seq<Transaction>): (r: seq<MemberBalance>)
    ensures |r| == |members|
    ensures forall k :: 0 <= k < |members| ==>
      r[k].memberId == members[k].id && r[k].memberName == members[k].name
    ensures forall k :: 0 <= k < |members| ==> r[k].balance == Round2(NetDelta(ts, members[k].id))
    ensures forall k :: 0 <= k < |members| ==> IsCents(r[k].balance)
  {
    var acc := Accumulate(members, ts);
    AccumulateIsNetDelta(members, ts);
    seq(|members|, k requires 0 <= k < |members| =>
      MemberBalance(members[k].id, members[k].name, Round2(acc[members[k].id])))
  }

  /** `getBalancePercentage`: the balance as a whole percentage of the largest absolute
      balance, or 0 when that is 0. */
  function GetBalancePercentage(balance: real, maxBalance: real): (r: int)
    ensures maxBalance == 0.0 ==> r == 0
    ensures maxBalance != 0.0 ==>
      balance / maxBalance * 100.0 - 0.5 < r as real <= balance / maxBalance * 100.0 + 0.5
    ensures Abs(balance) <= maxBalance ==> -100 <= r <= 100
  {
    if maxBalance == 0.0 then 0
    else
      var ratio := balance / maxBalance;
      assert Abs(balance) <= maxBalance ==> -1.0 <= ratio <= 1.0 by {
        if Abs(balance) <= maxBalance {
          assert maxBalance > 0.0;
          assert ratio * maxBalance == balance;
        }
      }
      JsRound(ratio * 100.0)
  }

  // ---------------------------------------------------------------------------
  // The fold agrees with the closed form

  /** The total `amountOf` gives to the splits of `ss` naming `id`. */
  function AmountFor(ss: seq<Split>, amountOf: Split -> real, id: string): real {
    if ss == [] then 0.0
    else (if ss[0].memberId == id then amountOf(ss[0]) else 0.0) + AmountFor(ss[1..], amountOf, id)
  }

  /** The total `amountOf` gives to all splits of `ss`. */
  function AmountTotal(ss: seq<Split>, amountOf: Split -> real): real {
    if ss == [] then 0.0 else amountOf(ss[0]) + AmountTotal(ss[1..], amountOf)
  }

  lemma {:induction false} CreditEachAt(acc: map<string, real>, ss: seq<Split>, amountOf: Split -> real, id: string)
    requires id in acc
    ensures CreditEach(acc, ss, amountOf)[id] == acc[id] + AmountFor(ss, amountOf, id)
  {
    if ss != [] {
      CreditEachAt(Credit(acc, ss[0].memberId, amountOf(ss[0])), ss[1..], amountOf, id);
    }
  }

  /** The exact-splits loop credits each member its exact share, signed. */
  lemma {:induction false} ExactAmountFor(ss: seq<Split>, k: TransactionType, id: string)
    ensures AmountFor(ExactSplits(ss), ExactAmount(k), id) == SplitSigned(k, ExactShare(ss, id))
  {
    if ss != [] {
      var fs := ExactSplits(ss);
      ExactAmountFor(ss[1..], k, id);
      if IsExact(ss[0]) {
        assert fs == [ss[0]] + ExactSplits(ss[1..]);
        assert fs[0] == ss[0] && fs[1..] == ExactSplits(ss[1..]);
      } else {
        assert fs == ExactSplits(ss[1..]);
      }
    }
  }

  /** `AmountFor` restricted to the parts-based splits of `ss`. */
  function PartsAmountFor(ss: seq<Split>, amountOf: Split -> real, id: string): real {
    if ss == [] then 0.0
    else (if ss[0].memberId == id && !IsExact(ss[0]) then amountOf(ss[0]) else 0.0)
         + PartsAmountFor(ss[1..], amountOf, id)
  }

  lemma {:induction false} AmountForPartsSplits(ss: seq<Split>, amountOf: Split -> real, id: string)
    ensures AmountFor(PartsSplits(ss), amountOf, id) == PartsAmountFor(ss, amountOf, id)
  {
    if ss != [] {
      var fs := PartsSplits(ss);
      AmountForPartsSplits(ss[1..], amountOf, id);
      if !IsExact(ss[0]) {
        assert fs == [ss[0]] + PartsSplits(ss[1..]);
        assert fs[0] == ss[0] && fs[1..] == PartsSplits(ss[1..]);
      } else {
        assert fs == PartsSplits(ss[1..]);
      }
    }
  }

  /** The parts loop credits each member the rate times its parts. */
  lemma {:induction false} PartsAmountIsWeighted(ss: seq<Split>, rate: real, id: string)
    ensures PartsAmountFor(ss, PartsAmount(rate), id) == rate * PartsWeight(ss, id)
  {
    if ss != [] {
      PartsAmountIsWeighted(ss[1..], rate, id);
      Distribute(rate, if ss[0].memberId == id && !IsExact(ss[0]) then PartsOrOne(ss[0]) else 0.0, PartsWeight(ss[1..], id));
    }
  }

  lemma {:induction false} ExactAmountTotal(es: seq<Split>, k: TransactionType)
    ensures AmountTotal(es, ExactAmount(k)) == SplitSigned(k, ExactTotal(es))
  {
    if es != [] {
      ExactAmountTotal(es[1..], k);
    }
  }

  lemma {:induction false} PartsAmountTotal(ps: seq<Split>, rate: real)
    ensures AmountTotal(ps, PartsAmount(rate)) == rate * PartsTotal(ps)
  {
    if ps != [] {
      PartsAmountTotal(ps[1..], rate);
      Distribute(rate, PartsOrOne(ps[0]), PartsTotal(ps[1..]));
    }
  }

  lemma SignedScale(k: TransactionType, x: real, y: real)
    ensures SplitSigned(k, x) * y == SplitSigned(k, x * y)
  {
  }


  /** The filters keep only splits of `ss`, of their own kind. */
  lemma {:induction false} SplitsPartition(ss: seq<Split>)
    ensures forall s :: s in ExactSplits(ss) ==> s in ss && IsExact(s)
    ensures forall s :: s in PartsSplits(ss) ==> s in ss && !IsExact(s)
  {
    if ss != [] {
      SplitsPartition(ss[1..]);
    }
  }

  /** ... and every split of `ss` is kept by the filter of its kind. */
  lemma {:induction false} InPartsSplits(ss: seq<Split>, s: Split)
    requires s in ss && !IsExact(s)
    ensures s in PartsSplits(ss)
  {
    if ss[0] != s {
      InPartsSplits(ss[1..], s);
    }
  }

  lemma AfterExactAt(acc: map<string, real>, t: Transaction, id: string)
    requires id in acc
    ensures AfterExact(acc, t)[id] == acc[id] + PayerDelta(t, id) + ExactDelta(t, id)
  {
    var afterPayer := Credit(acc, t.payer.id, PayerSigned(Kind(t), EffectiveAmount(t)));
    assert afterPayer[id] == acc[id] + PayerDelta(t, id);
    CreditEachAt(afterPayer, ExactSplits(t.splits), ExactAmount(Kind(t)), id);
    ExactAmountFor(t.splits, Kind(t), id);
  }

  lemma PartsStepAt(acc: map<string, real>, t: Transaction, id: string)
    requires id in acc
    ensures ApplyTransaction(acc, t)[id] == AfterExact(acc, t)[id] + PartsDelta(t, id)
  {
    if PartsTotal(PartsSplits(t.splits)) > 0.0 {
      SharedStepAt(acc, t, id);
    } else {
      assert ApplyTransaction(acc, t) == AfterExact(acc, t);
    }
  }

  /** When the parts add up to a positive total, the remainder is shared by parts. */
  lemma ApplyShared(acc: map<string, real>, t: Transaction)
    requires PartsTotal(PartsSplits(t.splits)) > 0.0
    ensures ApplyTransaction(acc, t) == CreditEach(AfterExact(acc, t), PartsSplits(t.splits), PartsAmount(SignedPerPart(t)))
  {
  }

  lemma SharedStepAt(acc: map<string, real>, t: Transaction, id: string)
    requires id in acc && PartsTotal(PartsSplits(t.splits)) > 0.0
    ensures ApplyTransaction(acc, t)[id] == AfterExact(acc, t)[id] + PartsDelta(t, id)
  {
    ApplyShared(acc, t);
    CreditEachAt(AfterExact(acc, t), PartsSplits(t.splits), PartsAmount(SignedPerPart(t)), id);
    PartsDeltaIsCredited(t, id);
  }

  /** The closed-form parts delta is what the parts loop credits. */
  lemma PartsDeltaIsCredited(t: Transaction, id: string)
    requires PartsTotal(PartsSplits(t.splits)) > 0.0
    ensures PartsDelta(t, id) == AmountFor(PartsSplits(t.splits), PartsAmount(SignedPerPart(t)), id)
  {
    PartsRateCredited(t.splits, SignedPerPart(t), id);
  }

  /** At any rate per part, the parts loop credits a member the rate times its parts. */
  lemma PartsRateCredited(ss: seq<Split>, rate: real, id: string)
    ensures AmountFor(PartsSplits(ss), PartsAmount(rate), id) == rate * PartsWeight(ss, id)
  {
    AmountForPartsSplits(ss, PartsAmount(rate), id);
    PartsAmountIsWeighted(ss, rate, id);
  }

  /** Applying one transaction changes each member's balance by exactly `Delta`. */
  lemma ApplyTransactionAt(acc: map<string, real>, t: Transaction, id: string)
    requires id in acc
    ensures ApplyTransaction(acc, t)[id] == acc[id] + Delta(t, id)
  {
    AfterExactAt(acc, t, id);
    PartsStepAt(acc, t, id);
  }

  lemma {:induction false} FoldAt(acc: map<string, real>, ts: seq<Transaction>, id: string)
    requires id in acc
    ensures Fold(acc, ts)[id] == acc[id] + NetDelta(ts, id)
  {
    if ts != [] {
      ApplyTransactionAt(acc, ts[0], id);
      FoldAt(ApplyTransaction(acc, ts[0]), ts[1..], id);
    }
  }

  /** Each member's unrounded balance is its net delta over all transactions. */
  lemma AccumulateIsNetDelta(members: seq<Member>, ts: seq<Transaction>)
    ensures forall id :: id in MemberIds(members) ==> Accumulate(members, ts)[id] == NetDelta(ts, id)
  {
    forall id | id in MemberIds(members)
      ensures Accumulate(members, ts)[id] == NetDelta(ts, id)
    {
      FoldAt(InitialBalances(members), ts, id);
    }
  }

  // ---------------------------------------------------------------------------
  // Properties of the calculator

  /** With no transactions every member's balance is zero. */
  lemma NoTransactionsAllZero(members: seq<Member>)
    ensures forall k :: 0 <= k < |members| ==> CalculateBalances(members, [])[k].balance == 0.0
  {
    RoundCentsIdentity(0.0);
  }

  lemma {:induction false} NetDeltaAppend(a: seq<Transaction>, b: seq<Transaction>, id: string)
    ensures NetDelta(a + b, id) == NetDelta(a, id) + NetDelta(b, id)
  {
    if a != [] {
      assert (a + b)[1..] == a[1..] + b;
      NetDeltaAppend(a[1..], b, id);
    } else {
      assert a + b == b;
    }
  }

  lemma NetDeltaRemove(us: seq<Transaction>, k: nat, id: string)
    requires k < |us|
    ensures NetDelta(us, id) == Delta(us[k], id) + NetDelta(us[..k] + us[k + 1..], id)
  {
    assert us == (us[..k] + [us[k]]) + us[k + 1..];
    NetDeltaAppend(us[..k] + [us[k]], us[k + 1..], id);
    NetDeltaAppend(us[..k], [us[k]], id);
    NetDeltaAppend(us[..k], us[k + 1..], id);
  }

  lemma MultisetRemove<T>(ts: seq<T>, us: seq<T>, k: nat)
    requires ts != [] && k < |us| && us[k] == ts[0]
    requires multiset(ts) == multiset(us)
    ensures multiset(ts[1..]) == multiset(us[..k] + us[k + 1..])
  {
    assert us == us[..k] + [us[k]] + us[k + 1..];
    assert ts == [ts[0]] + ts[1..];
    calc {
      multiset(ts[1..]);
      multiset(ts) - multiset{ts[0]};
      multiset(us) - multiset{us[k]};
      (multiset(us[..k]) + multiset{us[k]} + multiset(us[k + 1..])) - multiset{us[k]};
      multiset(us[..k]) + multiset(us[k + 1..]);
      multiset(us[..k] + us[k + 1..]);
    }
  }

  /** Over exact reals the order of the transactions does not matter. */
  lemma {:induction false} NetDeltaPermutation(ts: seq<Transaction>, us: seq<Transaction>, id: string)
    requires multiset(ts) == multiset(us)
    ensures NetDelta(ts, id) == NetDelta(us, id)
  {
    if ts == [] {
      assert |us| == |multiset(us)| == 0;
    } else {
      assert ts[0] in multiset(us);
      var k :| 0 <= k < |us| && us[k] == ts[0];
      MultisetRemove(ts, us, k);
      NetDeltaPermutation(ts[1..], us[..k] + us[k + 1..], id);
      NetDeltaRemove(us, k, id);
    }
  }

  /** Permuting the transaction list leaves every computed balance unchanged. */
  lemma CalculateBalancesPermutation(members: seq<Member>, ts: seq<Transaction>, us: seq<Transaction>)
    requires multiset(ts) == multiset(us)
    ensures CalculateBalances(members, ts) == CalculateBalances(members, us)
  {
    var a := CalculateBalances(members, ts);
    var b := CalculateBalances(members, us);
    forall k | 0 <= k < |members|
      ensures a[k] == b[k]
    {
      NetDeltaPermutation(ts, us, members[k].id);
    }
  }

  // ---------------------------------------------------------------------------
  // Sign conventions, one member at a time

  /** No split of `ss` names `id`. */
  predicate NotSplitMember(ss: seq<Split>, id: string) {
    forall s :: s in ss ==> s.memberId != id
  }

  /** `ss[k]` is the only split of `ss` naming its member. */
  predicate OnlySplitFor(ss: seq<Split>, k: nat)
    requires k < |ss|
  {
    forall j :: 0 <= j < |ss| && j != k ==> ss[j].memberId != ss[k].memberId
  }

  lemma {:induction false} NoSplitNoShare(ss: seq<Split>, id: string)
    requires NotSplitMember(ss, id)
    ensures ExactShare(ss, id) == 0.0 && PartsWeight(ss, id) == 0.0
  {
    if ss != [] {
      assert ss[0] in ss;
      assert forall s :: s in ss[1..] ==> s in ss;
      NoSplitNoShare(ss[1..], id);
    }
  }

  lemma {:induction false} OnlySplitShare(ss: seq<Split>, k: nat)
    requires k < |ss| && OnlySplitFor(ss, k)
    ensures ExactShare(ss, ss[k].memberId) == (if IsExact(ss[k]) then ExactValue(ss[k]) else 0.0)
    ensures PartsWeight(ss, ss[k].memberId) == (if IsExact(ss[k]) then 0.0 else PartsOrOne(ss[k]))
  {
    var id := ss[k].memberId;
    if k == 0 {
      forall s | s in ss[1..]
        ensures s.memberId != id
      {
        var j :| 0 <= j < |ss[1..]| && ss[1..][j] == s;
        assert ss[j + 1] == s;
      }
      NoSplitNoShare(ss[1..], id);
    } else {
      assert ss[0].memberId != id;
      assert ss[1..][k - 1] == ss[k];
      OnlySplitShare(ss[1..], k - 1);
    }
  }

  /** The amount a transaction moves: `base_currency_amount` unless it is absent or 0. */
  lemma PayerSign(acc: map<string, real>, t: Transaction)
    requires t.payer.id in acc
    requires NotSplitMember(t.splits, t.payer.id)
    ensures var used := if t.baseCurrencyAmount.Some? && t.baseCurrencyAmount.value != 0.0
                        then t.baseCurrencyAmount.value else t.amount;
            ApplyTransaction(acc, t)[t.payer.id]
            == acc[t.payer.id] + (if t.kind == Some(Income) then -used else used)
  {
    ApplyTransactionAt(acc, t, t.payer.id);
    NoSplitNoShare(t.splits, t.payer.id);
  }

  /** An exact split charges its member exactly `exact_amount` (pays it, for income). */
  lemma ExactSplitSign(acc: map<string, real>, t: Transaction, k: nat)
    requires k < |t.splits| && OnlySplitFor(t.splits, k)
    requires t.splits[k].memberId in acc && t.splits[k].memberId != t.payer.id
    requires t.splits[k].exactAmount.Some?
    ensures var id := t.splits[k].memberId;
            var e := t.splits[k].exactAmount.value;
            ApplyTransaction(acc, t)[id] == acc[id] + (if t.kind == Some(Income) then e else -e)
  {
    ApplyTransactionAt(acc, t, t.splits[k].memberId);
    OnlySplitShare(t.splits, k);
  }

  /** A parts-based split charges its member `amountPerPart * parts` (pays it, for
      income), with absent or zero parts counted as one. */
  lemma PartsSplitSign(acc: map<string, real>, t: Transaction, k: nat)
    requires k < |t.splits| && OnlySplitFor(t.splits, k)
    requires t.splits[k].memberId in acc && t.splits[k].memberId != t.payer.id
    requires t.splits[k].exactAmount.None?
    requires PartsTotal(PartsSplits(t.splits)) > 0.0
    ensures var id := t.splits[k].memberId;
            var parts := if t.splits[k].parts.Some? && t.splits[k].parts.value != 0.0
                         then t.splits[k].parts.value else 1.0;
            var share := PerPart(t) * parts;
            ApplyTransaction(acc, t)[id] == acc[id] + (if t.kind == Some(Income) then share else -share)
  {
    var id := t.splits[k].memberId;
    ApplyTransactionAt(acc, t, id);
    OnlySplitShare(t.splits, k);
    OnlyPartsDelta(t, id);
    SharedAt(t, id, PartsOrOne(t.splits[k]));
  }

  /** A member that is not the payer and holds no exact split only takes part in the sharing. */
  lemma OnlyPartsDelta(t: Transaction, id: string)
    requires id != t.payer.id && ExactShare(t.splits, id) == 0.0
    ensures Delta(t, id) == PartsDelta(t, id)
  {
  }

  lemma SharedAt(t: Transaction, id: string, p: real)
    requires PartsTotal(PartsSplits(t.splits)) > 0.0 && PartsWeight(t.splits, id) == p
    ensures PartsDelta(t, id) == (if t.kind == Some(Income) then PerPart(t) * p else -(PerPart(t) * p))
  {
    SignedScale(Kind(t), PerPart(t), p);
  }

  // ---------------------------------------------------------------------------
  // Closure: every transaction is a closed transfer, unless its remainder is dropped

  predicate Distinct(ids: seq<string>) {
    forall i, j :: 0 <= i < j < |ids| ==> ids[i] != ids[j]
  }

  predicate Covers(ids: seq<string>, acc: map<string, real>) {
    forall x :: x in ids ==> x in acc
  }

  /** The payer and every split member are among `ids`. */
  predicate ReferencesWithin(t: Transaction, ids: seq<string>) {
    t.payer.id in ids && forall s :: s in t.splits ==> s.memberId in ids
  }

  /** The sum of the accumulator over the ids. */
  function SumAt(ids: seq<string>, acc: map<string, real>): real
    requires Covers(ids, acc)
  {
    if ids == [] then 0.0 else acc[ids[0]] + SumAt(ids[1..], acc)
  }

  /** What a transaction adds to the sum of all balances: nothing when its remainder is
      shared by parts, otherwise the unshared remainder (with the payer's sign). */
  function Dropped(t: Transaction): real {
    if PartsTotal(PartsSplits(t.splits)) > 0.0 then 0.0
    else PayerSigned(Kind(t), EffectiveAmount(t) - ExactTotal(ExactSplits(t.splits)))
  }

  function TotalDropped(ts: seq<Transaction>): real {
    if ts == [] then 0.0 else Dropped(ts[0]) + TotalDropped(ts[1..])
  }

  lemma {:induction false} SumAtOther(ids: seq<string>, acc: map<string, real>, x: string, d: real)
    requires Covers(ids, acc) && x !in ids
    ensures SumAt(ids, Credit(acc, x, d)) == SumAt(ids, acc)
  {
    if ids != [] {
      SumAtOther(ids[1..], acc, x, d);
    }
  }

  lemma {:induction false} SumAtCredit(ids: seq<string>, acc: map<string, real>, x: string, d: real)
    requires Covers(ids, acc) && Distinct(ids) && x in ids
    ensures SumAt(ids, Credit(acc, x, d)) == SumAt(ids, acc) + d
  {
    if ids[0] == x {
      assert x !in ids[1..] by {
        forall j | 0 <= j < |ids[1..]|
          ensures ids[1..][j] != x
        {
          assert ids[1..][j] == ids[j + 1];
        }
      }
      SumAtOther(ids[1..], acc, x, d);
    } else {
      SumAtCredit(ids[1..], acc, x, d);
    }
  }

  lemma {:induction false} SumAtCreditEach(ids: seq<string>, acc: map<string, real>, ss: seq<Split>, amountOf: Split -> real)
    requires Covers(ids, acc) && Distinct(ids)
    requires forall s :: s in ss ==> s.memberId in ids
    ensures SumAt(ids, CreditEach(acc, ss, amountOf)) == SumAt(ids, acc) + AmountTotal(ss, amountOf)
  {
    if ss != [] {
      assert ss[0] in ss;
      SumAtCredit(ids, acc, ss[0].memberId, amountOf(ss[0]));
      assert forall s :: s in ss[1..] ==> s in ss;
      SumAtCreditEach(ids, Credit(acc, ss[0].memberId, amountOf(ss[0])), ss[1..], amountOf);
    }
  }

  lemma SumAtAfterExact(ids: seq<string>, acc: map<string, real>, t: Transaction)
    requires Covers(ids, acc) && Distinct(ids) && ReferencesWithin(t, ids)
    ensures SumAt(ids, AfterExact(acc, t))
         == SumAt(ids, acc) + PayerSigned(Kind(t), EffectiveAmount(t))
            + SplitSigned(Kind(t), ExactTotal(ExactSplits(t.splits)))
  {
    var afterPayer := Credit(acc, t.payer.id, PayerSigned(Kind(t), EffectiveAmount(t)));
    SumAtCredit(ids, acc, t.payer.id, PayerSigned(Kind(t), EffectiveAmount(t)));
    SplitsPartition(t.splits);
    SumAtCreditEach(ids, afterPayer, ExactSplits(t.splits), ExactAmount(Kind(t)));
    ExactAmountTotal(ExactSplits(t.splits), Kind(t));
  }

  /** When the remainder is shared, the payer's credit, the exact splits and the parts
      cancel out. */
  lemma SharedCancels(t: Transaction)
    requires PartsTotal(PartsSplits(t.splits)) > 0.0
    ensures PayerSigned(Kind(t), EffectiveAmount(t)) + SplitSigned(Kind(t), ExactTotal(ExactSplits(t.splits)))
            + AmountTotal(PartsSplits(t.splits), PartsAmount(SignedPerPart(t))) == 0.0
  {
    PartsAmountTotal(PartsSplits(t.splits), SignedPerPart(t));
    PerPartTimesTotal(t);
    SignedShareCancels(Kind(t), EffectiveAmount(t), ExactTotal(ExactSplits(t.splits)),
                       PerPart(t), PartsTotal(PartsSplits(t.splits)),
                       AmountTotal(PartsSplits(t.splits), PartsAmount(SignedPerPart(t))));
  }

  /** When `perPart * parts` is what remains after the exact amounts, the payer's
      signed credit, the signed exact amounts and the signed parts add up to 0. */
  lemma SignedShareCancels(k: TransactionType, amount: real, exact: real, perPart: real, parts: real, shared: real)
    requires perPart * parts == amount - exact
    requires shared == SplitSigned(k, perPart) * parts
    ensures PayerSigned(k, amount) + SplitSigned(k, exact) + shared == 0.0
  {
    SignedScale(k, perPart, parts);
  }

  /** Every part is worth `(amount - exactTotal) / totalParts`, so all parts together are
      worth the remainder. */
  lemma PerPartTimesTotal(t: Transaction)
    requires PartsTotal(PartsSplits(t.splits)) > 0.0
    ensures PerPart(t) * PartsTotal(PartsSplits(t.splits)) == EffectiveAmount(t) - ExactTotal(ExactSplits(t.splits))
  {
    DivTimes(EffectiveAmount(t) - ExactTotal(ExactSplits(t.splits)), PartsTotal(PartsSplits(t.splits)));
  }

  lemma DivTimes(a: real, b: real)
    requires b != 0.0
    ensures a / b * b == a
  {
  }

  /** One transaction changes the sum of all balances by exactly `Dropped(t)`. */
  lemma TransactionClosure(ids: seq<string>, acc: map<string, real>, t: Transaction)
    requires Covers(ids, acc) && Distinct(ids) && ReferencesWithin(t, ids)
    ensures SumAt(ids, ApplyTransaction(acc, t)) == SumAt(ids, acc) + Dropped(t)
  {
    if PartsTotal(PartsSplits(t.splits)) > 0.0 {
      SharedClosure(ids, acc, t);
    } else {
      SumAtAfterExact(ids, acc, t);
      assert ApplyTransaction(acc, t) == AfterExact(acc, t);
    }
  }

  lemma SharedClosure(ids: seq<string>, acc: map<string, real>, t: Transaction)
    requires Covers(ids, acc) && Distinct(ids) && ReferencesWithin(t, ids)
    requires PartsTotal(PartsSplits(t.splits)) > 0.0
    ensures SumAt(ids, ApplyTransaction(acc, t)) == SumAt(ids, acc)
  {
    var rate := SignedPerPart(t);
    var afterExact := AfterExact(acc, t);
    SumAtAfterExact(ids, acc, t);
    SumAtCreditParts(ids, afterExact, t.splits, rate);
    ApplyShared(acc, t);
    SharedCancels(t);
  }

  /** The parts loop adds what it credits to the sum of all balances. */
  lemma SumAtCreditParts(ids: seq<string>, acc: map<string, real>, ss: seq<Split>, rate: real)
    requires Covers(ids, acc) && Distinct(ids)
    requires forall s :: s in ss ==> s.memberId in ids
    ensures SumAt(ids, CreditEach(acc, PartsSplits(ss), PartsAmount(rate)))
         == SumAt(ids, acc) + AmountTotal(PartsSplits(ss), PartsAmount(rate))
  {
    SplitsPartition(ss);
    SumAtCreditEach(ids, acc, PartsSplits(ss), PartsAmount(rate));
  }

  /** A transaction with a parts-based split and no negative parts drops nothing. */
  lemma PartsSplitClosesTransaction(t: Transaction)
    requires exists s :: s in t.splits && s.exactAmount.None?
    requires forall s :: s in t.splits && s.parts.Some? ==> s.parts.value >= 0.0
    ensures Dropped(t) == 0.0
  {
    var s :| s in t.splits && s.exactAmount.None?;
    SplitsPartition(t.splits);
    InPartsSplits(t.splits, s);
    PartsTotalPositive(PartsSplits(t.splits));
  }

  lemma {:induction false} PartsTotalPositive(ps: seq<Split>)
    requires ps != []
    requires forall s :: s in ps && s.parts.Some? ==> s.parts.value >= 0.0
    ensures PartsTotal(ps) > 0.0
  {
    assert ps[0] in ps;
    assert PartsOrOne(ps[0]) > 0.0;
    if ps[1..] != [] {
      assert forall s :: s in ps[1..] ==> s in ps;
      PartsTotalPositive(ps[1..]);
    }
  }

  lemma {:induction false} FoldClosure(ids: seq<string>, acc: map<string, real>, ts: seq<Transaction>)
    requires Covers(ids, acc) && Distinct(ids)
    requires forall t :: t in ts ==> ReferencesWithin(t, ids)
    ensures SumAt(ids, Fold(acc, ts)) == SumAt(ids, acc) + TotalDropped(ts)
  {
    if ts != [] {
      assert ts[0] in ts;
      TransactionClosure(ids, acc, ts[0]);
      assert forall t :: t in ts[1..] ==> t in ts;
      FoldClosure(ids, ApplyTransaction(acc, ts[0]), ts[1..]);
    }
  }

  function Ids(members: seq<Member>): (r: seq<string>)
    ensures |r| == |members| && forall k :: 0 <= k < |members| ==> r[k] == members[k].id
  {
    seq(|members|, k requires 0 <= k < |members| => members[k].id)
  }

  function SumBalances(bs: seq<MemberBalance>): real {
    if bs == [] then 0.0 else bs[0].balance + SumBalances(bs[1..])
  }

  lemma {:induction false} SumAtZero(ids: seq<string>, acc: map<string, real>)
    requires Covers(ids, acc)
    requires forall x :: x in ids ==> acc[x] == 0.0
    ensures SumAt(ids, acc) == 0.0
  {
    if ids != [] {
      SumAtZero(ids[1..], acc);
    }
  }

  lemma {:induction false} RoundingDrift(ids: seq<string>, acc: map<string, real>, bs: seq<MemberBalance>)
    requires Covers(ids, acc) && |bs| == |ids|
    requires forall k :: 0 <= k < |ids| ==> bs[k].balance == Round2(acc[ids[k]])
    ensures SumAt(ids, acc) - 0.005 * |ids| as real <= SumBalances(bs) <= SumAt(ids, acc) + 0.005 * |ids| as real
  {
    if ids != [] {
      assert bs[0].balance == Round2(acc[ids[0]]);
      RoundingDrift(ids[1..], acc, bs[1..]);
    }
  }

  /** Summed over a group with distinct member ids whose transactions only name members,
      the unrounded balances add up to the remainders that were dropped (zero when every
      transaction is closed), and the rounded balances stay within half a cent per member
      of that. */
  lemma GroupClosure(members: seq<Member>, ts: seq<Transaction>)
    requires Distinct(Ids(members))
    requires forall t :: t in ts ==> ReferencesWithin(t, Ids(members))
    ensures SumAt(Ids(members), Accumulate(members, ts)) == TotalDropped(ts)
    ensures var total := SumBalances(CalculateBalances(members, ts));
            TotalDropped(ts) - 0.005 * |members| as real <= total <= TotalDropped(ts) + 0.005 * |members| as real
  {
    var ids := Ids(members);
    var init := InitialBalances(members);
    assert Covers(ids, init) by {
      forall x | x in ids
        ensures x in init
      {
        var k :| 0 <= k < |ids| && ids[k] == x;
        assert members[k] in members;
      }
    }
    SumAtZero(ids, init);
    FoldClosure(ids, init, ts);
    var acc := Accumulate(members, ts);
    AccumulateIsNetDelta(members, ts);
    RoundingDrift(ids, acc, CalculateBalances(members, ts));
  }
}
