/** The CSV export: a per-member allocation of each transaction in the group's base
    currency, and the table it is written as. */
module CsvExport {
  import opened Ledger
  import opened Money
  import opened Sorting
  import opened Rfc4180

  /** `base_currency_amount ?? amount`: an explicit 0 is kept. */
  function BaseAmount(t: Transaction): real {
    t.baseCurrencyAmount.GetOr(t.amount)
  }

  /** Exact mode: some split carries an exact amount (`exact_amount != null`). */
  predicate HasExactAmounts(ss: seq<Split>) {
    exists k :: 0 <= k < |ss| && ss[k].exactAmount.Some?
  }

  /** The exact amounts added up, a split without one counting 0. */
  function TotalExact(ss: seq<Split>): real {
    if ss == [] then 0.0 else TotalExact(ss[..|ss| - 1]) + ss[|ss| - 1].exactAmount.GetOr(0.0)
  }

  /** The parts added up, a split without parts counting 1 (`parts ?? 1`: an explicit 0
      stays 0). */
  function TotalParts(ss: seq<Split>): real {
    if ss == [] then 0.0 else TotalParts(ss[..|ss| - 1]) + ss[|ss| - 1].parts.GetOr(1.0)
  }

  /** Exact mode scales the exact amounts so that they add up to the base amount, unless
      they do not add up to something positive. */
  function ConversionRate(t: Transaction): real {
    var total := TotalExact(t.splits);
    if total > 0.0 then BaseAmount(t) / total else 1.0
  }

  /** Parts mode divides by the total of parts, so that total must not be 0 whenever
      there is a split to allocate to. */
  predicate Allocatable(t: Transaction) {
    HasExactAmounts(t.splits) || t.splits == [] || TotalParts(t.splits) != 0.0
  }

  /** Parts mode: `(baseAmount * parts) / totalParts`. */
  function PartsShare(base: real, parts: real, total: real): real
    requires total != 0.0
  {
    base * parts / total
  }

  /** A split's share before rounding. */
  function RawShare(t: Transaction, s: Split): real
    requires HasExactAmounts(t.splits) || TotalParts(t.splits) != 0.0
  {
    if HasExactAmounts(t.splits) then s.exactAmount.GetOr(0.0) * ConversionRate(t)
    else PartsShare(BaseAmount(t), s.parts.GetOr(1.0), TotalParts(t.splits))
  }

  /** A split's share, rounded to cents. */
  function Share(t: Transaction, s: Split): real
    requires HasExactAmounts(t.splits) || TotalParts(t.splits) != 0.0
  {
    Round2(RawShare(t, s))
  }

  /** The map after the first n splits have been written into it, a later split of the
      same member overwriting an earlier one. */
  function Allocate(t: Transaction, n: nat): map<string, real>
    requires Allocatable(t) && n <= |t.splits|
  {
    if n == 0 then map[] else Allocate(t, n - 1)[t.splits[n - 1].memberId := Share(t, t.splits[n - 1])]
  }

  /** Split k is the last of the first n splits naming its member. */
  predicate LastOfMember(ss: seq<Split>, n: nat, k: nat)
    requires k < n <= |ss|
  {
    forall l :: k < l < n ==> ss[l].memberId != ss[k].memberId
  }

  lemma {:induction false} AllocateKeys(t: Transaction, n: nat)
    requires Allocatable(t) && n <= |t.splits|
    ensures Allocate(t, n).Keys == set k | 0 <= k < n :: t.splits[k].memberId
  {
    if n > 0 {
      AllocateKeys(t, n - 1);
      var prev := set k | 0 <= k < n - 1 :: t.splits[k].memberId;
      assert (set k | 0 <= k < n :: t.splits[k].memberId) == prev + {t.splits[n - 1].memberId};
    }
  }

  /** Last write wins: each member's entry is the share of that member's last split. */
  lemma {:induction false} AllocateLastWrite(t: Transaction, n: nat, id: string)
    requires Allocatable(t) && n <= |t.splits|
    requires id in Allocate(t, n)
    ensures exists k :: 0 <= k < n && t.splits[k].memberId == id && LastOfMember(t.splits, n, k)
                        && Allocate(t, n)[id] == Share(t, t.splits[k])
  {
    if t.splits[n - 1].memberId == id {
      assert LastOfMember(t.splits, n, n - 1);
    } else {
      AllocateLastWrite(t, n - 1, id);
      var k :| 0 <= k < n - 1 && t.splits[k].memberId == id && LastOfMember(t.splits, n - 1, k)
               && Allocate(t, n - 1)[id] == Share(t, t.splits[k]);
      assert LastOfMember(t.splits, n, k);
    }
  }

  /** `calculateSplitAmounts`. */
  function CalculateSplitAmounts(t: Transaction): map<string, real>
    requires Allocatable(t)
  {
    Allocate(t, |t.splits|)
  }

  lemma SplitIds(ss: seq<Split>)
    ensures (set k | 0 <= k < |ss| :: ss[k].memberId) == set s | s in ss :: s.memberId
  {
    var byIndex := set k | 0 <= k < |ss| :: ss[k].memberId;
    var byValue := set s | s in ss :: s.memberId;
    forall k | 0 <= k < |ss|
      ensures ss[k].memberId in byValue
    {
      assert ss[k] in ss;
    }
    forall s | s in ss
      ensures s.memberId in byIndex
    {
      var k :| 0 <= k < |ss| && ss[k] == s;
    }
  }

  /** The result has one entry per member named in a split, holding the share of that
      member's last split. */
  lemma SplitAmountsSpec(t: Transaction, id: string)
    requires Allocatable(t)
    ensures CalculateSplitAmounts(t).Keys == set s | s in t.splits :: s.memberId
    ensures id in CalculateSplitAmounts(t) ==>
      exists k :: 0 <= k < |t.splits| && t.splits[k].memberId == id && LastOfMember(t.splits, |t.splits|, k)
                  && CalculateSplitAmounts(t)[id] == Share(t, t.splits[k])
  {
    AllocateKeys(t, |t.splits|);
    SplitIds(t.splits);
    if id in CalculateSplitAmounts(t) {
      AllocateLastWrite(t, |t.splits|, id);
    }
  }

  /** In exact mode a split without an exact amount gets nothing, even when it names
      parts. */
  lemma ExactModeIgnoresParts(t: Transaction, s: Split)
    requires HasExactAmounts(t.splits) && s.exactAmount.None?
    ensures Share(t, s) == 0.0
  {
    assert RawShare(t, s) == 0.0;
    RoundCentsIdentity(0.0);
  }

  /** In exact mode with exact amounts that do not add up to something positive, each
      split gets its own exact amount, rounded. */
  lemma ExactModeUnscaled(t: Transaction, s: Split)
    requires HasExactAmounts(t.splits) && TotalExact(t.splits) <= 0.0
    ensures Share(t, s) == Round2(s.exactAmount.GetOr(0.0))
  {
  }

  /** In parts mode an explicit 0 parts stays 0: that split gets nothing. */
  lemma ZeroPartsGetNothing(t: Transaction, s: Split)
    requires !HasExactAmounts(t.splits) && TotalParts(t.splits) != 0.0
    requires s.parts == Some(0.0)
    ensures Share(t, s) == 0.0
  {
    assert RawShare(t, s) == 0.0;
    RoundCentsIdentity(0.0);
  }

  /** The unrounded shares of the first n splits, added up split by split. */
  function SumRaw(t: Transaction, n: nat): real
    requires HasExactAmounts(t.splits) || TotalParts(t.splits) != 0.0
    requires n <= |t.splits|
  {
    if n == 0 then 0.0 else SumRaw(t, n - 1) + RawShare(t, t.splits[n - 1])
  }

  /** The rounded shares of the first n splits, added up split by split. */
  function SumShares(t: Transaction, n: nat): real
    requires HasExactAmounts(t.splits) || TotalParts(t.splits) != 0.0
    requires n <= |t.splits|
  {
    if n == 0 then 0.0 else SumShares(t, n - 1) + Share(t, t.splits[n - 1])
  }

  lemma AddFractions(b: real, x: real, y: real, d: real)
    requires d != 0.0
    ensures b * x / d + b * y / d == b * (x + y) / d
  {
    assert b * x / d + b * y / d == (b * x + b * y) / d;
  }

  lemma {:induction false} ExactSharesSum(t: Transaction, n: nat)
    requires HasExactAmounts(t.splits) && n <= |t.splits|
    ensures SumRaw(t, n) == TotalExact(t.splits[..n]) * ConversionRate(t)
  {
    if n > 0 {
      ExactSharesSum(t, n - 1);
      assert t.splits[..n][..n - 1] == t.splits[..n - 1];
      Distribute(ConversionRate(t), TotalExact(t.splits[..n - 1]), t.splits[n - 1].exactAmount.GetOr(0.0));
    }
  }

  lemma {:induction false} PartsSharesSum(t: Transaction, n: nat)
    requires !HasExactAmounts(t.splits) && TotalParts(t.splits) != 0.0 && n <= |t.splits|
    ensures SumRaw(t, n) == PartsShare(BaseAmount(t), TotalParts(t.splits[..n]), TotalParts(t.splits))
  {
    var b, total := BaseAmount(t), TotalParts(t.splits);
    if n > 0 {
      PartsSharesSum(t, n - 1);
      var before := TotalParts(t.splits[..n - 1]);
      var p := t.splits[n - 1].parts.GetOr(1.0);
      assert t.splits[..n][..n - 1] == t.splits[..n - 1];
      assert TotalParts(t.splits[..n]) == before + p;
      PartsStep(b, before, p, total);
    } else {
      assert TotalParts(t.splits[..0]) == 0.0;
      ZeroFraction(b, total);
    }
  }

  lemma WholeFraction(b: real, d: real)
    requires d != 0.0
    ensures PartsShare(b, d, d) == b
  {
  }

  lemma PartsStep(b: real, before: real, p: real, total: real)
    requires total != 0.0
    ensures PartsShare(b, before, total) + PartsShare(b, p, total) == PartsShare(b, before + p, total)
  {
    AddFractions(b, before, p, total);
  }

  lemma ZeroFraction(b: real, d: real)
    requires d != 0.0
    ensures PartsShare(b, 0.0, d) == 0.0
  {
  }

  /** Before rounding the shares add up to the base amount, in exact mode when the exact
      amounts add up to something positive and in parts mode whenever the parts do not
      add up to 0. */
  lemma SharesSumToBase(t: Transaction)
    requires || (HasExactAmounts(t.splits) && TotalExact(t.splits) > 0.0)
             || (!HasExactAmounts(t.splits) && TotalParts(t.splits) != 0.0)
    ensures SumRaw(t, |t.splits|) == BaseAmount(t)
  {
    assert t.splits[..|t.splits|] == t.splits;
    if HasExactAmounts(t.splits) {
      ExactSharesSum(t, |t.splits|);
      assert BaseAmount(t) / TotalExact(t.splits) * TotalExact(t.splits) == BaseAmount(t);
    } else {
      PartsSharesSum(t, |t.splits|);
      WholeFraction(BaseAmount(t), TotalParts(t.splits));
    }
  }

  /** Rounding moves each share by at most half a cent, so the rounded shares of n
      splits stay within n half-cents of the unrounded total. */
  lemma {:induction false} RoundedSharesNearRaw(t: Transaction, n: nat)
    requires HasExactAmounts(t.splits) || TotalParts(t.splits) != 0.0
    requires n <= |t.splits|
    ensures n > 0 ==> SumRaw(t, n) - 0.005 * n as real < SumShares(t, n)
    ensures SumShares(t, n) <= SumRaw(t, n) + 0.005 * n as real
  {
    if n > 0 {
      RoundedSharesNearRaw(t, n - 1);
    }
  }

  // The table.

  /** `String(transaction.type)`: a legacy row whose type column is NULL reaches the
      export as `null` and prints "null". */
  function TypeText(kind: Option<TransactionType>): string {
    match kind
    case Some(Expense) => "expense"
    case Some(Repayment) => "repayment"
    case Some(Income) => "income"
    case None => "null"
  }

  function FixedHeaders(groupCurrency: string): seq<string> {
    ["Date", "Type", "Title", "Amount", "Currency", "Amount (" + groupCurrency + ")", "Payer"]
  }

  /** Member columns are ordered by name; `compare` stands for `localeCompare`. */
  function ByName(compare: (string, string) -> int): (Member, Member) -> bool {
    (a: Member, b: Member) => compare(a.name, b.name) <= 0
  }

  function SortedMembers(members: seq<Member>, compare: (string, string) -> int): seq<Member> {
    InsertionSort(members, ByName(compare))
  }

  function Names(ms: seq<Member>): (r: seq<string>)
    ensures |r| == |ms|
    ensures forall k :: 0 <= k < |r| ==> r[k] == ms[k].name
  {
    if ms == [] then [] else [ms[0].name] + Names(ms[1..])
  }

  function HeaderRow(groupCurrency: string, sorted: seq<Member>): seq<string> {
    FixedHeaders(groupCurrency) + Names(sorted)
  }

  /** `splitAmounts.get(member.id) ?? 0`, formatted; `toFixed2` stands for `toFixed(2)`. */
  function MemberValues(amounts: map<string, real>, ms: seq<Member>, toFixed2: real -> string): (r: seq<string>)
    ensures |r| == |ms|
    ensures forall k :: 0 <= k < |r| ==>
      r[k] == toFixed2(if ms[k].id in amounts then amounts[ms[k].id] else 0.0)
  {
    if ms == [] then []
    else [toFixed2(if ms[0].id in amounts then amounts[ms[0].id] else 0.0)]
         + MemberValues(amounts, ms[1..], toFixed2)
  }

  function DataRow(t: Transaction, sorted: seq<Member>, toFixed2: real -> string): seq<string>
    requires Allocatable(t)
  {
    [t.date, TypeText(t.kind), t.title, toFixed2(t.amount), t.currency, toFixed2(BaseAmount(t)), t.payer.name]
    + MemberValues(CalculateSplitAmounts(t), sorted, toFixed2)
  }

  function DataRows(ts: seq<Transaction>, sorted: seq<Member>, toFixed2: real -> string): (r: seq<seq<string>>)
    requires forall k :: 0 <= k < |ts| ==> Allocatable(ts[k])
    ensures |r| == |ts|
    ensures forall k :: 0 <= k < |r| ==> r[k] == DataRow(ts[k], sorted, toFixed2)
  {
    if ts == [] then [] else [DataRow(ts[0], sorted, toFixed2)] + DataRows(ts[1..], sorted, toFixed2)
  }

  /** `generateTransactionCSV`: a header and one row per transaction, in input order,
      each row's fields escaped and joined by commas and the rows joined by line feeds. */
  function GenerateTransactionCsv(ts: seq<Transaction>, members: seq<Member>, groupCurrency: string,
                                  toFixed2: real -> string, compare: (string, string) -> int): string
    requires forall k :: 0 <= k < |ts| ==> Allocatable(ts[k])
  {
    var sorted := SortedMembers(members, compare);
    Document([HeaderRow(groupCurrency, sorted)] + DataRows(ts, sorted, toFixed2))
  }

  /** Reading the export back gives its table: the header, then one row per
      transaction, in input order. */
  lemma CsvReadsBack(ts: seq<Transaction>, members: seq<Member>, groupCurrency: string,
                     toFixed2: real -> string, compare: (string, string) -> int)
    requires forall k :: 0 <= k < |ts| ==> Allocatable(ts[k])
    ensures ReadDocument(GenerateTransactionCsv(ts, members, groupCurrency, toFixed2, compare))
         == [HeaderRow(groupCurrency, SortedMembers(members, compare))]
            + DataRows(ts, SortedMembers(members, compare), toFixed2)
  {
    var sorted := SortedMembers(members, compare);
    var rows := [HeaderRow(groupCurrency, sorted)] + DataRows(ts, sorted, toFixed2);
    forall k | 0 <= k < |rows|
      ensures NonBlank(rows[k])
    {
      if k > 0 {
        assert rows[k] == DataRow(ts[k - 1], sorted, toFixed2);
      }
    }
    DocumentRoundTrip(rows);
  }

  /** The header: the seven fixed columns, the base-currency column named after the
      group's currency, then one column per member, named after the member. */
  lemma HeaderRowShape(groupCurrency: string, sorted: seq<Member>)
    ensures |HeaderRow(groupCurrency, sorted)| == 7 + |sorted|
    ensures HeaderRow(groupCurrency, sorted)[..7] == FixedHeaders(groupCurrency)
    ensures HeaderRow(groupCurrency, sorted)[5] == "Amount (" + groupCurrency + ")"
    ensures forall m :: 0 <= m < |sorted| ==> HeaderRow(groupCurrency, sorted)[7 + m] == sorted[m].name
  {
  }

  /** A transaction's row: its seven fixed values, then in each member column that
      member's share, 0 for a member with no split. */
  lemma DataRowShape(t: Transaction, sorted: seq<Member>, toFixed2: real -> string)
    requires Allocatable(t)
    ensures |DataRow(t, sorted, toFixed2)| == 7 + |sorted|
    ensures DataRow(t, sorted, toFixed2)[..7]
         == [t.date, TypeText(t.kind), t.title, toFixed2(t.amount), t.currency,
             toFixed2(t.baseCurrencyAmount.GetOr(t.amount)), t.payer.name]
    ensures forall m :: 0 <= m < |sorted| ==>
      DataRow(t, sorted, toFixed2)[7 + m] == toFixed2(
        if sorted[m].id in CalculateSplitAmounts(t) then CalculateSplitAmounts(t)[sorted[m].id] else 0.0)
    ensures forall m :: 0 <= m < |sorted| && (forall s :: s in t.splits ==> s.memberId != sorted[m].id) ==>
      DataRow(t, sorted, toFixed2)[7 + m] == toFixed2(0.0)
  {
    SplitAmountsSpec(t, "");
  }

  /** The member columns are the group's members, each once, ordered by name when the
      comparison is a total preorder, members of equal name in input order. */
  lemma MemberColumnsOrdered(members: seq<Member>, compare: (string, string) -> int, v: Member)
    requires Total(ByName(compare)) && Transitive(ByName(compare))
    ensures multiset(SortedMembers(members, compare)) == multiset(members)
    ensures SortedBy(SortedMembers(members, compare), ByName(compare))
    ensures EquivalentTo(SortedMembers(members, compare), ByName(compare), v)
         == EquivalentTo(members, ByName(compare), v)
  {
    InsertionSortSorted(members, ByName(compare));
    InsertionSortStable(members, ByName(compare), v);
  }
}
