# bean-counter core in Dafny

This project models the money logic of bean-counter, a shared-expense app. Members of a
group record expenses, repayments and income. Each transaction has a payer and a list of
splits, and a split names a member with either an exact amount or a number of parts. The
model covers five pieces of that logic:

- the **balance calculator** (`calculateBalances`, `getBalancePercentage`). It turns a
  group's transactions into one signed balance per member.
- the **settlement solver** (`calculateSettlements`). It pairs creditors with debtors
  greedily and proposes payments toward settling the group. Balances within a cent of
  zero and turns of exactly one cent are not paid, so the payments need not settle
  everyone (see "## Left out").
- the **CSV export** (`escapeCSV`, `calculateSplitAmounts`, `generateTransactionCSV`). It
  writes one row per transaction, with one column per member holding that member's share
  in the group's base currency.
- **currency conversion** (`convertCurrency`), with the rate table passed in.
- **currency display** (`formatCurrency`).

Money is modelled as exact `real`. `Math.round` is `Money.JsRound`, which rounds half up
toward +infinity. `Math.round(x * 100) / 100` is `Money.Round2`. `toFixed(2)` and
`localeCompare` are parameters of the functions that use them.

Modules, one file each:

| file | module | what |
|---|---|---|
| money.dfy | Money | JS rounding, cents, `Abs`, `Min` |
| ledger.dfy | Ledger | members, transactions, splits, balances, settlements |
| sorting.dfy | Sorting | the stable sort behind `Array.prototype.sort` |
| balances.dfy | Balances | `calculateBalances`, its closed form, closure and sign properties |
| settlement.dfy | Settlements | `calculateSettlements` and its bookkeeping |
| settlement_facts.dfy | SettlementFacts | what the solver's contract pins down, and where its payments fall short |
| rfc4180.dfy | Rfc4180 | `escapeCSV`, the CSV writer and a reference reader |
| csv_export.dfy | CsvExport | `calculateSplitAmounts` and `generateTransactionCSV` |
| currency.dfy | Currency | `convertCurrency`, `formatCurrency` |
| cross_checks.dfy | CrossChecks | where the balance calculator and the export agree and differ |

Each operation has a partner stated against it:

- the balance fold has a closed form per member (`Balances.NetDelta`) and a closure law;
- the solver's loop has a ghost record of its turns, and a greedy rule that fixes that record uniquely;
- the CSV writer has a reader, and the two round-trip;
- the split allocation has a sum law;
- conversion has a round trip through reciprocal rates;
- formatting keeps the number, in both directions.

## Model

| member | source | states |
|---|---|---|
| Money.Round2 | src/utils/settlement.ts:38 | `Math.round(x * 100) / 100` lands within half a cent of x, on a whole number of cents |
| Money.RoundAtLeastCent | src/utils/settlement.ts:31-38 | an amount above a cent never rounds below one cent |
| Balances.CalculateBalances | src/composables/useBalances.ts:13-78 | one entry per member, in member order, with the member's id and name; the balance is the member's net delta over all transactions, rounded to cents |
| Balances.AccumulateIsNetDelta | src/composables/useBalances.ts:17-70 | the running `balances` record equals, per member, the sum over transactions of that member's payer, exact-split and parts-split deltas |
| Balances.NoTransactionsAllZero | src/composables/useBalances.ts:19-22 | with no transactions every balance is 0 |
| Balances.NetDeltaPermutation | src/composables/useBalances.ts:25-70 | a member's net delta does not depend on the order of the transactions |
| Balances.CalculateBalancesPermutation | src/composables/useBalances.ts:13-78 | permuting the transactions leaves every computed balance unchanged |
| Balances.PayerSign | src/composables/useBalances.ts:26-33 | for a payer who holds no split of the transaction: the payer is credited the converted amount, or the plain amount when that is absent or 0; debited instead for income |
| Balances.ExactSplitSign | src/composables/useBalances.ts:46-53 | for a member who is not the payer and whose only split is this exact one: the member is debited the exact amount, or credited it for income |
| Balances.PartsSplitSign | src/composables/useBalances.ts:55-69 | for a member who is not the payer and whose only split is this parts one, when the parts total is positive: the member is debited `amountPerPart` times its parts (absent or 0 parts counting 1), or credited it for income |
| Balances.SharedCancels | src/composables/useBalances.ts:32-69 | when the remainder is shared by parts, the payer's credit, the exact splits and the parts cancel |
| Balances.TransactionClosure | src/composables/useBalances.ts:25-70 | one transaction changes the sum of all balances by exactly its unshared remainder: 0 when parts share it |
| Balances.PartsSplitClosesTransaction | src/composables/useBalances.ts:56-69 | a transaction with a parts split and no negative parts leaves no remainder |
| Balances.FoldClosure | src/composables/useBalances.ts:25-70 | over a run of transactions the sum of balances changes by the total of the unshared remainders |
| Balances.GroupClosure | src/composables/useBalances.ts:13-78 | with distinct member ids, the unrounded balances sum to the dropped remainders, and the rounded ones stay within half a cent per member of that |
| Balances.GetBalancePercentage | src/composables/useBalances.ts:91-94 | 0 when the maximum is 0; otherwise the nearest whole percentage; within -100..100 when the balance does not exceed the maximum |
| Settlements.CreditorsSpec | src/utils/settlement.ts:11-14 | the creditors are exactly the entries above one cent, largest first, ties in input order |
| Settlements.DebtorsSpec | src/utils/settlement.ts:16-19 | the debtors are exactly the entries below minus one cent with the balance made positive, largest first, ties in input order |
| Settlements.MovedConserved | src/utils/settlement.ts:29-43 | every turn takes from a debtor what it gives to a creditor, so the totals received and paid are equal |
| Settlements.Report | src/utils/settlement.ts:33-39 | a payment runs from the debtor to the creditor and carries the amount rounded to cents |
| Settlements.EmitFromSteps | src/utils/settlement.ts:29-40 | every reported payment comes from one turn that moved more than a cent; no more payments than turns |
| Settlements.EmitAmounts | src/utils/settlement.ts:31-39 | every reported payment is a whole number of cents of at least one cent, and there are no more payments than turns |
| Settlements.EmitReportable | src/utils/settlement.ts:11-40 | every payment is at least a cent, a whole number of cents, from a member owing to a member owed, and between two members when ids are distinct |
| Settlements.SettleSorted | src/utils/settlement.ts:21-50 | the loop over both sorted lists: each turn pairs the current creditor and debtor, moves the smaller of what the two still have open, and advances past a side left under a cent; the loop stops only when one list is used up; payments are at least a cent in whole cents, none when a side is empty, at most one turn and one payment fewer than creditors plus debtors; nobody receives or pays more than their balance |
| Settlements.CalculateSettlements | src/utils/settlement.ts:7-51 | all of the above for the whole function on its sorted work lists: the run of turns is the greedy one and ends when one list is used up; payments are well formed, none when a side is empty, bounded by the members involved, never overpaying, and one side ends settled |
| Settlements.GreedyStep | src/utils/settlement.ts:25-47 | a greedy run followed by the greedy turn after it is still a greedy run |
| SettlementFacts.GreedyUnique | src/utils/settlement.ts:25-48 | two runs that are both greedy and both stopped are the same run, so the loop's contract fixes its turns |
| SettlementFacts.GreedyCents | src/utils/settlement.ts:29-43 | on whole-cent balances every greedy turn moves a whole number of cents |
| SettlementFacts.WholeCentsSettle | src/utils/settlement.ts:25-48 | on whole-cent work lists with equal totals, the turns settle every creditor and debtor exactly, and each turn is either exactly one cent or reported at exactly the amount it moves |
| SettlementFacts.CentPaymentReported | src/utils/settlement.ts:31-38 | a turn of 0.012 is reported as a payment of exactly 0.01 |
| SettlementFacts.SubCentEntriesIgnored | src/utils/settlement.ts:11-19 | balances of +0.01, +0.01 and -0.02 add up to 0, yet there are no creditors, so the debtor of 0.02 gets no payment |
| SettlementFacts.OneCentWorkLists | src/utils/settlement.ts:11-19 | on balances +0.05, -0.04, -0.03, +0.02 the work lists are A 0.05, D 0.02 and B 0.04, C 0.03 |
| SettlementFacts.OneCentTurnUnreported | src/utils/settlement.ts:25-48 | on those work lists the only run meeting the loop's contract moves 0.04, 0.01 and 0.02, and only the 0.04 and 0.02 payments are reported |
| Rfc4180.DoubleQuotes | src/utils/csvExport.ts:10 | doubling quotes keeps every character and never shortens the text |
| Rfc4180.UndoubleDoubleQuotes | src/utils/csvExport.ts:10 | reading doubled quotes as single quotes gives back the text |
| Rfc4180.EscapeCsv | src/utils/csvExport.ts:7-13 | a value with a comma, a quote or a line feed is enclosed in quotes, and its inside reads back as the value; any other value is unchanged |
| Rfc4180.FieldRoundTrip | src/utils/csvExport.ts:7-13 | an escaped field reads back as itself, whatever follows |
| Rfc4180.FieldsRoundTrip | src/utils/csvExport.ts:91 | a record written as escaped fields joined by commas reads back as its fields |
| Rfc4180.DocumentRoundTrip | src/utils/csvExport.ts:117-120 | records joined by line feeds read back as the records, in order |
| CsvExport.SplitAmountsSpec | src/utils/csvExport.ts:19-62 | one entry per member named in a split, holding the share of that member's last split |
| CsvExport.AllocateLastWrite | src/utils/csvExport.ts:38-45 | a later split of the same member overwrites an earlier one |
| CsvExport.ExactModeIgnoresParts | src/utils/csvExport.ts:26-45 | once any split has an exact amount, a split without one gets 0 whatever its parts |
| CsvExport.ExactModeUnscaled | src/utils/csvExport.ts:32-44 | when the exact amounts do not add up to something positive, each split keeps its own exact amount, rounded |
| CsvExport.ZeroPartsGetNothing | src/utils/csvExport.ts:53-57 | in parts mode an explicit 0 parts stays 0: the default applies only to absent parts |
| CsvExport.ExactSharesSum | src/utils/csvExport.ts:32-44 | the unrounded exact shares sum to the exact total times the conversion rate |
| CsvExport.PartsSharesSum | src/utils/csvExport.ts:48-58 | the unrounded parts shares of a prefix sum to the base amount in proportion to that prefix's parts |
| CsvExport.SharesSumToBase | src/utils/csvExport.ts:30-59 | before rounding, the shares add up to the base amount in both modes |
| CsvExport.RoundedSharesNearRaw | src/utils/csvExport.ts:43-57 | the rounded shares of n splits stay within n half-cents of the unrounded total |
| CsvExport.CsvReadsBack | src/utils/csvExport.ts:67-121 | reading the export gives back its table: the header row, then one row per transaction in input order |
| CsvExport.HeaderRowShape | src/utils/csvExport.ts:73-91 | the header is the seven fixed columns with the base-currency column named after the group's currency, then the member names |
| CsvExport.DataRowShape | src/utils/csvExport.ts:94-117 | each row is the seven fixed values, then each member's share formatted, 0 for a member without a split |
| CsvExport.MemberColumnsOrdered | src/utils/csvExport.ts:84-87 | the member columns are the group's members, each once, ordered by name, equal names in input order |
| CrossChecks.AmountDefaultsDiffer | src/composables/useBalances.ts:26-27 | the calculator's falsy default and the export's nullish default pick the same amount except on an explicit 0 |
| CrossChecks.PartsTotalsAgree | src/utils/csvExport.ts:48-51 | with no exact amounts and no zero parts, the export's total of parts equals the calculator's |
| CrossChecks.PartsModeAgrees | src/utils/csvExport.ts:53-55 | on such a transaction the export's unrounded share of a split is exactly what the calculator charges it |
| Currency.ConvertUnchangedIff | src/utils/currency.ts:61-79 | a conversion returns the amount unchanged exactly when the currencies are the same, there is no usable rate, the amount is 0 or the rate is 1 |
| Currency.SameCurrencyIgnoresRates | src/utils/currency.ts:66-68 | converting to the same currency does not depend on the rates |
| Currency.FallbackIsOneToOne | src/utils/currency.ts:53-54 | with the fallback table every conversion returns the amount |
| Currency.ConvertRoundTrip | src/utils/currency.ts:61-79 | converting there and back with reciprocal rates returns the amount |
| Currency.ConvertAdditive | src/utils/currency.ts:78 | converting a sum is converting each part and adding |
| Currency.SymbolIsCodeIffUnknown | src/utils/currency.ts:85-93 | a currency is shown by its code exactly when it has no symbol of its own |
| Currency.FormatKeepsNumber | src/utils/currency.ts:84-102 | two amounts display the same in a currency exactly when their `toFixed(2)` texts are equal |
| Currency.UnknownCurrencyPrefix | src/utils/currency.ts:93-101 | an unknown currency is shown as its code followed by the number |
| Sorting.InsertionSortSorted | src/utils/settlement.ts:14 | the sort orders its input under a total preorder |
| Sorting.InsertionSortStable | src/utils/csvExport.ts:84-86 | the sort is stable: elements the order ties keep their input order |

## Left out

- Floating point: amounts are exact reals. IEEE-754 rounding, NaN and Infinity are not modelled, so `!rate` rejecting NaN is not modelled either.
- `toFixed(2)` and `localeCompare` are parameters. The model does not fix their output; it states only how it is used.
- Prototype keys: JS objects looked up by key (`rates[toCurrency]`, `symbols[currency]`) also answer inherited keys such as `constructor`. The model uses plain maps and a plain table.
- `getExchangeRates` is left out: it fetches over HTTP and caches with a clock. Only its last-resort table `{ [baseCurrency]: 1 }` is modelled, as `Currency.FallbackRates`. The rates `convertCurrency` would fetch are a parameter.
- `downloadCSV` writes to the browser DOM and is left out.
- The Supabase composables (`useGroups`, `useTransactions`, `useExpenses`, `useSupabase`), the router and the app configuration are not part of this model.
- `calculateBalances` reads `transaction.payer_id`. The model reads the payer's id from the joined payer record, which carries the same id.
- A balance update for an id that is not a member is dropped in the model. In the source it writes a `NaN` entry that never reaches the output, so the output is the same.
- Balances.PartsSplitSign: states a member's parts share as `PerPart(t) * parts`. It does not restate the product in the source's own association `amountPerPart * parts * splitMultiplier`; over reals the two are equal.
- Settlements.CalculateSettlements: does not promise that following the payments settles the group. A turn is reported only when it moves strictly more than a cent, so a turn of exactly one cent is carried out but not reported. `SettlementFacts.OneCentTurnUnreported` shows this on whole-cent balances that add up to 0: A is left owed 0.01 and C left owing 0.01. The settling guarantee is stated on the ghost record of turns (`steps`), in `SettlementFacts.WholeCentsSettle`.
- Settlements.CalculateSettlements: balances within a cent of zero are dropped before pairing, even when other members' balances depend on them. `SettlementFacts.SubCentEntriesIgnored` shows balances that add up to 0 with no payment proposed while a member owes 0.02.
- Settlements.CalculateSettlements: the one-cent results hold for exact amounts only. In IEEE doubles what is left after a subtraction can sit just above or below a cent (0.05 - 0.04 is 0.010000000000000002), so the real program may report or skip such a turn differently.
- Settlements.EmitAmounts: promises payments of at least a cent, not more than a cent. A turn just above a cent is reported rounded, as exactly 0.01 (`SettlementFacts.CentPaymentReported`).
- Settlements.CalculateSettlements: does not claim that the number of payments is minimal. The greedy method does not promise that.
- CsvExport.CalculateSplitAmounts: requires `Allocatable`. In parts mode a non-empty split list whose parts sum to 0 divides by zero, and the source would write NaN or Infinity into the table; the model does not produce those values.
- Rfc4180.NeedsQuoting: only comma, double quote and line feed trigger quoting, as in the source. A lone carriage return is written bare, and the reference reader splits records on line feeds only.
- Rfc4180.DocumentRoundTrip: requires every record to be non-blank. A single empty field would write an empty line, which the reader does not return as a record. The export's records always have at least seven fields, so this never applies to it.
- CsvExport.MemberColumnsOrdered: requires `localeCompare` to act as a total preorder, which the model cannot derive from an abstract parameter.
- CsvExport.TypeText: a transaction whose type column is NULL arrives as `null` and prints "null". A record that has no `type` key at all would print "undefined"; rows read from the database always carry the key, so that case is not modelled.
- Concurrency and the async shape of `convertCurrency` are not modelled; it is a pure function here.
