# Bill splitter: allocation and settlement engine

A group shares a restaurant bill. Each item's final price is divided among the
people in proportion to per-person weights. Each person's total owed is then
compared with what they actually paid. A greedy largest-first matching turns
the differences into a list of "A pays B x" transfers.

Three Streamlit front-ends carry this engine, nearly verbatim:

- `streamlit_bill.py` takes one item x person matrix (name, price, one weight
  per person) and receives final prices directly.
- `streamlit.py` and `streamlit_bill_split_v2.py` take price and quantity per
  item. They keep a separate person x item weight table between reruns, with
  "Equal Split" buttons.

The model is one shared set of Dafny modules:

- `common.dfy` (`Common`): the 0.01 tolerance, Python's `sum`, `max(0, x)`,
  `min`, and list helpers.
- `allocation.dfy` (`Allocation`): `calculate_bill_split` in both signatures,
  the split written inline in `main`, and the totals and balances printed
  beside it.
- `settlement.dfy` (`Settlement`): `calculate_settlement_transactions`. It
  covers nets, the debtor and creditor partition, the stable descending sort,
  and the two-cursor in-place matching loop.
- `weight_table.dfy` (`WeightTable`): the session weight table as a class. It
  is created, rebuilt on change, edited, equal-split, and read back into
  per-item weight rows.
- `extraction.dfy` (`Extraction`): how the single-matrix front-end turns
  edited rows into aligned `items`, `final_prices` and `weights` lists.

Amounts are Dafny `real`, so arithmetic is exact. The tolerance is
`Common.Tolerance` = 0.01.

The `splits` dictionary keyed by person becomes a person-major table
`splits[p][i]`. The same is done for `net_amounts`. Every method that models
one of the source's functions over people (`CalculateBillSplit`,
`CalculateBillSplitPriced`, `InlineSplit`, `SettlementTransactions` and the
weight-table methods) requires `Distinct(people)`; with distinct names the
table and the dictionary are the same.

The specification function `Settlement.Greedy` describes the matching on what
is left of the two sorted lists. `Settlement.MatchSorted` runs the loop over
working copies, updated in place. Its invariant is
`transactions + Greedy(ds[di..], cs[ci..]) == Greedy(D, C)`.

### Variants

- `calculate_settlement_transactions` is textually identical in the three
  files. It is streamlit_bill.py:31-74, streamlit.py:34-77 and
  streamlit_bill_split_v2.py:34-77.
- `calculate_bill_split` differs only in where final prices come from. In
  streamlit.py:6-32 and streamlit_bill_split_v2.py:6-32 it computes them from
  price and quantity; this is `CalculateBillSplitPriced`. In
  streamlit_bill.py:6-29 it receives them; this is `CalculateBillSplit`.
- The inline split is streamlit.py:289-300 and streamlit_bill_split_v2.py:274-285.
- Person totals, item totals and balances are:
  - streamlit_bill.py:249 and 259-273;
  - streamlit.py:307 and 318-330;
  - streamlit_bill_split_v2.py:292 and 303-315.
- The weight-table rebuild test differs between files. streamlit.py:202-215
  also rebuilds when the table has no rows. streamlit_bill_split_v2.py:190-201
  only creates the table when it is absent. `resetWhenEmpty` selects between
  the two.

### Behaviour that a tolerance-based reading would get wrong

- Partition: debtors are nets `> 0` and creditors nets `< 0`. The tolerance
  is not used there. A person whose net is within 0.01 of zero still enters
  a list but is never paid or charged (`Settlement.TinyNetExample`).
- Clamping: negative prices and weights are not rejected. They are clamped to
  0 (`Extraction.CellValue`).
- Settled within tolerance: "everyone ends within the tolerance" holds only
  in aggregate. Each skipped payment and each dropped remainder can leave up
  to 0.01 per step. `Settlement.GreedyTotal` bounds the shortfall by
  2 x 0.01 per party.

## Model

| member | source | states |
|---|---|---|
| Common.ClampNonNeg | streamlit_bill.py:191 | `max(0, x)`: non-negative, at least `x`, and either `x` or 0 |
| Common.Min | streamlit_bill.py:59 | `min(debt, credit)`: at most both and equal to one of them |
| Common.DistinctSameSetSameLength | streamlit.py:209-211 | two duplicate-free name lists with the same set have the same length, so a table kept after the set test still has one row per person |
| Allocation.CalculateBillSplit | streamlit_bill.py:6-29 | one row per person, `len(items)` amounts per row in item order, each the weighted share (zero when the entry is missing or the weights do not sum above 0) |
| Allocation.CalculateBillSplitPriced | streamlit.py:6-32 | final prices are the element-wise products over the shorter of prices and quantities; the splits are the weighted shares of those prices (the same function is at streamlit_bill_split_v2.py:6-32) |
| Allocation.InlineSplit | streamlit.py:289-300 | the unguarded inline split gives the same table as calculate_bill_split whenever every weight row covers every person (also streamlit_bill_split_v2.py:274-285) |
| Allocation.FinalPricesAt | streamlit.py:11 | the zip comprehension has length `min(len(prices), len(quantities))` and holds `prices[i] * quantities[i]` |
| Allocation.FinalPricesNonNeg | streamlit_bill_split_v2.py:153-154 | non-negative prices and quantities give non-negative final prices and a non-negative total bill |
| Allocation.ShareZeroCases | streamlit_bill.py:15-26 | the share is 0 when the item has no weight row, the row has no entry for the person, or the row does not sum above 0 |
| Allocation.ShareProportional | streamlit_bill.py:22 | weight `k` times another person's on the same item gives a share `k` times theirs |
| Allocation.ShareNonNeg | streamlit_bill.py:22 | non-negative weights and price give a non-negative share |
| Allocation.SharesSumToPrice | streamlit_bill.py:18-22 | for a weight row with positive sum and no entry beyond the people, the shares sum exactly to the item's final price |
| Allocation.UnallocatedItem | streamlit_bill.py:21-24 | an item whose weights do not sum above 0 has shares summing to 0 |
| Allocation.ItemBalanceOfSplit | streamlit_bill.py:259-262 | the item balance `final_price - item_total` is 0 for an allocated item and the full final price for an unallocated one |
| Allocation.NothingAllocatedAllZero | streamlit_bill.py:236 | when no item's weights sum above 0, every amount in the split table is 0, so skipping the split loses nothing |
| Allocation.PersonTotalsMatchItemTotals | streamlit.py:318-320 | the sum of the person totals equals the sum of the item totals |
| Allocation.OverallBalanceZero | streamlit.py:329-330 | when every item is allocated, `total_bill - sum(person_totals)` is exactly 0 |
| Settlement.SettlementTransactions | streamlit_bill.py:31-74 | the result is the greedy plan on the sorted debtor and creditor lists: every amount above 0.01, every payer a person with positive net, every payee one with negative net, empty when either side is empty, at most `#debtors + #creditors - 1` transfers, and a total within both the total debt and the total credit |
| Settlement.MatchSorted | streamlit_bill.py:54-72 | the in-place two-cursor loop yields the greedy plan; remainders never go negative; as much is deducted from the debtors as from the creditors; emitted amounts never exceed what was deducted |
| Settlement.MatchStep | streamlit_bill.py:55-72 | one loop pass keeps the loop invariant and advances at least one cursor, so the loop terminates |
| Settlement.Deduct | streamlit_bill.py:65-66 | the in-place update changes only the cursor entry, lowering its amount by the transaction amount |
| Settlement.Remaining | streamlit_bill.py:69-72 | a head entry is dropped exactly when its remainder is at most 0.01 |
| Settlement.DeductAt | streamlit_bill.py:65-72 | deducting at most the entry keeps amounts non-negative, lowers the list's total by the amount, and from the new cursor on leaves what the specification's step leaves |
| Settlement.PlanFacts | streamlit_bill.py:38-72 | the greedy plan's guarantees, plus that the plan total is at least the smaller side's total minus 0.02 per party, and that total debt minus total credit is the sum of the nets |
| Settlement.DebtorsSound | streamlit_bill.py:42 | every debtor entry is a person with net `> 0`, carrying that net |
| Settlement.DebtorsComplete | streamlit_bill.py:42 | every person with net `> 0` is a debtor |
| Settlement.CreditorsSound | streamlit_bill.py:43 | every creditor entry is a person with net `< 0`, carrying `-net` |
| Settlement.CreditorsComplete | streamlit_bill.py:43 | every person with net `< 0` is a creditor |
| Settlement.SortedListsPositive | streamlit_bill.py:42-49 | every amount in both sorted lists is positive |
| Settlement.DebtorsNamed | streamlit_bill.py:42-48 | every name in the sorted debtor list is a person with positive net |
| Settlement.CreditorsNamed | streamlit_bill.py:43-49 | every name in the sorted creditor list is a person with negative net |
| Settlement.DebtMinusCreditIsNetSum | streamlit_bill.py:37-43 | total debt minus total credit equals the sum of the nets, so a bill paid in full has equal sides |
| Settlement.InsertDescPermutes | streamlit_bill.py:48-49 | inserting adds exactly one entry and its amount |
| Settlement.InsertDescSorted | streamlit_bill.py:48-49 | inserting into a descending list keeps it descending |
| Settlement.InsertDescStable | streamlit_bill.py:48-49 | the inserted entry goes before the equal-amount entries already there |
| Settlement.SortDescPermutes | streamlit_bill.py:48-49 | the sort is a permutation (same multiset, length and total) |
| Settlement.SortDescSorted | streamlit_bill.py:48-49 | the sort's output is in descending order of amount |
| Settlement.SortDescStable | streamlit_bill.py:48-49 | for every amount, the entries with that amount keep their input (people) order |
| Settlement.RemainingFacts | streamlit_bill.py:65-72 | one step keeps names from the list and non-negative amounts, and lowers the total by the amount plus at most 0.01 |
| Settlement.GreedyAmounts | streamlit_bill.py:61-62 | no transfer of 0.01 or less is emitted |
| Settlement.GreedyParties | streamlit_bill.py:55-62 | every transfer goes from a debtor-list name to a creditor-list name |
| Settlement.GreedyLength | streamlit_bill.py:54-72 | the plan is empty when either list is, and otherwise has at most `#debtors + #creditors - 1` transfers |
| Settlement.GreedyTotal | streamlit_bill.py:59-66 | the plan total is at most the total debt and the total credit, and at least the smaller minus 0.02 per party |
| Settlement.TwoPersonExample | streamlit_bill.py:31-74 | Alice owes 400 and paid 1000, Bob owes 600 and paid nothing: the plan is Bob pays Alice 600 |
| Settlement.TinyNetExample | streamlit_bill.py:42-43 | a net of 0.005 makes a debtor, and the plan is empty |
| WeightTable.Table.constructor | streamlit_bill_split_v2.py:190-194 | the new table has the people as rows, the items as columns, and all weights 0 |
| WeightTable.Table.SyncAsWritten | streamlit.py:202-215 | the table is rebuilt all-zero exactly when the person set or item set differs (or, with `resetWhenEmpty`, when it has no rows) and is otherwise unchanged; afterwards it has one row per person (streamlit_bill_split_v2.py:196-201 is the same without the empty-table test) |
| WeightTable.Table.Sync | streamlit.py:208-215 | the corrected rebuild: afterwards the rows are the people in order; rebuilt all-zero on a change, otherwise unchanged |
| WeightTable.Table.EqualSplit | streamlit.py:235-236 | Equal Split sets the item's column to 1 for each of the first `len(people)` rows and changes no other cell (also streamlit_bill_split_v2.py:218-219) |
| WeightTable.Table.Edit | streamlit.py:243-263 | an edited cell takes the new non-negative weight; nothing else changes |
| WeightTable.Table.ItemRows | streamlit.py:266-269 | `weights[i][r]` is the table's weight in row `r` under the column labelled `items[i]`, for every item and row (also streamlit_bill_split_v2.py:251-254) |
| WeightTable.OrderedRowsFollowNames | streamlit.py:266-269 | with the ordered rebuild test, position `p` is the row labelled `people[p]` |
| WeightTable.SyncKeepsReorderedTable | streamlit.py:208-215 | the set test keeps a table whose rows list the people in another order, and the positional read-back then charges the wrong person |
| Extraction.TrimLeft | streamlit_bill.py:185 | removes exactly the leading whitespace: a suffix, the removed characters are spaces, and the rest starts with a non-space |
| Extraction.TrimRight | streamlit_bill.py:185 | removes exactly the trailing whitespace: a prefix, the removed characters are spaces, and the rest ends with a non-space |
| Extraction.Trim | streamlit_bill.py:185 | `strip()`: no longer than the input, and empty or starting and ending with a non-space |
| Extraction.TrimIsSlice | streamlit_bill.py:185 | the stripped name is the run of the input between a whitespace prefix and a whitespace suffix |
| Extraction.CellValue | streamlit_bill.py:189-193 | a cell's value is non-negative; a non-negative number is kept, and a negative number, a blank or unparsable text gives 0 |
| Extraction.KeptExactly | streamlit_bill.py:184-186 | a row is kept exactly when its stripped name is non-empty and not "nan" in any case; no more rows are kept than there are |
| Extraction.ExtractItems | streamlit_bill.py:183-193 | the item list and the price list have one entry per kept row, holding its stripped name and its clamped price |
| Extraction.RowWeights | streamlit_bill.py:202-209 | one clamped weight per person, in people order |
| Extraction.ExtractWeights | streamlit_bill.py:198-210 | one weight row per kept row, each with one clamped weight per person |
| Extraction.Extract | streamlit_bill.py:183-210 | items, final prices and weights have the same length and are aligned: entry `k` of each comes from the same matrix row, which names an item; each weight is the clamped cell under that person's column, and 0 when the row has no such column (the bare `except`) |

## Left out

- The Streamlit UI is not modelled: widgets, `data_editor`, column configs,
  metrics, expanders, `st.rerun` and session-state plumbing. The weight table
  is a class with the operations the code performs on it.
- pandas is not modelled: DataFrame construction, `.loc`, `iterrows` and
  `.tolist()`. Rows and columns are sequences, and a column is looked up by
  label with `IndexOf`.
- Text, WhatsApp and CSV report generation (streamlit_bill.py:426-655) is left
  out. It is string formatting with timestamps.
- Display formatting is left out: `:.0f`/`:.2f` rounding and the ✅/❌ test
  `abs(balance) < 1`.
- bill_split_app.py is not part of this model: Excel styling, formula strings,
  file save, `os.system` and `time.sleep`.
- IEEE floating point is not modelled; amounts are exact reals. Rounding can
  make a float total differ slightly from the exact equalities proved here.
- Parsing is reduced to a three-way cell (blank, number or unparsable). The
  model does not follow how `float()` reads text, nor `str()` of a pandas
  cell: the item name is given as the text `str()` produced.
- Duplicate person names are excluded by `Distinct(people)` on the methods
  listed above. The source's dictionaries would collapse them: a repeated
  name's `splits[person] = []` (streamlit_bill.py:13, streamlit.py:291)
  discards the earlier row, and `net_amounts` keeps the last net per name.
- Allocation.CalculateBillSplit: requires `len(items) <= len(final_prices)`.
  Python raises IndexError only when an item past the end of `final_prices`
  has a weight row that covers a person and sums above 0; with fewer weight
  rows the source returns zeros. The one caller (streamlit_bill.py:238)
  passes lists built in step (186 and 191/193).
- Allocation.CalculateBillSplitPriced: requires `len(items)` to be at most
  `len(prices)` and `len(quantities)`. Python raises IndexError only when an
  item past the end of `final_prices` has a weight row that covers a person
  and sums above 0. The function has no caller in either template front-end,
  which compute `final_prices` inline.
- Allocation.InlineSplit: requires every weight row to cover every person.
  The unguarded indexing in the source raises IndexError otherwise.
- Weight extraction matches the source for a missing person column: the
  KeyError from `row[person_name]` is raised inside the `try` and the bare
  `except` appends 0 (streamlit_bill.py:205-209), which is what `WeightOf`
  gives. The matrix is in any case built with one column per person
  (streamlit_bill.py:131-132).
- WeightTable.Table.constructor, SyncAsWritten and Sync keep one column per
  entry of `items`, while the source's `{item: ... for item in items}`
  (streamlit.py:205/214, streamlit_bill_split_v2.py:193/200) keeps one per
  distinct item. Reads (`ItemRows`, `EqualSplit`) use the first column with a
  label, so they agree with the source. `Edit` on a later duplicate column
  writes a cell the source does not have.
- WeightTable.Table.EqualSplit: requires `len(people)` to be at most the
  number of rows. `.loc` with a new label would append a row; that cannot
  happen after either rebuild with distinct names.
- The editor's own row operations are not modelled: adding or deleting rows in
  the item matrix (`num_rows="dynamic"`), and sorting in the editor view.
  The matrix is taken as the editor returns it.
- Settlement.SettlementTransactions: does not state that the final remainders
  are all within 0.01. That does not hold per person. The aggregate bound is
  `PlanFacts` / `GreedyTotal`.

## Findings

| source | as written | input that shows it | evidently intended | confidence | as-written member | corrected member |
|---|---|---|---|---|---|---|
| streamlit.py:208-215 | the table is rebuilt only when the set of people (or of items) changes, but it is read back by row position (streamlit.py:266-269 and the split at 289-300); the same test is at streamlit_bill_split_v2.py:196-201 | template generated for "Alice, Bob" with Pizza weights Alice 1, Bob 0 and price 800, then regenerated as "Bob, Alice": the table is kept and Bob is charged the whole 800 | rebuild (or reorder the rows) whenever the row labels are not the people in order, so position `p` is always `people[p]`'s row | not executed | WeightTable.SyncKeepsReorderedTable | WeightTable.Table.Sync |
