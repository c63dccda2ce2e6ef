/**
 * The allocation engine: weighted split of each item's final price among the
 * people, and the summaries the front-ends print beside it (person totals,
 * item totals, item balances, overall balance).
 *
 * Splits are a person-major table: `splits[p][i]` is what person `p` owes for
 * item `i`. The source keys the outer level by person name; with distinct names
 * the two are the same table.
 */
module Allocation {
  import opened Common

  /** What person `p` owes for item `i`: zero when the weight entry is missing
      or the item's weights do not sum to a positive total. */
  function Share(finalPrices: seq<real>, weights: seq<seq<real>>, i: nat, p: nat): real
    requires i < |finalPrices|
  {
    if i < |weights| && p < |weights[i]| then
      var total := Sum(weights[i]);
      if total > 0.0 then weights[i][p] / total * finalPrices[i] else 0.0
    else
      0.0
  }

  /** Item `i`'s share for each of `people` persons, in person order. */
  function ShareColumn(finalPrices: seq<real>, weights: seq<seq<real>>, i: nat, people: nat): seq<real>
    requires i < |finalPrices|
  {
    seq(people, p requires 0 <= p < people => Share(finalPrices, weights, i, p))
  }

  /** The whole split table for `people` persons and `items` items. */
  function SplitTable(people: nat, items: nat, finalPrices: seq<real>, weights: seq<seq<real>>): seq<seq<real>>
    requires items <= |finalPrices|
  {
    seq(people, p requires 0 <= p < people =>
      seq(items, i requires 0 <= i < items => Share(finalPrices, weights, i, p)))
  }

  /** `[price * qty for price, qty in zip(prices, quantities)]`. */
  function FinalPrices(prices: seq<real>, quantities: seq<real>): seq<real>
  {
    if prices == [] || quantities == [] then []
    else [prices[0] * quantities[0]] + FinalPrices(prices[1..], quantities[1..])
  }

  /** `[sum(splits[person]) for person in people]`. */
  function PersonTotals(splits: seq<seq<real>>): seq<real>
  {
    seq(|splits|, p requires 0 <= p < |splits| => Sum(splits[p]))
  }

  predicate Rectangular(splits: seq<seq<real>>, items: nat)
  {
    forall p :: 0 <= p < |splits| ==> |splits[p]| == items
  }

  /** Every person's amount for item `i`, in people order. */
  function ItemColumn(splits: seq<seq<real>>, i: nat): seq<real>
    requires forall p :: 0 <= p < |splits| ==> i < |splits[p]|
  {
    seq(|splits|, p requires 0 <= p < |splits| => splits[p][i])
  }

  /** `sum(splits[person][item_idx] for person in people)`. */
  function ItemTotal(splits: seq<seq<real>>, i: nat): real
    requires forall p :: 0 <= p < |splits| ==> i < |splits[p]|
  {
    Sum(ItemColumn(splits, i))
  }

  function ItemTotals(splits: seq<seq<real>>, items: nat): seq<real>
    requires Rectangular(splits, items)
  {
    seq(items, i requires 0 <= i < items => ItemTotal(splits, i))
  }

  /** `final_prices[item_idx] - item_total`. */
  function ItemBalance(finalPrices: seq<real>, splits: seq<seq<real>>, i: nat): real
    requires i < |finalPrices|
    requires forall p :: 0 <= p < |splits| ==> i < |splits[p]|
  {
    finalPrices[i] - ItemTotal(splits, i)
  }

  /** `total_bill - sum(person_totals)` with `total_bill = sum(final_prices)`. */
  function OverallBalance(finalPrices: seq<real>, splits: seq<seq<real>>): real
  {
    Sum(finalPrices) - Sum(PersonTotals(splits))
  }

  /** `any(sum(w) > 0 for w in weights)`: the guard before splits are shown. */
  predicate AnyAllocated(weights: seq<seq<real>>)
  {
    exists i :: 0 <= i < |weights| && Sum(weights[i]) > 0.0
  }

  // ---------------------------------------------------------------------------
  // The three copies of calculate_bill_split and the inline split in main
  // ---------------------------------------------------------------------------

  /** calculate_bill_split of the single-matrix front-end: nested loops that
      append one amount per (person, item). */
  method CalculateBillSplit(people: seq<string>, items: seq<string>, finalPrices: seq<real>,
                            weights: seq<seq<real>>) returns (splits: seq<seq<real>>)
    requires Distinct(people)
    requires |items| <= |finalPrices|
    ensures |splits| == |people| && Rectangular(splits, |items|)
    ensures splits == SplitTable(|people|, |items|, finalPrices, weights)
  {
    splits := [];
    var p := 0;
    while p < |people|
      invariant 0 <= p <= |people|
      invariant |splits| == p
      invariant forall q :: 0 <= q < p ==> splits[q] == SplitTable(|people|, |items|, finalPrices, weights)[q]
    {
      var row: seq<real> := [];
      var i := 0;
      while i < |items|
        invariant 0 <= i <= |items|
        invariant |row| == i
        invariant forall k :: 0 <= k < i ==> row[k] == Share(finalPrices, weights, k, p)
      {
        var amount: real;
        if i < |weights| && p < |weights[i]| {
          var weight := weights[i][p];
          var totalWeight := Sum(weights[i]);
          if totalWeight > 0.0 {
            amount := weight / totalWeight * finalPrices[i];
          } else {
            amount := 0.0;
          }
        } else {
          amount := 0.0;
        }
        row := row + [amount];
        i := i + 1;
      }
      splits := splits + [row];
      p := p + 1;
    }
  }

  /** calculate_bill_split of the two template front-ends: final prices are
      price times quantity, then the same weighted split. */
  method CalculateBillSplitPriced(people: seq<string>, items: seq<string>, prices: seq<real>,
                                  quantities: seq<real>, weights: seq<seq<real>>)
    returns (finalPrices: seq<real>, splits: seq<seq<real>>)
    requires Distinct(people)
    requires |items| <= |prices| && |items| <= |quantities|
    ensures |finalPrices| == (if |prices| < |quantities| then |prices| else |quantities|)
    ensures forall i :: 0 <= i < |finalPrices| ==> finalPrices[i] == prices[i] * quantities[i]
    ensures splits == SplitTable(|people|, |items|, finalPrices, weights)
  {
    finalPrices := FinalPrices(prices, quantities);
    FinalPricesAt(prices, quantities);
    splits := CalculateBillSplit(people, items, finalPrices, weights);
  }

  /** The split written out inline in `main` of the template front-ends: no
      guard on the weight entry, so every row must cover every person. */
  method InlineSplit(people: seq<string>, items: seq<string>, finalPrices: seq<real>,
                     weights: seq<seq<real>>) returns (splits: seq<seq<real>>)
    requires Distinct(people)
    requires |items| <= |finalPrices| && |items| <= |weights|
    requires forall i :: 0 <= i < |items| ==> |people| <= |weights[i]|
    ensures splits == SplitTable(|people|, |items|, finalPrices, weights)
  {
    splits := [];
    var p := 0;
    while p < |people|
      invariant 0 <= p <= |people|
      invariant |splits| == p
      invariant forall q :: 0 <= q < p ==> splits[q] == SplitTable(|people|, |items|, finalPrices, weights)[q]
    {
      var row: seq<real> := [];
      var i := 0;
      while i < |items|
        invariant 0 <= i <= |items|
        invariant |row| == i
        invariant forall k :: 0 <= k < i ==> row[k] == Share(finalPrices, weights, k, p)
      {
        var weight := weights[i][p];
        var totalWeight := Sum(weights[i]);
        var amount := if totalWeight > 0.0 then weight / totalWeight * finalPrices[i] else 0.0;
        row := row + [amount];
        i := i + 1;
      }
      splits := splits + [row];
      p := p + 1;
    }
  }

  // ---------------------------------------------------------------------------
  // Properties
  // ---------------------------------------------------------------------------

  /** The recursive zip-product has the length of the shorter list and holds
      the element-wise products. */
  lemma {:induction false} FinalPricesAt(prices: seq<real>, quantities: seq<real>)
    ensures |FinalPrices(prices, quantities)| == (if |prices| < |quantities| then |prices| else |quantities|)
    ensures forall i :: 0 <= i < |FinalPrices(prices, quantities)| ==>
              FinalPrices(prices, quantities)[i] == prices[i] * quantities[i]
    decreases |prices|
  {
    if prices != [] && quantities != [] {
      FinalPricesAt(prices[1..], quantities[1..]);
    }
  }

  /** Non-negative prices and quantities give non-negative final prices and a
      non-negative total bill. */
  lemma FinalPricesNonNeg(prices: seq<real>, quantities: seq<real>)
    requires forall i :: 0 <= i < |prices| ==> prices[i] >= 0.0
    requires forall i :: 0 <= i < |quantities| ==> quantities[i] >= 0.0
    ensures forall i :: 0 <= i < |FinalPrices(prices, quantities)| ==> FinalPrices(prices, quantities)[i] >= 0.0
    ensures Sum(FinalPrices(prices, quantities)) >= 0.0
  {
    FinalPricesAt(prices, quantities);
    SumNonNeg(FinalPrices(prices, quantities));
  }

  /** A missing weight entry, or an item whose weights do not sum to a positive
      total, costs the person nothing. */
  lemma ShareZeroCases(finalPrices: seq<real>, weights: seq<seq<real>>, i: nat, p: nat)
    requires i < |finalPrices|
    ensures i >= |weights| ==> Share(finalPrices, weights, i, p) == 0.0
    ensures i < |weights| && p >= |weights[i]| ==> Share(finalPrices, weights, i, p) == 0.0
    ensures i < |weights| && Sum(weights[i]) <= 0.0 ==> Share(finalPrices, weights, i, p) == 0.0
  {
  }

  /** Shares are proportional to weights: if `a`'s weight is `k` times `b`'s on
      the same item, so is `a`'s share. */
  lemma ShareProportional(finalPrices: seq<real>, weights: seq<seq<real>>, i: nat, a: nat, b: nat, k: real)
    requires i < |finalPrices| && i < |weights|
    requires a < |weights[i]| && b < |weights[i]|
    requires weights[i][a] == k * weights[i][b]
    ensures Share(finalPrices, weights, i, a) == k * Share(finalPrices, weights, i, b)
  {
    var total := Sum(weights[i]);
    if total > 0.0 {
      var c := finalPrices[i] / total;
      assert Share(finalPrices, weights, i, a) == c * weights[i][a];
      assert Share(finalPrices, weights, i, b) == c * weights[i][b];
    }
  }

  /** With non-negative weights and prices no share is negative. */
  lemma ShareNonNeg(finalPrices: seq<real>, weights: seq<seq<real>>, i: nat, p: nat)
    requires i < |finalPrices| && finalPrices[i] >= 0.0
    requires i < |weights| ==> forall q :: 0 <= q < |weights[i]| ==> weights[i][q] >= 0.0
    ensures Share(finalPrices, weights, i, p) >= 0.0
  {
    if i < |weights| && p < |weights[i]| && Sum(weights[i]) > 0.0 {
      var c := finalPrices[i] / Sum(weights[i]);
      assert c >= 0.0;
      assert Share(finalPrices, weights, i, p) == c * weights[i][p];
    }
  }

  /** Conservation: when item `i`'s weights sum to a positive total and the row
      has no entry beyond the last person, the persons' shares add up to the
      item's final price exactly. */
  lemma {:induction false} SharesSumToPrice(finalPrices: seq<real>, weights: seq<seq<real>>, i: nat, people: nat)
    requires i < |finalPrices| && i < |weights|
    requires |weights[i]| <= people
    requires Sum(weights[i]) > 0.0
    ensures Sum(ShareColumn(finalPrices, weights, i, people)) == finalPrices[i]
  {
    var column := ShareColumn(finalPrices, weights, i, people);
    var m := |weights[i]|;
    assert column == column[..m] + column[m..];
    WeightedShares(finalPrices, weights, i, people);
    UnweightedShares(finalPrices, weights, i, people);
    SumConcat(column[..m], column[m..]);
    QuotientTimesDivisor(finalPrices[i], Sum(weights[i]));
  }

  /** The shares of the persons that have a weight entry add up to the price
      over the total weight, times the total weight. */
  lemma WeightedShares(finalPrices: seq<real>, weights: seq<seq<real>>, i: nat, people: nat)
    requires i < |finalPrices| && i < |weights|
    requires |weights[i]| <= people
    requires Sum(weights[i]) > 0.0
    ensures Sum(ShareColumn(finalPrices, weights, i, people)[..|weights[i]|])
            == finalPrices[i] / Sum(weights[i]) * Sum(weights[i])
  {
    var w := weights[i];
    var c := finalPrices[i] / Sum(w);
    var head := ShareColumn(finalPrices, weights, i, people)[..|w|];
    forall k | 0 <= k < |w|
      ensures head[k] == c * w[k]
    {
      ShareOfWeightedPerson(finalPrices, weights, i, k);
    }
    SumScaled(head, w, c);
  }

  /** Persons past the end of the weight row get nothing. */
  lemma UnweightedShares(finalPrices: seq<real>, weights: seq<seq<real>>, i: nat, people: nat)
    requires i < |finalPrices| && i < |weights|
    requires |weights[i]| <= people
    ensures Sum(ShareColumn(finalPrices, weights, i, people)[|weights[i]|..]) == 0.0
  {
    var m := |weights[i]|;
    var tail := ShareColumn(finalPrices, weights, i, people)[m..];
    forall k | 0 <= k < |tail|
      ensures tail[k] == 0.0
    {
      assert tail[k] == Share(finalPrices, weights, i, m + k);
    }
    SumOfZeros(tail);
  }

  lemma ShareOfWeightedPerson(finalPrices: seq<real>, weights: seq<seq<real>>, i: nat, p: nat)
    requires i < |finalPrices| && i < |weights| && p < |weights[i]|
    requires Sum(weights[i]) > 0.0
    ensures Share(finalPrices, weights, i, p) == finalPrices[i] / Sum(weights[i]) * weights[i][p]
  {
    ScaleByQuotient(weights[i][p], Sum(weights[i]), finalPrices[i]);
  }

  lemma ScaleByQuotient(w: real, total: real, price: real)
    requires total != 0.0
    ensures w / total * price == (price / total) * w
  {
  }

  lemma QuotientTimesDivisor(price: real, total: real)
    requires total != 0.0
    ensures price / total * total == price
  {
  }

  /** An item nobody carries weight for is left unallocated: its column is all
      zeros, so its balance is the whole final price. */
  lemma UnallocatedItem(finalPrices: seq<real>, weights: seq<seq<real>>, i: nat, people: nat)
    requires i < |finalPrices|
    requires i < |weights| ==> Sum(weights[i]) <= 0.0
    ensures Sum(ShareColumn(finalPrices, weights, i, people)) == 0.0
  {
    SumOfZeros(ShareColumn(finalPrices, weights, i, people));
  }

  /** Item balance of the split table: 0 for an allocated item whose row fits
      the people, the full final price for an unallocated one. */
  lemma ItemBalanceOfSplit(people: nat, finalPrices: seq<real>, weights: seq<seq<real>>, i: nat)
    requires i < |finalPrices|
    requires i < |weights| ==> |weights[i]| <= people
    ensures ItemBalance(finalPrices, SplitTable(people, |finalPrices|, finalPrices, weights), i)
            == if i < |weights| && Sum(weights[i]) > 0.0 then 0.0 else finalPrices[i]
  {
    var splits := SplitTable(people, |finalPrices|, finalPrices, weights);
    assert ItemColumn(splits, i) == ShareColumn(finalPrices, weights, i, people);
    if i < |weights| && Sum(weights[i]) > 0.0 {
      SharesSumToPrice(finalPrices, weights, i, people);
    } else {
      UnallocatedItem(finalPrices, weights, i, people);
    }
  }

  /** Without any allocated item every amount in the split table is zero, so the
      guard that skips the split loses nothing. */
  lemma NothingAllocatedAllZero(people: nat, finalPrices: seq<real>, weights: seq<seq<real>>)
    requires !AnyAllocated(weights)
    ensures forall p, i :: 0 <= p < people && 0 <= i < |finalPrices| ==>
              SplitTable(people, |finalPrices|, finalPrices, weights)[p][i] == 0.0
  {
  }

  /** Summing the person totals gives the same as summing the item totals. */
  lemma {:induction false} PersonTotalsMatchItemTotals(splits: seq<seq<real>>, items: nat)
    requires Rectangular(splits, items)
    ensures Sum(PersonTotals(splits)) == Sum(ItemTotals(splits, items))
    decreases |splits|
  {
    if splits == [] {
      SumOfZeros(ItemTotals(splits, items));
    } else {
      var n := |splits| - 1;
      var front := splits[..n];
      var last := splits[n];
      PersonTotalsMatchItemTotals(front, items);
      assert PersonTotals(splits)[..n] == PersonTotals(front);
      forall i | 0 <= i < items
        ensures ItemTotals(splits, items)[i] == ItemTotals(front, items)[i] + last[i]
      {
        assert ItemColumn(splits, i)[..n] == ItemColumn(front, i);
      }
      SumPointwise(ItemTotals(front, items), last, ItemTotals(splits, items));
    }
  }

  /** When every item is allocated and its row fits the people, the overall
      balance `total_bill - sum(person_totals)` is exactly zero. */
  lemma OverallBalanceZero(people: nat, finalPrices: seq<real>, weights: seq<seq<real>>)
    requires |finalPrices| <= |weights|
    requires forall i :: 0 <= i < |finalPrices| ==> |weights[i]| <= people && Sum(weights[i]) > 0.0
    ensures OverallBalance(finalPrices, SplitTable(people, |finalPrices|, finalPrices, weights)) == 0.0
  {
    var splits := SplitTable(people, |finalPrices|, finalPrices, weights);
    PersonTotalsMatchItemTotals(splits, |finalPrices|);
    forall i | 0 <= i < |finalPrices|
      ensures ItemTotals(splits, |finalPrices|)[i] == finalPrices[i]
    {
      ItemBalanceOfSplit(people, finalPrices, weights, i);
    }
    assert ItemTotals(splits, |finalPrices|) == finalPrices;
  }
}
