/**
 * Turning the edited item x person matrix (one row per item: name, price and
 * one weight per person) into the aligned `items`, `final_prices` and
 * `weights` lists the allocation takes.
 */
module Extraction {
  import opened Common

  /** A numeric cell as the editor hands it back: empty (NaN, None or ''),
      a number, or text that `float(...)` rejects. */
  datatype Cell = Blank | Number(value: real) | Unparsable

  /** One matrix row: `str(row['Item'])`, the price cell and the weight cell
      under each person's column. */
  datatype Row = Row(item: string, price: Cell, weights: map<string, Cell>)

  /** The characters Python's `str.strip()` removes (`str.isspace`). */
  predicate IsSpace(c: char)
  {
    var n := c as int;
    (9 <= n <= 13) || (0x1C <= n <= 0x20) || n == 0x85 || n == 0xA0 || n == 0x1680
    || (0x2000 <= n <= 0x200A) || n == 0x2028 || n == 0x2029 || n == 0x202F || n == 0x205F || n == 0x3000
  }

  /** Leading whitespace removed. */
  function TrimLeft(s: string): (r: string)
    ensures |r| <= |s| && r == s[|s| - |r|..]
    ensures forall k :: 0 <= k < |s| - |r| ==> IsSpace(s[k])
    ensures r == [] || !IsSpace(r[0])
  {
    if s != [] && IsSpace(s[0]) then TrimLeft(s[1..]) else s
  }

  /** Trailing whitespace removed. */
  function TrimRight(s: string): (r: string)
    ensures |r| <= |s| && r == s[..|r|]
    ensures forall k :: |r| <= k < |s| ==> IsSpace(s[k])
    ensures r == [] || !IsSpace(r[|r| - 1])
  {
    if s != [] && IsSpace(s[|s| - 1]) then TrimRight(s[..|s| - 1]) else s
  }

  /** `str.strip()`: leading and trailing whitespace removed; what is left
      starts and ends with a non-space character. */
  function Trim(s: string): (r: string)
    ensures |r| <= |s|
    ensures r == [] || (!IsSpace(r[0]) && !IsSpace(r[|r| - 1]))
  {
    TrimRight(TrimLeft(s))
  }

  /** What `Trim` keeps is the run of `s` between a whitespace prefix and a
      whitespace suffix. */
  lemma TrimIsSlice(s: string)
    ensures exists i :: 0 <= i <= |s| && Trim(s) <= s[i..]
              && (forall k :: 0 <= k < i ==> IsSpace(s[k]))
              && (forall k :: i + |Trim(s)| <= k < |s| ==> IsSpace(s[k]))
  {
    var left := TrimLeft(s);
    var r := TrimRight(left);
    var i := |s| - |left|;
    assert left == s[i..];
    assert r == left[..|r|];
    assert r <= s[i..];
    forall k | i + |r| <= k < |s|
      ensures IsSpace(s[k])
    {
      assert s[k] == left[k - i];
    }
    assert Trim(s) == r;
  }

  /** `item_name.lower() == 'nan'`: the text pandas shows for an empty cell. */
  predicate IsNanText(t: string)
  {
    |t| == 3 && (t[0] == 'n' || t[0] == 'N') && (t[1] == 'a' || t[1] == 'A') && (t[2] == 'n' || t[2] == 'N')
  }

  /** `item_name and item_name.lower() != 'nan'` on the stripped name. */
  predicate IsItemName(t: string)
  {
    t != [] && !IsNanText(t)
  }

  predicate Keep(row: Row)
  {
    IsItemName(Trim(row.item))
  }

  /** The rows that name an item, in matrix order. */
  function KeptRows(rows: seq<Row>): seq<Row>
    decreases |rows|
  {
    if rows == [] then []
    else
      var n := |rows| - 1;
      KeptRows(rows[..n]) + (if Keep(rows[n]) then [rows[n]] else [])
  }

  /** The parsed value of a price or weight cell: `max(0, float(v))`, and 0
      when it is blank or does not parse. */
  function CellValue(c: Cell): (v: real)
    ensures v >= 0.0
    ensures c.Number? && c.value >= 0.0 ==> v == c.value
    ensures !c.Number? || c.value <= 0.0 ==> v == 0.0
  {
    match c
    case Blank => 0.0
    case Number(x) => ClampNonNeg(x)
    case Unparsable => 0.0
  }

  /** A row is kept exactly when its stripped name is an item name; the kept
      rows are never more than the matrix rows. */
  lemma {:induction false} KeptExactly(rows: seq<Row>)
    ensures forall row :: row in KeptRows(rows) <==> row in rows && Keep(row)
    ensures |KeptRows(rows)| <= |rows|
    decreases |rows|
  {
    if rows != [] {
      var n := |rows| - 1;
      KeptExactly(rows[..n]);
      assert rows == rows[..n] + [rows[n]];
    }
  }

  lemma KeptStep(rows: seq<Row>, i: nat)
    requires i < |rows|
    ensures KeptRows(rows[..i + 1]) == KeptRows(rows[..i]) + (if Keep(rows[i]) then [rows[i]] else [])
  {
    assert rows[..i + 1][..i] == rows[..i];
  }

  /** `items` and `prices` are the stripped names and parsed prices of `kept`. */
  predicate ItemsOf(kept: seq<Row>, items: seq<string>, prices: seq<real>)
  {
    && |items| == |prices| == |kept|
    && forall k :: 0 <= k < |items| ==> items[k] == Trim(kept[k].item) && prices[k] == CellValue(kept[k].price)
  }

  lemma ItemsOfAppend(kept: seq<Row>, items: seq<string>, prices: seq<real>, row: Row)
    requires ItemsOf(kept, items, prices)
    ensures ItemsOf(kept + [row], items + [Trim(row.item)], prices + [CellValue(row.price)])
  {
    var kept', items', prices' := kept + [row], items + [Trim(row.item)], prices + [CellValue(row.price)];
    forall k | 0 <= k < |items'|
      ensures items'[k] == Trim(kept'[k].item) && prices'[k] == CellValue(kept'[k].price)
    {
      if k < |items| {
        assert items'[k] == items[k] && kept'[k] == kept[k] && prices'[k] == prices[k];
      }
    }
  }

  /** The first pass: item names and prices of the kept rows. */
  method ExtractItems(rows: seq<Row>) returns (items: seq<string>, finalPrices: seq<real>)
    ensures |items| == |finalPrices| == |KeptRows(rows)|
    ensures forall k :: 0 <= k < |items| ==>
              items[k] == Trim(KeptRows(rows)[k].item) && finalPrices[k] == CellValue(KeptRows(rows)[k].price)
  {
    items, finalPrices := [], [];
    ghost var kept: seq<Row> := [];
    for i := 0 to |rows|
      invariant kept == KeptRows(rows[..i])
      invariant ItemsOf(kept, items, finalPrices)
    {
      KeptStep(rows, i);
      var name := Trim(rows[i].item);
      if IsItemName(name) {
        ItemsOfAppend(kept, items, finalPrices, rows[i]);
        items := items + [name];
        finalPrices := finalPrices + [CellValue(rows[i].price)];
        kept := kept + [rows[i]];
      }
    }
    assert rows[..|rows|] == rows;
  }

  /** The weight under `person`'s column of a row; a missing column raises
      inside the `try`, and the bare `except` appends 0. */
  function WeightOf(row: Row, person: string): real
  {
    if person in row.weights then CellValue(row.weights[person]) else 0.0
  }

  /** `item_weights` for one row: its weight for every person, in people order. */
  method RowWeights(row: Row, people: seq<string>) returns (w: seq<real>)
    ensures |w| == |people|
    ensures forall p :: 0 <= p < |people| ==> w[p] == WeightOf(row, people[p]) && w[p] >= 0.0
  {
    w := [];
    for p := 0 to |people|
      invariant |w| == p
      invariant forall q :: 0 <= q < p ==> w[q] == WeightOf(row, people[q]) && w[q] >= 0.0
    {
      var weight := if people[p] in row.weights then CellValue(row.weights[people[p]]) else 0.0;
      w := w + [weight];
    }
  }

  /** `weights` holds, for each row of `kept`, its weight for every person. */
  predicate WeightsOf(kept: seq<Row>, people: seq<string>, weights: seq<seq<real>>)
  {
    && |weights| == |kept|
    && forall k :: 0 <= k < |weights| ==>
         |weights[k]| == |people| && forall p :: 0 <= p < |people| ==> weights[k][p] == WeightOf(kept[k], people[p])
  }

  lemma WeightsOfAppend(kept: seq<Row>, people: seq<string>, weights: seq<seq<real>>, row: Row, w: seq<real>)
    requires WeightsOf(kept, people, weights)
    requires |w| == |people| && forall p :: 0 <= p < |people| ==> w[p] == WeightOf(row, people[p])
    ensures WeightsOf(kept + [row], people, weights + [w])
  {
    var kept', weights' := kept + [row], weights + [w];
    forall k | 0 <= k < |weights'|
      ensures |weights'[k]| == |people|
              && forall p :: 0 <= p < |people| ==> weights'[k][p] == WeightOf(kept'[k], people[p])
    {
      if k < |weights| {
        assert weights'[k] == weights[k] && kept'[k] == kept[k];
      } else {
        assert weights'[k] == w && kept'[k] == row;
      }
    }
  }

  /** The second pass: for each kept row, the weight under every person's
      column, in people order. */
  method ExtractWeights(rows: seq<Row>, people: seq<string>) returns (weights: seq<seq<real>>)
    ensures WeightsOf(KeptRows(rows), people, weights)
  {
    weights := [];
    ghost var kept: seq<Row> := [];
    for i := 0 to |rows|
      invariant kept == KeptRows(rows[..i])
      invariant WeightsOf(kept, people, weights)
    {
      KeptStep(rows, i);
      if IsItemName(Trim(rows[i].item)) {
        var rowWeights := RowWeights(rows[i], people);
        WeightsOfAppend(kept, people, weights, rows[i], rowWeights);
        weights := weights + [rowWeights];
        kept := kept + [rows[i]];
      }
    }
    assert rows[..|rows|] == rows;
  }

  /**
   * Both passes on the same matrix: the three lists have one entry per kept
   * row and are aligned by position (entry `k` of each comes from the same
   * matrix row, which names an item); every price and weight is
   * non-negative, every weight is the cell under that person's column, and a
   * person without a column reads as 0 (the `except` branch).
   */
  method Extract(rows: seq<Row>, people: seq<string>)
    returns (items: seq<string>, finalPrices: seq<real>, weights: seq<seq<real>>)
    ensures |items| == |finalPrices| == |weights| == |KeptRows(rows)| <= |rows|
    ensures forall k :: 0 <= k < |items| ==> KeptRows(rows)[k] in rows && IsItemName(items[k])
    ensures forall k :: 0 <= k < |items| ==>
              items[k] == Trim(KeptRows(rows)[k].item) && finalPrices[k] == CellValue(KeptRows(rows)[k].price)
    ensures forall k :: 0 <= k < |weights| ==> |weights[k]| == |people|
    ensures forall k, p :: 0 <= k < |weights| && 0 <= p < |people| ==>
              weights[k][p] == WeightOf(KeptRows(rows)[k], people[p]) && weights[k][p] >= 0.0
    ensures forall k, p :: 0 <= k < |weights| && 0 <= p < |people| && people[p] in KeptRows(rows)[k].weights ==>
              weights[k][p] == CellValue(KeptRows(rows)[k].weights[people[p]])
  {
    items, finalPrices := ExtractItems(rows);
    weights := ExtractWeights(rows, people);
    KeptExactly(rows);
    forall k | 0 <= k < |items|
      ensures KeptRows(rows)[k] in rows && Keep(KeptRows(rows)[k])
    {
      assert KeptRows(rows)[k] in KeptRows(rows);
    }
  }
}
