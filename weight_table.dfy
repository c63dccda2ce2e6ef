/**
 * The person x item weight matrix kept between reruns: created all-zero,
 * rebuilt when the people or the items change, edited cell by cell, set to 1
 * down one column by "Equal Split", and read back column by column as the
 * per-item weight rows the allocation takes.
 */
module WeightTable {
  import opened Common
  import opened Allocation

  /** A person x item table of weights: one row per person, one cell per
      column, every weight non-negative (the editor's `min_value=0`). */
  predicate Shaped(persons: seq<string>, columns: seq<string>, cells: seq<seq<real>>)
  {
    && |cells| == |persons|
    && forall r :: 0 <= r < |cells| ==>
         |cells[r]| == |columns| && forall c :: 0 <= c < |columns| ==> cells[r][c] >= 0.0
  }

  /** `[0] * len(people)` for every item. */
  function Zeros(rows: nat, cols: nat): seq<seq<real>>
  {
    seq(rows, r => seq(cols, c => 0.0))
  }

  /** The table's weight in row `r` under the column labelled `item`. */
  function CellWeight(columns: seq<string>, cells: seq<seq<real>>, r: nat, item: string): real
    requires r < |cells| && item in columns && |cells[r]| == |columns|
  {
    cells[r][IndexOf(columns, item)]
  }

  /** The rebuild test as the code writes it: the set of row labels or the set
      of item columns differs from the current people and items.
      `resetWhenEmpty` adds the `len(weight_matrix) == 0` test of one
      front-end. */
  predicate NeedsReset(persons: seq<string>, columns: seq<string>, people: seq<string>, items: seq<string>,
                       resetWhenEmpty: bool)
  {
    (resetWhenEmpty && |persons| == 0) || SetOf(persons) != SetOf(people) || SetOf(columns) != SetOf(items)
  }

  /** The rebuild test the positional read-back needs: the row labels are not
      the people in the same order, or the item set differs. */
  predicate NeedsResetOrdered(persons: seq<string>, columns: seq<string>, people: seq<string>, items: seq<string>)
  {
    persons != people || SetOf(columns) != SetOf(items)
  }

  class Table {
    /** The `Person` column: row labels. */
    var persons: seq<string>
    /** The item columns after `Person`. */
    var columns: seq<string>
    /** `cells[r][c]`: the weight of `persons[r]` for `columns[c]`. */
    var cells: seq<seq<real>>

    ghost predicate Valid()
      reads this
    {
      Distinct(persons) && Shaped(persons, columns, cells)
    }

    /** The table created when the session has none yet. */
    constructor (people: seq<string>, items: seq<string>)
      requires Distinct(people)
      ensures Valid()
      ensures persons == people && columns == items && cells == Zeros(|people|, |items|)
    {
      persons, columns, cells := people, items, Zeros(|people|, |items|);
    }

    /**
     * The "people or items changed" rebuild as written: sets are compared, so
     * a table whose rows hold the same people in another order is kept.
     * Afterwards the table always has one row per person.
     */
    method SyncAsWritten(people: seq<string>, items: seq<string>, resetWhenEmpty: bool)
      requires Valid() && Distinct(people)
      modifies this
      ensures Valid()
      ensures SetOf(persons) == SetOf(people) && SetOf(columns) == SetOf(items) && |persons| == |people|
      ensures NeedsReset(old(persons), old(columns), people, items, resetWhenEmpty) ==>
                persons == people && columns == items && cells == Zeros(|people|, |items|)
      ensures !NeedsReset(old(persons), old(columns), people, items, resetWhenEmpty) ==>
                persons == old(persons) && columns == old(columns) && cells == old(cells)
    {
      if NeedsReset(persons, columns, people, items, resetWhenEmpty) {
        persons, columns, cells := people, items, Zeros(|people|, |items|);
      }
      DistinctSameSetSameLength(persons, people);
    }

    /** The rebuild with the ordered test: afterwards row `p` is `people[p]`. */
    method Sync(people: seq<string>, items: seq<string>)
      requires Valid() && Distinct(people)
      modifies this
      ensures Valid()
      ensures persons == people && SetOf(columns) == SetOf(items)
      ensures NeedsResetOrdered(old(persons), old(columns), people, items) ==>
                columns == items && cells == Zeros(|people|, |items|)
      ensures !NeedsResetOrdered(old(persons), old(columns), people, items) ==>
                columns == old(columns) && cells == old(cells)
    {
      if NeedsResetOrdered(persons, columns, people, items) {
        persons, columns, cells := people, items, Zeros(|people|, |items|);
      }
    }

    /** "Equal Split" on `item`: rows `0 .. count-1` of its column become 1,
        every other cell keeps its weight. */
    method EqualSplit(count: nat, item: string)
      requires Valid() && item in columns && count <= |persons|
      modifies this
      ensures Valid()
      ensures persons == old(persons) && columns == old(columns) && |cells| == |old(cells)|
      ensures forall r, c :: 0 <= r < |cells| && 0 <= c < |columns| ==>
                cells[r][c] == (if r < count && c == IndexOf(columns, item) then 1.0 else old(cells)[r][c])
    {
      var k := IndexOf(columns, item);
      ghost var before := cells;
      for r := 0 to count
        invariant persons == old(persons) && columns == old(columns) && before == old(cells)
        invariant Shaped(persons, columns, cells) && |cells| == |before|
        invariant forall q, c :: 0 <= q < |cells| && 0 <= c < |columns| ==>
                    cells[q][c] == (if q < r && c == k then 1.0 else before[q][c])
      {
        cells := cells[r := cells[r][k := 1.0]];
      }
    }

    /** One cell changed in the editor to a non-negative weight. */
    method Edit(r: nat, c: nat, w: real)
      requires Valid() && r < |persons| && c < |columns| && w >= 0.0
      modifies this
      ensures Valid()
      ensures persons == old(persons) && columns == old(columns)
      ensures cells == old(cells)[r := old(cells)[r][c := w]]
    {
      cells := cells[r := cells[r][c := w]];
    }

    /** `weights[i] = edited_weights[items[i]].tolist()`: per item, that
        column's weight for every row, in row order. */
    method ItemRows(items: seq<string>) returns (weights: seq<seq<real>>)
      requires Valid()
      requires forall i :: 0 <= i < |items| ==> items[i] in columns
      ensures |weights| == |items|
      ensures forall i :: 0 <= i < |items| ==> |weights[i]| == |persons|
      ensures forall i, r :: 0 <= i < |items| && 0 <= r < |persons| ==>
                weights[i][r] == CellWeight(columns, cells, r, items[i]) && weights[i][r] >= 0.0
    {
      var table := cells;
      weights := [];
      for i := 0 to |items|
        invariant |weights| == i
        invariant forall j :: 0 <= j < i ==> |weights[j]| == |persons|
        invariant forall j, r :: 0 <= j < i && 0 <= r < |persons| ==>
                    weights[j][r] == CellWeight(columns, cells, r, items[j]) && weights[j][r] >= 0.0
      {
        var k := IndexOf(columns, items[i]);
        var column := seq(|table|, r requires 0 <= r < |table| => table[r][k]);
        weights := weights + [column];
      }
    }
  }

  /**
   * With the ordered rebuild test, reading rows by position gives each person
   * the row labelled with their name.
   */
  lemma OrderedRowsFollowNames(persons: seq<string>, columns: seq<string>, people: seq<string>, items: seq<string>)
    requires Distinct(people)
    requires !NeedsResetOrdered(persons, columns, people, items)
    ensures forall p :: 0 <= p < |people| ==> people[p] in persons && IndexOf(persons, people[p]) == p
  {
    forall p | 0 <= p < |people|
      ensures IndexOf(persons, people[p]) == p
    {
      IndexOfDistinct(people, p);
    }
  }

  /**
   * The set test keeps a table whose rows list the same people in another
   * order. Rows are then read by position: with the people re-entered as
   * Bob, Alice over a table built for Alice, Bob in which only Alice had the
   * pizza, position 0 (now Bob) is read from Alice's row and Bob is charged
   * the whole 800 pizza.
   */
  lemma SyncKeepsReorderedTable()
    ensures var persons, columns, cells := ["Alice", "Bob"], ["Pizza"], [[1.0], [0.0]];
      var people, items := ["Bob", "Alice"], ["Pizza"];
      && Shaped(persons, columns, cells) && Distinct(people)
      && !NeedsReset(persons, columns, people, items, true)
      && CellWeight(columns, cells, 0, "Pizza") == 1.0
      && CellWeight(columns, cells, IndexOf(persons, people[0]), "Pizza") == 0.0
      && Share([800.0], [[CellWeight(columns, cells, 0, "Pizza"), CellWeight(columns, cells, 1, "Pizza")]], 0, 0)
         == 800.0
  {
    var persons, columns, cells := ["Alice", "Bob"], ["Pizza"], [[1.0], [0.0]];
    var people, items := ["Bob", "Alice"], ["Pizza"];
    assert SetOf(persons) == {"Alice", "Bob"} by {
      assert persons[0] == "Alice" && persons[1] == "Bob";
    }
    assert SetOf(people) == {"Alice", "Bob"} by {
      assert people[0] == "Bob" && people[1] == "Alice";
    }
    assert IndexOf(persons, "Bob") == 1 by {
      assert persons[0] != "Bob";
      assert persons[1..] == ["Bob"];
    }
    assert CellWeight(columns, cells, 0, "Pizza") == 1.0 && CellWeight(columns, cells, 1, "Pizza") == 0.0;
    var row := [1.0, 0.0];
    assert Sum(row) == 1.0 by {
      assert row[..1] == [1.0] && [1.0][..0] == [];
    }
  }
}
