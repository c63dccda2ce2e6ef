/**
 * The settlement reducer: from each person's total owed and amount paid, a
 * list of (payer, payee, amount) transfers found by greedy largest-first
 * matching of debtors against creditors.
 */
module Settlement {
  import opened Common

  /** One (name, amount) pair of `debtors_sorted` or `creditors_sorted`. */
  datatype Entry = Entry(name: string, amount: real)

  /** `(from_person, to_person, amount)`. */
  datatype Transaction = Transaction(payer: string, payee: string, amount: real)

  /** Net balance per person: owed minus paid (positive = owes the group). */
  function Nets(people: seq<string>, paid: seq<real>, totals: seq<real>): seq<real>
    requires |people| <= |paid| && |people| <= |totals|
  {
    seq(|people|, i requires 0 <= i < |people| => totals[i] - paid[i])
  }

  /** `{person: amount for person, amount in net_amounts.items() if amount > 0}`,
      in people order. */
  function Debtors(people: seq<string>, nets: seq<real>): seq<Entry>
    requires |people| == |nets|
    decreases |people|
  {
    if people == [] then []
    else
      var n := |people| - 1;
      Debtors(people[..n], nets[..n]) + (if nets[n] > 0.0 then [Entry(people[n], nets[n])] else [])
  }

  /** `{person: -amount for person, amount in net_amounts.items() if amount < 0}`,
      in people order. */
  function Creditors(people: seq<string>, nets: seq<real>): seq<Entry>
    requires |people| == |nets|
    decreases |people|
  {
    if people == [] then []
    else
      var n := |people| - 1;
      Creditors(people[..n], nets[..n]) + (if nets[n] < 0.0 then [Entry(people[n], -nets[n])] else [])
  }

  /** Inserts `e` before the first entry whose amount is not larger, so that
      among equal amounts earlier entries stay first. */
  function InsertDesc(e: Entry, s: seq<Entry>): seq<Entry>
  {
    if s == [] || s[0].amount <= e.amount then [e] + s
    else [s[0]] + InsertDesc(e, s[1..])
  }

  /** `sorted(entries, key=amount, reverse=True)`: a stable descending sort. */
  function SortDesc(s: seq<Entry>): seq<Entry>
  {
    if s == [] then [] else InsertDesc(s[0], SortDesc(s[1..]))
  }

  predicate SortedDesc(s: seq<Entry>)
  {
    forall j, k :: 0 <= j < k < |s| ==> s[j].amount >= s[k].amount
  }

  /** The entries of `s` whose amount is `v`, in order. */
  function WithAmount(s: seq<Entry>, v: real): seq<Entry>
  {
    if s == [] then [] else (if s[0].amount == v then [s[0]] else []) + WithAmount(s[1..], v)
  }

  /** `debtors_sorted`. */
  function DebtorList(people: seq<string>, paid: seq<real>, totals: seq<real>): seq<Entry>
    requires |people| <= |paid| && |people| <= |totals|
  {
    SortDesc(Debtors(people, Nets(people, paid, totals)))
  }

  /** `creditors_sorted`. */
  function CreditorList(people: seq<string>, paid: seq<real>, totals: seq<real>): seq<Entry>
    requires |people| <= |paid| && |people| <= |totals|
  {
    SortDesc(Creditors(people, Nets(people, paid, totals)))
  }

  /** Totals of the settlement lists. Unlike `Common.Sum` (which follows
      Python's `sum` over a list of reals from the right end), these peel the
      head: the matching loop consumes both lists from the front, and every
      step lemma splits off `s[0]`. */
  function SumA(s: seq<Entry>): real
  {
    if s == [] then 0.0 else s[0].amount + SumA(s[1..])
  }

  /** Total of a transaction list, by the same head-first recursion. */
  function SumTx(t: seq<Transaction>): real
  {
    if t == [] then 0.0 else t[0].amount + SumTx(t[1..])
  }

  function Names(s: seq<Entry>): set<string>
  {
    set k | 0 <= k < |s| :: s[k].name
  }

  predicate NonNeg(s: seq<Entry>)
  {
    forall k :: 0 <= k < |s| ==> s[k].amount >= 0.0
  }

  /** Deducts `amount` from the head entry and drops the head once what is
      left of it is at or below the tolerance. */
  function Remaining(s: seq<Entry>, amount: real): (r: seq<Entry>)
    requires s != []
    ensures |r| == if s[0].amount - amount <= Tolerance then |s| - 1 else |s|
  {
    var left := s[0].amount - amount;
    if left <= Tolerance then s[1..] else [Entry(s[0].name, left)] + s[1..]
  }

  /**
   * The matching loop on what is left of both sorted lists: pay the smaller
   * head remainder, emit it only above the tolerance, deduct it from both
   * heads, and drop a head once its remainder is at or below the tolerance.
   */
  function Greedy(ds: seq<Entry>, cs: seq<Entry>): seq<Transaction>
    decreases |ds| + |cs|
  {
    if ds == [] || cs == [] then []
    else
      var amount := Min(ds[0].amount, cs[0].amount);
      var emitted := if amount > Tolerance then [Transaction(ds[0].name, cs[0].name, amount)] else [];
      emitted + Greedy(Remaining(ds, amount), Remaining(cs, amount))
  }

  /** calculate_settlement_transactions, identical in all three front-ends. */
  method SettlementTransactions(people: seq<string>, paid: seq<real>, totals: seq<real>)
    returns (transactions: seq<Transaction>)
    requires Distinct(people)
    requires |people| <= |paid| && |people| <= |totals|
    ensures transactions == Greedy(DebtorList(people, paid, totals), CreditorList(people, paid, totals))
    ensures forall t :: t in transactions ==> t.amount > Tolerance
    ensures forall t :: t in transactions ==>
              exists i :: 0 <= i < |people| && people[i] == t.payer && totals[i] - paid[i] > 0.0
    ensures forall t :: t in transactions ==>
              exists i :: 0 <= i < |people| && people[i] == t.payee && totals[i] - paid[i] < 0.0
    ensures DebtorList(people, paid, totals) == [] || CreditorList(people, paid, totals) == [] ==> transactions == []
    ensures |transactions| <= |DebtorList(people, paid, totals)| + |CreditorList(people, paid, totals)| - 1
            || transactions == []
    ensures SumTx(transactions) <= SumA(DebtorList(people, paid, totals))
    ensures SumTx(transactions) <= SumA(CreditorList(people, paid, totals))
  {
    var nets: seq<real> := [];
    for i := 0 to |people|
      invariant |nets| == i
      invariant forall k :: 0 <= k < i ==> nets[k] == totals[k] - paid[k]
    {
      nets := nets + [totals[i] - paid[i]];
    }
    assert nets == Nets(people, paid, totals);

    SortDescPermutes(Debtors(people, nets));
    SortDescPermutes(Creditors(people, nets));
    SortedListsPositive(people, nets);
    var debtorsLeft, creditorsLeft;
    transactions, debtorsLeft, creditorsLeft := MatchSorted(SortDesc(Debtors(people, nets)), SortDesc(Creditors(people, nets)));
    PlanFacts(people, paid, totals);
  }

  /** `sorted[idx] = (name, amount_left - transaction_amount)`. */
  function Deduct(s: seq<Entry>, i: nat, amount: real): (r: seq<Entry>)
    requires i < |s|
    ensures |r| == |s| && r[i].name == s[i].name && r[i].amount == s[i].amount - amount
    ensures forall k :: 0 <= k < |s| && k != i ==> r[k] == s[k]
  {
    s[i := Entry(s[i].name, s[i].amount - amount)]
  }

  /** The cursor moves past an entry once its remainder is at or below the tolerance. */
  function Advance(s: seq<Entry>, i: nat): nat
    requires i < |s|
  {
    if s[i].amount <= Tolerance then i + 1 else i
  }

  /** The loop invariant of the matching loop over working copies `ds`, `cs`
      of the sorted lists `D`, `C`. */
  ghost predicate MatchInv(D: seq<Entry>, C: seq<Entry>, ds: seq<Entry>, cs: seq<Entry>, di: nat, ci: nat,
                           transactions: seq<Transaction>)
  {
    && di <= |ds| == |D| && ci <= |cs| == |C|
    && transactions + Greedy(ds[di..], cs[ci..]) == Greedy(D, C)
    && NonNeg(ds) && NonNeg(cs)
    && SumA(D) - SumA(ds) == SumA(C) - SumA(cs)
    && SumTx(transactions) <= SumA(D) - SumA(ds)
  }

  /** The `while i < len(debtors_sorted) and j < len(creditors_sorted)` loop,
      deducting from working copies of both sorted lists in place. */
  method MatchSorted(debtors: seq<Entry>, creditors: seq<Entry>)
    returns (transactions: seq<Transaction>, ds: seq<Entry>, cs: seq<Entry>)
    requires NonNeg(debtors) && NonNeg(creditors)
    ensures transactions == Greedy(debtors, creditors)
    ensures |ds| == |debtors| && |cs| == |creditors|
    ensures NonNeg(ds) && NonNeg(cs)
    ensures SumA(debtors) - SumA(ds) == SumA(creditors) - SumA(cs)
    ensures SumTx(transactions) <= SumA(debtors) - SumA(ds)
  {
    ds, cs := debtors, creditors;
    transactions := [];
    var di: nat, ci: nat := 0, 0;
    while di < |ds| && ci < |cs|
      invariant MatchInv(debtors, creditors, ds, cs, di, ci, transactions)
      decreases |ds| - di + |cs| - ci
    {
      var debtor, creditor := ds[di], cs[ci];
      var amount := Min(debtor.amount, creditor.amount);
      MatchStep(debtors, creditors, ds, cs, di, ci, transactions);
      if amount > Tolerance {
        transactions := transactions + [Transaction(debtor.name, creditor.name, amount)];
      }
      ds := Deduct(ds, di, amount);
      cs := Deduct(cs, ci, amount);
      di := Advance(ds, di);
      ci := Advance(cs, ci);
    }
    assert ds[di..] == [] || cs[ci..] == [];
  }

  /** One pass of the loop body keeps the invariant and moves a cursor. */
  lemma MatchStep(D: seq<Entry>, C: seq<Entry>, ds: seq<Entry>, cs: seq<Entry>, di: nat, ci: nat,
                  transactions: seq<Transaction>)
    requires MatchInv(D, C, ds, cs, di, ci, transactions) && di < |ds| && ci < |cs|
    ensures var amount := Min(ds[di].amount, cs[ci].amount);
      var emitted := if amount > Tolerance then [Transaction(ds[di].name, cs[ci].name, amount)] else [];
      var ds', cs' := Deduct(ds, di, amount), Deduct(cs, ci, amount);
      && (amount > Tolerance ==>
            MatchInv(D, C, ds', cs', Advance(ds', di), Advance(cs', ci),
                     transactions + [Transaction(ds[di].name, cs[ci].name, amount)]))
      && (amount <= Tolerance ==> MatchInv(D, C, ds', cs', Advance(ds', di), Advance(cs', ci), transactions))
      && (Advance(ds', di) > di || Advance(cs', ci) > ci)
  {
    var amount := Min(ds[di].amount, cs[ci].amount);
    var emitted := if amount > Tolerance then [Transaction(ds[di].name, cs[ci].name, amount)] else [];
    var ds', cs' := Deduct(ds, di, amount), Deduct(cs, ci, amount);
    var di', ci' := Advance(ds', di), Advance(cs', ci);
    var nextDs, nextCs := Remaining(ds[di..], amount), Remaining(cs[ci..], amount);
    assert Greedy(ds[di..], cs[ci..]) == emitted + Greedy(nextDs, nextCs);
    DeductAt(ds, di, amount);
    DeductAt(cs, ci, amount);
    assert ds'[di'..] == nextDs && cs'[ci'..] == nextCs;
    SumTxConcat(transactions, emitted);
    TxAssociative(transactions, emitted, Greedy(nextDs, nextCs));
    if amount <= Tolerance {
      assert transactions + emitted == transactions;
    }
  }

  lemma TxAssociative(a: seq<Transaction>, b: seq<Transaction>, c: seq<Transaction>)
    ensures (a + b) + c == a + (b + c)
  {
  }

  /** Deducting `amount` at the cursor keeps amounts non-negative, lowers the
      sum by `amount`, and leaves from the cursor on (past it once the
      remainder is at or below the tolerance) exactly what `Remaining` leaves
      of the suffix. */
  lemma DeductAt(s: seq<Entry>, i: nat, amount: real)
    requires i < |s| && NonNeg(s) && 0.0 <= amount <= s[i].amount
    ensures NonNeg(Deduct(s, i, amount)) && SumA(Deduct(s, i, amount)) == SumA(s) - amount
    ensures Deduct(s, i, amount)[Advance(Deduct(s, i, amount), i)..] == Remaining(s[i..], amount)
  {
    var s' := Deduct(s, i, amount);
    SumAUpdate(s, i, s'[i]);
    assert s' == s[i := s'[i]];
    DeductSuffix(s, i, amount);
  }

  lemma DeductSuffix(s: seq<Entry>, i: nat, amount: real)
    requires i < |s|
    ensures Deduct(s, i, amount)[Advance(Deduct(s, i, amount), i)..] == Remaining(s[i..], amount)
  {
    var s' := Deduct(s, i, amount);
    assert s[i..][1..] == s[i + 1..] == s'[i + 1..];
    if s'[i].amount > Tolerance {
      assert s'[i..] == [s'[i]] + s'[i + 1..];
    }
  }

  /**
   * What the greedy plan on the sorted debtor and creditor lists promises:
   * amounts above the tolerance, payers who owe, payees who are owed, no plan
   * when a side is empty, at most one transaction fewer than there are
   * parties, and a total between the smaller side minus two tolerances per
   * party and either side. The difference of the two sides is the net sum,
   * so for a balanced bill the two sides are equal.
   */
  lemma PlanFacts(people: seq<string>, paid: seq<real>, totals: seq<real>)
    requires |people| <= |paid| && |people| <= |totals|
    ensures var D, C := DebtorList(people, paid, totals), CreditorList(people, paid, totals);
      var plan := Greedy(D, C);
      && (forall t :: t in plan ==> t.amount > Tolerance)
      && (forall t :: t in plan ==>
            exists i :: 0 <= i < |people| && people[i] == t.payer && totals[i] - paid[i] > 0.0)
      && (forall t :: t in plan ==>
            exists i :: 0 <= i < |people| && people[i] == t.payee && totals[i] - paid[i] < 0.0)
      && (D == [] || C == [] ==> plan == [])
      && (|plan| <= |D| + |C| - 1 || plan == [])
      && SumTx(plan) <= SumA(D) && SumTx(plan) <= SumA(C)
      && SumTx(plan) >= Min(SumA(D), SumA(C)) - 2.0 * Tolerance * ((|D| + |C|) as real)
      && SumA(D) - SumA(C) == Sum(Nets(people, paid, totals))
  {
    var nets := Nets(people, paid, totals);
    var D, C := DebtorList(people, paid, totals), CreditorList(people, paid, totals);
    GreedyAmounts(D, C);
    GreedyParties(D, C);
    GreedyLength(D, C);
    DebtorsNamed(people, nets);
    CreditorsNamed(people, nets);
    SortedListsPositive(people, nets);
    GreedyTotal(D, C);
    SortDescPermutes(Debtors(people, nets));
    SortDescPermutes(Creditors(people, nets));
    DebtMinusCreditIsNetSum(people, nets);
  }

  // ---------------------------------------------------------------------------
  // Partition into debtors and creditors
  // ---------------------------------------------------------------------------

  /** Every debtor is a person with a positive net, carrying that net. */
  lemma {:induction false} DebtorsSound(people: seq<string>, nets: seq<real>)
    requires |people| == |nets|
    ensures forall e :: e in Debtors(people, nets) ==>
              exists i :: 0 <= i < |people| && people[i] == e.name && nets[i] > 0.0 && e.amount == nets[i]
    decreases |people|
  {
    if people != [] {
      var n := |people| - 1;
      DebtorsSound(people[..n], nets[..n]);
      forall e | e in Debtors(people, nets)
        ensures exists i :: 0 <= i < |people| && people[i] == e.name && nets[i] > 0.0 && e.amount == nets[i]
      {
        if e in Debtors(people[..n], nets[..n]) {
          var i :| 0 <= i < n && people[..n][i] == e.name && nets[..n][i] > 0.0 && e.amount == nets[..n][i];
          assert people[i] == e.name && nets[i] == nets[..n][i];
        } else {
          assert people[n] == e.name && nets[n] > 0.0 && e.amount == nets[n];
        }
      }
    }
  }

  /** Every person with a positive net is a debtor. */
  lemma {:induction false} DebtorsComplete(people: seq<string>, nets: seq<real>)
    requires |people| == |nets|
    ensures forall i :: 0 <= i < |people| && nets[i] > 0.0 ==> Entry(people[i], nets[i]) in Debtors(people, nets)
    decreases |people|
  {
    if people != [] {
      var n := |people| - 1;
      DebtorsComplete(people[..n], nets[..n]);
      forall i | 0 <= i < |people| && nets[i] > 0.0
        ensures Entry(people[i], nets[i]) in Debtors(people, nets)
      {
        if i < n {
          assert people[..n][i] == people[i] && nets[..n][i] == nets[i];
        }
      }
    }
  }

  /** Every creditor is a person with a negative net, carrying its magnitude. */
  lemma {:induction false} CreditorsSound(people: seq<string>, nets: seq<real>)
    requires |people| == |nets|
    ensures forall e :: e in Creditors(people, nets) ==>
              exists i :: 0 <= i < |people| && people[i] == e.name && nets[i] < 0.0 && e.amount == -nets[i]
    decreases |people|
  {
    if people != [] {
      var n := |people| - 1;
      CreditorsSound(people[..n], nets[..n]);
      forall e | e in Creditors(people, nets)
        ensures exists i :: 0 <= i < |people| && people[i] == e.name && nets[i] < 0.0 && e.amount == -nets[i]
      {
        if e in Creditors(people[..n], nets[..n]) {
          var i :| 0 <= i < n && people[..n][i] == e.name && nets[..n][i] < 0.0 && e.amount == -nets[..n][i];
          assert people[i] == e.name && nets[i] == nets[..n][i];
        } else {
          assert people[n] == e.name && nets[n] < 0.0 && e.amount == -nets[n];
        }
      }
    }
  }

  /** Every person with a negative net is a creditor. */
  lemma {:induction false} CreditorsComplete(people: seq<string>, nets: seq<real>)
    requires |people| == |nets|
    ensures forall i :: 0 <= i < |people| && nets[i] < 0.0 ==> Entry(people[i], -nets[i]) in Creditors(people, nets)
    decreases |people|
  {
    if people != [] {
      var n := |people| - 1;
      CreditorsComplete(people[..n], nets[..n]);
      forall i | 0 <= i < |people| && nets[i] < 0.0
        ensures Entry(people[i], -nets[i]) in Creditors(people, nets)
      {
        if i < n {
          assert people[..n][i] == people[i] && nets[..n][i] == nets[i];
        }
      }
    }
  }

  /** Both sorted lists hold only positive amounts. */
  lemma SortedListsPositive(people: seq<string>, nets: seq<real>)
    requires |people| == |nets|
    ensures forall k :: 0 <= k < |SortDesc(Debtors(people, nets))| ==> SortDesc(Debtors(people, nets))[k].amount > 0.0
    ensures forall k :: 0 <= k < |SortDesc(Creditors(people, nets))| ==> SortDesc(Creditors(people, nets))[k].amount > 0.0
    ensures NonNeg(SortDesc(Debtors(people, nets))) && NonNeg(SortDesc(Creditors(people, nets)))
  {
    DebtorsSound(people, nets);
    CreditorsSound(people, nets);
    SortDescPermutes(Debtors(people, nets));
    SortDescPermutes(Creditors(people, nets));
    forall k | 0 <= k < |SortDesc(Debtors(people, nets))|
      ensures SortDesc(Debtors(people, nets))[k].amount > 0.0
    {
      assert SortDesc(Debtors(people, nets))[k] in multiset(Debtors(people, nets));
    }
    forall k | 0 <= k < |SortDesc(Creditors(people, nets))|
      ensures SortDesc(Creditors(people, nets))[k].amount > 0.0
    {
      assert SortDesc(Creditors(people, nets))[k] in multiset(Creditors(people, nets));
    }
  }

  /** Names in the sorted debtor list are people with a positive net. */
  lemma DebtorsNamed(people: seq<string>, nets: seq<real>)
    requires |people| == |nets|
    ensures forall x :: x in Names(SortDesc(Debtors(people, nets))) ==>
              exists i :: 0 <= i < |people| && people[i] == x && nets[i] > 0.0
  {
    var D := SortDesc(Debtors(people, nets));
    DebtorsSound(people, nets);
    SortDescPermutes(Debtors(people, nets));
    forall x | x in Names(D)
      ensures exists i :: 0 <= i < |people| && people[i] == x && nets[i] > 0.0
    {
      var k :| 0 <= k < |D| && D[k].name == x;
      assert D[k] in multiset(Debtors(people, nets));
    }
  }

  /** Names in the sorted creditor list are people with a negative net. */
  lemma CreditorsNamed(people: seq<string>, nets: seq<real>)
    requires |people| == |nets|
    ensures forall x :: x in Names(SortDesc(Creditors(people, nets))) ==>
              exists i :: 0 <= i < |people| && people[i] == x && nets[i] < 0.0
  {
    var C := SortDesc(Creditors(people, nets));
    CreditorsSound(people, nets);
    SortDescPermutes(Creditors(people, nets));
    forall x | x in Names(C)
      ensures exists i :: 0 <= i < |people| && people[i] == x && nets[i] < 0.0
    {
      var k :| 0 <= k < |C| && C[k].name == x;
      assert C[k] in multiset(Creditors(people, nets));
    }
  }

  /** Total debt minus total credit is the sum of the nets: when everything
      owed was paid overall, the two sides balance. */
  lemma {:induction false} DebtMinusCreditIsNetSum(people: seq<string>, nets: seq<real>)
    requires |people| == |nets|
    ensures SumA(Debtors(people, nets)) - SumA(Creditors(people, nets)) == Sum(nets)
    decreases |people|
  {
    if people != [] {
      var n := |people| - 1;
      DebtMinusCreditIsNetSum(people[..n], nets[..n]);
      var d := if nets[n] > 0.0 then [Entry(people[n], nets[n])] else [];
      var c := if nets[n] < 0.0 then [Entry(people[n], -nets[n])] else [];
      SumAConcat(Debtors(people[..n], nets[..n]), d);
      SumAConcat(Creditors(people[..n], nets[..n]), c);
      assert nets[..n] == nets[..|nets| - 1];
    }
  }

  // ---------------------------------------------------------------------------
  // Stable descending sort
  // ---------------------------------------------------------------------------

  lemma {:induction false} InsertDescPermutes(e: Entry, s: seq<Entry>)
    ensures multiset(InsertDesc(e, s)) == multiset(s) + multiset{e}
    ensures |InsertDesc(e, s)| == |s| + 1
    ensures SumA(InsertDesc(e, s)) == e.amount + SumA(s)
    decreases |s|
  {
    if !(s == [] || s[0].amount <= e.amount) {
      InsertDescPermutes(e, s[1..]);
      assert s == [s[0]] + s[1..];
    }
  }

  /** Inserting below a bound keeps every amount below it. */
  lemma {:induction false} InsertDescBounded(e: Entry, s: seq<Entry>, bound: real)
    requires e.amount <= bound && forall k :: 0 <= k < |s| ==> s[k].amount <= bound
    ensures forall k :: 0 <= k < |InsertDesc(e, s)| ==> InsertDesc(e, s)[k].amount <= bound
    decreases |s|
  {
    if !(s == [] || s[0].amount <= e.amount) {
      InsertDescBounded(e, s[1..], bound);
      assert InsertDesc(e, s) == [s[0]] + InsertDesc(e, s[1..]);
    }
  }

  lemma {:induction false} InsertDescSorted(e: Entry, s: seq<Entry>)
    requires SortedDesc(s)
    ensures SortedDesc(InsertDesc(e, s))
    decreases |s|
  {
    if !(s == [] || s[0].amount <= e.amount) {
      var t := InsertDesc(e, s[1..]);
      InsertDescSorted(e, s[1..]);
      InsertDescBounded(e, s[1..], s[0].amount);
      assert InsertDesc(e, s) == [s[0]] + t;
    }
  }

  lemma {:induction false} InsertDescStable(e: Entry, s: seq<Entry>, v: real)
    ensures WithAmount(InsertDesc(e, s), v) == (if e.amount == v then [e] else []) + WithAmount(s, v)
    decreases |s|
  {
    var r := InsertDesc(e, s);
    if s == [] || s[0].amount <= e.amount {
      assert r == [e] + s && r[1..] == s;
    } else {
      var t := InsertDesc(e, s[1..]);
      InsertDescStable(e, s[1..], v);
      assert r == [s[0]] + t && r[0] == s[0] && r[1..] == t;
      var w0 := if s[0].amount == v then [s[0]] else [];
      var we := if e.amount == v then [e] else [];
      assert WithAmount(r, v) == w0 + WithAmount(t, v);
      assert WithAmount(t, v) == we + WithAmount(s[1..], v);
      assert WithAmount(s, v) == w0 + WithAmount(s[1..], v);
      if e.amount == v {
        assert w0 == [];
      } else {
        assert we == [];
      }
    }
  }

  /** The sorted list is a permutation of its input with the same total. */
  lemma {:induction false} SortDescPermutes(s: seq<Entry>)
    ensures multiset(SortDesc(s)) == multiset(s)
    ensures |SortDesc(s)| == |s|
    ensures SumA(SortDesc(s)) == SumA(s)
    decreases |s|
  {
    if s != [] {
      SortDescPermutes(s[1..]);
      InsertDescPermutes(s[0], SortDesc(s[1..]));
      assert s == [s[0]] + s[1..];
    }
  }

  /** The sorted list is in descending order of amount. */
  lemma {:induction false} SortDescSorted(s: seq<Entry>)
    ensures SortedDesc(SortDesc(s))
    decreases |s|
  {
    if s != [] {
      SortDescSorted(s[1..]);
      InsertDescSorted(s[0], SortDesc(s[1..]));
    }
  }

  /** The sort is stable: the entries with any one amount keep their relative
      input order (for the partitions, people order). */
  lemma {:induction false} SortDescStable(s: seq<Entry>, v: real)
    ensures WithAmount(SortDesc(s), v) == WithAmount(s, v)
    decreases |s|
  {
    if s != [] {
      SortDescStable(s[1..], v);
      InsertDescStable(s[0], SortDesc(s[1..]), v);
    }
  }

  // ---------------------------------------------------------------------------
  // The greedy matching
  // ---------------------------------------------------------------------------

  /** What `Remaining` keeps: names from the list, non-negative amounts when the
      deduction is at most the head, and the sum lowered by the deduction plus
      at most one dropped remainder of at most the tolerance. */
  lemma RemainingFacts(s: seq<Entry>, amount: real)
    requires s != []
    ensures Names(Remaining(s, amount)) <= Names(s)
    ensures NonNeg(s) && 0.0 <= amount <= s[0].amount ==>
              NonNeg(Remaining(s, amount))
              && SumA(s) - amount - Tolerance <= SumA(Remaining(s, amount)) <= SumA(s) - amount
  {
    var r := Remaining(s, amount);
    assert SumA(s) == s[0].amount + SumA(s[1..]);
    if s[0].amount - amount > Tolerance {
      assert r[1..] == s[1..];
      assert forall k :: 1 <= k < |r| ==> r[k] == s[k];
    } else {
      assert forall k :: 0 <= k < |r| ==> r[k] == s[k + 1];
    }
  }

  /** No emitted transaction is at or below the tolerance. */
  lemma {:induction false} GreedyAmounts(ds: seq<Entry>, cs: seq<Entry>)
    ensures forall t :: t in Greedy(ds, cs) ==> t.amount > Tolerance
    decreases |ds| + |cs|
  {
    if ds != [] && cs != [] {
      var amount := Min(ds[0].amount, cs[0].amount);
      GreedyAmounts(Remaining(ds, amount), Remaining(cs, amount));
    }
  }

  /** Every transaction goes from a debtor of `ds` to a creditor of `cs`. */
  lemma {:induction false} GreedyParties(ds: seq<Entry>, cs: seq<Entry>)
    ensures forall t :: t in Greedy(ds, cs) ==> t.payer in Names(ds) && t.payee in Names(cs)
    decreases |ds| + |cs|
  {
    if ds != [] && cs != [] {
      var amount := Min(ds[0].amount, cs[0].amount);
      GreedyParties(Remaining(ds, amount), Remaining(cs, amount));
      RemainingFacts(ds, amount);
      RemainingFacts(cs, amount);
      assert ds[0].name in Names(ds) && cs[0].name in Names(cs);
    }
  }

  /** Each step drops at least one party, so the plan is empty when either side
      is, and otherwise has at most `#debtors + #creditors - 1` transactions. */
  lemma {:induction false} GreedyLength(ds: seq<Entry>, cs: seq<Entry>)
    ensures ds == [] || cs == [] ==> Greedy(ds, cs) == []
    ensures ds != [] && cs != [] ==> |Greedy(ds, cs)| <= |ds| + |cs| - 1
    decreases |ds| + |cs|
  {
    if ds != [] && cs != [] {
      var amount := Min(ds[0].amount, cs[0].amount);
      GreedyLength(Remaining(ds, amount), Remaining(cs, amount));
    }
  }

  /**
   * With non-negative amounts, the emitted total never exceeds the total debt
   * or the total credit, and falls short of the smaller of the two by at most
   * twice the tolerance per party (per step, one skipped payment and one
   * dropped remainder of at most the tolerance each).
   */
  lemma {:induction false} GreedyTotal(ds: seq<Entry>, cs: seq<Entry>)
    requires NonNeg(ds) && NonNeg(cs)
    ensures SumTx(Greedy(ds, cs)) <= SumA(ds)
    ensures SumTx(Greedy(ds, cs)) <= SumA(cs)
    ensures SumTx(Greedy(ds, cs)) >= Min(SumA(ds), SumA(cs)) - 2.0 * Tolerance * ((|ds| + |cs|) as real)
    decreases |ds| + |cs|
  {
    SumANonNeg(ds);
    SumANonNeg(cs);
    if ds != [] && cs != [] {
      var amount := Min(ds[0].amount, cs[0].amount);
      var emitted := if amount > Tolerance then [Transaction(ds[0].name, cs[0].name, amount)] else [];
      var ds', cs' := Remaining(ds, amount), Remaining(cs, amount);
      RemainingFacts(ds, amount);
      RemainingFacts(cs, amount);
      GreedyTotal(ds', cs');
      SumTxConcat(emitted, Greedy(ds', cs'));
      assert amount - Tolerance <= SumTx(emitted) <= amount;
      assert |ds'| + |cs'| <= |ds| + |cs| - 1;
    }
  }

  // ---------------------------------------------------------------------------
  // Sums
  // ---------------------------------------------------------------------------

  lemma {:induction false} SumANonNeg(s: seq<Entry>)
    requires NonNeg(s)
    ensures SumA(s) >= 0.0
    decreases |s|
  {
    if s != [] {
      SumANonNeg(s[1..]);
    }
  }

  lemma {:induction false} SumAConcat(a: seq<Entry>, b: seq<Entry>)
    ensures SumA(a + b) == SumA(a) + SumA(b)
    decreases |a|
  {
    if a != [] {
      assert (a + b)[1..] == a[1..] + b;
      SumAConcat(a[1..], b);
    } else {
      assert a + b == b;
    }
  }

  lemma {:induction false} SumAUpdate(s: seq<Entry>, i: nat, e: Entry)
    requires i < |s|
    ensures SumA(s[i := e]) == SumA(s) - s[i].amount + e.amount
    decreases |s|
  {
    if i > 0 {
      assert s[i := e][1..] == s[1..][i - 1 := e];
      SumAUpdate(s[1..], i - 1, e);
    }
  }

  lemma {:induction false} SumTxConcat(a: seq<Transaction>, b: seq<Transaction>)
    ensures SumTx(a + b) == SumTx(a) + SumTx(b)
    decreases |a|
  {
    if a != [] {
      assert (a + b)[1..] == a[1..] + b;
      SumTxConcat(a[1..], b);
    } else {
      assert a + b == b;
    }
  }

  // ---------------------------------------------------------------------------
  // Worked examples
  // ---------------------------------------------------------------------------

  /** Alice owes 400 and paid 1000, Bob owes 600 and paid nothing: Bob pays
      Alice 600. */
  lemma TwoPersonExample()
    ensures Greedy(DebtorList(["Alice", "Bob"], [1000.0, 0.0], [400.0, 600.0]),
                   CreditorList(["Alice", "Bob"], [1000.0, 0.0], [400.0, 600.0]))
            == [Transaction("Bob", "Alice", 600.0)]
  {
    var nets := Nets(["Alice", "Bob"], [1000.0, 0.0], [400.0, 600.0]);
    assert nets == [-600.0, 600.0];
    assert ["Alice", "Bob"][..1] == ["Alice"];
    assert nets[..1] == [-600.0];
    assert Debtors(["Alice", "Bob"], nets) == [Entry("Bob", 600.0)];
    assert Creditors(["Alice", "Bob"], nets) == [Entry("Alice", 600.0)];
  }

  /** A net of half a paisa still makes its holder a debtor (the partition
      tests `> 0`, not the tolerance), but no transaction is emitted. */
  lemma TinyNetExample()
    ensures DebtorList(["Ann", "Raj"], [0.0, 0.005], [0.005, 0.0]) == [Entry("Ann", 0.005)]
    ensures Greedy(DebtorList(["Ann", "Raj"], [0.0, 0.005], [0.005, 0.0]),
                   CreditorList(["Ann", "Raj"], [0.0, 0.005], [0.005, 0.0])) == []
  {
    var nets := Nets(["Ann", "Raj"], [0.0, 0.005], [0.005, 0.0]);
    assert nets == [0.005, -0.005];
    assert ["Ann", "Raj"][..1] == ["Ann"];
    assert nets[..1] == [0.005];
    assert Debtors(["Ann", "Raj"], nets) == [Entry("Ann", 0.005)];
    assert Creditors(["Ann", "Raj"], nets) == [Entry("Raj", 0.005)];
  }
}
