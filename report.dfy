/** The report: the big-only filter and the total printed under the table. */
module Report {
  import opened Records

  /** The `--big` filter: the records whose stored `pricey` flag is set, in list order. */
  function BigOnly(es: seq<Expense>): (r: seq<Expense>)
    ensures |r| <= |es|
  {
    if es == [] then []
    else BigOnly(es[..|es| - 1]) + (if es[|es| - 1].pricey then [es[|es| - 1]] else [])
  }

  /** What `report` shows: every record, or only the big ones. */
  function Shown(es: seq<Expense>, bigOnly: bool): seq<Expense> {
    if bigOnly then BigOnly(es) else es
  }

  /** The positions in `es` that hold a pricey record, in increasing order. */
  function PriceyPositions(es: seq<Expense>): seq<nat> {
    if es == [] then []
    else PriceyPositions(es[..|es| - 1]) + (if es[|es| - 1].pricey then [|es| - 1] else [])
  }

  /** The k-th shown record is the one at the k-th pricey position. */
  lemma {:induction false} BigOnlyAtPositions(es: seq<Expense>, k: nat)
    requires k < |BigOnly(es)|
    ensures |PriceyPositions(es)| == |BigOnly(es)|
    ensures PriceyPositions(es)[k] < |es| && BigOnly(es)[k] == es[PriceyPositions(es)[k]]
    decreases |es|
  {
    var init := es[..|es| - 1];
    PriceyPositionsLength(init);
    if k < |BigOnly(init)| {
      BigOnlyAtPositions(init, k);
      assert es[PriceyPositions(init)[k]] == init[PriceyPositions(init)[k]];
    }
  }

  lemma {:induction false} PriceyPositionsLength(es: seq<Expense>)
    ensures |PriceyPositions(es)| == |BigOnly(es)|
    decreases |es|
  {
    if es != [] {
      PriceyPositionsLength(es[..|es| - 1]);
    }
  }

  /** The pricey positions are in range and increase strictly, so the filter keeps list order. */
  lemma {:induction false} PriceyPositionsIncrease(es: seq<Expense>)
    ensures forall i :: 0 <= i < |PriceyPositions(es)| ==> PriceyPositions(es)[i] < |es|
    ensures forall k, l :: 0 <= k < l < |PriceyPositions(es)| ==>
      PriceyPositions(es)[k] < PriceyPositions(es)[l]
    decreases |es|
  {
    if es != [] {
      PriceyPositionsIncrease(es[..|es| - 1]);
    }
  }

  /** A position is kept exactly when the record there is pricey. */
  lemma {:induction false} PriceyPositionsExact(es: seq<Expense>)
    ensures forall i :: 0 <= i < |es| ==> (es[i].pricey <==> i in PriceyPositions(es))
    decreases |es|
  {
    if es != [] {
      var init := es[..|es| - 1];
      PriceyPositionsExact(init);
      PriceyPositionsIncrease(init);
      forall i | 0 <= i < |init| ensures es[i].pricey <==> i in PriceyPositions(es) {
        assert es[i] == init[i];
      }
    }
  }

  /** The big-only report keeps exactly the pricey records, in their original order. */
  lemma BigOnlyKeepsOrder(es: seq<Expense>)
    ensures var idx := PriceyPositions(es);
      && |idx| == |BigOnly(es)|
      && (forall k :: 0 <= k < |idx| ==> idx[k] < |es| && BigOnly(es)[k] == es[idx[k]])
      && (forall k, l :: 0 <= k < l < |idx| ==> idx[k] < idx[l])
      && (forall i :: 0 <= i < |es| ==> (es[i].pricey <==> i in idx))
  {
    PriceyPositionsLength(es);
    forall k | 0 <= k < |BigOnly(es)|
      ensures PriceyPositions(es)[k] < |es| && BigOnly(es)[k] == es[PriceyPositions(es)[k]]
    {
      BigOnlyAtPositions(es, k);
    }
    PriceyPositionsIncrease(es);
    PriceyPositionsExact(es);
  }

  /** Filtering a concatenation is concatenating the filtered parts. */
  lemma {:induction false} BigOnlyConcat(a: seq<Expense>, b: seq<Expense>)
    ensures BigOnly(a + b) == BigOnly(a) + BigOnly(b)
    decreases |b|
  {
    if b == [] {
      assert a + b == a;
    } else {
      var b' := b[..|b| - 1];
      BigOnlyConcat(a, b');
      assert (a + b)[..|a + b| - 1] == a + b';
      assert (a + b)[|a + b| - 1] == b[|b| - 1];
    }
  }

  /** The arithmetic sum of the values, added front to back. */
  function Total(es: seq<Expense>): real {
    if es == [] then 0.0 else Total(es[..|es| - 1]) + es[|es| - 1].value
  }

  /** The total of a concatenation is the sum of the totals. */
  lemma {:induction false} TotalConcat(a: seq<Expense>, b: seq<Expense>)
    ensures Total(a + b) == Total(a) + Total(b)
    decreases |b|
  {
    if b == [] {
      assert a + b == a;
    } else {
      var b' := b[..|b| - 1];
      TotalConcat(a, b');
      assert (a + b)[..|a + b| - 1] == a + b';
    }
  }

  /** `print_expenses`: the total line is the sum of the values of the records shown. */
  method PrintExpenses(expenses: seq<Expense>) returns (total: real)
    ensures total == Total(expenses)
  {
    total := 0.0;
    for i := 0 to |expenses|
      invariant total == Total(expenses[..i])
    {
      assert expenses[..i + 1][..i] == expenses[..i];
      total := total + expenses[i].value;
    }
    assert expenses[..|expenses|] == expenses;
  }

  /** Each shown big record adds its amount; when every stored flag agrees with its amount
      (as for records made by add or import), the big-only total is at least 1000 per record. */
  lemma {:induction false} BigTotalAtLeastThreshold(es: seq<Expense>)
    requires forall e :: e in es ==> e.pricey == IsPricey(e.value)
    ensures Total(BigOnly(es)) >= BigThreshold * (|BigOnly(es)| as real)
    decreases |es|
  {
    if es != [] {
      var init, last := es[..|es| - 1], es[|es| - 1];
      assert forall e :: e in init ==> e in es;
      BigTotalAtLeastThreshold(init);
      if last.pricey {
        assert last in es;
        var b := BigOnly(init);
        assert BigOnly(es) == b + [last];
        assert (b + [last])[..|b|] == b;
        assert Total(b + [last]) == Total(b) + last.value;
        assert |b + [last]| as real == |b| as real + 1.0;
      } else {
        assert BigOnly(es) == BigOnly(init) + [];
        assert BigOnly(init) + [] == BigOnly(init);
      }
    }
  }

  /** `report --big` over amounts 999 and 1000 shows only the second, with total 1000. */
  lemma ReportBigExample(d: string)
    ensures var es := [Expense(1, d, 999.0, IsPricey(999.0)), Expense(2, d, 1000.0, IsPricey(1000.0))];
      Shown(es, true) == [es[1]] && Total(Shown(es, true)) == 1000.0
  {
    var es := [Expense(1, d, 999.0, IsPricey(999.0)), Expense(2, d, 1000.0, IsPricey(1000.0))];
    assert es[..1][..0] == [];
    assert BigOnly(es[..1]) == [];
    assert BigOnly(es) == [es[1]];
    assert [es[1]][..0] == [];
  }
}
