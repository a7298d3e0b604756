/**
 The derived columns the inventory view adds to a copy of the table
 ('Valor Total', 'Costo Total', 'Margen') and the summary it shows beneath
 it (number of products, sum of 'Valor Total', sum of 'Costo Total').
 All amounts are integer cents, so the identities below are exact.
 */
module Metrics {
  import opened Table

  /** 'Valor Total' = Stock * Precio. */
  function TotalValue(r: Row): (v: int)
    ensures r.stock >= 0 && r.price >= 0 ==> v >= 0
    ensures r.stock == 0 || r.price == 0 ==> v == 0
  {
    r.stock * r.price
  }

  /** 'Costo Total' = Stock * Costo. */
  function TotalCost(r: Row): (c: int)
    ensures r.stock >= 0 && r.cost >= 0 ==> c >= 0
    ensures r.stock == 0 || r.cost == 0 ==> c == 0
  {
    r.stock * r.cost
  }

  /** 'Margen' = Precio - Costo. */
  function Margin(r: Row): (m: int)
    ensures m >= 0 <==> r.price >= r.cost
    ensures m == 0 <==> r.price == r.cost
  {
    r.price - r.cost
  }

  /** A row of the displayed copy: the original four cells and the three derived ones. */
  datatype MetricRow = MetricRow(row: Row, totalValue: int, totalCost: int, margin: int)

  /** One row of the displayed copy. */
  function MetricsOf(r: Row): (x: MetricRow)
    ensures x.row == r
    ensures x.totalValue - x.totalCost == r.stock * x.margin
    ensures r.stock >= 0 && r.price >= r.cost ==> x.totalValue >= x.totalCost
  {
    GrossProfit(r);
    MetricRow(r, TotalValue(r), TotalCost(r), Margin(r))
  }

  /** The displayed copy of the table with the derived columns appended. */
  function WithMetrics(t: seq<Row>): (m: seq<MetricRow>)
    ensures |m| == |t|
    ensures forall i :: 0 <= i < |t| ==>
              m[i].row == t[i] && m[i].totalValue - m[i].totalCost == t[i].stock * m[i].margin
    ensures forall i :: 0 <= i < |t| && t[i].stock >= 0 && t[i].price >= t[i].cost ==>
              m[i].totalValue >= m[i].totalCost
  {
    seq(|t|, i requires 0 <= i < |t| => MetricsOf(t[i]))
  }

  /** Per row, total value less total cost is the stock times the margin. */
  lemma GrossProfit(r: Row)
    ensures TotalValue(r) - TotalCost(r) == r.stock * Margin(r)
    ensures r.stock >= 0 && r.price >= r.cost ==> TotalValue(r) >= TotalCost(r)
  {
    assert r.stock * r.price - r.stock * r.cost == r.stock * (r.price - r.cost);
    if r.stock >= 0 && r.price >= r.cost {
      assert r.stock * (r.price - r.cost) >= 0;
    }
  }

  /** The summary metrics: 'Total Productos', 'Valor Total Inventario', 'Costo Total Inventario'. */
  datatype Summary = Summary(count: nat, totalValue: int, totalCost: int)

  /** Sum of one column of the displayed copy (`inventario[col].sum()`; 0 for no rows). */
  function ColumnSum(m: seq<MetricRow>, col: MetricRow -> int): (total: int)
    ensures (forall i :: 0 <= i < |m| ==> col(m[i]) >= 0) ==> total >= 0
    ensures (forall i :: 0 <= i < |m| ==> col(m[i]) == 0) ==> total == 0
  {
    if m == [] then 0 else col(m[0]) + ColumnSum(m[1..], col)
  }

  function ValueColumn(x: MetricRow): int { x.totalValue }

  function CostColumn(x: MetricRow): int { x.totalCost }

  /** The summary computed from the displayed copy. */
  function Summarize(t: seq<Row>): (s: Summary)
    ensures s.count == |t|
    ensures (forall i :: 0 <= i < |t| ==> t[i].stock >= 0 && t[i].price >= 0 && t[i].cost >= 0) ==>
              s.totalValue >= 0 && s.totalCost >= 0
  {
    var m := WithMetrics(t);
    Summary(|m|, ColumnSum(m, ValueColumn), ColumnSum(m, CostColumn))
  }

  /** Sum of `f` over the rows, taken from the last row backwards: a
      reference written independently of the displayed copy. */
  function RowSum(t: seq<Row>, f: Row -> int): int
  {
    if t == [] then 0 else RowSum(t[..|t| - 1], f) + f(t[|t| - 1])
  }

  /** Stock * Margin of one row. */
  function StockMargin(r: Row): int
  {
    r.stock * Margin(r)
  }

  lemma {:induction false} ColumnSumAppend(a: seq<MetricRow>, b: seq<MetricRow>, col: MetricRow -> int)
    ensures ColumnSum(a + b, col) == ColumnSum(a, col) + ColumnSum(b, col)
  {
    if a == [] {
      assert a + b == b;
    } else {
      assert (a + b)[0] == a[0];
      assert (a + b)[1..] == a[1..] + b;
      ColumnSumAppend(a[1..], b, col);
    }
  }

  lemma WithMetricsAppend(a: seq<Row>, b: seq<Row>)
    ensures WithMetrics(a + b) == WithMetrics(a) + WithMetrics(b)
  {
    var l, r := WithMetrics(a + b), WithMetrics(a) + WithMetrics(b);
    assert |l| == |r|;
    forall i | 0 <= i < |l| ensures l[i] == r[i] {
      if i < |a| {
        assert (a + b)[i] == a[i];
      } else {
        assert (a + b)[i] == b[i - |a|];
      }
    }
  }

  /** The summary of the empty table is all zeros. */
  lemma SummaryOfEmpty()
    ensures Summarize([]) == Summary(0, 0, 0)
  {
  }

  /** The summary of two tables placed one after the other adds up field by field. */
  lemma SummaryAppend(a: seq<Row>, b: seq<Row>)
    ensures Summarize(a + b) ==
              Summary(Summarize(a).count + Summarize(b).count,
                      Summarize(a).totalValue + Summarize(b).totalValue,
                      Summarize(a).totalCost + Summarize(b).totalCost)
  {
    WithMetricsAppend(a, b);
    ColumnSumAppend(WithMetrics(a), WithMetrics(b), ValueColumn);
    ColumnSumAppend(WithMetrics(a), WithMetrics(b), CostColumn);
  }

  /** The summary of a one-row table is that row's own metrics. */
  lemma SummaryOfOne(r: Row)
    ensures Summarize([r]) == Summary(1, TotalValue(r), TotalCost(r))
  {
    var m := WithMetrics([r]);
    assert m == [MetricsOf(r)];
    assert m[1..] == [];
    assert ColumnSum(m, ValueColumn) == ValueColumn(m[0]) + ColumnSum(m[1..], ValueColumn);
    assert ColumnSum(m, CostColumn) == CostColumn(m[0]) + ColumnSum(m[1..], CostColumn);
  }

  /** Overwriting one row changes each total by the difference between the
      new row's amount and the old row's; the count stays. */
  lemma SummaryReplace(t: seq<Row>, k: nat, r: Row)
    requires k < |t|
    ensures Summarize(t[k := r]) ==
              Summary(Summarize(t).count, Summarize(t).totalValue - TotalValue(t[k]) + TotalValue(r),
                      Summarize(t).totalCost - TotalCost(t[k]) + TotalCost(r))
  {
    var before, after := t[..k], t[k + 1..];
    assert t == before + [t[k]] + after;
    assert t[k := r] == before + [r] + after;
    SummaryAppend(before + [t[k]], after);
    SummaryAppend(before, [t[k]]);
    SummaryAppend(before + [r], after);
    SummaryAppend(before, [r]);
    SummaryOfOne(t[k]);
    SummaryOfOne(r);
  }

  /** Lowering the stock of a row by `qty` lowers its total value and total
      cost by `qty` times its price and cost. */
  lemma LowerStock(r: Row, qty: int)
    ensures TotalValue(r.(stock := r.stock - qty)) == TotalValue(r) - qty * r.price
    ensures TotalCost(r.(stock := r.stock - qty)) == TotalCost(r) - qty * r.cost
  {
    assert (r.stock - qty) * r.price == r.stock * r.price - qty * r.price;
    assert (r.stock - qty) * r.cost == r.stock * r.cost - qty * r.cost;
  }

  /** The summary counts the rows, its totals are the sums of the rows'
      'Valor Total' and 'Costo Total', and its total value less its total
      cost is the sum over the rows of Stock * Margin. */
  lemma {:induction false} SummaryTotals(t: seq<Row>)
    ensures Summarize(t).count == |t|
    ensures Summarize(t).totalValue == RowSum(t, TotalValue)
    ensures Summarize(t).totalCost == RowSum(t, TotalCost)
    ensures Summarize(t).totalValue - Summarize(t).totalCost == RowSum(t, StockMargin)
  {
    if t != [] {
      var init, last := t[..|t| - 1], t[|t| - 1];
      assert t == init + [last];
      SummaryTotals(init);
      SummaryAppend(init, [last]);
      SummaryOfOne(last);
      GrossProfit(last);
    }
  }

  /** Adding a row raises the count by one and each total by that row's amount. */
  lemma SummaryAfterAdd(t: seq<Row>, r: Row)
    ensures Summarize(t + [r]) ==
              Summary(Summarize(t).count + 1, Summarize(t).totalValue + TotalValue(r),
                      Summarize(t).totalCost + TotalCost(r))
  {
    SummaryAppend(t, [r]);
    SummaryOfOne(r);
  }

  /** A stock subtraction that goes through keeps the count and lowers the
      totals by the quantity times the row's price and cost; one that does
      not go through changes nothing. */
  lemma SummaryAfterSubtract(t: seq<Row>, name: string, qty: int)
    ensures !CanSubtract(t, name, qty) ==> Summarize(Subtracted(t, name, qty)) == Summarize(t)
    ensures CanSubtract(t, name, qty) ==>
              var k := FirstIndex(t, name);
              Summarize(Subtracted(t, name, qty)) ==
                Summary(Summarize(t).count, Summarize(t).totalValue - qty * t[k].price,
                        Summarize(t).totalCost - qty * t[k].cost)
  {
    if CanSubtract(t, name, qty) {
      var k := FirstIndex(t, name);
      var lowered := t[k].(stock := t[k].stock - qty);
      assert Subtracted(t, name, qty) == t[k := lowered];
      SummaryReplace(t, k, lowered);
      LowerStock(t[k], qty);
    }
  }

  /** An edit of a present product keeps the count and moves each total by
      the new row's amount less the replaced row's; an edit of an absent
      product changes nothing. */
  lemma SummaryAfterEdit(t: seq<Row>, original: string, row: Row)
    ensures !Contains(t, original) ==> Summarize(Edited(t, original, row)) == Summarize(t)
    ensures Contains(t, original) ==>
              var k := FirstIndex(t, original);
              Summarize(Edited(t, original, row)) ==
                Summary(Summarize(t).count, Summarize(t).totalValue - TotalValue(t[k]) + TotalValue(row),
                        Summarize(t).totalCost - TotalCost(t[k]) + TotalCost(row))
  {
    if Contains(t, original) {
      var k := FirstIndex(t, original);
      assert Edited(t, original, row) == t[k := row];
      SummaryReplace(t, k, row);
    }
  }

  /** Dropping one row lowers the count by one and each total by that row's amount. */
  lemma SummaryRemove(t: seq<Row>, k: nat, rest: seq<Row>)
    requires k < |t| && rest == t[..k] + t[k + 1..]
    ensures Summarize(rest) ==
              Summary(Summarize(t).count - 1, Summarize(t).totalValue - TotalValue(t[k]),
                      Summarize(t).totalCost - TotalCost(t[k]))
  {
    var before, after := t[..k], t[k + 1..];
    assert t == before + [t[k]] + after;
    SummaryAppend(before + [t[k]], after);
    SummaryAppend(before, [t[k]]);
    SummaryAppend(before, after);
    SummaryOfOne(t[k]);
  }

  /** With unique names, deleting a present product lowers the count by one
      and each total by that product's amount. */
  lemma SummaryAfterDelete(t: seq<Row>, name: string)
    requires UniqueNames(t) && Contains(t, name)
    ensures var k := FirstIndex(t, name);
            Summarize(Without(t, name)) ==
              Summary(Summarize(t).count - 1, Summarize(t).totalValue - TotalValue(t[k]),
                      Summarize(t).totalCost - TotalCost(t[k]))
  {
    WithoutUniqueRemovesOne(t, name);
    SummaryRemove(t, FirstIndex(t, name), Without(t, name));
  }
}
