/**
 The session's inventory table as an object whose `rows` field the four
 operations update: add appends a row, delete replaces the table by its
 filtered copy, edit and subtract-stock overwrite cells of the first row
 carrying the name. The two form submissions run the admission check and
 call add or edit only when it passes. Names stay unique under the
 submissions, delete and subtract-stock, which the lemmas below prove.
 */
module Session {
  import opened Table
  import opened Admission
  import opened Metrics

  /** Which branch `sustraer_stock` takes. Only the last two reach the page as
      their own messages: after the Stock cell is written, the call that saves
      the table raises, so the page shows "Error al sustraer stock" instead of
      the remaining stock. */
  datatype SubtractOutcome =
    | StockReduced(remaining: int) // the Stock cell now holds `remaining`
    | NotEnoughStock(current: int) // "No hay suficiente stock ... Stock actual: current"
    | ProductNotFound              // "Producto ... no encontrado en el inventario."

  /** An admitted add appends a name no row carries, so names stay unique. */
  lemma AddKeepsUnique(t: seq<Row>, name: string, stock: int, price: int, cost: int)
    requires UniqueNames(t)
    requires CheckAdd(t, name, stock, price, cost) == Admitted
    ensures UniqueNames(t + [Row(name, stock, price, cost)])
  {
    var r := t + [Row(name, stock, price, cost)];
    forall i, j | 0 <= i < j < |r| ensures r[i].name != r[j].name {
      assert r[i] == t[i];
      if j == |t| {
        assert t[i].name != name;
      } else {
        assert r[j] == t[j];
      }
    }
  }

  /** An admitted edit either keeps the edited row's name or gives it a name
      no row carries, so names stay unique. */
  lemma EditKeepsUnique(t: seq<Row>, original: string, name: string, stock: int, price: int, cost: int)
    requires UniqueNames(t)
    requires CheckEdit(t, original, name, stock, price, cost) == Admitted
    ensures UniqueNames(Edited(t, original, Row(name, stock, price, cost)))
  {
    if Contains(t, original) {
      var k := FirstIndex(t, original);
      var row := Row(name, stock, price, cost);
      var r := Edited(t, original, row);
      assert r == t[k := row];
      assert name == original || forall i :: 0 <= i < |t| ==> t[i].name != name;
      forall i, j | 0 <= i < j < |r| ensures r[i].name != r[j].name {
        if i == k {
          assert t[j].name != t[k].name;
        } else if j == k {
          assert t[i].name != t[k].name;
        } else {
          assert r[i] == t[i] && r[j] == t[j];
        }
      }
    }
  }

  class Inventory {
    /** `st.session_state.inventario`, one element per row of the frame. */
    var rows: seq<Row>

    /** The session table as loaded from the store (an empty frame when the store has no rows). */
    constructor (loaded: seq<Row>)
      ensures rows == loaded
    {
      rows := loaded;
    }

    /** `agregar_producto`: concatenate a one-row frame to the table. */
    method Add(name: string, stock: int, price: int, cost: int)
      modifies this
      ensures rows == old(rows) + [Row(name, stock, price, cost)]
    {
      var added := [Row(name, stock, price, cost)];
      rows := rows + added;
    }

    /** `eliminar_producto`: when the name is present, keep only the rows
        carrying another name; otherwise report that it was not found. */
    method Delete(name: string) returns (found: bool)
      modifies this
      ensures found == Contains(old(rows), name)
      ensures rows == Without(old(rows), name)
      ensures !found ==> rows == old(rows)
      ensures old(UniqueNames(rows)) ==> UniqueNames(rows)
    {
      found := Contains(rows, name);
      if found {
        if UniqueNames(rows) {
          WithoutKeepsUnique(rows, name);
        }
        rows := Without(rows, name);
      } else {
        WithoutAbsent(rows, name);
      }
    }

    /** `editar_producto`: when `original` is present, write the four cells of
        the first row carrying it; otherwise report that it was not found. */
    method Edit(original: string, name: string, stock: int, price: int, cost: int) returns (found: bool)
      modifies this
      ensures found == Contains(old(rows), original)
      ensures rows == Edited(old(rows), original, Row(name, stock, price, cost))
    {
      found := Contains(rows, original);
      if found {
        var idx := FirstIndex(rows, original);
        rows := rows[idx := rows[idx].(name := name)];
        rows := rows[idx := rows[idx].(stock := stock)];
        rows := rows[idx := rows[idx].(price := price)];
        rows := rows[idx := rows[idx].(cost := cost)];
      }
    }

    /** `sustraer_stock`: when the name is present and its first row holds at
        least `qty` units, lower that row's Stock by `qty`. */
    method SubtractStock(name: string, qty: int) returns (outcome: SubtractOutcome)
      modifies this
      ensures rows == Subtracted(old(rows), name, qty)
      ensures !Contains(old(rows), name) ==> outcome == ProductNotFound
      ensures Contains(old(rows), name) ==>
                var current := old(rows)[FirstIndex(old(rows), name)].stock;
                outcome == if current >= qty then StockReduced(current - qty) else NotEnoughStock(current)
      ensures outcome.StockReduced? ==> outcome.remaining >= 0
      ensures old(UniqueNames(rows)) ==> UniqueNames(rows)
    {
      if UniqueNames(rows) {
        SubtractedKeepsUnique(rows, name, qty);
      }
      if Contains(rows, name) {
        var idx := FirstIndex(rows, name);
        var current := rows[idx].stock;
        if current >= qty {
          rows := rows[idx := rows[idx].(stock := current - qty)];
          outcome := StockReduced(current - qty);
        } else {
          outcome := NotEnoughStock(current);
        }
      } else {
        outcome := ProductNotFound;
      }
    }

    /** Submitting the add form: check the fields, then the name, and only then add. */
    method SubmitAdd(name: string, stock: int, price: int, cost: int) returns (v: Verdict)
      modifies this
      ensures v == CheckAdd(old(rows), name, stock, price, cost)
      ensures rows == if v == Admitted then old(rows) + [Row(name, stock, price, cost)] else old(rows)
      ensures old(UniqueNames(rows)) ==> UniqueNames(rows)
    {
      if FieldsComplete(name, stock, price, cost) {
        if !Contains(rows, name) {
          if UniqueNames(rows) {
            AddKeepsUnique(rows, name, stock, price, cost);
          }
          Add(name, stock, price, cost);
          v := Admitted;
        } else {
          v := NameTaken;
        }
      } else {
        v := IncompleteFields;
      }
    }

    /** Submitting the edit form for the selected product `original`: check
        the fields, then that the new name is `original` or free, and only then edit. */
    method SubmitEdit(original: string, name: string, stock: int, price: int, cost: int) returns (v: Verdict)
      modifies this
      ensures v == CheckEdit(old(rows), original, name, stock, price, cost)
      ensures rows == if v == Admitted then Edited(old(rows), original, Row(name, stock, price, cost)) else old(rows)
      ensures old(UniqueNames(rows)) ==> UniqueNames(rows)
    {
      if FieldsComplete(name, stock, price, cost) {
        if name == original || !Contains(rows, name) {
          if UniqueNames(rows) {
            EditKeepsUnique(rows, original, name, stock, price, cost);
          }
          var _ := Edit(original, name, stock, price, cost);
          v := Admitted;
        } else {
          v := NameTaken;
        }
      } else {
        v := IncompleteFields;
      }
    }
  }

  /** The add-form checks met by the sample session: "Widget" on an empty
      table, "Widget" again, and " Widget" beside "Widget". */
  lemma WidgetChecks()
    ensures CheckAdd([], "Widget", 10, 500, 300) == Admitted
    ensures CheckAdd([Row("Widget", 10, 500, 300)], "Widget", 10, 500, 300) == NameTaken
    ensures CheckAdd([Row("Widget", 10, 500, 300)], " Widget", 1, 500, 300) == Admitted
  {
    assert !IsSpace("Widget"[0]);
    assert !IsSpace(" Widget"[1]);
    assert [Row("Widget", 10, 500, 300)][0].name == "Widget";
    assert !Contains([Row("Widget", 10, 500, 300)], " Widget") by {
      assert [Row("Widget", 10, 500, 300)][0].name != " Widget";
    }
  }

  /** The view of a table holding only "Widget" (10 units, price 5.00, cost 3.00). */
  lemma WidgetView()
    ensures WithMetrics([Row("Widget", 10, 500, 300)]) == [MetricRow(Row("Widget", 10, 500, 300), 5000, 3000, 200)]
    ensures Summarize([Row("Widget", 10, 500, 300)]) == Summary(1, 5000, 3000)
  {
    SummaryOfOne(Row("Widget", 10, 500, 300));
  }

  /** A session on an empty table: add "Widget" (10 units, price 5.00, cost
      3.00), try to add it again, try to sell 15 units, then view the table;
      finally add " Widget", whose leading blank makes it a different name. */
  method WidgetSession() returns (first: Verdict, again: Verdict, sale: SubtractOutcome,
                                  shown: seq<MetricRow>, summary: Summary, padded: Verdict)
    ensures first == Admitted && again == NameTaken
    ensures sale == NotEnoughStock(10)
    ensures shown == [MetricRow(Row("Widget", 10, 500, 300), 5000, 3000, 200)]
    ensures summary == Summary(1, 5000, 3000)
    ensures padded == Admitted
  {
    var widget := Row("Widget", 10, 500, 300);
    WidgetChecks();
    WidgetView();
    var inv := new Inventory([]);
    first := inv.SubmitAdd("Widget", 10, 500, 300);
    assert first == Admitted;
    assert inv.rows == [widget];
    again := inv.SubmitAdd("Widget", 10, 500, 300);
    assert again == NameTaken;
    assert inv.rows == [widget];
    sale := inv.SubtractStock("Widget", 15);
    assert inv.rows == [widget];
    shown := WithMetrics(inv.rows);
    summary := Summarize(inv.rows);
    padded := inv.SubmitAdd(" Widget", 1, 500, 300);
    assert padded == CheckAdd([widget], " Widget", 1, 500, 300);
  }
}
