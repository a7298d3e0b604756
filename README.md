# Inventory table of the spreadsheet-backed inventory app

This project models the in-memory inventory table of the Streamlit
inventory page in `firebase.py`. The table is `st.session_state.inventario`:
one row per product, with the columns 'Nombre del Producto', 'Stock', 'Precio'
and 'Costo'. The model covers four things:

- the four operations that change the table: `agregar_producto` (append a
  row), `eliminar_producto` (keep the rows carrying another name),
  `editar_producto` (overwrite the four cells of the first row carrying a
  name) and `sustraer_stock` (lower the Stock of the first row carrying a
  name, when it holds enough units);
- the checks the add and edit forms run before they call those operations;
- the columns the inventory view derives per row ('Valor Total', 'Costo
  Total', 'Margen') and the summary beneath it ('Total Productos', the sum of
  'Valor Total' and the sum of 'Costo Total').

Prices and costs are integer cents and Stock is an unbounded integer, so
every identity between the derived amounts is exact.

Files:

- `table.dfy` (module `Table`): the row, name lookups, and the table left by
  delete, edit and subtract-stock as functions of the table before. Lemmas
  cover the delete filter: it preserves order, keeps row counts, leaves an
  absent name alone and keeps names unique.
- `admission.dfy` (module `Admission`): Python's `str.strip()` and the two
  form checks.
- `metrics.dfy` (module `Metrics`): the derived columns, the summary, and how
  each operation moves the summary.
- `session.dfy` (module `Session`): class `Inventory`. Its `rows` field is the
  session table. Its methods are the four operations and the two form
  submissions. Each method states the whole new table. The submissions,
  delete and subtract-stock also keep names unique. A sample session ends
  the file.

The model follows `firebase.py` as written:

- The add form checks the name for duplicates and stores it **untrimmed**
  (`firebase.py:178-180`). `strip()` only decides whether the name is blank.
  So " Widget" is admitted next to "Widget"; `Session.WidgetSession` shows
  this.
- Both forms accept a price of 0 and a price below the cost. Only
  negative numbers are refused (`firebase.py:178`, `firebase.py:214`).
- A failed stock check leaves the table unchanged and reports the current
  stock.

`.index[0]` in `editar_producto` and `sustraer_stock` is a pandas row label,
not a position. The labels stay distinct and in row order after each
operation:

- loading gives a fresh range index;
- `pd.concat(..., ignore_index=True)` renumbers it;
- the delete filter keeps a subset of the labels in order.

So `.at[idx, ...]` always writes the first row that carries the name. The
model indexes that row by position (`Table.FirstIndex`).

## Model

| member | source | states |
|---|---|---|
| `Table.Contains` | firebase.py:71 | `name in inventario['Nombre del Producto'].values`, the test at lines 71, 86, 107, 179 and 215, holds exactly when some row carries the name |
| `Table.FirstIndex` | firebase.py:87-89 | the index selected carries the name and no earlier row does (the first match of the boolean mask) |
| `Table.Without` | firebase.py:72-74 | the filtered table is no longer than the original, contains no row with the deleted name, and contains only rows of the original |
| `Table.WithoutAppend` | firebase.py:72-74 | the filter distributes over concatenation, so the surviving rows keep their original order |
| `Table.WithoutCounts` | firebase.py:72-74 | every row not carrying the deleted name survives exactly as often as it occurred; rows carrying it vanish |
| `Table.WithoutAbsent` | firebase.py:71-79 | deleting a name no row carries leaves the table unchanged |
| `Table.WithoutAround` | firebase.py:72-74 | filtering out the name of a middle row whose neighbours do not carry it removes just that row |
| `Table.WithoutUniqueRemovesOne` | firebase.py:71-74 | with unique names, deleting a present name removes exactly the one row carrying it, the rest in order |
| `Table.WithoutKeepsUnique` | firebase.py:72-74 | the delete filter never introduces a duplicate name |
| `Table.Edited` | firebase.py:86-100 | editing a present name replaces the first row carrying it by the new four fields and leaves every other row as it was; an absent name leaves the table unchanged; the length never changes |
| `Table.CanSubtract` | firebase.py:107-114 | the stock is written exactly when some row carries the name, holds at least the quantity, and no earlier row carries the name |
| `Table.Subtracted` | firebase.py:107-122 | when the first matching row holds at least the quantity, its Stock becomes stock minus quantity (so stays non-negative) and nothing else changes; otherwise, or when the name is absent, the table is unchanged; names, prices and costs never change |
| `Table.SubtractedKeepsUnique` | firebase.py:115 | subtracting stock never introduces a duplicate name |
| `Admission.IsSpace` | firebase.py:178 | the whitespace `str.strip()` removes: ASCII space, tab, newline and carriage return are included, letters and digits are not, and nothing above U+3000 is (the same `strip()` runs at line 214) |
| `Admission.Strip` | firebase.py:178 | `name.strip()` is a slice of the name: everything before and after it is whitespace, and a non-empty result starts and ends with a non-space (both forms, lines 178 and 214) |
| `Admission.TrimStart` | firebase.py:178 | the leading part of `strip()`: removes exactly the leading whitespace and leaves a suffix starting with a non-space |
| `Admission.TrimEnd` | firebase.py:178 | the trailing part of `strip()`: removes exactly the trailing whitespace and leaves a prefix ending with a non-space |
| `Admission.StripEmptyIffBlank` | firebase.py:178 | `name.strip()` is empty exactly when every character of the name is whitespace |
| `Admission.FieldsCompleteIff` | firebase.py:178 | `FieldsComplete`, the field test both forms run (lines 178 and 214), holds exactly when the name has a non-blank character and stock, price and cost are non-negative |
| `Admission.CheckAdd` | firebase.py:177-184 | the add form is admitted iff the name has a non-blank character, stock, price and cost are non-negative, and the exact untrimmed name is absent; it reports the name taken iff only the last condition fails |
| `Admission.CheckEdit` | firebase.py:213-220 | the edit form is admitted iff the field checks hold and the new name equals the edited product's name or is absent; it reports the name taken iff the fields pass, the name differs from the original and is present |
| `Metrics.TotalValue` | firebase.py:143 | Valor Total is non-negative for non-negative stock and price, and zero when either is zero |
| `Metrics.TotalCost` | firebase.py:144 | Costo Total is non-negative for non-negative stock and cost, and zero when either is zero |
| `Metrics.Margin` | firebase.py:145 | Margen is non-negative exactly when the price is at least the cost, and zero exactly when they are equal |
| `Metrics.GrossProfit` | firebase.py:143-145 | per row, Valor Total minus Costo Total equals Stock times Margen, and is non-negative when Stock is non-negative and price is at least cost |
| `Metrics.MetricsOf` | firebase.py:143-145 | a displayed row keeps the original cells and its derived cells satisfy the margin identity |
| `Metrics.WithMetrics` | firebase.py:142-145 | the displayed copy has one row per table row, in order, each keeping that row's cells; per row Valor Total minus Costo Total is Stock times Margen, and is non-negative when Stock is non-negative and price is at least cost |
| `Metrics.ColumnSum` | firebase.py:161-162 | the sum of a column is non-negative when every entry is, and zero when every entry is zero (including the empty table) |
| `Metrics.Summarize` | firebase.py:160-162 | 'Total Productos' is the number of rows, and both totals are non-negative when every stock, price and cost is |
| `Metrics.SummaryOfEmpty` | firebase.py:160-162 | the summary of an empty table is zero products and zero totals |
| `Metrics.SummaryAppend` | firebase.py:160-162 | the summary of two consecutive tables is the field-wise sum of their summaries |
| `Metrics.SummaryOfOne` | firebase.py:160-162 | the summary of one row is a count of one and that row's Valor Total and Costo Total |
| `Metrics.SummaryTotals` | firebase.py:160-162 | the count is the number of rows, the totals equal the sums of the per-row Valor Total and Costo Total computed independently, and their difference is the sum of Stock times Margen |
| `Metrics.SummaryReplace` | firebase.py:91-94 | overwriting one row keeps the count and moves each total by the new row's amount minus the old row's |
| `Metrics.LowerStock` | firebase.py:115 | lowering a row's stock by q lowers its Valor Total by q times price and its Costo Total by q times cost |
| `Metrics.SummaryAfterAdd` | firebase.py:61 | an add raises the count by one and each total by the new row's amounts |
| `Metrics.SummaryAfterSubtract` | firebase.py:114-115 | a subtraction that goes through keeps the count and lowers the totals by quantity times price and cost; one that does not changes nothing |
| `Metrics.SummaryAfterEdit` | firebase.py:86-94 | an edit of a present product keeps the count and moves each total by the new row's amount minus the replaced row's; an edit of an absent product changes nothing |
| `Metrics.SummaryRemove` | firebase.py:72-74 | dropping one row from the table lowers the count by one and each total by that row's Valor Total and Costo Total |
| `Metrics.SummaryAfterDelete` | firebase.py:71-74 | with unique names, deleting a present product lowers the count by one and the totals by that product's amounts |
| `Session.AddKeepsUnique` | firebase.py:179-180 | an admitted add keeps names unique |
| `Session.EditKeepsUnique` | firebase.py:215-216 | an admitted edit keeps names unique |
| `Session.Inventory.constructor` | firebase.py:42-54 | the session table starts as the loaded rows |
| `Session.Inventory.Add` | firebase.py:57-61 | the table becomes the old table with exactly one row (name, stock, price, cost) appended |
| `Session.Inventory.Delete` | firebase.py:69-79 | reports whether the name was present; the table becomes the filtered table, which equals the old table when the name is absent; unique names stay unique |
| `Session.Inventory.Edit` | firebase.py:84-100 | reports whether the original name was present; writes the four cells of its first row, as `Table.Edited` states |
| `Session.Inventory.SubtractStock` | firebase.py:105-124 | reports not found, not enough stock (with the current stock) or the remaining stock, which is never negative; the table becomes `Table.Subtracted` of the old one; unique names stay unique |
| `Session.Inventory.SubmitAdd` | firebase.py:177-184 | the verdict is `CheckAdd` on the table before; only an admitted form appends the row; unique names stay unique |
| `Session.Inventory.SubmitEdit` | firebase.py:213-220 | the verdict is `CheckEdit` on the table before; only an admitted form edits; unique names stay unique |
| `Session.WidgetChecks` | firebase.py:178-182 | the add check admits "Widget" on an empty table, reports the name taken for a second "Widget", and admits " Widget" beside "Widget" |
| `Session.WidgetView` | firebase.py:143-145 | a table holding Widget (10 units at 5.00, cost 3.00) shows Valor Total 50.00, Costo Total 30.00, Margen 2.00, and its summary is one product with those totals |
| `Session.WidgetSession` | firebase.py:177-182 | on an empty table: adding Widget (10 units at 5.00, cost 3.00) is admitted, adding it again reports the name taken, subtracting 15 reports 10 in stock, the view shows Valor Total 50.00, Costo Total 30.00, Margen 2.00, the summary is one product, and " Widget" is admitted as a distinct name |

## Left out

- Google Sheets authentication, the cached connection, `load_inventario` and `save_inventario` (firebase.py:12-39): network I/O through a foreign library. The loaded rows are the constructor's parameter.
- The load-or-initialise block (firebase.py:42-54): a failed or empty load gives an empty frame, which is the constructor with no rows.
- The persistence calls after each change (firebase.py:62, 75, 96, 116). Those at lines 96 and 116 pass an undefined `sheet` and two arguments, so they raise after the in-memory change. The broad `except` then swallows the error and shows a message. Only the in-memory change is modelled; exception flow and persistence are I/O.
- All Streamlit rendering: sidebar, forms, select boxes, success and error messages, `st.experimental_rerun`, dataframe styling and currency formatting (firebase.py:127-283). The verdicts and outcomes stand in for the messages.
- 'Margen %' and its mean (firebase.py:146, 163): float division rounded to two decimals, with inf/NaN when Precio is 0; there is no exact behaviour to state.
- Widget-level bounds on the inputs, such as `min_value` and `max_value=producto_data['Stock']` (firebase.py:172-174, 206-210, 273-279). They are UI constraints, so the operations accept any integers. `sustraer_stock` itself only checks `stock_actual >= cantidad`.
- Floating-point prices and costs: amounts are integer cents, so no rounding is modelled.
- firebase.py has no inbound adjustment, no movement log, and no `price > 0` or `price >= cost` check.
- Session.Inventory.SubtractStock: `StockReduced(remaining)` is the branch in which the Stock cell is written (firebase.py:114-115). The page never shows "Stock restante": the save call at firebase.py:116 raises, and the page shows "Error al sustraer stock" (firebase.py:123-124). The model states the table change and the branch, not the message.
- Session.Inventory.Edit: a present name leads to the four cell writes (firebase.py:91-94). The page never shows the success message: the save call at firebase.py:96 raises first. The returned flag is the branch taken, not the message.
- Metrics.SummaryOfEmpty: the page does not show the summary of an empty table. It shows only the warning "El inventario está vacío." (firebase.py:138-139). The lemma states what the summary of an empty table would be; the page never shows it.
