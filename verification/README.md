# Price-analysis editor: a Dafny model

The application loads a flat quotation table, where each row has a type, a supplier, a brand, a code, a description, a power type and a price. It turns the table into an editable parent/child structure: items own subitems. It lets the user move, retype, copy, delete and add rows. It then flattens the structure back and renders one comparison table per option group, that is, per (code, power type). The same groups are written to a workbook, with price, subtotal, tax and total formulas, and the cheapest supplier is highlighted.

This project models that core as pure functions over immutable sequences:

| file | module | models |
|---|---|---|
| `optional.dfy` | `Optional` | the optional parent link and "no match" results |
| `strings.dfy` | `Strings` | Python's code-point string order, used by the sorts |
| `sorting.dfy` | `Sorting` | `sort_values`, as a stable insertion sort on (key, table position) |
| `rows.dfy` | `Rows` | the editor row, ids, the validity invariant, sibling and child selections, `max()+1` child orders |
| `builder.dfy` | `Builder` | `init_editor_structure` |
| `reordering.dfy` | `Reordering` | `reorder_row` |
| `conversion.dfy` | `Conversion` | `convert_type` |
| `spreading.dfy` | `Spreading` | `spread_row` |
| `deletion.dfy` | `Deletion` | `delete_row` |
| `insertion.dfy` | `Insertion` | the "Add Row" button |
| `flattener.dfy` | `Flattener` | `editor_to_flat_df` |
| `comparison.dfy` | `Comparison` | `generate_html_table` (groups, cells, totals) and the workbook's winner loop |
| `workbook.dfy` | `Workbook` | the workbook's row layout, cell formulas and winner fill |
| `session.dfy` | `Session` | the editing actions one after another |

A table is a `seq<Row>`. A row's id is supplied by the caller; the application draws it from a random UUID. Prices are integers (cents). The tax percentage is a `real`, and totals are exact reals.

## Model

| member | source | states |
|---|---|---|
| Rows.IndexOf | streamlit_app.py:179 | the row `iloc[0]` picks is the first row carrying the id |
| Rows.NextOrder | streamlit_app.py:478-479 | the order given to a new child is above every existing child's order; it is 0 when the parent has no child and otherwise one more than some child's order |
| Rows.NextOrderDependsOnChildren | streamlit_app.py:257-258 | the next child order depends only on the set of that parent's child orders |
| Rows.SortedSel | streamlit_app.py:183-195 | the selected rows come out each exactly once, strictly sorted by key, with ties kept in table order |
| Sorting.Sort | streamlit_app.py:195 | sorting is a permutation of its input |
| Sorting.SortIsStable | streamlit_app.py:195 | input in table order comes out strictly sorted by (key, table position) |
| Builder.LastItem | streamlit_app.py:149-153 | the current parent is the nearest earlier row whose tag reads as "item" in any letter case, or none when no such row came earlier |
| Builder.Build | streamlit_app.py:148-165 | the single pass with a current parent and per-parent counters produces exactly the row-by-row reference table |
| Builder.BuiltRowShapes | streamlit_app.py:149-165 | every row keeps its columns and its tag as written; rows read as items and other types get no parent and order 0; a row read as a subitem hangs under the nearest row above it read as an item; one with no such row above becomes an item |
| Builder.BuiltChildOrders | streamlit_app.py:158-160 | a subitem's order is the number of its parent's children that come before it |
| Builder.BuiltIsValid | streamlit_app.py:141-165 | with distinct ids and tags written exactly "item" or "subitem" (or neither in any case), the built table has unique ids and every parent link names an item |
| Builder.InexactTagBreaksValidity | streamlit_app.py:149-160 | a tag "Item" followed by a subitem gives a subitem linked to a row that is not an item, so exact tags are needed for validity |
| Reordering.PosOf | streamlit_app.py:199 | `ids.index(row_id)` is the first sorted sibling position holding the id |
| Reordering.PosIsRow | streamlit_app.py:197-199 | with unique ids that position holds the moved row itself |
| Reordering.Reorder | streamlit_app.py:177-212 | a move changes only `order` fields |
| Reordering.ReorderUpSwapsWithPredecessor | streamlit_app.py:201-205 | "up" swaps the orders of the row and its immediate predecessor among its siblings |
| Reordering.ReorderDownSwapsWithSuccessor | streamlit_app.py:206-210 | "down" swaps the orders of the row and its immediate successor among its siblings |
| Reordering.ReorderUpAtFirstIsNoop | streamlit_app.py:201 | "up" on the first sibling leaves the table unchanged |
| Reordering.ReorderDownAtLastIsNoop | streamlit_app.py:206 | "down" on the last sibling leaves the table unchanged |
| Reordering.ReorderIsSwapOrNothing | streamlit_app.py:201-212 | every move either changes nothing or swaps the orders of the row and one sibling |
| Reordering.ReorderKeepsSiblingOrders | streamlit_app.py:201-210 | the multiset of the siblings' orders is the same after a move |
| Reordering.ReorderAmongEqualOrdersIsNoop | streamlit_app.py:203-205 | when all siblings share one order, a move changes nothing |
| Conversion.FirstOtherItem | streamlit_app.py:233-240 | `same_product.iloc[0]` is the first other item of the same code and power type, and none exists exactly when no row qualifies |
| Conversion.ConvertSubitemToItem | streamlit_app.py:219-224 | a subitem becomes an item with no parent and order 0; no other row changes |
| Conversion.ConvertItemPromotesChildren | streamlit_app.py:226-230 | converting an item promotes each of its children to a parentless item at order 0; afterwards no row names it as parent |
| Conversion.ConvertItemWithoutTarget | streamlit_app.py:233-247 | with no other item of the product, the row itself stays as it was |
| Conversion.ConvertItemAttaches | streamlit_app.py:239-245 | otherwise the row becomes a subitem of the first other item, with the next child order of that item |
| Conversion.ConvertPreservesValid | streamlit_app.py:215-247 | converting keeps ids unique and parent links pointing at items |
| Spreading.Spread | streamlit_app.py:250-270 | one copy per target is appended and the old rows are untouched; each copy keeps the source's columns but becomes a subitem of its target, with the target's supplier and the order one above the target's largest child order (0 if none), all computed on the table before the copies |
| Spreading.SpreadPreservesValid | streamlit_app.py:250-270 | with fresh distinct ids and item targets the table stays valid |
| Deletion.Delete | streamlit_app.py:273-279 | a row survives exactly when it neither carries the id nor, when the row was an item, is its child |
| Deletion.DeleteKeepsOrder | streamlit_app.py:276-278 | survivors keep their relative order |
| Deletion.DeletePreservesValid | streamlit_app.py:273-279 | deleting keeps ids unique and parent links pointing at items |
| Insertion.Insert | streamlit_app.py:475-498 | the new row is appended with the entered columns; a subitem with a chosen parent gets that parent and the order one above its siblings' largest (0 if none); otherwise there is no parent and the order is 0 |
| Insertion.InsertPreservesValid | streamlit_app.py:475-498 | a fresh id and an item parent keep the table valid |
| Flattener.Items | streamlit_app.py:291 | the item positions, each once, sorted by (code, power type, order), ties in table order |
| Flattener.Children | streamlit_app.py:295 | a parent's child positions, each once, in non-decreasing order, ties in table order |
| Flattener.Tail | streamlit_app.py:300-303 | the rows left out by the item blocks, in table order |
| Flattener.HeadLayout | streamlit_app.py:293-297 | in the first part of the flattened order, each item is followed directly by its sorted children, item after item |
| Flattener.HeadMembers | streamlit_app.py:291-297 | the item blocks hold exactly the items and the rows whose parent is an item |
| Flattener.OrphansFollowBlocks | streamlit_app.py:293-303 | with unique ids, after the item blocks come exactly the rows that are not items and have no item as parent, in table order |
| Flattener.Flatten | streamlit_app.py:282-309 | with unique ids and no item carrying a parent, the flat table holds the same rows as the editor table, each as often, without `id`, `parentId` and `order` |
| Flattener.WalkIsPermutation | streamlit_app.py:290-309 | under the same condition, the flattened order lists every editor row exactly once |
| Comparison.Unique | streamlit_app.py:571-573 | `unique()` keeps each value once, in order of first occurrence |
| Comparison.Where | streamlit_app.py:553-569 | a boolean mask keeps every row it selects, once, in table order |
| Comparison.MainKeys | streamlit_app.py:553-559 | one key per item with a non-empty power type, in table order, repeats included |
| Comparison.Groups | streamlit_app.py:559 | `drop_duplicates()` lists each main key once and no other |
| Comparison.GroupsInFirstSeenOrder | streamlit_app.py:553-559 | a group listed before another has a main item above every main item of the other |
| Comparison.GroupRows | streamlit_app.py:561-569 | a group holds the items and subitems of its code whose power type matches or is empty |
| Comparison.GroupRowsInTableOrder | streamlit_app.py:561-569 | those rows come one for one with the mask's positions, in table order, repeats kept |
| Comparison.GroupIsNonEmpty | streamlit_app.py:572-589 | every group has an item (so `iloc[0]` is safe) and at least one description |
| Comparison.Brand | streamlit_app.py:572 | the brand is the first item's brand |
| Comparison.Match | streamlit_app.py:604-608 | a cell shows the price of the first row matching supplier and description |
| Comparison.Render | streamlit_app.py:575-643 | one column per supplier and one line per description; details span lines + 2 rows; each cell is the first match's price or 0; each total is the column sum times (1 + tax rate) |
| Comparison.ColumnSumIsSubtotal | streamlit_app.py:609-625 | the running `totals[s]` equals the sum of the column's cells |
| Comparison.TotalsAreColumnSums | streamlit_app.py:640-642 | the total row uses exactly those column sums |
| Comparison.Lowest | streamlit_app.py:723-730 | the loop from infinity picks the first strictly lowest cost, and none for no costs |
| Comparison.LowestKeepsOrder | streamlit_app.py:726-730 | only the ordering among the costs decides the pick |
| Comparison.WinnerAsWritten | streamlit_app.py:721-730 | the export's winner is a supplier whose sum of all its prices, with tax, is lowest, the first such |
| Comparison.Winner | streamlit_app.py:640-642 | the corrected winner is a supplier whose shown total is lowest, the first such |
| Comparison.WinnerIgnoresTax | streamlit_app.py:727 | with a non-negative tax rate the winner is the same as without tax |
| Comparison.SupplierSumIsSubtotal | streamlit_app.py:724-727 | when no supplier quotes a description twice, the export's sum equals the shown subtotal |
| Comparison.WinnersAgreeOnUniquePairs | streamlit_app.py:721-730 | under that condition the export's winner is the winner of the shown totals |
| Comparison.WinnerAsWrittenDisagrees | streamlit_app.py:724-727 | a group where the shown totals are 100 and 150 but the export highlights the 150 supplier |
| Workbook.BlockLayout | streamlit_app.py:733-971 | title, header, lines, subtotal, tax, total and specs rows follow one another; the details merge ends at the tax row; the next block starts lines + 8 rows down |
| Workbook.Starts | streamlit_app.py:696-971 | the first block starts at row 1 and each next one where the previous left `current_row` |
| Workbook.BlocksDoNotOverlap | streamlit_app.py:944-971 | every later block starts below an earlier block's specs row, with at least two blank rows between |
| Workbook.Contents | streamlit_app.py:802-935 | every numeric cell of a block lies between its first line row and its total row, and between the QTY column and the last supplier column |
| Workbook.ItemCellValue | streamlit_app.py:807-831 | a price cell `=QTY*price` evaluates to the price the preview shows for that supplier and description |
| Workbook.SumOfLines | streamlit_app.py:862-866 | the `SUM` over the line rows adds up the column's shown prices |
| Workbook.SubtotalCellValue | streamlit_app.py:841-866 | the "Total Before Tax" cell evaluates to the supplier's shown subtotal |
| Workbook.TaxCellValue | streamlit_app.py:876-901 | the tax cell evaluates to subtotal times the tax rate |
| Workbook.TotalCellIsShownTotal | streamlit_app.py:911-934 | the total cell evaluates to the same total the preview shows |
| Workbook.Headers | streamlit_app.py:754 | the header row is the four labels followed by the suppliers |
| Workbook.ExactlyOneColumnFilled | streamlit_app.py:754-759 | exactly one supplier column gets the winner fill, and its header does too |
| Workbook.FilledTotalIsLowest | streamlit_app.py:837-941 | with the corrected winner, the filled column's total cell is the lowest total cell of the block |
| Workbook.FilledTotalIsLowestOnUniquePairs | streamlit_app.py:837-941 | with the export's own winner, the same holds when no supplier quotes a description twice |
| Session.Apply | streamlit_app.py:372-500 | an action succeeds exactly when the row it names exists, a moved row is among its own siblings, new ids are fresh, and chosen targets and parents are items |
| Session.MovePreservesValid | streamlit_app.py:372-403 | moving a row keeps the table valid |
| Session.RunPreservesValid | streamlit_app.py:317-500 | a session of actions started from a valid table leaves a valid table |
| Session.BuiltItemsHoldOrderZero | streamlit_app.py:150-155 | every item of a freshly built table has order 0 |
| Session.MoveBuiltItemIsNoop | streamlit_app.py:372-376 | on a freshly built table, "up" or "down" on an item changes nothing |
| Session.AddedOrphanIsLast | streamlit_app.py:480-487 | a subitem added without a parent is the last row of the flattened table |

## Left out

- Reading the CSV and Excel input (lines 70-76 and 110-118). The loaders strip whitespace and turn the text columns into strings, so a missing power type arrives as the text "nan", a power type like any other. The model starts from those strings.
- Builder.Lower: only ASCII letters are lowered. No other character lowers to a letter of "item" or "subitem", so reading the tag is unaffected.
- Missing prices: every row of the model has a price. In the code a missing price is NaN. The preview's cell and total then show nan (lines 608 and 624), and the workbook writes `=D{r}*nan` (line 828). The export's winner sum skips NaN (line 727). Comparison.SupplierSumIsSubtotal and Comparison.WinnersAgreeOnUniquePairs therefore describe tables whose prices are all present.
- The Streamlit widgets, session state and reruns. The button handlers appear only as `Session.Command` values.
- All styling: HTML markup, CSS, fonts, fills other than the winner fill, borders, row heights and column widths.
- Number formatting (`:,.2f`), float prices and float rounding. Prices are integers and totals are exact reals.
- The tax label `int(tax_rate*100)` in the workbook: its truncation only affects a label.
- Text cells of the workbook (titles, labels, descriptions, supplier names): `Workbook.Contents` reads them as empty, and `SUM` ignores them.
- UUID generation: ids are parameters. Freshness is a precondition where validity depends on it.
- Stability of `sort_values`: pandas' default single-key sort is not guaranteed stable. The model breaks ties by table position.
- Errors raised by pandas (`iloc[0]` on a missing id, `ids.index` for a row that is not among its own siblings) are preconditions of the individual operations. `Session.Apply` returns `None` for them.
- Flattener.HeadLayout: the placement of each block is stated for the blocks part only. The full walk is connected to it through `Flattener.OrphansFollowBlocks`, not by one positional statement.
- Workbook.Contents: the whole sheet is modelled one block at a time. `Workbook.BlocksDoNotOverlap` shows that blocks occupy disjoint rows, but formulas are not evaluated across blocks.
- Workbook.TotalCellIsShownTotal: the statement holds for an evaluation depth of at least four cell references. That bound covers every formula the export writes.
- Behaviour of the code worth noting, which the model follows:
  - a subitem with no item above it is retyped to an item with no parent and order 0, but it does not become the current parent, so the subitems after it are retyped the same way (lines 161-165);
  - moving a row whose id is not in the table raises an error, because `iloc[0]` reads an empty selection (line 179);
  - the builder reads the type tag in any letter case (line 149), while every later step compares it exactly (lines 183, 219, 276, 291, 554 and 568). A row tagged "Item" becomes the current parent of the subitems below it, but the flattener, the moves and the comparison treat it as a plain row, so those subitems point at a row that is not an item (`Builder.InexactTagBreaksValidity`).

## Findings

| source | as written | input that shows it | evidently intended | confidence | as-written member | corrected member |
|---|---|---|---|---|---|---|
| streamlit_app.py:724-730 | the export's winner sums every price of a supplier in the group, while the preview and the sheet's own totals count only the first quote per description | supplier `a` quotes "Unit" twice at 100 (an item and a subitem), supplier `b` once at 150; both tables show 100 against 150, but the export highlights `b` | highlight the supplier whose shown total is lowest | not executed | Comparison.WinnerAsWritten, Comparison.WinnerAsWrittenDisagrees | Comparison.Winner, Workbook.FilledTotalIsLowest |
