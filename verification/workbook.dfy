/** The workbook export: where each option block goes on the sheet, which
    formulas its supplier columns hold, and what those formulas evaluate to. */
module Workbook {
  import opened Optional
  import opened Rows
  import opened Comparison

  // ---------------------------------------------------------------- layout

  /** The rows and columns of one option block. */
  datatype Layout = Layout(
    title: int,
    header: int,
    firstData: int,
    subtotal: int,
    tax: int,
    total: int,
    specs: int,
    next: int,
    lastCol: int,
    detailsEnd: int)

  const QtyColumn := 4
  const DescriptionCol := 5
  const FirstSupplierColumn := 6

  function SupplierColumnOf(j: nat): int {
    FirstSupplierColumn + j
  }

  /** The block for `lines` descriptions and `suppliers` suppliers that
      starts at row `start`. */
  function BlockLayout(start: int, lines: nat, suppliers: nat): (l: Layout)
    ensures l.title == start && l.next == start + lines + 8
    ensures l.title < l.header < l.firstData
    ensures l.subtotal - l.firstData == lines
    ensures l.subtotal < l.tax < l.total < l.specs < l.next - 2
    ensures l.detailsEnd == l.tax
    ensures l.lastCol == SupplierColumnOf(suppliers) - 1
  {
    var header := start + 1;
    var firstData := header + 1;
    var subtotal := firstData + lines;
    var tax := subtotal + 1;
    var total := tax + 1;
    var specs := total + 1;
    Layout(start, header, firstData, subtotal, tax, total, specs, specs + 3, 6 + suppliers - 1, firstData + lines + 1)
  }

  /** The first row of each block when blocks with `sizes` (description
      counts) are written one after the other from row 1. */
  function Starts(sizes: seq<nat>): (s: seq<int>)
    ensures |s| == |sizes|
    ensures |s| > 0 ==> s[0] == 1
    ensures forall k :: 0 < k < |s| ==> s[k] == BlockLayout(s[k - 1], sizes[k - 1], 0).next
  {
    if |sizes| == 0 then []
    else
      var s := Starts(sizes[..|sizes| - 1]);
      if |s| == 0 then [1]
      else s + [BlockLayout(s[|s| - 1], sizes[|sizes| - 2], 0).next]
  }

  /** Later blocks start below earlier ones' specs rows, with two blank rows
      between neighbours. */
  lemma {:induction false} BlocksDoNotOverlap(sizes: seq<nat>, k: nat, m: nat)
    requires k < m < |sizes|
    ensures BlockLayout(Starts(sizes)[k], sizes[k], 0).specs + 2 < Starts(sizes)[m]
    decreases m
  {
    var s := Starts(sizes);
    if m > k + 1 {
      BlocksDoNotOverlap(sizes, k, m - 1);
    }
  }

  // ---------------------------------------------------------------- formulas

  /** The cell contents the supplier columns hold. */
  datatype Formula =
    | Num(v: real)
    | Ref(row: int, col: int)
    | Times(a: Formula, b: Formula)
    | Plus(a: Formula, b: Formula)
    | SumColumn(col: int, lo: int, hi: int)

  /** One option block as written: its first row, its group's rows and the
      tax percentage. */
  datatype Block = Block(start: int, gr: seq<FlatRow>, taxPercent: real)

  function LayoutOf(b: Block): Layout {
    BlockLayout(b.start, |Descriptions(b.gr)|, |Suppliers(b.gr)|)
  }

  function Size(f: Formula): nat {
    match f
    case Times(a, b) => Size(a) + Size(b) + 1
    case Plus(a, b) => Size(a) + Size(b) + 1
    case _ => 1
  }

  /** The numeric content of cell (`r`, `c`) of block `b`: quantity 1 in the
      QTY column, `=QTY * price` for each line and supplier, the subtotal
      `SUM`, the tax `subtotal * rate` and the total `subtotal + tax`. Text
      cells (titles, names, descriptions) read as empty. Every numeric cell
      lies inside the block's rows and columns. */
  function Contents(b: Block, r: int, c: int): (f: Option<Formula>)
    ensures f.Some? ==> LayoutOf(b).firstData <= r <= LayoutOf(b).total
    ensures f.Some? ==> QtyColumn <= c < SupplierColumnOf(|Suppliers(b.gr)|)
  {
    var l := LayoutOf(b);
    var sups := Suppliers(b.gr);
    var ds := Descriptions(b.gr);
    var lines := l.firstData <= r < l.firstData + |ds|;
    if c == QtyColumn && lines then Some(Num(1.0))
    else if FirstSupplierColumn <= c < SupplierColumnOf(|sups|) then
      var col := c;
      var j := c - FirstSupplierColumn;
      if lines then Some(Times(Ref(r, QtyColumn), Num(Cell(b.gr, sups[j], ds[r - l.firstData]) as real)))
      else if r == l.subtotal then Some(SumColumn(col, l.firstData, l.subtotal - 1))
      else if r == l.tax then Some(Times(Ref(l.subtotal, col), Num(b.taxPercent / 100.0)))
      else if r == l.total then Some(Plus(Ref(l.subtotal, col), Ref(l.tax, col)))
      else None
    else None
  }

  /** The value of `f` in block `b`; an empty cell counts as 0. Each cell
      reference spends one unit of `fuel`, so cyclic references end. */
  function Eval(b: Block, f: Formula, fuel: nat): real
    decreases fuel, 0, Size(f)
  {
    match f
    case Num(v) => v
    case Times(x, y) => Eval(b, x, fuel) * Eval(b, y, fuel)
    case Plus(x, y) => Eval(b, x, fuel) + Eval(b, y, fuel)
    case Ref(r, c) =>
      if fuel == 0 then 0.0
      else CellValue(b, r, c, fuel - 1)
    case SumColumn(c, lo, hi) =>
      if fuel == 0 then 0.0 else SumRange(b, c, lo, hi, fuel - 1)
  }

  /** The value of cell (`r`, `c`); 0 when it is empty. */
  function CellValue(b: Block, r: int, c: int, fuel: nat): real
    decreases fuel, 1, 0
  {
    match Contents(b, r, c)
    case None => 0.0
    case Some(g) => Eval(b, g, fuel)
  }

  /** `SUM` over rows `lo..hi` of column `c`. */
  function SumRange(b: Block, c: int, lo: int, hi: int, fuel: nat): real
    decreases fuel, 2, if hi < lo then 0 else hi - lo + 1
  {
    if hi < lo then 0.0
    else SumRange(b, c, lo, hi - 1, fuel) + CellValue(b, hi, c, fuel)
  }

  // ---------------------------------------------------------------- values

  /** A line's price cell evaluates to the price the preview shows. */
  lemma ItemCellValue(b: Block, i: nat, j: nat, fuel: nat)
    requires i < |Descriptions(b.gr)| && j < |Suppliers(b.gr)|
    requires fuel >= 1
    ensures CellValue(b, LayoutOf(b).firstData + i, SupplierColumnOf(j), fuel)
         == Cell(b.gr, Suppliers(b.gr)[j], Descriptions(b.gr)[i]) as real
  {
    var r := LayoutOf(b).firstData + i;
    var p := Cell(b.gr, Suppliers(b.gr)[j], Descriptions(b.gr)[i]) as real;
    assert Contents(b, r, QtyColumn) == Some(Num(1.0));
    assert CellValue(b, r, QtyColumn, fuel - 1) == 1.0;
    assert Eval(b, Ref(r, QtyColumn), fuel) == 1.0;
    assert Contents(b, r, SupplierColumnOf(j)) == Some(Times(Ref(r, QtyColumn), Num(p)));
    assert Eval(b, Times(Ref(r, QtyColumn), Num(p)), fuel) == 1.0 * p;
  }

  /** The `SUM` over the first `k` line rows adds up the first `k` shown
      cells of the column. */
  lemma {:induction false} SumOfLines(b: Block, j: nat, k: nat, fuel: nat)
    requires j < |Suppliers(b.gr)| && k <= |Descriptions(b.gr)|
    requires fuel >= 1
    ensures SumRange(b, SupplierColumnOf(j), LayoutOf(b).firstData, LayoutOf(b).firstData + k - 1, fuel)
         == SumOver(Descriptions(b.gr)[..k], d => Cell(b.gr, Suppliers(b.gr)[j], d)) as real
  {
    var ds := Descriptions(b.gr);
    if k > 0 {
      SumOfLines(b, j, k - 1, fuel);
      ItemCellValue(b, k - 1, j, fuel);
      assert ds[..k][..k - 1] == ds[..k - 1];
    }
  }

  /** The "Total Before Tax" cell evaluates to the supplier's subtotal. */
  lemma SubtotalCellValue(b: Block, j: nat, fuel: nat)
    requires j < |Suppliers(b.gr)|
    requires fuel >= 2
    ensures CellValue(b, LayoutOf(b).subtotal, SupplierColumnOf(j), fuel)
         == Subtotal(b.gr, Suppliers(b.gr)[j]) as real
  {
    var ds := Descriptions(b.gr);
    SumOfLines(b, j, |ds|, fuel - 1);
    assert ds[..|ds|] == ds;
  }

  /** The tax cell evaluates to the subtotal times the tax rate. */
  lemma TaxCellValue(b: Block, j: nat, fuel: nat)
    requires j < |Suppliers(b.gr)|
    requires fuel >= 3
    ensures CellValue(b, LayoutOf(b).tax, SupplierColumnOf(j), fuel)
         == Subtotal(b.gr, Suppliers(b.gr)[j]) as real * (b.taxPercent / 100.0)
  {
    var l := LayoutOf(b);
    var col := SupplierColumnOf(j);
    SubtotalCellValue(b, j, fuel - 1);
    assert Eval(b, Ref(l.subtotal, col), fuel) == Subtotal(b.gr, Suppliers(b.gr)[j]) as real;
    assert Contents(b, l.tax, col) == Some(Times(Ref(l.subtotal, col), Num(b.taxPercent / 100.0)));
    assert CellValue(b, l.tax, col, fuel) == Eval(b, Times(Ref(l.subtotal, col), Num(b.taxPercent / 100.0)), fuel);
    assert Eval(b, Num(b.taxPercent / 100.0), fuel) == b.taxPercent / 100.0;
  }

  /** The sheet's final total for a supplier equals the total the preview
      table shows for it (given enough evaluation depth). */
  lemma TotalCellIsShownTotal(b: Block, j: nat, fuel: nat)
    requires j < |Suppliers(b.gr)|
    requires fuel >= 4
    ensures CellValue(b, LayoutOf(b).total, SupplierColumnOf(j), fuel)
         == Total(Subtotal(b.gr, Suppliers(b.gr)[j]), b.taxPercent)
         == ShownCosts(b.gr, b.taxPercent)[j]
  {
    var l := LayoutOf(b);
    var col := SupplierColumnOf(j);
    var sub := Subtotal(b.gr, Suppliers(b.gr)[j]) as real;
    SubtotalCellValue(b, j, fuel - 1);
    TaxCellValue(b, j, fuel - 1);
    assert Eval(b, Ref(l.subtotal, col), fuel) == sub;
    assert Eval(b, Ref(l.tax, col), fuel) == sub * (b.taxPercent / 100.0);
    assert Contents(b, l.total, col) == Some(Plus(Ref(l.subtotal, col), Ref(l.tax, col)));
    assert sub + sub * (b.taxPercent / 100.0) == sub * (1.0 + b.taxPercent / 100.0);
  }

  // ---------------------------------------------------------------- highlight

  /** The header row: four labels, then the supplier names. */
  function Headers(gr: seq<FlatRow>): (h: seq<string>)
    ensures |h| == |Suppliers(gr)| + 4
    ensures forall j :: 0 <= j < |Suppliers(gr)| ==> h[j + 4] == Suppliers(gr)[j]
  {
    ["DETAILS", "IMAGE", "QTY", "LINE ITEM"] + Suppliers(gr)
  }

  /** A header cell gets the winner fill when its label equals `winner`. */
  predicate HeaderFilled(gr: seq<FlatRow>, winner: string, i: nat)
    requires i < |Headers(gr)|
  {
    Headers(gr)[i] == winner
  }

  /** A supplier column's price, subtotal, tax and total cells get the winner
      fill when its supplier is `winner`. */
  predicate ColumnFilled(gr: seq<FlatRow>, winner: string, j: nat)
    requires j < |Suppliers(gr)|
  {
    Suppliers(gr)[j] == winner
  }

  /** The export computes the winner once and fills exactly that supplier's
      column and its header. */
  lemma ExactlyOneColumnFilled(gr: seq<FlatRow>, taxPercent: real)
    requires |Suppliers(gr)| > 0
    ensures exists j :: 0 <= j < |Suppliers(gr)| && ColumnFilled(gr, WinnerAsWritten(gr, taxPercent), j)
    ensures forall j, k ::
              (0 <= j < |Suppliers(gr)| && 0 <= k < |Suppliers(gr)| &&
               ColumnFilled(gr, WinnerAsWritten(gr, taxPercent), j) &&
               ColumnFilled(gr, WinnerAsWritten(gr, taxPercent), k)) ==> j == k
    ensures forall j :: 0 <= j < |Suppliers(gr)| ==>
              (HeaderFilled(gr, WinnerAsWritten(gr, taxPercent), j + 4) <==> ColumnFilled(gr, WinnerAsWritten(gr, taxPercent), j))
  {
    var sups := Suppliers(gr);
    var w := WinnerAsWritten(gr, taxPercent);
    var j :| 0 <= j < |sups| && w == sups[j];
    assert ColumnFilled(gr, w, j);
  }

  /** With the winner taken from the totals the sheet shows, the filled
      column's total cell is the lowest total cell of the block. */
  lemma FilledTotalIsLowest(b: Block, j: nat, k: nat, fuel: nat)
    requires j < |Suppliers(b.gr)| && k < |Suppliers(b.gr)|
    requires ColumnFilled(b.gr, Winner(b.gr, b.taxPercent), j)
    requires fuel >= 4
    ensures CellValue(b, LayoutOf(b).total, SupplierColumnOf(j), fuel)
         <= CellValue(b, LayoutOf(b).total, SupplierColumnOf(k), fuel)
  {
    TotalCellIsShownTotal(b, j, fuel);
    TotalCellIsShownTotal(b, k, fuel);
    var sups := Suppliers(b.gr);
    var w :| 0 <= w < |sups| && Winner(b.gr, b.taxPercent) == sups[w] &&
             (forall i :: 0 <= i < |sups| ==> ShownCosts(b.gr, b.taxPercent)[w] <= ShownCosts(b.gr, b.taxPercent)[i]);
    assert w == j;
  }

  /** The export's fill marks the lowest total cell once no supplier quotes
      a description twice. */
  lemma FilledTotalIsLowestOnUniquePairs(b: Block, j: nat, k: nat, fuel: nat)
    requires PairsUnique(b.gr)
    requires j < |Suppliers(b.gr)| && k < |Suppliers(b.gr)|
    requires ColumnFilled(b.gr, WinnerAsWritten(b.gr, b.taxPercent), j)
    requires fuel >= 4
    ensures CellValue(b, LayoutOf(b).total, SupplierColumnOf(j), fuel)
         <= CellValue(b, LayoutOf(b).total, SupplierColumnOf(k), fuel)
  {
    WinnersAgreeOnUniquePairs(b.gr, b.taxPercent);
    FilledTotalIsLowest(b, j, k, fuel);
  }
}
