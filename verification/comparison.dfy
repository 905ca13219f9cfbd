/** The price comparison: `generate_html_table` and the winner choice of the
    workbook export. The flat table is split into option groups, one per
    distinct (code, power type) of the items; each group is shown as a grid of
    descriptions by suppliers with a tax row and a total row. */
module Comparison {
  import opened Optional
  import opened Rows

  // ---------------------------------------------------------------- first-seen order

  /** The first position holding `x`. */
  function FirstIndex<T(==)>(s: seq<T>, x: T): (i: nat)
    requires x in s
    ensures i < |s| && s[i] == x
    ensures forall j :: 0 <= j < i ==> s[j] != x
  {
    if s[0] == x then 0 else 1 + FirstIndex(s[1..], x)
  }

  lemma FirstIndexInInit<T>(s: seq<T>, x: T)
    requires |s| > 0 && x in s[..|s| - 1]
    ensures FirstIndex(s, x) == FirstIndex(s[..|s| - 1], x)
  {
    var init := s[..|s| - 1];
    var i, k := FirstIndex(s, x), FirstIndex(init, x);
    assert s[k] == init[k] == x;
    assert i <= k;
    assert init[i] == s[i];
  }

  /** pandas `unique()` / `drop_duplicates()`: each value once, in the order
      of its first occurrence. */
  function Unique<T(==,!new)>(s: seq<T>): (u: seq<T>)
    ensures forall x :: x in u <==> x in s
    ensures forall p, q :: 0 <= p < q < |u| ==> u[p] != u[q]
    ensures forall p, q :: 0 <= p < q < |u| ==> FirstIndex(s, u[p]) < FirstIndex(s, u[q])
  {
    if |s| == 0 then []
    else
      var init := s[..|s| - 1];
      var last := s[|s| - 1];
      var u := Unique(init);
      assert s == init + [last];
      assert forall x :: x in u ==> FirstIndex(s, x) == FirstIndex(init, x) by {
        forall x | x in u
          ensures FirstIndex(s, x) == FirstIndex(init, x)
        {
          FirstIndexInInit(s, x);
        }
      }
      if last in u then u
      else
        assert FirstIndex(s, last) == |s| - 1;
        u + [last]
  }

  // ---------------------------------------------------------------- groups

  datatype GroupKey = GroupKey(code: string, powerType: string)

  /** Items with a power type open an option group. The loader turns every
      power type into text, so none is missing afterwards (an absent one reads
      "nan" and is a power type like any other): only the empty string is
      excluded. */
  predicate IsMain(r: FlatRow) {
    r.kind == Item && r.powerType != ""
  }

  function KeyOf(r: FlatRow): GroupKey {
    GroupKey(r.code, r.powerType)
  }

  /** The two boolean masks of the grouping: the main items, and the rows of
      one group. */
  datatype Mask = MainItems | GroupOf(key: GroupKey)

  predicate Keeps(m: Mask, r: FlatRow) {
    match m
    case MainItems => IsMain(r)
    case GroupOf(g) => InGroup(g, r)
  }

  /** The positions of the rows the mask keeps, in table order. */
  function Where(rows: seq<FlatRow>, m: Mask): (ps: seq<nat>)
    ensures forall p :: 0 <= p < |ps| ==> ps[p] < |rows| && Keeps(m, rows[ps[p]])
    ensures forall p, q :: 0 <= p < q < |ps| ==> ps[p] < ps[q]
    ensures forall i :: 0 <= i < |rows| && Keeps(m, rows[i]) ==> i in ps
  {
    if |rows| == 0 then []
    else
      var ps := Where(rows[..|rows| - 1], m);
      assert forall i :: 0 <= i < |rows| - 1 ==> rows[..|rows| - 1][i] == rows[i];
      if Keeps(m, rows[|rows| - 1]) then ps + [|rows| - 1] else ps
  }

  /** The keys of the main items, in table order, repeats included. */
  function MainKeys(rows: seq<FlatRow>): (ks: seq<GroupKey>)
    ensures forall k :: k in ks <==> exists i :: 0 <= i < |rows| && IsMain(rows[i]) && k == KeyOf(rows[i])
    ensures var ps := Where(rows, MainItems);
            |ks| == |ps| && forall p :: 0 <= p < |ps| ==> ks[p] == KeyOf(rows[ps[p]])
  {
    if |rows| == 0 then []
    else
      var ks := MainKeys(rows[..|rows| - 1]);
      var last := rows[|rows| - 1];
      assert forall i :: 0 <= i < |rows| - 1 ==> rows[..|rows| - 1][i] == rows[i];
      if IsMain(last) then ks + [KeyOf(last)] else ks
  }

  /** The option groups: each key of a main item once, in first-seen order. */
  function Groups(rows: seq<FlatRow>): (gs: seq<GroupKey>)
    ensures forall k :: k in gs <==> exists i :: 0 <= i < |rows| && IsMain(rows[i]) && k == KeyOf(rows[i])
    ensures Distinct(gs)
  {
    Unique(MainKeys(rows))
  }

  /** A group comes before another when its first main item comes first:
      every main item of the later group has one of the earlier group above it. */
  lemma GroupsInFirstSeenOrder(rows: seq<FlatRow>, p: nat, q: nat, j: nat)
    requires p < q < |Groups(rows)| && j < |rows|
    requires IsMain(rows[j]) && KeyOf(rows[j]) == Groups(rows)[q]
    ensures exists i :: 0 <= i < j && IsMain(rows[i]) && KeyOf(rows[i]) == Groups(rows)[p]
  {
    var ks := MainKeys(rows);
    var gs := Groups(rows);
    var ps := Where(rows, MainItems);
    assert j in ps;
    var m :| 0 <= m < |ps| && ps[m] == j;
    assert ks[m] == gs[q];
    var fp := FirstIndex(ks, gs[p]);
    assert FirstIndex(ks, gs[q]) <= m;
    assert ks[fp] == gs[p] && fp < m;
    assert ps[fp] < j && IsMain(rows[ps[fp]]) && KeyOf(rows[ps[fp]]) == gs[p];
  }

  /** A row belongs to a group when it is an item or subitem with the group's
      code and either the group's power type or an empty one. */
  predicate InGroup(g: GroupKey, r: FlatRow) {
    && r.code == g.code
    && (r.powerType == g.powerType || r.powerType == "")
    && (r.kind == Item || r.kind == Subitem)
  }

  /** The rows of group `g`: every row of the group, in table order, repeats
      included. */
  function GroupRows(rows: seq<FlatRow>, g: GroupKey): (gr: seq<FlatRow>)
    ensures forall x :: x in gr <==> x in rows && InGroup(g, x)
  {
    if |rows| == 0 then []
    else
      var gr := GroupRows(rows[..|rows| - 1], g);
      var last := rows[|rows| - 1];
      assert rows == rows[..|rows| - 1] + [last];
      if InGroup(g, last) then gr + [last] else gr
  }

  /** The group's rows are the rows its mask keeps, one for one, in table
      order: repeats stay, and nothing is reordered. */
  lemma {:induction false} GroupRowsInTableOrder(rows: seq<FlatRow>, g: GroupKey)
    ensures var ps := Where(rows, GroupOf(g));
            |GroupRows(rows, g)| == |ps| &&
            forall p :: 0 <= p < |ps| ==> GroupRows(rows, g)[p] == rows[ps[p]]
    decreases |rows|
  {
    if |rows| > 0 {
      var n := |rows|;
      var init, last := rows[..n - 1], rows[n - 1];
      GroupRowsInTableOrder(init, g);
      var ps, gr := Where(init, GroupOf(g)), GroupRows(init, g);
      assert Where(rows, GroupOf(g)) == if InGroup(g, last) then ps + [n - 1] else ps;
      assert GroupRows(rows, g) == if InGroup(g, last) then gr + [last] else gr;
      forall p | 0 <= p < |ps|
        ensures gr[p] == rows[ps[p]]
      {
        assert init[ps[p]] == rows[ps[p]];
      }
    }
  }

  function SupplierColumn(gr: seq<FlatRow>): seq<string> {
    seq(|gr|, i requires 0 <= i < |gr| => gr[i].supplier)
  }

  function DescriptionColumn(gr: seq<FlatRow>): seq<string> {
    seq(|gr|, i requires 0 <= i < |gr| => gr[i].description)
  }

  /** The supplier columns of a group, in first-seen order. */
  function Suppliers(gr: seq<FlatRow>): seq<string> {
    Unique(SupplierColumn(gr))
  }

  /** The description lines of a group, in first-seen order. */
  function Descriptions(gr: seq<FlatRow>): seq<string> {
    Unique(DescriptionColumn(gr))
  }

  predicate HasItem(gr: seq<FlatRow>) {
    exists i :: 0 <= i < |gr| && gr[i].kind == Item
  }

  /** The group's brand: that of its first item. */
  function Brand(gr: seq<FlatRow>): (b: string)
    requires HasItem(gr)
    ensures exists i :: 0 <= i < |gr| && gr[i].kind == Item && b == gr[i].brand &&
              forall j :: 0 <= j < i ==> gr[j].kind != Item
  {
    if gr[0].kind == Item then gr[0].brand
    else
      assert HasItem(gr[1..]) by {
        var i :| 0 <= i < |gr| && gr[i].kind == Item;
        assert gr[1..][i - 1] == gr[i];
      }
      var b := Brand(gr[1..]);
      var i :| 0 <= i < |gr| - 1 && gr[1..][i].kind == Item && b == gr[1..][i].brand &&
               forall j :: 0 <= j < i ==> gr[1..][j].kind != Item;
      assert gr[i + 1] == gr[1..][i];
      assert forall j :: 1 <= j < i + 1 ==> gr[j] == gr[1..][j - 1];
      b
  }

  /** Every option group holds an item, so its brand exists, and at least
      one description, so its first line exists. */
  lemma GroupIsNonEmpty(rows: seq<FlatRow>, g: GroupKey)
    requires g in Groups(rows)
    ensures HasItem(GroupRows(rows, g))
    ensures |Descriptions(GroupRows(rows, g))| > 0
  {
    var i := MainRowOf(rows, g);
    var gr := GroupRows(rows, g);
    assert InGroup(g, rows[i]);
    assert rows[i] in gr;
    var k :| 0 <= k < |gr| && gr[k] == rows[i];
    assert DescriptionColumn(gr)[k] in Descriptions(gr);
  }

  lemma MainRowOf(rows: seq<FlatRow>, g: GroupKey) returns (i: nat)
    requires g in Groups(rows)
    ensures i < |rows| && IsMain(rows[i]) && KeyOf(rows[i]) == g
  {
    i :| 0 <= i < |rows| && IsMain(rows[i]) && g == KeyOf(rows[i]);
  }

  // ---------------------------------------------------------------- cells

  /** The first row of the group for supplier `s` and description `d`. */
  function Match(gr: seq<FlatRow>, s: string, d: string): (m: Option<nat>)
    ensures m.Some? ==> m.value < |gr| && gr[m.value].supplier == s && gr[m.value].description == d
    ensures m.Some? ==> forall j :: 0 <= j < m.value ==> !(gr[j].supplier == s && gr[j].description == d)
    ensures m.None? <==> forall j :: 0 <= j < |gr| ==> !(gr[j].supplier == s && gr[j].description == d)
  {
    if |gr| == 0 then None
    else
      var m := Match(gr[..|gr| - 1], s, d);
      if m.Some? then m
      else if gr[|gr| - 1].supplier == s && gr[|gr| - 1].description == d then Some(|gr| - 1)
      else None
  }

  /** The price shown for (`s`, `d`): the first matching row's, or 0. */
  function Cell(gr: seq<FlatRow>, s: string, d: string): int {
    match Match(gr, s, d)
    case Some(k) => gr[k].price
    case None => 0
  }

  function SumOver(ds: seq<string>, f: string -> int): int {
    if |ds| == 0 then 0 else SumOver(ds[..|ds| - 1], f) + f(ds[|ds| - 1])
  }

  /** `totals[s]`: the sum of the supplier's shown cells. */
  function Subtotal(gr: seq<FlatRow>, s: string): int {
    SumOver(Descriptions(gr), d => Cell(gr, s, d))
  }

  /** The total with tax, `subtotal * (1 + tax_percent / 100)`. */
  function Total(sub: int, taxPercent: real): real {
    sub as real * (1.0 + taxPercent / 100.0)
  }

  // ---------------------------------------------------------------- the rendered grid

  datatype Line = Line(description: string, cells: seq<int>)

  datatype Grid = Grid(
    key: GroupKey,
    brand: string,
    suppliers: seq<string>,
    lines: seq<Line>,
    rowspan: nat,
    totals: seq<real>)

  /** Sum of column `j` over the first `n` lines. */
  function ColumnSum(lines: seq<Line>, j: nat, n: nat): int
    requires n <= |lines|
    requires forall k :: 0 <= k < |lines| ==> j < |lines[k].cells|
  {
    if n == 0 then 0 else ColumnSum(lines, j, n - 1) + lines[n - 1].cells[j]
  }

  function LineOf(gr: seq<FlatRow>, d: string): (l: Line)
    ensures l.description == d && |l.cells| == |Suppliers(gr)|
    ensures forall j :: 0 <= j < |l.cells| ==> l.cells[j] == Cell(gr, Suppliers(gr)[j], d)
  {
    var sups := Suppliers(gr);
    Line(d, seq(|sups|, j requires 0 <= j < |sups| => Cell(gr, sups[j], d)))
  }

  /** One option table of the preview. */
  function Render(rows: seq<FlatRow>, g: GroupKey, taxPercent: real): (grid: Grid)
    requires g in Groups(rows)
    ensures var gr := GroupRows(rows, g);
            && grid.suppliers == Suppliers(gr)
            && |grid.lines| == |Descriptions(gr)| > 0
            && grid.rowspan == |grid.lines| + 2
            && HasItem(gr) && grid.brand == Brand(gr)
    ensures forall k :: 0 <= k < |grid.lines| ==> |grid.lines[k].cells| == |grid.suppliers|
    ensures forall k, j :: 0 <= k < |grid.lines| && 0 <= j < |grid.suppliers| ==>
              grid.lines[k].cells[j] == Cell(GroupRows(rows, g), grid.suppliers[j], grid.lines[k].description)
    ensures |grid.totals| == |grid.suppliers|
    ensures forall j :: 0 <= j < |grid.totals| ==>
              grid.totals[j] == Total(ColumnSum(grid.lines, j, |grid.lines|), taxPercent)
  {
    GroupIsNonEmpty(rows, g);
    RenderGroup(GroupRows(rows, g), g, taxPercent)
  }

  /** The option table of the group rows `gr`. */
  function RenderGroup(gr: seq<FlatRow>, g: GroupKey, taxPercent: real): (grid: Grid)
    requires HasItem(gr)
    ensures grid.suppliers == Suppliers(gr) && grid.brand == Brand(gr)
    ensures grid.lines == Lines(gr) && grid.rowspan == |grid.lines| + 2
    ensures |grid.totals| == |grid.suppliers|
    ensures forall j :: 0 <= j < |grid.totals| ==>
              grid.totals[j] == Total(ColumnSum(grid.lines, j, |grid.lines|), taxPercent)
  {
    var sups := Suppliers(gr);
    var lines := Lines(gr);
    TotalsAreColumnSums(gr);
    Grid(g, Brand(gr), sups, lines, |lines| + 2, seq(|sups|, j requires 0 <= j < |sups| => Total(Subtotal(gr, sups[j]), taxPercent)))
  }

  /** One line per description, in first-seen order. */
  function Lines(gr: seq<FlatRow>): (lines: seq<Line>)
    ensures |lines| == |Descriptions(gr)|
    ensures forall k :: 0 <= k < |lines| ==> lines[k] == LineOf(gr, Descriptions(gr)[k])
  {
    var ds := Descriptions(gr);
    seq(|ds|, k requires 0 <= k < |ds| => LineOf(gr, ds[k]))
  }

  lemma TotalsAreColumnSums(gr: seq<FlatRow>)
    ensures forall j :: 0 <= j < |Suppliers(gr)| ==> Subtotal(gr, Suppliers(gr)[j]) == ColumnSum(Lines(gr), j, |Lines(gr)|)
  {
    var ds := Descriptions(gr);
    forall j | 0 <= j < |Suppliers(gr)|
      ensures Subtotal(gr, Suppliers(gr)[j]) == ColumnSum(Lines(gr), j, |Lines(gr)|)
    {
      ColumnSumIsSubtotal(gr, ds, Lines(gr), j, |ds|);
      assert ds[..|ds|] == ds;
    }
  }

  lemma {:induction false} ColumnSumIsSubtotal(gr: seq<FlatRow>, ds: seq<string>, lines: seq<Line>, j: nat, n: nat)
    requires n <= |ds| == |lines| && j < |Suppliers(gr)|
    requires forall k :: 0 <= k < |ds| ==> lines[k] == LineOf(gr, ds[k])
    requires forall k :: 0 <= k < |lines| ==> j < |lines[k].cells|
    ensures ColumnSum(lines, j, n) == SumOver(ds[..n], d => Cell(gr, Suppliers(gr)[j], d))
    decreases n
  {
    if n > 0 {
      ColumnSumIsSubtotal(gr, ds, lines, j, n - 1);
      assert ds[..n][..n - 1] == ds[..n - 1];
    }
  }

  // ---------------------------------------------------------------- the winner

  /** The loop `if total < min_total` from infinity: the first position of
      the strictly lowest cost, or none for no costs. */
  function Lowest(costs: seq<real>): (w: Option<nat>)
    ensures w.None? <==> |costs| == 0
    ensures w.Some? ==> w.value < |costs|
    ensures w.Some? ==> forall i :: 0 <= i < |costs| ==> costs[w.value] <= costs[i]
    ensures w.Some? ==> forall i :: 0 <= i < w.value ==> costs[w.value] < costs[i]
  {
    if |costs| == 0 then None
    else
      var w := Lowest(costs[..|costs| - 1]);
      assert forall i :: 0 <= i < |costs| - 1 ==> costs[..|costs| - 1][i] == costs[i];
      if w.None? || costs[|costs| - 1] < costs[w.value] then Some(|costs| - 1) else w
  }

  /** Only the order of the costs decides the winner. */
  lemma {:induction false} LowestKeepsOrder(a: seq<real>, b: seq<real>)
    requires |a| == |b|
    requires forall i, j :: 0 <= i < |a| && 0 <= j < |a| ==> (a[i] < a[j] <==> b[i] < b[j])
    ensures Lowest(a) == Lowest(b)
  {
    if |a| > 0 {
      var a', b' := a[..|a| - 1], b[..|b| - 1];
      assert forall i :: 0 <= i < |a'| ==> a'[i] == a[i] && b'[i] == b[i];
      LowestKeepsOrder(a', b');
    }
  }

  /** The sum of every price of supplier `s` in the group: what the winner
      loop adds up (`sup_items["price"].sum()`). */
  function SupplierSum(gr: seq<FlatRow>, s: string): int {
    if |gr| == 0 then 0
    else SupplierSum(gr[..|gr| - 1], s) + (if gr[|gr| - 1].supplier == s then gr[|gr| - 1].price else 0)
  }

  function SupplierAt(sups: seq<string>, w: Option<nat>): string
    requires w.Some? ==> w.value < |sups|
  {
    match w
    case None => ""
    case Some(i) => sups[i]
  }

  function SumCosts(gr: seq<FlatRow>, taxPercent: real): seq<real> {
    var sups := Suppliers(gr);
    seq(|sups|, j requires 0 <= j < |sups| => Total(SupplierSum(gr, sups[j]), taxPercent))
  }

  function ShownCosts(gr: seq<FlatRow>, taxPercent: real): seq<real> {
    var sups := Suppliers(gr);
    seq(|sups|, j requires 0 <= j < |sups| => Total(Subtotal(gr, sups[j]), taxPercent))
  }

  /** The winner as the export computes it, from all the supplier's prices. */
  function WinnerAsWritten(gr: seq<FlatRow>, taxPercent: real): (w: string)
    ensures |Suppliers(gr)| == 0 ==> w == ""
    ensures |Suppliers(gr)| > 0 ==>
              exists j :: (0 <= j < |Suppliers(gr)| && w == Suppliers(gr)[j] &&
                (forall i :: 0 <= i < |Suppliers(gr)| ==> SumCosts(gr, taxPercent)[j] <= SumCosts(gr, taxPercent)[i]) &&
                (forall i :: 0 <= i < j ==> SumCosts(gr, taxPercent)[j] < SumCosts(gr, taxPercent)[i]))
  {
    SupplierAt(Suppliers(gr), Lowest(SumCosts(gr, taxPercent)))
  }

  /** The winner of the totals the tables show: the first supplier whose
      shown total is strictly lowest. */
  function Winner(gr: seq<FlatRow>, taxPercent: real): (w: string)
    ensures |Suppliers(gr)| == 0 ==> w == ""
    ensures |Suppliers(gr)| > 0 ==>
              exists j :: (0 <= j < |Suppliers(gr)| && w == Suppliers(gr)[j] &&
                (forall i :: 0 <= i < |Suppliers(gr)| ==> ShownCosts(gr, taxPercent)[j] <= ShownCosts(gr, taxPercent)[i]) &&
                (forall i :: 0 <= i < j ==> ShownCosts(gr, taxPercent)[j] < ShownCosts(gr, taxPercent)[i]))
  {
    SupplierAt(Suppliers(gr), Lowest(ShownCosts(gr, taxPercent)))
  }

  // ---------------------------------------------------------------- winner lemmas

  lemma ScalePreservesOrder(x: real, y: real, c: real)
    requires c > 0.0
    ensures x * c < y * c <==> x < y
  {
    if x < y {
      assert y * c - x * c == (y - x) * c;
    }
    if x * c < y * c {
      assert (y - x) * c == y * c - x * c;
    }
  }

  /** A non-negative tax scales every total by the same positive factor, so
      it never changes the winner. */
  lemma WinnerIgnoresTax(gr: seq<FlatRow>, taxPercent: real)
    requires taxPercent >= 0.0
    ensures Winner(gr, taxPercent) == Winner(gr, 0.0)
    ensures WinnerAsWritten(gr, taxPercent) == WinnerAsWritten(gr, 0.0)
  {
    var c := 1.0 + taxPercent / 100.0;
    forall x: int, y: int
      ensures Total(x, taxPercent) < Total(y, taxPercent) <==> Total(x, 0.0) < Total(y, 0.0)
    {
      ScalePreservesOrder(x as real, y as real, c);
    }
    LowestKeepsOrder(ShownCosts(gr, taxPercent), ShownCosts(gr, 0.0));
    LowestKeepsOrder(SumCosts(gr, taxPercent), SumCosts(gr, 0.0));
  }

  /** No supplier quotes the same description twice within the group. */
  predicate PairsUnique(gr: seq<FlatRow>) {
    forall i, j :: 0 <= i < j < |gr| && gr[i].supplier == gr[j].supplier ==> gr[i].description != gr[j].description
  }

  lemma {:induction false} SumOverAdd(ds: seq<string>, f: string -> int, g: string -> int, h: string -> int)
    requires forall d :: h(d) == f(d) + g(d)
    ensures SumOver(ds, h) == SumOver(ds, f) + SumOver(ds, g)
  {
    if |ds| > 0 {
      SumOverAdd(ds[..|ds| - 1], f, g, h);
    }
  }

  /** Summing a function that is zero but at `d0` over distinct values. */
  lemma {:induction false} SumOverSingle(ds: seq<string>, d0: string, c: int, f: string -> int)
    requires Distinct(ds)
    requires forall d :: f(d) == (if d == d0 then c else 0)
    ensures SumOver(ds, f) == (if d0 in ds then c else 0)
  {
    if |ds| > 0 {
      var init := ds[..|ds| - 1];
      SumOverSingle(init, d0, c, f);
      assert ds == init + [ds[|ds| - 1]];
      if ds[|ds| - 1] == d0 {
        assert d0 !in init;
      }
    }
  }

  /** Adding a row whose (supplier, description) is new adds its price to
      that one cell and leaves the others. */
  lemma CellOfSnoc(gr: seq<FlatRow>, s: string, d: string)
    requires |gr| > 0 && PairsUnique(gr)
    ensures var r := gr[|gr| - 1];
            Cell(gr, s, d) == Cell(gr[..|gr| - 1], s, d) + (if r.supplier == s && r.description == d then r.price else 0)
  {
    var init := gr[..|gr| - 1];
    var r := gr[|gr| - 1];
    if r.supplier == s && r.description == d {
      forall j | 0 <= j < |init|
        ensures !(init[j].supplier == s && init[j].description == d)
      {
        assert init[j] == gr[j];
      }
      assert Match(init, s, d).None?;
    }
  }

  lemma {:induction false} SumOfCells(gr: seq<FlatRow>, s: string, ds: seq<string>)
    requires PairsUnique(gr) && Distinct(ds)
    requires forall i :: 0 <= i < |gr| ==> gr[i].description in ds
    ensures SumOver(ds, d => Cell(gr, s, d)) == SupplierSum(gr, s)
    decreases |gr|
  {
    if |gr| == 0 {
      SumOverSingle(ds, "", 0, d => Cell(gr, s, d));
    } else {
      var init := gr[..|gr| - 1];
      var r := gr[|gr| - 1];
      assert forall i :: 0 <= i < |init| ==> init[i] == gr[i];
      SumOfCells(init, s, ds);
      var c := if r.supplier == s then r.price else 0;
      var bump := d => if d == r.description then c else 0;
      forall d
        ensures Cell(gr, s, d) == Cell(init, s, d) + bump(d)
      {
        CellOfSnoc(gr, s, d);
      }
      SumOverAdd(ds, d => Cell(init, s, d), bump, d => Cell(gr, s, d));
      SumOverSingle(ds, r.description, c, bump);
    }
  }

  /** With unique (supplier, description) pairs the sum the winner loop uses
      is exactly the shown subtotal. */
  lemma SupplierSumIsSubtotal(gr: seq<FlatRow>, s: string)
    requires PairsUnique(gr)
    ensures SupplierSum(gr, s) == Subtotal(gr, s)
  {
    var ds := Descriptions(gr);
    forall i | 0 <= i < |gr|
      ensures gr[i].description in ds
    {
      assert DescriptionColumn(gr)[i] == gr[i].description;
    }
    SumOfCells(gr, s, ds);
  }

  /** ... and then the export's winner is the winner of the shown totals. */
  lemma WinnersAgreeOnUniquePairs(gr: seq<FlatRow>, taxPercent: real)
    requires PairsUnique(gr)
    ensures WinnerAsWritten(gr, taxPercent) == Winner(gr, taxPercent)
  {
    var sups := Suppliers(gr);
    forall j | 0 <= j < |sups|
      ensures SumCosts(gr, taxPercent)[j] == ShownCosts(gr, taxPercent)[j]
    {
      SupplierSumIsSubtotal(gr, sups[j]);
    }
    assert SumCosts(gr, taxPercent) == ShownCosts(gr, taxPercent);
  }

  /** Supplier `a` quotes "Unit" twice (an item and a subitem at 100 each),
      supplier `b` once at 150. */
  function ExampleGroup(a: string, b: string): seq<FlatRow> {
    [ FlatRow(Item, a, "Acme", "C1", "Unit", "AC", 100),
      FlatRow(Subitem, a, "Acme", "C1", "Unit", "AC", 100),
      FlatRow(Item, b, "Acme", "C1", "Unit", "AC", 150) ]
  }

  lemma UniqueOfSame<T(!new)>(x: T)
    ensures Unique([x, x, x]) == [x]
  {
    assert [x][..0] == [];
    assert Unique([x]) == [x];
    assert [x, x][..1] == [x];
    assert Unique([x, x]) == [x];
    assert [x, x, x][..2] == [x, x];
  }

  lemma UniqueOfRepeat<T(!new)>(a: T, b: T)
    requires a != b
    ensures Unique([a, a, b]) == [a, b]
  {
    assert [a][..0] == [];
    assert Unique([a]) == [a];
    assert [a, a][..1] == [a];
    assert Unique([a, a]) == [a];
    assert [a, a, b][..2] == [a, a];
    assert b !in [a];
  }

  lemma ExampleSuppliers(a: string, b: string)
    requires a != b
    ensures Suppliers(ExampleGroup(a, b)) == [a, b]
  {
    assert SupplierColumn(ExampleGroup(a, b)) == [a, a, b];
    UniqueOfRepeat(a, b);
  }

  lemma ExampleDescriptions(a: string, b: string)
    ensures Descriptions(ExampleGroup(a, b)) == ["Unit"]
  {
    assert DescriptionColumn(ExampleGroup(a, b)) == ["Unit", "Unit", "Unit"];
    UniqueOfSame("Unit");
  }

  lemma ExampleSums(a: string, b: string)
    requires a != b
    ensures SupplierSum(ExampleGroup(a, b), a) == 200 && SupplierSum(ExampleGroup(a, b), b) == 150
    ensures Subtotal(ExampleGroup(a, b), a) == 100 && Subtotal(ExampleGroup(a, b), b) == 150
  {
    var gr := ExampleGroup(a, b);
    ExampleDescriptions(a, b);
    assert gr[..2][..1] == gr[..1] && gr[..1][..0] == [];
    assert SupplierSum(gr[..1], a) == 100 && SupplierSum(gr[..1], b) == 0;
    assert SupplierSum(gr[..2], a) == 200 && SupplierSum(gr[..2], b) == 0;
    assert Match(gr, a, "Unit") == Some(0);
    assert Match(gr, b, "Unit") == Some(2);
    assert ["Unit"][..0] == [];
  }

  lemma ExampleLowest()
    ensures Lowest([100.0, 150.0]) == Some(0)
    ensures Lowest([200.0, 150.0]) == Some(1)
  {
    assert [100.0, 150.0][..1] == [100.0] && [200.0, 150.0][..1] == [200.0];
    assert [100.0][..0] == [] && [200.0][..0] == [];
  }

  /** Both tables show `a` at 100 against `b` at 150, yet the export marks
      `b` as the winner: it adds up both of `a`'s quotes. */
  lemma WinnerAsWrittenDisagrees(a: string, b: string)
    requires a != b
    ensures ShownCosts(ExampleGroup(a, b), 0.0) == [100.0, 150.0]
    ensures Winner(ExampleGroup(a, b), 0.0) == a
    ensures WinnerAsWritten(ExampleGroup(a, b), 0.0) == b
  {
    var gr := ExampleGroup(a, b);
    ExampleSuppliers(a, b);
    ExampleSums(a, b);
    ExampleLowest();
    assert ShownCosts(gr, 0.0) == [100.0, 150.0];
    assert SumCosts(gr, 0.0) == [200.0, 150.0];
  }
}
