/** The editor table (`editor_df`): rows with an id, a type, an optional parent
    link and a sibling order, plus the quote columns. */
module Rows {
  import opened Optional
  import opened Sorting

  type Id = string

  /** The `type` column. Only "item" and "subitem" are treated specially; any
      other tag is carried along unchanged. */
  datatype Kind = Item | Subitem | Other(tag: string)

  /** Prices are whole cents, and every row carries one. */
  datatype Row = Row(
    id: Id,
    kind: Kind,
    parentId: Option<Id>,
    order: int,
    supplier: string,
    brand: string,
    code: string,
    description: string,
    powerType: string,
    price: int)

  /** A row of the flat table: the editor row without `id`, `parentId`, `order`. */
  datatype FlatRow = FlatRow(
    kind: Kind,
    supplier: string,
    brand: string,
    code: string,
    description: string,
    powerType: string,
    price: int)

  function Strip(r: Row): FlatRow {
    FlatRow(r.kind, r.supplier, r.brand, r.code, r.description, r.powerType, r.price)
  }

  predicate HasId(t: seq<Row>, id: Id) {
    exists i :: 0 <= i < |t| && t[i].id == id
  }

  /** The row `edf[edf["id"] == id].iloc[0]`: the first one carrying `id`. */
  function IndexOf(t: seq<Row>, id: Id): (k: nat)
    requires HasId(t, id)
    ensures k < |t| && t[k].id == id
    ensures forall i :: 0 <= i < k ==> t[i].id != id
  {
    if t[0].id == id then 0
    else
      assert HasId(t[1..], id) by {
        var i :| 0 <= i < |t| && t[i].id == id;
        assert t[1..][i - 1].id == id;
      }
      IndexOf(t[1..], id) + 1
  }

  /** No value occurs twice. */
  predicate Distinct<T(==)>(s: seq<T>) {
    forall i, j :: 0 <= i < j < |s| ==> s[i] != s[j]
  }

  predicate UniqueIds(t: seq<Row>) {
    forall i, j :: 0 <= i < |t| && 0 <= j < |t| && i != j ==> t[i].id != t[j].id
  }

  predicate IsItemId(t: seq<Row>, p: Id) {
    exists j :: 0 <= j < |t| && t[j].kind == Item && t[j].id == p
  }

  /** No dangling parents: a parent link is held only by a subitem, and it names
      an item of the table. Hence no item and no subitem has a parent that is
      not an item, and no subitem has children. */
  predicate ParentsResolve(t: seq<Row>) {
    forall i :: 0 <= i < |t| && t[i].parentId.Some? ==>
      t[i].kind == Subitem && IsItemId(t, t[i].parentId.value)
  }

  predicate Valid(t: seq<Row>) {
    UniqueIds(t) && ParentsResolve(t)
  }

  /** Siblings for reordering: items of the same (code, Power Type), or subitems
      under the same parent. pandas compares a missing parent with `==` as
      unequal to everything, so a parentless subitem has no siblings at all. */
  predicate IsSibling(row: Row, other: Row) {
    if row.kind == Item then
      other.kind == Item && other.code == row.code && other.powerType == row.powerType
    else
      other.kind == Subitem && other.parentId.Some? && other.parentId == row.parentId
  }

  /** The largest `order` among rows whose parent is `p`, if there is any. */
  function MaxChildOrder(t: seq<Row>, p: Id): (m: Option<int>)
    ensures m.None? <==> forall i :: 0 <= i < |t| ==> t[i].parentId != Some(p)
    ensures m.Some? ==> forall i :: 0 <= i < |t| && t[i].parentId == Some(p) ==> t[i].order <= m.value
    ensures m.Some? ==> exists i :: 0 <= i < |t| && t[i].parentId == Some(p) && t[i].order == m.value
  {
    if |t| == 0 then None
    else
      var m := MaxChildOrder(t[..|t| - 1], p);
      var last := t[|t| - 1];
      if last.parentId != Some(p) then m
      else if m.None? || m.value < last.order then Some(last.order)
      else m
  }

  /** `existing["order"].max() + 1`, or 0 when `p` has no children. */
  function NextOrder(t: seq<Row>, p: Id): (n: int)
    ensures forall i :: 0 <= i < |t| && t[i].parentId == Some(p) ==> t[i].order < n
    ensures (forall i :: 0 <= i < |t| ==> t[i].parentId != Some(p)) ==> n == 0
    ensures (exists i :: 0 <= i < |t| && t[i].parentId == Some(p)) ==>
              exists i :: 0 <= i < |t| && t[i].parentId == Some(p) && n == t[i].order + 1
  {
    match MaxChildOrder(t, p)
    case None => 0
    case Some(m) => m + 1
  }

  /** The orders held by children of `p`. */
  ghost function ChildOrders(t: seq<Row>, p: Id): set<int> {
    set i | 0 <= i < |t| && t[i].parentId == Some(p) :: t[i].order
  }

  /** Two tables whose children of `p` hold the same orders agree on the next order. */
  lemma NextOrderDependsOnChildren(t: seq<Row>, u: seq<Row>, p: Id)
    requires ChildOrders(t, p) == ChildOrders(u, p)
    ensures NextOrder(t, p) == NextOrder(u, p)
  {
    var mt, mu := MaxChildOrder(t, p), MaxChildOrder(u, p);
    if mt.Some? {
      var i :| 0 <= i < |t| && t[i].parentId == Some(p) && t[i].order == mt.value;
      assert mt.value in ChildOrders(u, p);
      assert mu.Some? && mt.value <= mu.value;
    }
    if mu.Some? {
      var j :| 0 <= j < |u| && u[j].parentId == Some(p) && u[j].order == mu.value;
      assert mu.value in ChildOrders(t, p);
      assert mt.Some? && mu.value <= mt.value;
    }
  }

  /** Which rows a `sort_values` call of the editor looks at, and on what key. */
  datatype Selection = SiblingsOf(row: Row) | AllItems | ChildrenOf(parent: Id)

  predicate Selected(sel: Selection, r: Row) {
    match sel
    case SiblingsOf(row) => IsSibling(row, r)
    case AllItems => r.kind == Item
    case ChildrenOf(p) => r.parentId == Some(p)
  }

  function SortKey(sel: Selection, r: Row): Key {
    if sel.AllItems? then Key(r.code, r.powerType, r.order) else Key("", "", r.order)
  }

  function EntryAt(t: seq<Row>, sel: Selection, j: nat): Entry
    requires j < |t|
  {
    Entry(SortKey(sel, t[j]), j)
  }

  /** The selected rows among the first `n`, in table order. */
  function Entries(t: seq<Row>, sel: Selection, n: nat): (es: seq<Entry>)
    requires n <= |t|
    ensures forall e :: e in es <==> exists j :: 0 <= j < n && Selected(sel, t[j]) && e == EntryAt(t, sel, j)
    ensures IncreasingIdx(es)
  {
    if n == 0 then []
    else
      var es := Entries(t, sel, n - 1);
      if Selected(sel, t[n - 1]) then
        assert forall e :: e in es ==> e.idx < n - 1;
        es + [EntryAt(t, sel, n - 1)]
      else es
  }

  /** The selected rows sorted by key, ties in table order; each row appears once. */
  function SortedSel(t: seq<Row>, sel: Selection): (s: seq<Entry>)
    ensures forall e :: e in s <==> exists j :: 0 <= j < |t| && Selected(sel, t[j]) && e == EntryAt(t, sel, j)
    ensures forall p :: 0 <= p < |s| ==>
              s[p].idx < |t| && Selected(sel, t[s[p].idx]) && s[p] == EntryAt(t, sel, s[p].idx)
    ensures StrictlySorted(s)
    ensures forall p, q :: 0 <= p < q < |s| ==> s[p].idx != s[q].idx
  {
    var es := Entries(t, sel, |t|);
    SortIsStable(es);
    var s := Sort(es);
    assert forall e :: e in s <==> e in es by {
      forall e ensures e in s <==> e in es {
        assert e in s <==> e in multiset(s);
      }
    }
    assert forall p :: 0 <= p < |s| ==>
             s[p].idx < |t| && Selected(sel, t[s[p].idx]) && s[p] == EntryAt(t, sel, s[p].idx) by {
      forall p | 0 <= p < |s|
        ensures s[p].idx < |t| && Selected(sel, t[s[p].idx]) && s[p] == EntryAt(t, sel, s[p].idx)
      {
        assert s[p] in s;
      }
    }
    assert forall p, q :: 0 <= p < q < |s| ==> s[p].idx != s[q].idx by {
      forall p, q | 0 <= p < q < |s|
        ensures s[p].idx != s[q].idx
      {
        assert s[p] in s && s[q] in s;
        PrecIrreflexive(s[p]);
      }
    }
    s
  }
}
