/** `init_editor_structure`: one pass over the flat table that gives every row an
    id, a parent link and an order. A subitem hangs under the most recent item;
    a subitem met before any item is retyped to an item. */
module Builder {
  import opened Optional
  import opened Rows

  function MakeRow(f: FlatRow, id: Id, kind: Kind, parent: Option<Id>, order: int): (r: Row)
    ensures Strip(r) == f.(kind := kind)
  {
    Row(id, kind, parent, order, f.supplier, f.brand, f.code, f.description, f.powerType, f.price)
  }

  function LowerChar(c: char): char {
    if 'A' <= c <= 'Z' then (c as int + 32) as char else c
  }

  /** `str.lower()` on the letters that can lower to "item" or "subitem". */
  function Lower(s: string): (r: string)
    ensures |r| == |s| && forall i :: 0 <= i < |s| ==> r[i] == LowerChar(s[i])
  {
    seq(|s|, i requires 0 <= i < |s| => LowerChar(s[i]))
  }

  /** How the builder reads a type tag: without regard to letter case. Every
      other part of the editor compares the tag exactly, so a tag such as
      "Item" is an item here and a plain other tag everywhere else. */
  function ReadAs(k: Kind): (c: Kind)
    ensures c == Item <==> k == Item || (k.Other? && Lower(k.tag) == "item")
    ensures c == Subitem <==> k == Subitem || (k.Other? && Lower(k.tag) == "subitem")
    ensures c != Item && c != Subitem ==> c == k
  {
    match k
    case Other(tag) => if Lower(tag) == "item" then Item else if Lower(tag) == "subitem" then Subitem else k
    case _ => k
  }

  predicate ReadsAsItem(f: FlatRow) {
    ReadAs(f.kind) == Item
  }

  predicate ReadsAsSubitem(f: FlatRow) {
    ReadAs(f.kind) == Subitem
  }

  /** Every tag is exactly "item", "subitem", or one no case change turns into either. */
  predicate TagsExact(rows: seq<FlatRow>) {
    forall i :: 0 <= i < |rows| ==> ReadAs(rows[i].kind) == rows[i].kind
  }

  /** Position of the most recent "item" row strictly before position `i`. */
  function LastItem(rows: seq<FlatRow>, i: nat): (k: Option<nat>)
    requires i <= |rows|
    ensures k.Some? ==> k.value < i && ReadsAsItem(rows[k.value])
    ensures k.Some? ==> forall j :: k.value < j < i ==> !ReadsAsItem(rows[j])
    ensures k.None? ==> forall j :: 0 <= j < i ==> !ReadsAsItem(rows[j])
  {
    if i == 0 then None
    else if ReadsAsItem(rows[i - 1]) then Some(i - 1)
    else LastItem(rows, i - 1)
  }

  /** Number of rows read as subitems at positions `lo` to `hi - 1`. */
  function CountSubitems(rows: seq<FlatRow>, lo: nat, hi: nat): nat
    requires lo <= hi <= |rows|
    decreases hi - lo
  {
    if hi == lo then 0
    else CountSubitems(rows, lo, hi - 1) + (if ReadsAsSubitem(rows[hi - 1]) then 1 else 0)
  }

  /** The row the builder makes of position `i`, stated without the scan's running state. */
  function Expected(rows: seq<FlatRow>, ids: seq<Id>, i: nat): Row
    requires |ids| == |rows| && i < |rows|
  {
    var f := rows[i];
    if ReadsAsSubitem(f) then
      match LastItem(rows, i)
      case None => MakeRow(f, ids[i], Item, None, 0)
      case Some(k) => MakeRow(f, ids[i], f.kind, Some(ids[k]), CountSubitems(rows, k + 1, i))
    else MakeRow(f, ids[i], f.kind, None, 0)
  }

  /** The whole table the builder produces. */
  function Built(rows: seq<FlatRow>, ids: seq<Id>): (t: seq<Row>)
    requires |ids| == |rows|
    ensures |t| == |rows|
  {
    seq(|rows|, i requires 0 <= i < |rows| => Expected(rows, ids, i))
  }

  /** The scan itself: the current parent and its child counter are the only state. */
  method Build(rows: seq<FlatRow>, ids: seq<Id>) returns (t: seq<Row>)
    requires |ids| == |rows|
    ensures t == Built(rows, ids)
  {
    t := [];
    var current: Option<Id> := None;
    var counter: nat := 0;
    for i := 0 to |rows|
      invariant |t| == i
      invariant forall j :: 0 <= j < i ==> t[j] == Expected(rows, ids, j)
      invariant current == (match LastItem(rows, i) case None => None case Some(k) => Some(ids[k]))
      invariant LastItem(rows, i).Some? ==> counter == CountSubitems(rows, LastItem(rows, i).value + 1, i)
    {
      var f := rows[i];
      var c := ReadAs(f.kind);
      if c == Item {
        current := Some(ids[i]);
        counter := 0;
        t := t + [MakeRow(f, ids[i], f.kind, None, 0)];
      } else if c == Subitem {
        if current.Some? {
          t := t + [MakeRow(f, ids[i], f.kind, current, counter)];
          counter := counter + 1;
        } else {
          t := t + [MakeRow(f, ids[i], Item, None, 0)];
        }
      } else {
        t := t + [MakeRow(f, ids[i], f.kind, None, 0)];
      }
    }
  }

  /** Row by row: rows read as items stay parentless at order 0, a row read as
      a subitem hangs under the nearest row above it read as an item, one with
      no such row above becomes an item, and any other type stays as it is
      with no parent. Every row keeps its columns, its tag included, except
      the retyped one. */
  lemma BuiltRowShapes(rows: seq<FlatRow>, ids: seq<Id>, i: nat)
    requires |ids| == |rows| && i < |rows|
    ensures var r := Built(rows, ids)[i];
            r.id == ids[i] && Strip(r).(kind := rows[i].kind) == rows[i]
    ensures var r := Built(rows, ids)[i];
            !ReadsAsSubitem(rows[i]) ==> r.kind == rows[i].kind && r.parentId == None && r.order == 0
    ensures var r := Built(rows, ids)[i];
            ReadsAsSubitem(rows[i]) && (forall j :: 0 <= j < i ==> !ReadsAsItem(rows[j])) ==>
              r.kind == Item && r.parentId == None && r.order == 0
    ensures var r := Built(rows, ids)[i];
            forall k :: 0 <= k < i && ReadsAsSubitem(rows[i]) && ReadsAsItem(rows[k]) &&
                        (forall j :: k < j < i ==> !ReadsAsItem(rows[j])) ==>
              r.kind == rows[i].kind && r.parentId == Some(ids[k])
  {
    var r := Built(rows, ids)[i];
    assert r == Expected(rows, ids, i);
    forall k | 0 <= k < i && ReadsAsSubitem(rows[i]) && ReadsAsItem(rows[k]) &&
               (forall j :: k < j < i ==> !ReadsAsItem(rows[j]))
      ensures r.kind == rows[i].kind && r.parentId == Some(ids[k])
    {
      LinkedToNearest(rows, ids, k, i);
    }
  }

  lemma LinkedToNearest(rows: seq<FlatRow>, ids: seq<Id>, k: nat, i: nat)
    requires |ids| == |rows| && k < i < |rows|
    requires ReadsAsSubitem(rows[i]) && ReadsAsItem(rows[k])
    requires forall j :: k < j < i ==> !ReadsAsItem(rows[j])
    ensures Expected(rows, ids, i).kind == rows[i].kind
    ensures Expected(rows, ids, i).parentId == Some(ids[k])
  {
    LastItemIsNearest(rows, k, i);
  }

  /** Distinct ids give a table with unique ids. */
  lemma BuiltIdsUnique(rows: seq<FlatRow>, ids: seq<Id>)
    requires |ids| == |rows| && Distinct(ids)
    ensures UniqueIds(Built(rows, ids))
  {
    var t := Built(rows, ids);
    assert forall i :: 0 <= i < |t| ==> t[i].id == ids[i];
  }

  /** With distinct ids and exact tags the built table has unique ids and no
      dangling parents. */
  lemma BuiltIsValid(rows: seq<FlatRow>, ids: seq<Id>)
    requires |ids| == |rows| && Distinct(ids) && TagsExact(rows)
    ensures Valid(Built(rows, ids))
  {
    var t := Built(rows, ids);
    forall i | 0 <= i < |t| && t[i].parentId.Some?
      ensures t[i].kind == Subitem && IsItemId(t, t[i].parentId.value)
    {
      var k := LastItem(rows, i).value;
      assert t[k].kind == Item && t[k].id == ids[k];
    }
  }

  /** A tag "Item" is an item to the builder only: the subitem below it is
      linked to a row every other step does not take for an item, so the
      built table has a dangling parent. */
  lemma InexactTagBreaksValidity(f: FlatRow)
    ensures var rows := [f.(kind := Other("Item")), f.(kind := Subitem)];
            !Valid(Built(rows, ["a", "b"]))
  {
    var rows := [f.(kind := Other("Item")), f.(kind := Subitem)];
    var t := Built(rows, ["a", "b"]);
    assert Lower("Item") == "item";
    assert LastItem(rows, 1) == Some(0);
    assert t[1] == Expected(rows, ["a", "b"], 1);
    assert t[1].parentId == Some("a");
    assert t[0] == Expected(rows, ["a", "b"], 0);
    assert !IsItemId(t, "a");
  }

  /** Number of rows before position `n` whose parent is `p`. */
  function CountChildren(t: seq<Row>, p: Id, n: nat): nat
    requires n <= |t|
  {
    if n == 0 then 0
    else CountChildren(t, p, n - 1) + (if t[n - 1].parentId == Some(p) then 1 else 0)
  }

  /** Between a row read as an item and a later position with none in
      between, the children of that row are exactly the rows read as subitems. */
  lemma {:induction false} ChildrenAfterItem(rows: seq<FlatRow>, ids: seq<Id>, k: nat, n: nat)
    requires |ids| == |rows| && Distinct(ids)
    requires k < n <= |rows| && ReadsAsItem(rows[k])
    requires forall j :: k < j < n ==> !ReadsAsItem(rows[j])
    ensures CountChildren(Built(rows, ids), ids[k], n) == CountSubitems(rows, k + 1, n)
    decreases n
  {
    var t := Built(rows, ids);
    if n == k + 1 {
      ChildrenBeforeItem(rows, ids, k, k + 1);
    } else {
      ChildrenAfterItem(rows, ids, k, n - 1);
      if ReadsAsSubitem(rows[n - 1]) {
        assert LastItem(rows, n - 1) == Some(k) by {
          LastItemIsNearest(rows, k, n - 1);
        }
      }
    }
  }

  /** No row at or before an item hangs under that item. */
  lemma {:induction false} ChildrenBeforeItem(rows: seq<FlatRow>, ids: seq<Id>, k: nat, n: nat)
    requires |ids| == |rows| && Distinct(ids)
    requires k < |rows| && n <= k + 1
    ensures CountChildren(Built(rows, ids), ids[k], n) == 0
    decreases n
  {
    if n > 0 {
      ChildrenBeforeItem(rows, ids, k, n - 1);
      var t := Built(rows, ids);
      if t[n - 1].parentId.Some? {
        var m := LastItem(rows, n - 1).value;
        assert m < k;
      }
    }
  }

  lemma {:induction false} LastItemIsNearest(rows: seq<FlatRow>, k: nat, i: nat)
    requires k < i <= |rows| && ReadsAsItem(rows[k])
    requires forall j :: k < j < i ==> !ReadsAsItem(rows[j])
    ensures LastItem(rows, i) == Some(k)
    decreases i
  {
    if i - 1 != k {
      LastItemIsNearest(rows, k, i - 1);
    }
  }

  /** Children of one item get orders 0, 1, 2, ... in input order: a child's
      order is the number of its siblings before it. */
  lemma BuiltChildOrders(rows: seq<FlatRow>, ids: seq<Id>, i: nat)
    requires |ids| == |rows| && Distinct(ids) && i < |rows|
    requires Built(rows, ids)[i].parentId.Some?
    ensures var t := Built(rows, ids);
            t[i].order == CountChildren(t, t[i].parentId.value, i)
  {
    var t := Built(rows, ids);
    assert t[i] == Expected(rows, ids, i);
    assert ReadsAsSubitem(rows[i]) && LastItem(rows, i).Some?;
    var k := LastItem(rows, i).value;
    assert t[i].parentId == Some(ids[k]) && t[i].order == CountSubitems(rows, k + 1, i);
    ChildrenAfterItem(rows, ids, k, i);
  }
}
