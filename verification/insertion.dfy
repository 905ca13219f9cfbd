/** The "Add Row" action: append one new item or subitem to the editor table. */
module Insertion {
  import opened Optional
  import opened Rows

  /** A new row is linked to a parent only when it is a subitem and a parent
      was chosen (a non-empty id). */
  predicate Attaches(f: FlatRow, parent: Option<Id>) {
    f.kind == Subitem && parent.Some? && parent.value != ""
  }

  function Insert(t: seq<Row>, f: FlatRow, parent: Option<Id>, newId: Id): (r: seq<Row>)
    requires f.kind == Item || f.kind == Subitem
    ensures |r| == |t| + 1 && r[..|t|] == t
    ensures Strip(r[|t|]) == f && r[|t|].id == newId
    ensures Attaches(f, parent) ==>
              && r[|t|].parentId == parent
              && forall i :: 0 <= i < |t| && t[i].parentId == parent ==> t[i].order < r[|t|].order
    ensures Attaches(f, parent) ==> r[|t|].order == NextOrder(t, parent.value)
    ensures Attaches(f, parent) && (forall i :: 0 <= i < |t| ==> t[i].parentId != parent) ==>
              r[|t|].order == 0
    ensures !Attaches(f, parent) ==> r[|t|].parentId == None && r[|t|].order == 0
  {
    var link := if Attaches(f, parent) then parent else None;
    var order := if Attaches(f, parent) then NextOrder(t, parent.value) else 0;
    t + [Row(newId, f.kind, link, order, f.supplier, f.brand, f.code, f.description, f.powerType, f.price)]
  }

  /** A new id and, for a linked subitem, an item parent keep the table valid. */
  lemma InsertPreservesValid(t: seq<Row>, f: FlatRow, parent: Option<Id>, newId: Id)
    requires Valid(t) && !HasId(t, newId)
    requires f.kind == Item || f.kind == Subitem
    requires Attaches(f, parent) ==> IsItemId(t, parent.value)
    ensures Valid(Insert(t, f, parent, newId))
  {
    var r := Insert(t, f, parent, newId);
    forall i | 0 <= i < |r| && r[i].parentId.Some?
      ensures r[i].kind == Subitem && IsItemId(r, r[i].parentId.value)
    {
      var j :| 0 <= j < |t| && t[j].kind == Item && t[j].id == r[i].parentId.value;
      assert r[j] == t[j];
    }
  }
}
