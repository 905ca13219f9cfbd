/** The editor session: the table the builder produces, then a sequence of
    editing actions, each applied to the table the previous one left. */
module Session {
  import opened Optional
  import opened Rows
  import Builder
  import Reordering
  import Conversion
  import Spreading
  import Deletion
  import Insertion
  import Flattener

  /** One button press of the editor. */
  datatype Command =
    | Add(f: FlatRow, parent: Option<Id>, newId: Id)
    | Move(id: Id, dir: Reordering.Direction)
    | Convert(id: Id)
    | SpreadTo(id: Id, targets: seq<Id>, newIds: seq<Id>)
    | Remove(id: Id)

  /** What the editor can issue on `t`: every row it names exists, a row to be
      moved is among its own siblings, new ids are new, and spread targets and
      a chosen parent are items (the editor only offers items there). */
  predicate Admissible(t: seq<Row>, c: Command) {
    match c
    case Add(f, parent, newId) =>
      && (f.kind == Item || f.kind == Subitem)
      && !HasId(t, newId)
      && (Insertion.Attaches(f, parent) ==> IsItemId(t, parent.value))
    case Move(id, _) => HasId(t, id) && Reordering.CanReorder(t, id)
    case Convert(id) => HasId(t, id)
    case SpreadTo(id, targets, newIds) =>
      && HasId(t, id)
      && (forall n :: 0 <= n < |targets| ==> HasId(t, targets[n]) && t[IndexOf(t, targets[n])].kind == Item)
      && |newIds| == |targets| && Spreading.AreNewIds(t, newIds)
    case Remove(id) => HasId(t, id)
  }

  /** The table after `c`, or None where the editor would fail. */
  function Apply(t: seq<Row>, c: Command): (r: Option<seq<Row>>)
    ensures r.Some? <==> Admissible(t, c)
  {
    if !Admissible(t, c) then None
    else
      match c
      case Add(f, parent, newId) =>
        Some(Insertion.Insert(t, f, parent, newId))
      case Move(id, dir) =>
        Some(Reordering.Reorder(t, id, dir))
      case Convert(id) =>
        Some(Conversion.ConvertType(t, id))
      case SpreadTo(id, targets, newIds) =>
        Some(Spreading.Spread(t, id, targets, newIds))
      case Remove(id) =>
        Some(Deletion.Delete(t, id))
  }

  /** The commands one after the other; None at the first that fails. */
  function Run(t: seq<Row>, cs: seq<Command>): Option<seq<Row>>
    decreases |cs|
  {
    if |cs| == 0 then Some(t)
    else
      match Apply(t, cs[0])
      case None => None
      case Some(u) => Run(u, cs[1..])
  }

  /** Moving a row only changes sibling orders, so a move keeps a valid table
      valid. */
  lemma MovePreservesValid(t: seq<Row>, id: Id, dir: Reordering.Direction)
    requires Valid(t) && HasId(t, id) && Reordering.CanReorder(t, id)
    ensures Valid(Reordering.Reorder(t, id, dir))
  {
    var r := Reordering.Reorder(t, id, dir);
    forall i | 0 <= i < |r|
      ensures r[i].id == t[i].id && r[i].kind == t[i].kind && r[i].parentId == t[i].parentId
    {
      assert r[i] == t[i].(order := r[i].order);
    }
    forall i | 0 <= i < |r| && r[i].parentId.Some?
      ensures IsItemId(r, r[i].parentId.value)
    {
      var j :| 0 <= j < |t| && t[j].kind == Item && t[j].id == t[i].parentId.value;
      assert r[j].kind == Item && r[j].id == t[j].id;
    }
  }

  /** Every step of a session started from a valid table keeps it valid. */
  lemma {:induction false} RunPreservesValid(t: seq<Row>, cs: seq<Command>)
    requires Valid(t)
    ensures Run(t, cs).Some? ==> Valid(Run(t, cs).value)
    decreases |cs|
  {
    if |cs| > 0 {
      match cs[0]
      case Move(id, dir) =>
        if Admissible(t, cs[0]) {
          MovePreservesValid(t, id, dir);
          RunPreservesValid(Reordering.Reorder(t, id, dir), cs[1..]);
        }
      case Convert(id) =>
        if Admissible(t, cs[0]) {
          Conversion.ConvertPreservesValid(t, id);
          RunPreservesValid(Conversion.ConvertType(t, id), cs[1..]);
        }
      case SpreadTo(id, targets, newIds) =>
        if Admissible(t, cs[0]) {
          Spreading.SpreadPreservesValid(t, id, targets, newIds);
          RunPreservesValid(Spreading.Spread(t, id, targets, newIds), cs[1..]);
        }
      case Remove(id) =>
        if Admissible(t, cs[0]) {
          Deletion.DeletePreservesValid(t, id);
          RunPreservesValid(Deletion.Delete(t, id), cs[1..]);
        }
      case Add(f, parent, newId) =>
        if Admissible(t, cs[0]) {
          Insertion.InsertPreservesValid(t, f, parent, newId);
          RunPreservesValid(Insertion.Insert(t, f, parent, newId), cs[1..]);
        }
    }
  }

  // ---------------------------------------------------------------- observations

  /** Every item the builder produces holds order 0. */
  lemma BuiltItemsHoldOrderZero(rows: seq<FlatRow>, ids: seq<Id>, m: nat)
    requires |ids| == |rows| && m < |rows|
    requires Builder.Built(rows, ids)[m].kind == Item
    ensures Builder.Built(rows, ids)[m].order == 0
  {
    assert Builder.Built(rows, ids)[m] == Builder.Expected(rows, ids, m);
  }

  /** Right after loading, moving an item up or down changes nothing: all
      its siblings share order 0, and swapping equal orders is a no-op. */
  lemma MoveBuiltItemIsNoop(rows: seq<FlatRow>, ids: seq<Id>, id: Id, dir: Reordering.Direction)
    requires |ids| == |rows| && Distinct(ids)
    requires HasId(Builder.Built(rows, ids), id)
    requires Builder.Built(rows, ids)[IndexOf(Builder.Built(rows, ids), id)].kind == Item
    ensures Reordering.CanReorder(Builder.Built(rows, ids), id)
    ensures Reordering.Reorder(Builder.Built(rows, ids), id, dir) == Builder.Built(rows, ids)
  {
    var t := Builder.Built(rows, ids);
    var k := IndexOf(t, id);
    Builder.BuiltIdsUnique(rows, ids);
    assert IsSibling(t[k], t[k]);
    BuiltItemsHoldOrderZero(rows, ids, k);
    forall m | 0 <= m < |t| && IsSibling(t[k], t[m])
      ensures t[m].order == t[k].order
    {
      BuiltItemsHoldOrderZero(rows, ids, m);
    }
    Reordering.ReorderAmongEqualOrdersIsNoop(t, id, dir);
  }

  /** An ascending sequence of positions below `n` that holds `n - 1` ends
      with it. */
  lemma LastOfAscending(r: seq<nat>, n: nat)
    requires (n - 1) as int in r
    requires forall p, q :: 0 <= p < q < |r| ==> r[p] < r[q]
    requires forall p :: 0 <= p < |r| ==> r[p] < n
    ensures |r| > 0 && r[|r| - 1] == n - 1
  {
    var p :| 0 <= p < |r| && r[p] == n - 1;
  }

  /** A subitem added without a parent is listed last in the flattened
      table: no item block takes it, and the rows left over follow the blocks
      in table order. */
  lemma AddedOrphanIsLast(t: seq<Row>, f: FlatRow, parent: Option<Id>, newId: Id)
    requires Valid(t) && !HasId(t, newId)
    requires f.kind == Subitem && !Insertion.Attaches(f, parent)
    ensures var u := Insertion.Insert(t, f, parent, newId);
            |Flattener.Walk(u)| == |u| && Flattener.Walk(u)[|u| - 1] == |t| &&
            Flattener.Flatten(u)[|u| - 1] == f
  {
    var u := Insertion.Insert(t, f, parent, newId);
    Insertion.InsertPreservesValid(t, f, parent, newId);
    assert Flattener.ItemsAreRoots(u);
    Flattener.WalkIsPermutation(u);
    var h := Flattener.Head(u);
    var ids := Flattener.EmittedIds(u, h);
    HeadSkipsOrphan(t, f, parent, newId);
    var tail := Flattener.Tail(u, ids, |u|);
    LastOfAscending(tail, |u|);
    assert Flattener.Walk(u) == h + tail;
  }

  /** No item block reaches the added parentless subitem, so its id is not
      among those the blocks emit. */
  lemma HeadSkipsOrphan(t: seq<Row>, f: FlatRow, parent: Option<Id>, newId: Id)
    requires Valid(t) && !HasId(t, newId)
    requires f.kind == Subitem && !Insertion.Attaches(f, parent)
    ensures var u := Insertion.Insert(t, f, parent, newId);
            |t| !in Flattener.Head(u) && newId !in Flattener.EmittedIds(u, Flattener.Head(u))
  {
    var u := Insertion.Insert(t, f, parent, newId);
    Insertion.InsertPreservesValid(t, f, parent, newId);
    var h := Flattener.Head(u);
    var bs := Flattener.Blocks(u, Flattener.Items(u));
    assert u[|t|].kind == Subitem && u[|t|].parentId == None;
    Flattener.ConcatMembers(bs, |bs|, |t|);
    assert |t| !in h;
    forall p | 0 <= p < |h|
      ensures u[h[p]].id != newId
    {
      assert h[p] != |t|;
    }
  }
}
