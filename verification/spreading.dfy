/** `spread_row`: copy one row as a subitem under each of several target items. */
module Spreading {
  import opened Optional
  import opened Rows

  /** The copy of `src` placed under `target`: a new id, type subitem, the
      target as parent, the target's supplier, and the order after the target's
      children in the table `t` as it was before any copy was added. */
  function Copy(t: seq<Row>, src: Row, target: Id, newId: Id): Row
    requires HasId(t, target)
  {
    src.(id := newId, kind := Subitem, parentId := Some(target), order := NextOrder(t, target),
         supplier := t[IndexOf(t, target)].supplier)
  }

  function Spread(t: seq<Row>, id: Id, targets: seq<Id>, newIds: seq<Id>): (r: seq<Row>)
    requires HasId(t, id)
    requires forall n :: 0 <= n < |targets| ==> HasId(t, targets[n])
    requires |newIds| == |targets|
    ensures |r| == |t| + |targets| && r[..|t|] == t
    ensures forall n :: 0 <= n < |targets| ==>
              && r[|t| + n].id == newIds[n]
              && r[|t| + n].kind == Subitem
              && r[|t| + n].parentId == Some(targets[n])
              && Strip(r[|t| + n]) ==
                 Strip(t[IndexOf(t, id)]).(kind := Subitem, supplier := t[IndexOf(t, targets[n])].supplier)
    ensures forall n, i :: 0 <= n < |targets| && 0 <= i < |t| && t[i].parentId == Some(targets[n]) ==>
              t[i].order < r[|t| + n].order
    ensures forall n :: 0 <= n < |targets| && (forall i :: 0 <= i < |t| ==> t[i].parentId != Some(targets[n])) ==>
              r[|t| + n].order == 0
    ensures forall n :: 0 <= n < |targets| ==> r[|t| + n].order == NextOrder(t, targets[n])
    ensures forall a, b :: 0 <= a < |targets| && 0 <= b < |targets| && targets[a] == targets[b] ==>
              r[|t| + a].order == r[|t| + b].order
  {
    var src := t[IndexOf(t, id)];
    t + seq(|targets|, n requires 0 <= n < |targets| => Copy(t, src, targets[n], newIds[n]))
  }

  predicate AreNewIds(t: seq<Row>, newIds: seq<Id>) {
    && Distinct(newIds)
    && (forall n :: 0 <= n < |newIds| ==> !HasId(t, newIds[n]))
  }

  /** With new, distinct ids and item targets, spreading keeps the table valid. */
  lemma SpreadPreservesValid(t: seq<Row>, id: Id, targets: seq<Id>, newIds: seq<Id>)
    requires Valid(t) && HasId(t, id)
    requires forall n :: 0 <= n < |targets| ==> HasId(t, targets[n]) && t[IndexOf(t, targets[n])].kind == Item
    requires |newIds| == |targets| && AreNewIds(t, newIds)
    ensures Valid(Spread(t, id, targets, newIds))
  {
    var r := Spread(t, id, targets, newIds);
    forall i, j | 0 <= i < |r| && 0 <= j < |r| && i != j
      ensures r[i].id != r[j].id
    {
      if i >= |t| && j < |t| {
        assert t[j].id == r[j].id;
      } else if i < |t| && j >= |t| {
        assert t[i].id == r[i].id;
      }
    }
    forall i | 0 <= i < |r| && r[i].parentId.Some?
      ensures r[i].kind == Subitem && IsItemId(r, r[i].parentId.value)
    {
      var q := r[i].parentId.value;
      if i < |t| {
        var j :| 0 <= j < |t| && t[j].kind == Item && t[j].id == q;
        assert r[j] == t[j];
      } else {
        var j := IndexOf(t, q);
        assert r[j] == t[j];
      }
    }
  }
}
