/** `convert_type`: toggle a row between item and subitem. An item that becomes
    a subitem first releases its children as parentless items, then hangs under
    the first other item of its (code, Power Type), if there is one. */
module Conversion {
  import opened Optional
  import opened Rows

  /** Rows whose parent is `id` become parentless items at order 0. */
  function PromoteChildren(t: seq<Row>, id: Id): (r: seq<Row>)
    ensures |r| == |t|
  {
    seq(|t|, i requires 0 <= i < |t| =>
      if t[i].parentId == Some(id) then t[i].(kind := Item, parentId := None, order := 0) else t[i])
  }

  predicate OtherItemOf(r: Row, code: string, powerType: string, id: Id) {
    r.kind == Item && r.code == code && r.powerType == powerType && r.id != id
  }

  /** `same_product.iloc[0]`: the first item, other than `id`, of the product. */
  function FirstOtherItem(t: seq<Row>, code: string, powerType: string, id: Id): (p: Option<nat>)
    ensures p.Some? ==> p.value < |t| && OtherItemOf(t[p.value], code, powerType, id)
    ensures p.Some? ==> forall i :: 0 <= i < p.value ==> !OtherItemOf(t[i], code, powerType, id)
    ensures p.None? ==> forall i :: 0 <= i < |t| ==> !OtherItemOf(t[i], code, powerType, id)
  {
    if |t| == 0 then None
    else if OtherItemOf(t[0], code, powerType, id) then Some(0)
    else
      match FirstOtherItem(t[1..], code, powerType, id)
      case None => None
      case Some(p) => Some(p + 1)
  }

  function ConvertType(t: seq<Row>, id: Id): (r: seq<Row>)
    requires HasId(t, id)
    ensures |r| == |t|
  {
    var row := t[IndexOf(t, id)];
    if row.kind == Subitem then
      seq(|t|, i requires 0 <= i < |t| =>
        if t[i].id == id then t[i].(kind := Item, parentId := None, order := 0) else t[i])
    else
      var promoted := PromoteChildren(t, id);
      match FirstOtherItem(promoted, row.code, row.powerType, id)
      case None => promoted
      case Some(p) =>
        var parent := promoted[p].id;
        var next := NextOrder(promoted, parent);
        seq(|t|, i requires 0 <= i < |t| =>
          if promoted[i].id == id then promoted[i].(kind := Subitem, parentId := Some(parent), order := next)
          else promoted[i])
  }

  /** A subitem becomes a parentless item at order 0; no other row changes. */
  lemma ConvertSubitemToItem(t: seq<Row>, id: Id)
    requires UniqueIds(t) && HasId(t, id) && t[IndexOf(t, id)].kind == Subitem
    ensures var k := IndexOf(t, id);
            var r := ConvertType(t, id);
            r[k] == t[k].(kind := Item, parentId := None, order := 0) &&
            forall i :: 0 <= i < |t| && i != k ==> r[i] == t[i]
  {
  }

  /** Would be a target once the children of `id` are promoted: an item, or a
      child of `id`, with the same code and Power Type and another id. */
  predicate Candidate(t: seq<Row>, id: Id, row: Row, i: nat)
    requires i < |t|
  {
    (t[i].kind == Item || t[i].parentId == Some(id)) &&
    t[i].code == row.code && t[i].powerType == row.powerType && t[i].id != id
  }

  /** Item to subitem: every child of the row becomes a parentless item at
      order 0, every other row except the converted one is unchanged, and
      afterwards no row has the converted row as parent. */
  lemma ConvertItemPromotesChildren(t: seq<Row>, id: Id)
    requires Valid(t) && HasId(t, id) && t[IndexOf(t, id)].kind != Subitem
    ensures var k := IndexOf(t, id);
            var r := ConvertType(t, id);
            forall i :: 0 <= i < |t| && i != k ==>
              r[i] == if t[i].parentId == Some(id) then t[i].(kind := Item, parentId := None, order := 0) else t[i]
    ensures var r := ConvertType(t, id);
            forall i :: 0 <= i < |r| ==> r[i].parentId != Some(id)
  {
    var k := IndexOf(t, id);
    assert t[k].parentId.None?;
  }

  /** The target search on the promoted table is the candidate search on the input. */
  lemma TargetIsFirstCandidate(t: seq<Row>, id: Id)
    requires Valid(t) && HasId(t, id) && t[IndexOf(t, id)].kind != Subitem
    ensures var row := t[IndexOf(t, id)];
            forall i :: 0 <= i < |t| ==>
              (OtherItemOf(PromoteChildren(t, id)[i], row.code, row.powerType, id) <==> Candidate(t, id, row, i))
  {
  }

  /** Item to subitem with no candidate: the row itself stays as it was (its
      children are still promoted). */
  lemma ConvertItemWithoutTarget(t: seq<Row>, id: Id)
    requires Valid(t) && HasId(t, id) && t[IndexOf(t, id)].kind != Subitem
    requires forall i :: 0 <= i < |t| ==> !Candidate(t, id, t[IndexOf(t, id)], i)
    ensures var k := IndexOf(t, id);
            ConvertType(t, id)[k] == t[k]
  {
    var k := IndexOf(t, id);
    assert t[k].parentId.None?;
    TargetIsFirstCandidate(t, id);
  }

  /** Item to subitem with a candidate: the row hangs under the first candidate
      in table order (perhaps a just-promoted child), after that parent's last
      child. */
  lemma ConvertItemAttaches(t: seq<Row>, id: Id, p: nat)
    requires Valid(t) && HasId(t, id) && t[IndexOf(t, id)].kind != Subitem
    requires p < |t| && Candidate(t, id, t[IndexOf(t, id)], p)
    requires forall i :: 0 <= i < p ==> !Candidate(t, id, t[IndexOf(t, id)], i)
    ensures var k := IndexOf(t, id);
            ConvertType(t, id)[k] ==
              t[k].(kind := Subitem, parentId := Some(t[p].id), order := NextOrder(t, t[p].id))
  {
    var k := IndexOf(t, id);
    var row := t[k];
    var promoted := PromoteChildren(t, id);
    assert t[k].parentId.None?;
    assert promoted[k] == t[k];
    TargetIsFirstCandidate(t, id);
    var q := FirstOtherItem(promoted, row.code, row.powerType, id).value;
    assert q == p;
    var parent := t[p].id;
    assert parent != id;
    ChildOrdersUnaffected(t, id, parent);
    NextOrderDependsOnChildren(promoted, t, parent);
  }

  /** Promoting the children of `id` leaves the children of any other row alone. */
  lemma ChildOrdersUnaffected(t: seq<Row>, id: Id, parent: Id)
    requires parent != id
    ensures ChildOrders(PromoteChildren(t, id), parent) == ChildOrders(t, parent)
  {
    var promoted := PromoteChildren(t, id);
    forall o | o in ChildOrders(t, parent) ensures o in ChildOrders(promoted, parent) {
      var i :| 0 <= i < |t| && t[i].parentId == Some(parent) && t[i].order == o;
      assert promoted[i].parentId == Some(parent) && promoted[i].order == o;
    }
    forall o | o in ChildOrders(promoted, parent) ensures o in ChildOrders(t, parent) {
      var i :| 0 <= i < |promoted| && promoted[i].parentId == Some(parent) && promoted[i].order == o;
      assert t[i].parentId == Some(parent) && t[i].order == o;
    }
  }

  /** Converting keeps ids unique and leaves no dangling parent. */
  lemma ConvertPreservesValid(t: seq<Row>, id: Id)
    requires Valid(t) && HasId(t, id)
    ensures Valid(ConvertType(t, id))
  {
    var k := IndexOf(t, id);
    var r := ConvertType(t, id);
    assert forall i :: 0 <= i < |t| ==> r[i].id == t[i].id;
    if t[k].kind == Subitem {
      forall i | 0 <= i < |r| && r[i].parentId.Some?
        ensures r[i].kind == Subitem && IsItemId(r, r[i].parentId.value)
      {
        var j :| 0 <= j < |t| && t[j].kind == Item && t[j].id == t[i].parentId.value;
        assert r[j] == t[j];
      }
    } else {
      ConvertItemPromotesChildren(t, id);
      var promoted := PromoteChildren(t, id);
      forall i | 0 <= i < |r| && r[i].parentId.Some?
        ensures r[i].kind == Subitem && IsItemId(r, r[i].parentId.value)
      {
        if i == k {
          var p := FirstOtherItem(promoted, t[k].code, t[k].powerType, id).value;
          assert r[p] == promoted[p];
        } else {
          var j :| 0 <= j < |t| && t[j].kind == Item && t[j].id == t[i].parentId.value;
          assert r[j] == t[j];
        }
      }
    }
  }
}
