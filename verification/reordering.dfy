/** `reorder_row`: a row trades its `order` with the neighbouring sibling in
    sorted sibling order. */
module Reordering {
  import opened Sorting
  import opened Rows

  datatype Direction = Up | Down

  /** pandas raises (`list.index`) unless the row is among its own siblings:
      a parentless subitem, or a row of another type, cannot be moved. */
  predicate CanReorder(t: seq<Row>, id: Id)
    requires HasId(t, id)
  {
    var k := IndexOf(t, id);
    exists j :: 0 <= j < |t| && IsSibling(t[k], t[j]) && t[j].id == id
  }

  function SortedSiblings(t: seq<Row>, k: nat): seq<Entry>
    requires k < |t|
  {
    SortedSel(t, SiblingsOf(t[k]))
  }

  /** `ids.index(row_id)`: the first sorted position holding `id`. */
  function PosOf(t: seq<Row>, s: seq<Entry>, id: Id): (p: nat)
    requires forall e :: e in s ==> e.idx < |t|
    requires exists q :: 0 <= q < |s| && t[s[q].idx].id == id
    ensures p < |s| && t[s[p].idx].id == id
    ensures forall q :: 0 <= q < p ==> t[s[q].idx].id != id
  {
    if t[s[0].idx].id == id then 0
    else
      assert exists q :: 0 <= q < |s[1..]| && t[s[1..][q].idx].id == id by {
        var q :| 0 <= q < |s| && t[s[q].idx].id == id;
        assert s[1..][q - 1] == s[q];
      }
      1 + PosOf(t, s[1..], id)
  }

  /** The two `.loc` assignments: rows with `id` take the order of the first row
      with `swapId`, then rows with `swapId` take `current`. */
  function SetOrders(t: seq<Row>, id: Id, swapId: Id, current: int): (r: seq<Row>)
    requires HasId(t, swapId)
    ensures |r| == |t|
    ensures forall i :: 0 <= i < |t| ==> r[i] == t[i].(order := r[i].order)
  {
    var swapOrder := t[IndexOf(t, swapId)].order;
    seq(|t|, i requires 0 <= i < |t| =>
      if t[i].id == swapId then t[i].(order := current)
      else if t[i].id == id then t[i].(order := swapOrder)
      else t[i])
  }

  function Reorder(t: seq<Row>, id: Id, dir: Direction): (r: seq<Row>)
    requires HasId(t, id) && CanReorder(t, id)
    ensures |r| == |t|
    ensures forall i :: 0 <= i < |t| ==> r[i] == t[i].(order := r[i].order)
  {
    var k := IndexOf(t, id);
    var s := SortedSiblings(t, k);
    assert exists q :: 0 <= q < |s| && t[s[q].idx].id == id by {
      var j :| 0 <= j < |t| && IsSibling(t[k], t[j]) && t[j].id == id;
      assert EntryAt(t, SiblingsOf(t[k]), j) in s;
    }
    var pos := PosOf(t, s, id);
    if dir == Up && pos > 0 then SetOrders(t, id, t[s[pos - 1].idx].id, t[k].order)
    else if dir == Down && pos + 1 < |s| then SetOrders(t, id, t[s[pos + 1].idx].id, t[k].order)
    else t
  }

  /** Rows `a` and `b` trade their orders; nothing else changes. */
  function SwapOrders(t: seq<Row>, a: nat, b: nat): seq<Row>
    requires a < |t| && b < |t|
  {
    t[a := t[a].(order := t[b].order)][b := t[b].(order := t[a].order)]
  }

  /** Sibling `j` comes before sibling `k` in sorted sibling order. */
  predicate Before(t: seq<Row>, j: nat, k: nat)
    requires j < |t| && k < |t|
  {
    t[j].order < t[k].order || (t[j].order == t[k].order && j < k)
  }

  lemma BeforeIsPrec(t: seq<Row>, row: Row, j: nat, k: nat)
    requires j < |t| && k < |t|
    ensures Prec(EntryAt(t, SiblingsOf(row), j), EntryAt(t, SiblingsOf(row), k)) <==> Before(t, j, k)
  {
  }

  lemma SetOrdersIsSwap(t: seq<Row>, a: nat, b: nat)
    requires UniqueIds(t) && a < |t| && b < |t| && a != b
    ensures SetOrders(t, t[b].id, t[a].id, t[b].order) == SwapOrders(t, a, b)
  {
    assert IndexOf(t, t[a].id) == a;
  }

  /** With unique ids the sorted position found for `id` is the row itself. */
  lemma PosIsRow(t: seq<Row>, id: Id)
    requires UniqueIds(t) && HasId(t, id) && CanReorder(t, id)
    ensures var k := IndexOf(t, id);
            var s := SortedSiblings(t, k);
            exists q :: 0 <= q < |s| && t[s[q].idx].id == id
    ensures var k := IndexOf(t, id);
            var s := SortedSiblings(t, k);
            var pos := PosOf(t, s, id);
            s[pos] == EntryAt(t, SiblingsOf(t[k]), k)
  {
    var k := IndexOf(t, id);
    var sel := SiblingsOf(t[k]);
    var s := SortedSiblings(t, k);
    SelfAmongSiblings(t, id);
    var pos := PosOf(t, s, id);
    var i := s[pos].idx;
    assert i < |t| && s[pos] == EntryAt(t, sel, i);
    assert t[i].id == id == t[k].id;
    assert i == k;
  }

  /** A movable row occurs in its own sorted sibling list. */
  lemma SelfAmongSiblings(t: seq<Row>, id: Id)
    requires HasId(t, id) && CanReorder(t, id)
    ensures var s := SortedSiblings(t, IndexOf(t, id));
            exists q :: 0 <= q < |s| && t[s[q].idx].id == id
  {
    var k := IndexOf(t, id);
    var sel := SiblingsOf(t[k]);
    var s := SortedSiblings(t, k);
    var j :| 0 <= j < |t| && IsSibling(t[k], t[j]) && t[j].id == id;
    assert Selected(sel, t[j]);
    assert EntryAt(t, sel, j) in s;
    var q :| 0 <= q < |s| && s[q] == EntryAt(t, sel, j);
    assert s[q].idx == j;
    assert 0 <= q < |SortedSiblings(t, IndexOf(t, id))| && t[SortedSiblings(t, IndexOf(t, id))[q].idx].id == id;
  }

  /** The three outcomes of `Reorder`, named by the sorted position of the row. */
  lemma ReorderCases(t: seq<Row>, id: Id, dir: Direction)
    requires HasId(t, id) && CanReorder(t, id)
    ensures var s := SortedSiblings(t, IndexOf(t, id));
            exists q :: 0 <= q < |s| && t[s[q].idx].id == id
    ensures var k := IndexOf(t, id);
            var s := SortedSiblings(t, k);
            var pos := PosOf(t, s, id);
            Reorder(t, id, dir) ==
              if dir == Up && pos > 0 then SetOrders(t, id, t[s[pos - 1].idx].id, t[k].order)
              else if dir == Down && pos + 1 < |s| then SetOrders(t, id, t[s[pos + 1].idx].id, t[k].order)
              else t
  {
    SelfAmongSiblings(t, id);
  }

  /** No sibling lies strictly between positions `a` and `b` in sorted order
      when none lies between them by `Before`. */
  lemma NothingBetween(t: seq<Row>, row: Row, a: nat, b: nat)
    requires a < |t| && b < |t|
    requires forall m :: 0 <= m < |t| && IsSibling(row, t[m]) ==> !(Before(t, a, m) && Before(t, m, b))
    ensures var sel := SiblingsOf(row);
            forall z :: z in SortedSel(t, sel) ==> !(Prec(EntryAt(t, sel, a), z) && Prec(z, EntryAt(t, sel, b)))
  {
    var sel := SiblingsOf(row);
    var s := SortedSel(t, sel);
    forall z | z in s
      ensures !(Prec(EntryAt(t, sel, a), z) && Prec(z, EntryAt(t, sel, b)))
    {
      var q :| 0 <= q < |s| && s[q] == z;
      var m := s[q].idx;
      BeforeIsPrec(t, row, a, m);
      BeforeIsPrec(t, row, m, b);
    }
  }

  /** The sibling just before the row in sorted order sits at position `j`. */
  lemma PredecessorAt(t: seq<Row>, id: Id, j: nat)
    requires UniqueIds(t) && HasId(t, id) && CanReorder(t, id)
    requires j < |t| && IsSibling(t[IndexOf(t, id)], t[j]) && Before(t, j, IndexOf(t, id))
    requires forall m :: 0 <= m < |t| && IsSibling(t[IndexOf(t, id)], t[m]) ==>
               !(Before(t, j, m) && Before(t, m, IndexOf(t, id)))
    ensures var s := SortedSiblings(t, IndexOf(t, id));
            exists q :: 0 <= q < |s| && t[s[q].idx].id == id
    ensures var s := SortedSiblings(t, IndexOf(t, id));
            var pos := PosOf(t, s, id);
            pos > 0 && s[pos - 1].idx == j
  {
    var k := IndexOf(t, id);
    var sel := SiblingsOf(t[k]);
    var s := SortedSiblings(t, k);
    PosIsRow(t, id);
    var pos := PosOf(t, s, id);
    var y := EntryAt(t, sel, j);
    assert y in s;
    BeforeIsPrec(t, t[k], j, k);
    NothingBetween(t, t[k], j, k);
    ImmediatePredecessor(s, pos, y);
  }

  /** The sibling just after the row in sorted order sits at position `j`. */
  lemma SuccessorAt(t: seq<Row>, id: Id, j: nat)
    requires UniqueIds(t) && HasId(t, id) && CanReorder(t, id)
    requires j < |t| && IsSibling(t[IndexOf(t, id)], t[j]) && Before(t, IndexOf(t, id), j)
    requires forall m :: 0 <= m < |t| && IsSibling(t[IndexOf(t, id)], t[m]) ==>
               !(Before(t, IndexOf(t, id), m) && Before(t, m, j))
    ensures var s := SortedSiblings(t, IndexOf(t, id));
            exists q :: 0 <= q < |s| && t[s[q].idx].id == id
    ensures var s := SortedSiblings(t, IndexOf(t, id));
            var pos := PosOf(t, s, id);
            pos + 1 < |s| && s[pos + 1].idx == j
  {
    var k := IndexOf(t, id);
    var sel := SiblingsOf(t[k]);
    var s := SortedSiblings(t, k);
    PosIsRow(t, id);
    var pos := PosOf(t, s, id);
    var y := EntryAt(t, sel, j);
    assert y in s;
    BeforeIsPrec(t, t[k], k, j);
    NothingBetween(t, t[k], k, j);
    ImmediateSuccessor(s, pos, y);
  }

  /** "up" swaps with the immediate predecessor among the siblings. */
  lemma ReorderUpSwapsWithPredecessor(t: seq<Row>, id: Id, j: nat)
    requires UniqueIds(t) && HasId(t, id) && CanReorder(t, id)
    requires j < |t| && IsSibling(t[IndexOf(t, id)], t[j]) && Before(t, j, IndexOf(t, id))
    requires forall m :: 0 <= m < |t| && IsSibling(t[IndexOf(t, id)], t[m]) ==>
               !(Before(t, j, m) && Before(t, m, IndexOf(t, id)))
    ensures Reorder(t, id, Up) == SwapOrders(t, j, IndexOf(t, id))
  {
    var k := IndexOf(t, id);
    PredecessorAt(t, id, j);
    ReorderCases(t, id, Up);
    assert j != k by {
      assert !Before(t, k, k);
    }
    SetOrdersIsSwap(t, j, k);
  }

  /** "down" swaps with the immediate successor among the siblings. */
  lemma ReorderDownSwapsWithSuccessor(t: seq<Row>, id: Id, j: nat)
    requires UniqueIds(t) && HasId(t, id) && CanReorder(t, id)
    requires j < |t| && IsSibling(t[IndexOf(t, id)], t[j]) && Before(t, IndexOf(t, id), j)
    requires forall m :: 0 <= m < |t| && IsSibling(t[IndexOf(t, id)], t[m]) ==>
               !(Before(t, IndexOf(t, id), m) && Before(t, m, j))
    ensures Reorder(t, id, Down) == SwapOrders(t, j, IndexOf(t, id))
  {
    var k := IndexOf(t, id);
    SuccessorAt(t, id, j);
    ReorderCases(t, id, Down);
    assert j != k by {
      assert !Before(t, k, k);
    }
    SetOrdersIsSwap(t, j, k);
  }

  /** "up" on the first sibling changes nothing. */
  lemma ReorderUpAtFirstIsNoop(t: seq<Row>, id: Id)
    requires UniqueIds(t) && HasId(t, id) && CanReorder(t, id)
    requires forall m :: 0 <= m < |t| && IsSibling(t[IndexOf(t, id)], t[m]) ==> !Before(t, m, IndexOf(t, id))
    ensures Reorder(t, id, Up) == t
  {
    var k := IndexOf(t, id);
    var sel := SiblingsOf(t[k]);
    var s := SortedSiblings(t, k);
    PosIsRow(t, id);
    var pos := PosOf(t, s, id);
    if pos > 0 {
      assert s[0] in s;
      var m :| 0 <= m < |t| && Selected(sel, t[m]) && s[0] == EntryAt(t, sel, m);
      BeforeIsPrec(t, t[k], m, k);
    }
  }

  /** "down" on the last sibling changes nothing. */
  lemma ReorderDownAtLastIsNoop(t: seq<Row>, id: Id)
    requires UniqueIds(t) && HasId(t, id) && CanReorder(t, id)
    requires forall m :: 0 <= m < |t| && IsSibling(t[IndexOf(t, id)], t[m]) ==> !Before(t, IndexOf(t, id), m)
    ensures Reorder(t, id, Down) == t
  {
    var k := IndexOf(t, id);
    var sel := SiblingsOf(t[k]);
    var s := SortedSiblings(t, k);
    PosIsRow(t, id);
    var pos := PosOf(t, s, id);
    if pos + 1 < |s| {
      assert s[|s| - 1] in s;
      var m :| 0 <= m < |t| && Selected(sel, t[m]) && s[|s| - 1] == EntryAt(t, sel, m);
      BeforeIsPrec(t, t[k], k, m);
    }
  }

  /** With unique ids a reorder either changes nothing or swaps the orders of
      the row and one of its siblings. */
  lemma ReorderIsSwapOrNothing(t: seq<Row>, id: Id, dir: Direction)
    requires UniqueIds(t) && HasId(t, id) && CanReorder(t, id)
    ensures var k := IndexOf(t, id);
            || Reorder(t, id, dir) == t
            || exists j :: 0 <= j < |t| && j != k && IsSibling(t[k], t[j]) &&
                 Reorder(t, id, dir) == SwapOrders(t, j, k)
  {
    var k := IndexOf(t, id);
    var s := SortedSiblings(t, k);
    PosIsRow(t, id);
    var pos := PosOf(t, s, id);
    if dir == Up && pos > 0 {
      var j := s[pos - 1].idx;
      SetOrdersIsSwap(t, j, k);
      assert Reorder(t, id, dir) == SwapOrders(t, j, k);
    } else if dir == Down && pos + 1 < |s| {
      var j := s[pos + 1].idx;
      SetOrdersIsSwap(t, j, k);
      assert Reorder(t, id, dir) == SwapOrders(t, j, k);
    }
  }

  /** The orders held by the siblings of `row`, with multiplicity. */
  function SiblingOrders(t: seq<Row>, row: Row): multiset<int> {
    if |t| == 0 then multiset{}
    else SiblingOrders(t[..|t| - 1], row) +
         (if IsSibling(row, t[|t| - 1]) then multiset{t[|t| - 1].order} else multiset{})
  }

  /** Giving one sibling a new order replaces one occurrence of its old order. */
  lemma {:induction false} SiblingOrdersUpdate(t: seq<Row>, row: Row, a: nat, v: int)
    requires a < |t| && IsSibling(row, t[a])
    ensures t[a].order in SiblingOrders(t, row)
    ensures SiblingOrders(t[a := t[a].(order := v)], row) ==
            SiblingOrders(t, row) - multiset{t[a].order} + multiset{v}
    decreases |t|
  {
    var n := |t| - 1;
    if a == n {
      assert t[a := t[a].(order := v)][..n] == t[..n];
    } else {
      SiblingOrdersUpdate(t[..n], row, a, v);
      SiblingOrdersUpdateEarlier(t, row, a, v);
    }
  }

  /** The step of the induction above when the updated row is not the last. */
  lemma SiblingOrdersUpdateEarlier(t: seq<Row>, row: Row, a: nat, v: int)
    requires a < |t| - 1 && IsSibling(row, t[a])
    requires t[a].order in SiblingOrders(t[..|t| - 1], row)
    requires SiblingOrders(t[..|t| - 1][a := t[a].(order := v)], row) ==
             SiblingOrders(t[..|t| - 1], row) - multiset{t[a].order} + multiset{v}
    ensures t[a].order in SiblingOrders(t, row)
    ensures SiblingOrders(t[a := t[a].(order := v)], row) ==
            SiblingOrders(t, row) - multiset{t[a].order} + multiset{v}
  {
    var u := t[a := t[a].(order := v)];
    var n := |t| - 1;
    var o := t[a].order;
    var pre := SiblingOrders(t[..n], row);
    var last := if IsSibling(row, t[n]) then multiset{t[n].order} else multiset{};
    assert u[..n] == t[..n][a := t[a].(order := v)];
    assert u[n] == t[n];
    assert SiblingOrders(u, row) == (pre - multiset{o} + multiset{v}) + last;
    MultisetShuffle(pre, last, o, v);
  }

  lemma MultisetShuffle(pre: multiset<int>, last: multiset<int>, o: int, v: int)
    requires o in pre
    ensures (pre + last) - multiset{o} + multiset{v} == (pre - multiset{o} + multiset{v}) + last
  {
  }

  /** Reordering keeps the multiset of sibling orders. */
  lemma ReorderKeepsSiblingOrders(t: seq<Row>, id: Id, dir: Direction)
    requires UniqueIds(t) && HasId(t, id) && CanReorder(t, id)
    ensures var row := t[IndexOf(t, id)];
            SiblingOrders(Reorder(t, id, dir), row) == SiblingOrders(t, row)
  {
    var k := IndexOf(t, id);
    var row := t[k];
    ReorderIsSwapOrNothing(t, id, dir);
    if Reorder(t, id, dir) != t {
      var j :| 0 <= j < |t| && j != k && IsSibling(row, t[j]) && Reorder(t, id, dir) == SwapOrders(t, j, k);
      var oj, ok := t[j].order, t[k].order;
      var t1 := t[j := t[j].(order := ok)];
      SiblingOrdersUpdate(t, row, j, ok);
      assert t1[k] == t[k];
      SiblingOrdersUpdate(t1, row, k, oj);
      assert SwapOrders(t, j, k) == t1[k := t1[k].(order := oj)];
      var m := SiblingOrders(t, row);
      assert SiblingOrders(t1, row) == m - multiset{oj} + multiset{ok};
      assert m - multiset{oj} + multiset{ok} - multiset{ok} + multiset{oj} == m;
    }
  }

  /** Swapping equal orders changes nothing: when every sibling holds the row's
      own order (as every item does after the builder), reordering is a no-op. */
  lemma ReorderAmongEqualOrdersIsNoop(t: seq<Row>, id: Id, dir: Direction)
    requires UniqueIds(t) && HasId(t, id) && CanReorder(t, id)
    requires forall m :: 0 <= m < |t| && IsSibling(t[IndexOf(t, id)], t[m]) ==>
               t[m].order == t[IndexOf(t, id)].order
    ensures Reorder(t, id, dir) == t
  {
    var k := IndexOf(t, id);
    ReorderIsSwapOrNothing(t, id, dir);
    forall j | 0 <= j < |t| && j != k && IsSibling(t[k], t[j])
      ensures SwapOrders(t, j, k) == t
    {
      SwapOfEqualOrders(t, j, k);
    }
  }

  lemma SwapOfEqualOrders(t: seq<Row>, a: nat, b: nat)
    requires a < |t| && b < |t| && t[a].order == t[b].order
    ensures SwapOrders(t, a, b) == t
  {
    assert t[a].(order := t[b].order) == t[a];
  }
}
