/** `delete_row`: remove a row; removing an item also removes its children. */
module Deletion {
  import opened Optional
  import opened Rows

  /** Number of rows before position `n` that `drop` keeps. */
  function Survivors(t: seq<Row>, drop: Row -> bool, n: nat): nat
    requires n <= |t|
  {
    if n == 0 then 0 else Survivors(t, drop, n - 1) + (if drop(t[n - 1]) then 0 else 1)
  }

  /** The boolean-mask filter `edf[~drop]` on the first `n` rows. */
  function KeepPrefix(t: seq<Row>, drop: Row -> bool, n: nat): (r: seq<Row>)
    requires n <= |t|
    ensures |r| == Survivors(t, drop, n)
    ensures forall x :: x in r <==> x in t[..n] && !drop(x)
  {
    if n == 0 then []
    else
      var r := KeepPrefix(t, drop, n - 1);
      assert t[..n] == t[..n - 1] + [t[n - 1]];
      if drop(t[n - 1]) then r else r + [t[n - 1]]
  }

  /** The survivor at input position `i` sits at output position
      `Survivors(t, drop, i)`, so surviving rows keep their relative order. */
  lemma {:induction false} KeepPrefixPosition(t: seq<Row>, drop: Row -> bool, n: nat, i: nat)
    requires i < n <= |t| && !drop(t[i])
    ensures Survivors(t, drop, i) < |KeepPrefix(t, drop, n)|
    ensures KeepPrefix(t, drop, n)[Survivors(t, drop, i)] == t[i]
    decreases n
  {
    if i < n - 1 {
      KeepPrefixPosition(t, drop, n - 1, i);
    }
  }

  function Keep(t: seq<Row>, drop: Row -> bool): seq<Row> {
    KeepPrefix(t, drop, |t|)
  }

  /** Which rows deleting `id` removes: the row itself and, when it is an item,
      every row whose parent it is. pandas does this as two filters in turn,
      which removes the same rows as one filter on the union. */
  function Doomed(t: seq<Row>, id: Id): Row -> bool
    requires HasId(t, id)
  {
    var isItem := t[IndexOf(t, id)].kind == Item;
    (x: Row) => x.id == id || (isItem && x.parentId == Some(id))
  }

  function Delete(t: seq<Row>, id: Id): (r: seq<Row>)
    requires HasId(t, id)
    ensures forall x :: x in r <==>
              x in t && x.id != id && !(t[IndexOf(t, id)].kind == Item && x.parentId == Some(id))
  {
    assert t[..|t|] == t;
    Keep(t, Doomed(t, id))
  }

  lemma {:induction false} SurvivorsIncrease(t: seq<Row>, drop: Row -> bool, i: nat, j: nat)
    requires i < j <= |t| && !drop(t[i])
    ensures Survivors(t, drop, i) < Survivors(t, drop, j)
    decreases j
  {
    if j > i + 1 {
      SurvivorsIncrease(t, drop, i, j - 1);
    }
  }

  /** Deleting keeps every surviving row, unchanged, and in its relative order:
      survivors at input positions `i < j` land at output positions `a < b`. */
  lemma DeleteKeepsOrder(t: seq<Row>, id: Id, i: nat, j: nat) returns (a: nat, b: nat)
    requires HasId(t, id) && i < j < |t|
    requires !Doomed(t, id)(t[i]) && !Doomed(t, id)(t[j])
    ensures a < b < |Delete(t, id)|
    ensures Delete(t, id)[a] == t[i] && Delete(t, id)[b] == t[j]
  {
    var drop := Doomed(t, id);
    assert t[..|t|] == t;
    KeepPrefixPosition(t, drop, |t|, i);
    KeepPrefixPosition(t, drop, |t|, j);
    SurvivorsIncrease(t, drop, i, j);
    a, b := Survivors(t, drop, i), Survivors(t, drop, j);
  }

  /** Deleting keeps ids unique and leaves no dangling parent. */
  lemma DeletePreservesValid(t: seq<Row>, id: Id)
    requires Valid(t) && HasId(t, id)
    ensures Valid(Delete(t, id))
  {
    var r := Delete(t, id);
    var k := IndexOf(t, id);
    var drop := Doomed(t, id);
    forall a, b | 0 <= a < |r| && 0 <= b < |r| && a != b
      ensures r[a].id != r[b].id
    {
      assert t[..|t|] == t;
      var i := ReverseSurvivor(t, drop, a);
      var j := ReverseSurvivor(t, drop, b);
    }
    forall a | 0 <= a < |r| && r[a].parentId.Some?
      ensures r[a].kind == Subitem && IsItemId(r, r[a].parentId.value)
    {
      assert r[a] in r;
      var q := r[a].parentId.value;
      assert r[a] in t;
      var j :| 0 <= j < |t| && t[j].kind == Item && t[j].id == q;
      assert t[j] in r;
    }
  }

  /** The input position of the row at output position `a`. */
  lemma ReverseSurvivor(t: seq<Row>, drop: Row -> bool, a: nat) returns (i: nat)
    requires a < |Keep(t, drop)|
    ensures i < |t| && !drop(t[i]) && Survivors(t, drop, i) == a && Keep(t, drop)[a] == t[i]
  {
    i := SurvivorAt(t, drop, |t|, a);
    KeepPrefixPosition(t, drop, |t|, i);
  }

  lemma {:induction false} SurvivorAt(t: seq<Row>, drop: Row -> bool, n: nat, a: nat) returns (i: nat)
    requires n <= |t| && a < Survivors(t, drop, n)
    ensures i < n && !drop(t[i]) && Survivors(t, drop, i) == a
    decreases n
  {
    if a < Survivors(t, drop, n - 1) {
      i := SurvivorAt(t, drop, n - 1, a);
    } else {
      i := n - 1;
    }
  }
}
