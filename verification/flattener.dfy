/** `editor_to_flat_df`: flatten the editor table for the preview and the
    workbook. Items come sorted by (code, power type, order), each followed by
    its children sorted by order; rows the walk did not reach are appended in
    table order; the editor-only columns are dropped. */
module Flattener {
  import opened Optional
  import opened Sorting
  import opened Rows

  function Positions(s: seq<Entry>): (r: seq<nat>)
    ensures |r| == |s| && forall p :: 0 <= p < |s| ==> r[p] == s[p].idx
  {
    seq(|s|, p requires 0 <= p < |s| => s[p].idx)
  }

  /** The rows selected by `sel`, as positions, in sorted order. */
  function SortedPositions(t: seq<Row>, sel: Selection): (s: seq<nat>)
    ensures forall i: nat :: i in s <==> i < |t| && Selected(sel, t[i])
    ensures forall p :: 0 <= p < |s| ==> s[p] < |t|
    ensures Distinct(s)
    ensures forall p, q :: 0 <= p < q < |s| ==>
              Prec(EntryAt(t, sel, s[p]), EntryAt(t, sel, s[q]))
  {
    var es := SortedSel(t, sel);
    var s := Positions(es);
    assert forall i: nat :: i in s <==> i < |t| && Selected(sel, t[i]) by {
      forall i: nat ensures i in s <==> i < |t| && Selected(sel, t[i]) {
        if i < |t| && Selected(sel, t[i]) {
          assert EntryAt(t, sel, i) in es;
          var p :| 0 <= p < |es| && es[p] == EntryAt(t, sel, i);
          assert s[p] == i;
        }
      }
    }
    s
  }

  /** `edf[edf["type"] == "item"].sort_values(["code", "Power Type", "order"])`. */
  function Items(t: seq<Row>): (s: seq<nat>)
    ensures forall i: nat :: i in s <==> i < |t| && t[i].kind == Item
    ensures forall p :: 0 <= p < |s| ==> s[p] < |t|
    ensures Distinct(s)
    ensures forall p, q :: 0 <= p < q < |s| ==>
              var a := Key(t[s[p]].code, t[s[p]].powerType, t[s[p]].order);
              var b := Key(t[s[q]].code, t[s[q]].powerType, t[s[q]].order);
              KeyLt(a, b) || (a == b && s[p] < s[q])
  {
    SortedPositions(t, AllItems)
  }

  /** `edf[edf["parentId"] == id].sort_values("order")`. */
  function Children(t: seq<Row>, id: Id): (s: seq<nat>)
    ensures forall i: nat :: i in s <==> i < |t| && t[i].parentId == Some(id)
    ensures forall p :: 0 <= p < |s| ==> s[p] < |t|
    ensures Distinct(s)
    ensures forall p, q :: 0 <= p < q < |s| ==>
              t[s[p]].order < t[s[q]].order || (t[s[p]].order == t[s[q]].order && s[p] < s[q])
  {
    var s := SortedPositions(t, ChildrenOf(id));
    assert forall p, q :: 0 <= p < q < |s| ==>
             t[s[p]].order < t[s[q]].order || (t[s[p]].order == t[s[q]].order && s[p] < s[q]) by {
      forall p, q | 0 <= p < q < |s|
        ensures t[s[p]].order < t[s[q]].order || (t[s[p]].order == t[s[q]].order && s[p] < s[q])
      {
        assert Prec(EntryAt(t, ChildrenOf(id), s[p]), EntryAt(t, ChildrenOf(id), s[q]));
      }
    }
    s
  }

  /** One item followed by its children. */
  function Block(t: seq<Row>, i: nat): seq<nat>
    requires i < |t|
  {
    [i] + Children(t, t[i].id)
  }

  predicate Below(s: seq<nat>, n: nat) {
    forall p :: 0 <= p < |s| ==> s[p] < n
  }

  function Blocks(t: seq<Row>, items: seq<nat>): (bs: seq<seq<nat>>)
    requires Below(items, |t|)
    ensures |bs| == |items| && forall p :: 0 <= p < |items| ==> bs[p] == Block(t, items[p])
  {
    seq(|items|, p requires 0 <= p < |items| => Block(t, items[p]))
  }

  /** The first `n` blocks, one after the other. */
  function Concat(bs: seq<seq<nat>>, n: nat): seq<nat>
    requires n <= |bs|
  {
    if n == 0 then [] else Concat(bs, n - 1) + bs[n - 1]
  }

  lemma {:induction false} ConcatBelow(bs: seq<seq<nat>>, n: nat, k: nat)
    requires n <= |bs| && forall q :: 0 <= q < n ==> Below(bs[q], k)
    ensures Below(Concat(bs, n), k)
    decreases n
  {
    if n > 0 {
      ConcatBelow(bs, n - 1, k);
    }
  }

  /** The item blocks in sorted order: the first part of the walk. */
  function Head(t: seq<Row>): (h: seq<nat>)
    ensures Below(h, |t|)
  {
    var bs := Blocks(t, Items(t));
    ConcatBelow(bs, |bs|, |t|);
    Concat(bs, |bs|)
  }

  function EmittedIds(t: seq<Row>, h: seq<nat>): set<Id>
    requires Below(h, |t|)
  {
    set p | 0 <= p < |h| :: t[h[p]].id
  }

  /** The rows among the first `n` whose id was not emitted, in table order. */
  function Tail(t: seq<Row>, ids: set<Id>, n: nat): (r: seq<nat>)
    requires n <= |t|
    ensures forall i: nat :: i in r <==> i < n && t[i].id !in ids
    ensures forall p, q :: 0 <= p < q < |r| ==> r[p] < r[q]
    ensures forall p :: 0 <= p < |r| ==> r[p] < n
  {
    if n == 0 then []
    else
      var r := Tail(t, ids, n - 1);
      if t[n - 1].id in ids then r else r + [n - 1]
  }

  /** The table positions in the order the flattened table lists them. */
  function Walk(t: seq<Row>): (w: seq<nat>)
    ensures Below(w, |t|)
  {
    var h := Head(t);
    h + Tail(t, EmittedIds(t, h), |t|)
  }

  /** The rows at positions `w`, without their editor columns. */
  function Pick(t: seq<Row>, w: seq<nat>): (r: seq<FlatRow>)
    requires Below(w, |t|)
    ensures |r| == |w| && forall p :: 0 <= p < |w| ==> r[p] == Strip(t[w[p]])
  {
    seq(|w|, p requires 0 <= p < |w| => Strip(t[w[p]]))
  }

  /** Every row of the table, in table order, without its editor columns. */
  function StripAll(t: seq<Row>): (r: seq<FlatRow>)
    ensures |r| == |t| && forall i :: 0 <= i < |t| ==> r[i] == Strip(t[i])
  {
    seq(|t|, i requires 0 <= i < |t| => Strip(t[i]))
  }

  /** No item carries a parent link. */
  predicate ItemsAreRoots(t: seq<Row>) {
    forall i :: 0 <= i < |t| && t[i].kind == Item ==> t[i].parentId.None?
  }

  /** The flat table. When ids are unique and no item has a parent, it holds
      exactly the rows of the table, each once, only reordered. */
  function Flatten(t: seq<Row>): (r: seq<FlatRow>)
    // Position by position: the walk's rows, stripped, for callers that
    // reason about where a row lands.
    ensures |r| == |Walk(t)| && forall p :: 0 <= p < |r| ==> r[p] == Strip(t[Walk(t)[p]])
    ensures UniqueIds(t) && ItemsAreRoots(t) ==> multiset(r) == multiset(StripAll(t))
  {
    var w := Walk(t);
    if UniqueIds(t) && ItemsAreRoots(t) then
      WalkIsPermutation(t);
      Pick(t, w)
    else Pick(t, w)
  }

  // ---------------------------------------------------------------- layout

  lemma {:induction false} ConcatPrefix(bs: seq<seq<nat>>, n: nat, m: nat)
    requires n <= m <= |bs|
    ensures |Concat(bs, n)| <= |Concat(bs, m)|
    ensures Concat(bs, m)[..|Concat(bs, n)|] == Concat(bs, n)
    decreases m
  {
    if n < m {
      ConcatPrefix(bs, n, m - 1);
    }
  }

  lemma SliceOfPrefix(h: seq<nat>, b: seq<nat>, c: seq<nat>)
    requires |b + c| <= |h| && h[..|b + c|] == b + c
    ensures h[|b|..|b| + |c|] == c
  {
    forall k | 0 <= k < |c|
      ensures h[|b|..|b| + |c|][k] == c[k]
    {
      assert h[|b| + k] == h[..|b + c|][|b| + k] == (b + c)[|b| + k];
    }
  }

  /** Block `p` sits, whole, right after the blocks before it. */
  lemma ConcatBlock(bs: seq<seq<nat>>, p: nat)
    requires p < |bs|
    ensures var o := |Concat(bs, p)|;
            o + |bs[p]| <= |Concat(bs, |bs|)| && Concat(bs, |bs|)[o..o + |bs[p]|] == bs[p]
  {
    ConcatPrefix(bs, p + 1, |bs|);
    SliceOfPrefix(Concat(bs, |bs|), Concat(bs, p), bs[p]);
  }

  /** The flattened table starts with the item blocks in sorted order: item
      `p`, followed at once by its children, sits right after the blocks of
      the items sorted before it. */
  lemma HeadLayout(t: seq<Row>, p: nat) returns (o: nat)
    requires p < |Items(t)|
    ensures o == |Concat(Blocks(t, Items(t)), p)|
    ensures o + |Block(t, Items(t)[p])| <= |Head(t)|
    ensures Head(t)[o..o + |Block(t, Items(t)[p])|] == Block(t, Items(t)[p])
  {
    var bs := Blocks(t, Items(t));
    o := |Concat(bs, p)|;
    ConcatBlock(bs, p);
  }

  // ---------------------------------------------------------------- permutation

  lemma {:induction false} ConcatMembers(bs: seq<seq<nat>>, n: nat, x: nat)
    requires n <= |bs|
    ensures x in Concat(bs, n) <==> exists q :: 0 <= q < n && x in bs[q]
    decreases n
  {
    if n > 0 {
      ConcatMembers(bs, n - 1, x);
    }
  }

  lemma ConcatNoDup(a: seq<nat>, b: seq<nat>)
    requires Distinct(a) && Distinct(b)
    requires forall x :: x in a ==> x !in b
    ensures Distinct(a + b)
  {
    forall p, q | 0 <= p < q < |a + b|
      ensures (a + b)[p] != (a + b)[q]
    {
      if p < |a| && q >= |a| {
        assert (a + b)[p] in a && (a + b)[q] in b;
      }
    }
  }

  /** Blocks free of repeats and pairwise disjoint concatenate without repeats. */
  lemma {:induction false} ConcatOfDisjoint(bs: seq<seq<nat>>, n: nat)
    requires n <= |bs|
    requires forall q :: 0 <= q < n ==> Distinct(bs[q])
    requires forall q, r, x :: 0 <= q < r < n && x in bs[q] ==> x !in bs[r]
    ensures Distinct(Concat(bs, n))
    decreases n
  {
    if n > 0 {
      ConcatOfDisjoint(bs, n - 1);
      var c := Concat(bs, n - 1);
      forall k | 0 <= k < |c|
        ensures c[k] !in bs[n - 1]
      {
        ConcatMembers(bs, n - 1, c[k]);
      }
      ConcatNoDup(Concat(bs, n - 1), bs[n - 1]);
    }
  }

  /** When no item has a parent, an item's block lists no row twice ... */
  lemma BlockNoDup(t: seq<Row>, i: nat)
    requires ItemsAreRoots(t) && i < |t| && t[i].kind == Item
    ensures Distinct(Block(t, i))
  {
    var kids := Children(t, t[i].id);
    ConcatNoDup([i], kids);
  }

  /** ... and two different items' blocks share no row. */
  lemma BlocksDisjoint(t: seq<Row>, i: nat, j: nat, x: nat)
    requires UniqueIds(t) && ItemsAreRoots(t) && i < |t| && j < |t| && i != j
    requires t[i].kind == Item && t[j].kind == Item
    requires x in Block(t, i)
    ensures x !in Block(t, j)
  {
    assert t[i].id != t[j].id;
    assert t[i].parentId.None? && t[j].parentId.None?;
  }

  lemma HeadNoDup(t: seq<Row>)
    requires UniqueIds(t) && ItemsAreRoots(t)
    ensures Distinct(Head(t))
  {
    var items := Items(t);
    var bs := Blocks(t, items);
    forall q | 0 <= q < |bs|
      ensures Distinct(bs[q])
    {
      BlockNoDup(t, items[q]);
    }
    forall q, r, x | 0 <= q < r < |bs| && x in bs[q]
      ensures x !in bs[r]
    {
      BlocksDisjoint(t, items[q], items[r], x);
    }
    ConcatOfDisjoint(bs, |bs|);
  }

  lemma {:induction false} CardOfNoDup(s: seq<nat>)
    requires Distinct(s)
    ensures |set x: nat | x in s| == |s|
  {
    if |s| > 0 {
      var init := s[..|s| - 1];
      var last := s[|s| - 1];
      CardOfNoDup(init);
      assert s == init + [last];
      var a := set x: nat | x in init;
      var b := set x: nat | x in s;
      assert last !in a;
      assert b == a + {last};
    } else {
      assert (set x: nat | x in s) == {};
    }
  }

  function Range(n: nat): (r: seq<nat>)
    ensures |r| == n && forall i :: 0 <= i < n ==> r[i] == i
  {
    seq(n, i requires 0 <= i < n => i)
  }

  /** With unique ids and no item under a parent, the walk lists no row twice. */
  lemma WalkNoDup(t: seq<Row>)
    requires UniqueIds(t) && ItemsAreRoots(t)
    ensures Distinct(Walk(t))
  {
    var h := Head(t);
    var tail := Tail(t, EmittedIds(t, h), |t|);
    HeadNoDup(t);
    forall x | x in h
      ensures x !in tail
    {
      var p :| 0 <= p < |h| && h[p] == x;
      assert t[x].id in EmittedIds(t, h);
    }
    ConcatNoDup(h, tail);
  }

  /** With unique ids every row is reached: by the head, or else by the tail. */
  lemma WalkCovers(t: seq<Row>)
    requires UniqueIds(t)
    ensures forall i :: 0 <= i < |t| ==> i in Walk(t)
  {
    var h := Head(t);
    var tail := Tail(t, EmittedIds(t, h), |t|);
    WalkParts(t);
    forall i | 0 <= i < |t|
      ensures i in h + tail
    {
      if Orphaned(t, i) {
        TailMember(t, i);
      } else {
        HeadReachesAll(t, i);
      }
    }
  }

  /** When ids are unique and no item has a parent, the walk lists every row
      exactly once, and the flat table is the table's rows reordered. */
  lemma WalkIsPermutation(t: seq<Row>)
    requires UniqueIds(t) && ItemsAreRoots(t)
    ensures |Walk(t)| == |t| && Distinct(Walk(t))
    ensures forall i :: 0 <= i < |t| ==> i in Walk(t)
    ensures multiset(Pick(t, Walk(t))) == multiset(StripAll(t))
  {
    var w := Walk(t);
    WalkNoDup(t);
    WalkCovers(t);
    var range := Range(|t|);
    CardOfNoDup(w);
    CardOfNoDup(range);
    forall x: nat | x in w
      ensures x in range
    {
      assert range[x] == x;
    }
    forall x: nat | x in range
      ensures x in w
    {
      var p :| 0 <= p < |range| && range[p] == x;
    }
    assert (set x: nat | x in w) == (set x: nat | x in range);
    SameMembersSameMultiset(w, range);
    PickPreservesMultiset(t, w, range);
    assert Pick(t, range) == StripAll(t);
  }

  /** A sequence without repeats holds each of its values once. */
  lemma {:induction false} DistinctMultiplicity(s: seq<nat>, x: nat)
    requires Distinct(s)
    ensures multiset(s)[x] == if x in s then 1 else 0
  {
    if |s| > 0 {
      var init := s[..|s| - 1];
      assert s == init + [s[|s| - 1]];
      DistinctMultiplicity(init, x);
    }
  }

  lemma SameMembersSameMultiset(a: seq<nat>, b: seq<nat>)
    requires Distinct(a) && Distinct(b)
    requires forall x: nat :: x in a <==> x in b
    ensures multiset(a) == multiset(b)
  {
    forall x: nat
      ensures multiset(a)[x] == multiset(b)[x]
    {
      DistinctMultiplicity(a, x);
      DistinctMultiplicity(b, x);
    }
  }

  lemma PickConcat(t: seq<Row>, u: seq<nat>, v: seq<nat>)
    requires Below(u, |t|) && Below(v, |t|)
    ensures Below(u + v, |t|) && Pick(t, u + v) == Pick(t, u) + Pick(t, v)
  {
  }

  /** `b` without its value at position `k`. */
  function Drop(b: seq<nat>, k: nat): (r: seq<nat>)
    requires k < |b|
    ensures |r| == |b| - 1
    ensures forall p :: 0 <= p < |r| ==> r[p] == if p < k then b[p] else b[p + 1]
  {
    b[..k] + b[k + 1..]
  }

  lemma DropBelow(b: seq<nat>, k: nat, n: nat)
    requires k < |b| && Below(b, n)
    ensures Below(Drop(b, k), n)
  {
  }

  /** Taking out the value at `k` takes one copy of it out of the multiset. */
  lemma RemoveAt(b: seq<nat>, k: nat)
    requires k < |b|
    ensures multiset(b) == multiset(Drop(b, k)) + multiset{b[k]}
  {
    assert b == b[..k] + [b[k]] + b[k + 1..];
    assert Drop(b, k) == b[..k] + b[k + 1..];
  }

  /** Two sequences with the same multiset still agree once one copy of a
      shared value is taken out of each. */
  lemma CancelOne(a: seq<nat>, b: seq<nat>, k: nat)
    requires multiset(a) == multiset(b) && 0 < |a| && k < |b| && b[k] == a[0]
    ensures multiset(Drop(a, 0)) == multiset(Drop(b, k))
  {
    RemoveAt(b, k);
    RemoveAt(a, 0);
    forall y
      ensures multiset(Drop(a, 0))[y] == multiset(Drop(b, k))[y]
    {
      assert multiset(a)[y] == multiset(b)[y];
    }
  }

  /** The rows picked around position `k` of `b`. */
  lemma PickSplit(t: seq<Row>, b: seq<nat>, k: nat)
    requires Below(b, |t|) && k < |b|
    ensures Below(b[..k], |t|) && Below(b[k + 1..], |t|)
    ensures Pick(t, b) == Pick(t, b[..k]) + [Strip(t[b[k]])] + Pick(t, b[k + 1..])
  {
    var x, z := Pick(t, b[..k]), Pick(t, b[k + 1..]);
    var r := x + [Strip(t[b[k]])] + z;
    assert |r| == |b|;
    forall p | 0 <= p < |b|
      ensures Pick(t, b)[p] == r[p]
    {
      if p < k {
        assert r[p] == x[p] == Strip(t[b[p]]);
      } else if p > k {
        assert r[p] == z[p - k - 1] == Strip(t[b[p]]);
      }
    }
  }

  /** The row picked at `k` is one copy in the multiset of picked rows. */
  lemma PickAround(t: seq<Row>, b: seq<nat>, k: nat)
    requires Below(b, |t|) && k < |b|
    ensures Below(Drop(b, k), |t|)
    ensures multiset(Pick(t, b)) == multiset(Pick(t, Drop(b, k))) + multiset{Strip(t[b[k]])}
  {
    var u, v := b[..k], b[k + 1..];
    DropBelow(b, k, |t|);
    PickSplit(t, b, k);
    PickConcat(t, u, v);
    assert Drop(b, k) == u + v;
    var x, y, z := Pick(t, u), [Strip(t[b[k]])], Pick(t, v);
    assert multiset(x + y + z) == multiset(x) + multiset(y) + multiset(z);
    assert multiset(x + z) == multiset(x) + multiset(z);
  }

  /** Picking rows at two lists of positions that hold the same positions
      gives the same rows, as a multiset. */
  lemma {:induction false} PickPreservesMultiset(t: seq<Row>, a: seq<nat>, b: seq<nat>)
    requires Below(a, |t|) && Below(b, |t|)
    requires multiset(a) == multiset(b)
    ensures multiset(Pick(t, a)) == multiset(Pick(t, b))
    decreases |a|
  {
    if |a| > 0 {
      var k := PositionOf(a, b);
      PickAround(t, b, k);
      PickAround(t, a, 0);
      CancelOne(a, b, k);
      PickPreservesMultiset(t, Drop(a, 0), Drop(b, k));
    } else {
      assert |b| == |multiset(b)| == 0;
    }
  }

  /** Where `b` holds the first value of `a`, when both hold the same values. */
  lemma PositionOf(a: seq<nat>, b: seq<nat>) returns (k: nat)
    requires 0 < |a| && multiset(a) == multiset(b)
    ensures k < |b| && b[k] == a[0]
  {
    assert a[0] in multiset(a);
    assert a[0] in b;
    k :| 0 <= k < |b| && b[k] == a[0];
  }

  // ---------------------------------------------------------------- orphans

  /** A row the item blocks do not reach: not an item, and not linked to any
      item of the table. These are the orphaned subitems the flattener
      appends after the blocks. */
  predicate Orphaned(t: seq<Row>, i: nat)
    requires i < |t|
  {
    t[i].kind != Item && !(t[i].parentId.Some? && IsItemId(t, t[i].parentId.value))
  }

  /** The head holds exactly the items and the rows linked to an item. */
  lemma HeadMembers(t: seq<Row>, x: nat)
    requires x < |t|
    ensures x in Head(t) <==> !Orphaned(t, x)
  {
    if x in Head(t) {
      HeadHoldsReached(t, x);
    } else if !Orphaned(t, x) {
      HeadReachesAll(t, x);
    }
  }

  lemma BlockMembers(t: seq<Row>, i: nat, x: nat)
    requires i < |t| && x < |t|
    ensures x in Block(t, i) <==> x == i || t[x].parentId == Some(t[i].id)
  {
    assert Block(t, i) == [i] + Children(t, t[i].id);
  }

  /** A row of the concatenated blocks lies in one of them. */
  lemma InSomeBlock(t: seq<Row>, items: seq<nat>, x: nat)
    requires Below(items, |t|)
    requires x in Concat(Blocks(t, items), |items|)
    ensures exists q :: 0 <= q < |items| && x in Block(t, items[q])
  {
    ConcatMembers(Blocks(t, items), |items|, x);
  }

  lemma HeadHoldsReached(t: seq<Row>, x: nat)
    requires x < |t| && x in Head(t)
    ensures !Orphaned(t, x)
  {
    var items := Items(t);
    InSomeBlock(t, items, x);
    var q :| 0 <= q < |items| && x in Block(t, items[q]);
    var i := items[q];
    assert i in items;
    BlockMembers(t, i, x);
  }

  lemma HeadReachesAll(t: seq<Row>, x: nat)
    requires x < |t| && !Orphaned(t, x)
    ensures x in Head(t)
  {
    var items := Items(t);
    var bs := Blocks(t, items);
    var q: nat;
    if t[x].kind == Item {
      q :| 0 <= q < |items| && items[q] == x;
      assert x in bs[q];
    } else {
      var j :| 0 <= j < |t| && t[j].kind == Item && t[j].id == t[x].parentId.value;
      q :| 0 <= q < |items| && items[q] == j;
      assert x in Children(t, t[j].id);
      assert bs[q] == [j] + Children(t, t[j].id);
      assert x in bs[q];
    }
    ConcatMembers(bs, |bs|, x);
  }

  /** With unique ids a row's id is emitted exactly when the row is in the head. */
  lemma EmittedIff(t: seq<Row>, i: nat)
    requires UniqueIds(t) && i < |t|
    ensures t[i].id in EmittedIds(t, Head(t)) <==> i in Head(t)
  {
    var h := Head(t);
    if t[i].id in EmittedIds(t, h) {
      var p :| 0 <= p < |h| && t[h[p]].id == t[i].id;
      assert h[p] == i;
    }
    if i in h {
      var p :| 0 <= p < |h| && h[p] == i;
      assert t[h[p]].id in EmittedIds(t, h);
    }
  }

  lemma TailMember(t: seq<Row>, i: nat)
    requires UniqueIds(t) && i < |t|
    ensures i in Tail(t, EmittedIds(t, Head(t)), |t|) <==> Orphaned(t, i)
  {
    EmittedIff(t, i);
    HeadMembers(t, i);
  }

  /** The parts of `h + tail`, and a rising tail makes a rising suffix. */
  lemma AppendParts(h: seq<nat>, tail: seq<nat>)
    requires forall p, q :: 0 <= p < q < |tail| ==> tail[p] < tail[q]
    ensures (h + tail)[..|h|] == h && (h + tail)[|h|..] == tail
    ensures forall p, q :: |h| <= p < q < |h + tail| ==> (h + tail)[p] < (h + tail)[q]
  {
    var w := h + tail;
    forall p, q | |h| <= p < q < |w|
      ensures w[p] < w[q]
    {
      assert w[p] == tail[p - |h|] && w[q] == tail[q - |h|];
    }
  }

  /** The walk is the item blocks, then the rows whose id they did not emit. */
  lemma WalkParts(t: seq<Row>)
    ensures Walk(t) == Head(t) + Tail(t, EmittedIds(t, Head(t)), |t|)
  {
  }

  /** With unique ids the walk ends with exactly the orphaned rows, in table
      order, after the item blocks. */
  lemma OrphansFollowBlocks(t: seq<Row>)
    requires UniqueIds(t)
    ensures |Head(t)| <= |Walk(t)| && Walk(t)[..|Head(t)|] == Head(t)
    ensures forall i :: 0 <= i < |t| ==> (i in Walk(t)[|Head(t)|..] <==> Orphaned(t, i))
    ensures forall p, q :: |Head(t)| <= p < q < |Walk(t)| ==> Walk(t)[p] < Walk(t)[q]
  {
    var h := Head(t);
    var tail := Tail(t, EmittedIds(t, h), |t|);
    WalkParts(t);
    AppendParts(h, tail);
    forall i | 0 <= i < |t|
      ensures i in tail <==> Orphaned(t, i)
    {
      TailMember(t, i);
    }
  }
}
