/** The stable sort behind the editor's `sort_values` calls: positions of table
    rows are sorted by a key, and rows with equal keys keep their table order. */
module Sorting {
  import opened Strings

  /** Sort key: (code, Power Type, order) for items; sorting on order alone puts
      empty strings in the first two places. */
  datatype Key = Key(code: string, powerType: string, order: int)

  predicate KeyLt(a: Key, b: Key) {
    || StrLt(a.code, b.code)
    || (a.code == b.code && StrLt(a.powerType, b.powerType))
    || (a.code == b.code && a.powerType == b.powerType && a.order < b.order)
  }

  lemma KeyLtIrreflexive(a: Key)
    ensures !KeyLt(a, a)
  {
    StrLtIrreflexive(a.code);
    StrLtIrreflexive(a.powerType);
  }

  lemma KeyLtTransitive(a: Key, b: Key, c: Key)
    requires KeyLt(a, b) && KeyLt(b, c)
    ensures KeyLt(a, c)
  {
    if StrLt(a.code, b.code) && StrLt(b.code, c.code) {
      StrLtTransitive(a.code, b.code, c.code);
    }
    if a.code == b.code && b.code == c.code && StrLt(a.powerType, b.powerType) && StrLt(b.powerType, c.powerType) {
      StrLtTransitive(a.powerType, b.powerType, c.powerType);
    }
  }

  lemma KeyLtTrichotomy(a: Key, b: Key)
    ensures a == b || KeyLt(a, b) || KeyLt(b, a)
  {
    StrLtTrichotomy(a.code, b.code);
    StrLtTrichotomy(a.powerType, b.powerType);
  }

  /** A row position together with its sort key. */
  datatype Entry = Entry(key: Key, idx: nat)

  /** The order a stable sort produces: by key, then by table position. */
  predicate Prec(x: Entry, y: Entry) {
    KeyLt(x.key, y.key) || (x.key == y.key && x.idx < y.idx)
  }

  lemma PrecIrreflexive(x: Entry)
    ensures !Prec(x, x)
  {
    KeyLtIrreflexive(x.key);
  }

  lemma PrecTransitive(x: Entry, y: Entry, z: Entry)
    requires Prec(x, y) && Prec(y, z)
    ensures Prec(x, z)
  {
    if KeyLt(x.key, y.key) && KeyLt(y.key, z.key) {
      KeyLtTransitive(x.key, y.key, z.key);
    }
  }

  lemma PrecAsymmetric(x: Entry, y: Entry)
    requires Prec(x, y)
    ensures !Prec(y, x)
  {
    if Prec(y, x) {
      PrecTransitive(x, y, x);
      PrecIrreflexive(x);
    }
  }

  lemma PrecTotal(x: Entry, y: Entry)
    requires x.idx != y.idx
    ensures Prec(x, y) || Prec(y, x)
  {
    KeyLtTrichotomy(x.key, y.key);
  }

  predicate StrictlySorted(s: seq<Entry>) {
    forall p, q :: 0 <= p < q < |s| ==> Prec(s[p], s[q])
  }

  predicate IncreasingIdx(s: seq<Entry>) {
    forall p, q :: 0 <= p < q < |s| ==> s[p].idx < s[q].idx
  }

  /** Places `x` in front of the first element whose key is not below its own. */
  function Insert(x: Entry, s: seq<Entry>): (r: seq<Entry>)
    ensures multiset(r) == multiset(s) + multiset{x}
  {
    if |s| == 0 then [x]
    else if !KeyLt(s[0].key, x.key) then [x] + s
    else
      assert s == [s[0]] + s[1..];
      [s[0]] + Insert(x, s[1..])
  }

  /** Insertion sort: the head is inserted into the sorted tail. */
  function Sort(xs: seq<Entry>): (r: seq<Entry>)
    ensures multiset(r) == multiset(xs)
  {
    if |xs| == 0 then []
    else
      assert xs == [xs[0]] + xs[1..];
      Insert(xs[0], Sort(xs[1..]))
  }

  lemma {:induction false} InsertSorted(x: Entry, s: seq<Entry>)
    requires StrictlySorted(s)
    requires forall e :: e in s ==> x.idx < e.idx
    ensures StrictlySorted(Insert(x, s))
  {
    if |s| == 0 {
    } else if !KeyLt(s[0].key, x.key) {
      KeyLtTrichotomy(x.key, s[0].key);
      assert Prec(x, s[0]);
      forall q | 0 <= q < |s|
        ensures Prec(x, s[q])
      {
        if q > 0 {
          PrecTransitive(x, s[0], s[q]);
        }
      }
      var r := [x] + s;
      forall p, q | 0 <= p < q < |r|
        ensures Prec(r[p], r[q])
      {
        if p > 0 {
          assert r[p] == s[p - 1] && r[q] == s[q - 1];
        }
      }
    } else {
      var tl := s[1..];
      assert StrictlySorted(tl) by {
        forall p, q | 0 <= p < q < |tl|
          ensures Prec(tl[p], tl[q])
        {
          assert tl[p] == s[p + 1] && tl[q] == s[q + 1];
        }
      }
      InsertSorted(x, tl);
      var ins := Insert(x, tl);
      assert Prec(s[0], x);
      forall e | e in ins
        ensures Prec(s[0], e)
      {
        assert e in multiset(ins);
        if e != x {
          assert e in tl;
          var q :| 0 <= q < |tl| && tl[q] == e;
          assert s[q + 1] == e;
        }
      }
      var r := [s[0]] + ins;
      forall p, q | 0 <= p < q < |r|
        ensures Prec(r[p], r[q])
      {
        if p == 0 {
          assert r[q] in ins;
        } else {
          assert r[p] == ins[p - 1] && r[q] == ins[q - 1];
        }
      }
    }
  }

  /** Sorting positions given in table order yields the stable order. */
  lemma {:induction false} SortIsStable(xs: seq<Entry>)
    requires IncreasingIdx(xs)
    ensures StrictlySorted(Sort(xs))
  {
    if |xs| > 0 {
      var tl := xs[1..];
      assert IncreasingIdx(tl) by {
        forall p, q | 0 <= p < q < |tl|
          ensures tl[p].idx < tl[q].idx
        {
          assert tl[p] == xs[p + 1] && tl[q] == xs[q + 1];
        }
      }
      SortIsStable(tl);
      forall e | e in Sort(tl)
        ensures xs[0].idx < e.idx
      {
        assert e in multiset(Sort(tl));
        var q :| 0 <= q < |tl| && tl[q] == e;
        assert xs[q + 1] == e;
      }
      InsertSorted(xs[0], Sort(tl));
    }
  }

  /** The element just before position `pos` is the immediate predecessor of `s[pos]`. */
  lemma ImmediatePredecessor(s: seq<Entry>, pos: nat, y: Entry)
    requires StrictlySorted(s) && pos < |s|
    requires y in s && Prec(y, s[pos])
    requires forall z :: z in s ==> !(Prec(y, z) && Prec(z, s[pos]))
    ensures pos > 0 && s[pos - 1] == y
  {
    var q :| 0 <= q < |s| && s[q] == y;
    if q == pos {
      PrecIrreflexive(y);
    } else if q > pos {
      PrecAsymmetric(s[pos], s[q]);
    }
  }

  /** The element just after position `pos` is the immediate successor of `s[pos]`. */
  lemma ImmediateSuccessor(s: seq<Entry>, pos: nat, y: Entry)
    requires StrictlySorted(s) && pos < |s|
    requires y in s && Prec(s[pos], y)
    requires forall z :: z in s ==> !(Prec(s[pos], z) && Prec(z, y))
    ensures pos + 1 < |s| && s[pos + 1] == y
  {
    var q :| 0 <= q < |s| && s[q] == y;
    if q == pos {
      PrecIrreflexive(y);
    } else if q < pos {
      PrecAsymmetric(s[q], s[pos]);
    }
  }
}
