/** `std::map` with integer keys, seen through its iteration order. */
module NatMap {
  datatype Slot<+V> = Slot(key: nat, val: V)

  ghost predicate Sorted<V>(d: seq<Slot<V>>) {
    forall i, j :: 0 <= i < j < |d| ==> d[i].key < d[j].key
  }

  /** `find`: the position of `k`, or the end. */
  function Find<V>(d: seq<Slot<V>>, k: nat): (i: nat)
    ensures i <= |d| && (i < |d| ==> d[i].key == k)
    ensures forall j :: 0 <= j < i ==> d[j].key != k
  {
    if d == [] || d[0].key == k then 0 else 1 + Find(d[1..], k)
  }

  predicate Has<V>(d: seq<Slot<V>>, k: nat) {
    Find(d, k) < |d|
  }

  function At<V>(d: seq<Slot<V>>, k: nat): V
    requires Has(d, k)
  {
    d[Find(d, k)].val
  }

  lemma HasIndex<V>(d: seq<Slot<V>>, i: nat)
    requires Sorted(d) && i < |d|
    ensures Has(d, d[i].key) && Find(d, d[i].key) == i
  {
  }

  lemma HasTail<V>(d: seq<Slot<V>>, k: nat)
    requires d != [] && d[0].key != k
    ensures Has(d, k) == Has(d[1..], k) && (Has(d, k) ==> At(d, k) == At(d[1..], k))
  {
  }

  /** `map[k] = v`. */
  function Insert<V>(d: seq<Slot<V>>, k: nat, v: V): (r: seq<Slot<V>>)
    ensures r != []
  {
    if d == [] then [Slot(k, v)]
    else if d[0].key == k then [Slot(k, v)] + d[1..]
    else if k < d[0].key then [Slot(k, v)] + d
    else [d[0]] + Insert(d[1..], k, v)
  }

  lemma SortedCons<V>(x: Slot<V>, t: seq<Slot<V>>)
    requires Sorted(t) && (t != [] ==> x.key < t[0].key)
    ensures Sorted([x] + t)
  {
    assert forall i :: 1 <= i < |t| ==> t[0].key < t[i].key;
  }

  lemma {:induction false} InsertSorted<V>(d: seq<Slot<V>>, k: nat, v: V)
    requires Sorted(d)
    ensures Sorted(Insert(d, k, v))
    ensures Insert(d, k, v)[0].key == if d == [] || k < d[0].key then k else d[0].key
    decreases |d|
  {
    if d == [] {
    } else if d[0].key < k {
      InsertSorted(d[1..], k, v);
      SortedCons(d[0], Insert(d[1..], k, v));
    } else if d[0].key == k {
      SortedCons(Slot(k, v), d[1..]);
    } else {
      SortedCons(Slot(k, v), d);
    }
  }

  /** The last key and the number of entries after an insertion. */
  lemma {:induction false} InsertLast<V>(d: seq<Slot<V>>, k: nat, v: V)
    requires Sorted(d)
    ensures var r := Insert(d, k, v);
            && r[|r| - 1].key == (if d == [] || k > d[|d| - 1].key then k else d[|d| - 1].key)
            && |r| == |d| + if Has(d, k) then 0 else 1
    decreases |d|
  {
    if d != [] && d[0].key < k {
      InsertLast(d[1..], k, v);
      HasTail(d, k);
    } else if d != [] && k < d[0].key {
      assert !Has(d, k);
    }
  }

  lemma {:induction false} InsertAt<V>(d: seq<Slot<V>>, k: nat, v: V, q: nat)
    requires Sorted(d)
    ensures Has(Insert(d, k, v), q) == (q == k || Has(d, q))
    ensures Has(Insert(d, k, v), q) ==> At(Insert(d, k, v), q) == if q == k then v else At(d, q)
    decreases |d|
  {
    var r := Insert(d, k, v);
    if d != [] {
      if d[0].key < k {
        InsertAt(d[1..], k, v, q);
        assert r[1..] == Insert(d[1..], k, v);
        if q != d[0].key {
          HasTail(d, q);
          HasTail(r, q);
        }
      } else if d[0].key == k {
        if q != k {
          HasTail(d, q);
          HasTail(r, q);
          assert r[1..] == d[1..];
        }
      } else if q != k {
        HasTail(r, q);
        assert r[1..] == d;
      }
    }
  }

  /** Entry `i` after an insertion is the new one or entry `j` from before. */
  lemma {:induction false} InsertFrom<V>(d: seq<Slot<V>>, k: nat, v: V, i: nat) returns (j: int)
    requires i < |Insert(d, k, v)|
    ensures j < 0 ==> Insert(d, k, v)[i] == Slot(k, v)
    ensures j >= 0 ==> j < |d| && Insert(d, k, v)[i] == d[j]
    decreases |d|
  {
    if d != [] && d[0].key < k {
      if i == 0 {
        j := 0;
      } else {
        j := InsertFrom(d[1..], k, v, i - 1);
        j := if j < 0 then j else j + 1;
      }
    } else if i == 0 {
      j := -1;
    } else {
      j := if d[0].key == k then i else i - 1;
    }
  }

  /** `while (it->first<t) erase(it++)`: the entries from `t` on. */
  function DropBelow<V>(d: seq<Slot<V>>, t: int): seq<Slot<V>> {
    if d != [] && d[0].key < t then DropBelow(d[1..], t) else d
  }

  /** What is left is a suffix that starts at `t` or above. */
  lemma {:induction false} DropSuffix<V>(d: seq<Slot<V>>, t: int) returns (n: nat)
    ensures n <= |d| && DropBelow(d, t) == d[n..] && (n < |d| ==> d[n].key >= t)
    ensures forall i :: 0 <= i < n ==> d[i].key < t
    decreases |d|
  {
    if d != [] && d[0].key < t {
      var m := DropSuffix(d[1..], t);
      n := m + 1;
      assert d[1..][m..] == d[n..];
      assert forall i :: 1 <= i < n ==> d[i] == d[1..][i - 1];
    } else {
      n := 0;
    }
  }

  lemma {:induction false} DropBelowAt<V>(d: seq<Slot<V>>, t: int, q: nat)
    requires Sorted(d)
    ensures Has(DropBelow(d, t), q) == (Has(d, q) && q >= t)
    ensures Has(DropBelow(d, t), q) ==> At(DropBelow(d, t), q) == At(d, q)
    decreases |d|
  {
    if d != [] && d[0].key < t {
      DropBelowAt(d[1..], t, q);
      if q != d[0].key { HasTail(d, q); } else { AboveHead(d, q); }
    } else if Has(d, q) {
    }
  }

  lemma AboveHead<V>(d: seq<Slot<V>>, q: nat)
    requires Sorted(d) && d != [] && q <= d[0].key
    ensures !Has(d[1..], q)
  {
  }
}
