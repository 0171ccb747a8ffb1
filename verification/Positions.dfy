/** Lists that a program builds element by element, described by positions: which elements of the
    input a list holds, and in which order. */
module Positions {
  import opened Wrappers

  // ===== Filtered lists =====

  // out holds the items at exactly the positions at, of those below n, in order.
  ghost predicate Picks<T>(out: seq<T>, n: nat, at: seq<nat>, item: nat -> Option<T>) {
    && |at| == |out|
    && (forall i :: 0 <= i < |at| ==> at[i] < n && item(at[i]) == Some(out[i]))
    && (forall i, j :: 0 <= i < j < |at| ==> at[i] < at[j])
    && (forall k: nat :: k < n && item(k).Some? ==> k in at)
  }

  lemma PicksNext<T>(out: seq<T>, n: nat, at: seq<nat>, item: nat -> Option<T>)
    requires Picks(out, n, at, item)
    ensures match item(n)
            case None => Picks(out, n + 1, at, item)
            case Some(x) => Picks(out + [x], n + 1, at + [n], item)
  {
    if item(n).Some? {
      var more := at + [n];
      assert more[|at|] == n;
      forall k: nat | k < n + 1 && item(k).Some?
        ensures k in more
      {
        assert k in at || k == n;
      }
    }
  }

  lemma PicksSame<T>(out: seq<T>, n: nat, at: seq<nat>, f: nat -> Option<T>, g: nat -> Option<T>)
    requires Picks(out, n, at, f)
    requires forall k: nat :: k < n ==> f(k) == g(k)
    ensures Picks(out, n, at, g)
  {
    forall k: nat | k < n && g(k).Some?
      ensures k in at
    {
      assert f(k).Some?;
    }
  }

  // ===== Concatenated lists =====

  ghost function Concat<T>(lists: seq<seq<T>>): seq<T> {
    if lists == [] then [] else Concat(lists[..|lists| - 1]) + lists[|lists| - 1]
  }

  ghost predicate Earlier(p: (nat, nat), q: (nat, nat)) {
    p.0 < q.0 || (p.0 == q.0 && p.1 < q.1)
  }

  // flat holds all elements of all lists, once each, list by list.
  ghost predicate Places<T>(flat: seq<T>, lists: seq<seq<T>>, at: seq<(nat, nat)>) {
    && |at| == |flat|
    && (forall n :: 0 <= n < |at| ==>
          at[n].0 < |lists| && at[n].1 < |lists[at[n].0]| && flat[n] == lists[at[n].0][at[n].1])
    && (forall m, n :: 0 <= m < n < |at| ==> Earlier(at[m], at[n]))
    && (forall i: nat, j: nat :: i < |lists| && j < |lists[i]| ==> (i, j) in at)
  }

  lemma {:induction false} ConcatPlaces<T>(lists: seq<seq<T>>) returns (at: seq<(nat, nat)>)
    ensures Places(Concat(lists), lists, at)
  {
    if lists == [] {
      at := [];
    } else {
      var init, last := lists[..|lists| - 1], lists[|lists| - 1];
      var before := ConcatPlaces(init);
      var row := seq(|last|, j requires 0 <= j < |last| => (|init|, j));
      at := before + row;
      PlacesNext(Concat(init), init, before, last, row);
      assert lists == init + [last];
    }
  }

  lemma PlacesNext<T>(flat: seq<T>, lists: seq<seq<T>>, at: seq<(nat, nat)>, last: seq<T>, row: seq<(nat, nat)>)
    requires Places(flat, lists, at)
    requires |row| == |last| && forall j :: 0 <= j < |row| ==> row[j] == (|lists|, j)
    ensures Places(flat + last, lists + [last], at + row)
  {
    var all, more, places := flat + last, lists + [last], at + row;
    forall n | 0 <= n < |places|
      ensures places[n].0 < |more| && places[n].1 < |more[places[n].0]| && all[n] == more[places[n].0][places[n].1]
    {
      if n < |at| {
        assert places[n] == at[n] && more[at[n].0] == lists[at[n].0];
      } else {
        assert places[n] == row[n - |at|];
      }
    }
    forall m, n | 0 <= m < n < |places|
      ensures Earlier(places[m], places[n])
    {
      assert places[m] == if m < |at| then at[m] else row[m - |at|];
      assert places[n] == if n < |at| then at[n] else row[n - |at|];
    }
    forall i: nat, j: nat | i < |more| && j < |more[i]|
      ensures (i, j) in places
    {
      if i < |lists| {
        assert more[i] == lists[i] && (i, j) in at;
      } else {
        assert row[j] == (i, j) && places[|at| + j] == row[j];
      }
    }
  }

  // ----- Lists of lists of lists -----

  ghost predicate Earlier3(p: (nat, nat, nat), q: (nat, nat, nat)) {
    p.0 < q.0 || (p.0 == q.0 && (p.1 < q.1 || (p.1 == q.1 && p.2 < q.2)))
  }

  ghost predicate Places3<T>(flat: seq<T>, lists: seq<seq<seq<T>>>, at: seq<(nat, nat, nat)>) {
    && |at| == |flat|
    && (forall n :: 0 <= n < |at| ==>
          at[n].0 < |lists| && at[n].1 < |lists[at[n].0]| && at[n].2 < |lists[at[n].0][at[n].1]| &&
          flat[n] == lists[at[n].0][at[n].1][at[n].2])
    && (forall m, n :: 0 <= m < n < |at| ==> Earlier3(at[m], at[n]))
    && (forall i: nat, j: nat, k: nat :: i < |lists| && j < |lists[i]| && k < |lists[i][j]| ==> (i, j, k) in at)
  }

  ghost function Rows<T>(lists: seq<seq<seq<T>>>): (r: seq<seq<T>>)
    ensures |r| == |lists|
    ensures forall i :: 0 <= i < |lists| ==> r[i] == Concat(lists[i])
  {
    seq(|lists|, i requires 0 <= i < |lists| => Concat(lists[i]))
  }

  lemma RowPlaces<T>(lists: seq<seq<seq<T>>>) returns (within: seq<seq<(nat, nat)>>)
    ensures |within| == |lists|
    ensures forall i :: 0 <= i < |lists| ==> Places(Rows(lists)[i], lists[i], within[i])
  {
    within := [];
    for i := 0 to |lists|
      invariant |within| == i
      invariant forall k :: 0 <= k < i ==> Places(Rows(lists)[k], lists[k], within[k])
    {
      var at := ConcatPlaces(lists[i]);
      within := within + [at];
    }
  }

  lemma ConcatPlaces3<T>(lists: seq<seq<seq<T>>>) returns (at: seq<(nat, nat, nat)>)
    ensures Places3(Concat(Rows(lists)), lists, at)
  {
    var rows := Rows(lists);
    var outer := ConcatPlaces(rows);
    var within: seq<seq<(nat, nat)>> := RowPlaces(lists);
    at := seq(|outer|, n requires 0 <= n < |outer| =>
                var w: (nat, nat) := within[outer[n].0][outer[n].1]; (outer[n].0, w.0, w.1));
    PlacesNest(lists, outer, within, at);
  }

  lemma PlacesNest<T>(lists: seq<seq<seq<T>>>, outer: seq<(nat, nat)>, within: seq<seq<(nat, nat)>>,
                      at: seq<(nat, nat, nat)>)
    requires Places(Concat(Rows(lists)), Rows(lists), outer)
    requires |within| == |lists| && forall i :: 0 <= i < |lists| ==> Places(Rows(lists)[i], lists[i], within[i])
    requires |at| == |outer|
    requires forall n :: 0 <= n < |at| ==> outer[n].0 < |within| && outer[n].1 < |within[outer[n].0]|
    requires forall n :: 0 <= n < |at| ==> var w := within[outer[n].0][outer[n].1]; at[n] == (outer[n].0, w.0, w.1)
    ensures Places3(Concat(Rows(lists)), lists, at)
  {
    forall m, n | 0 <= m < n < |at|
      ensures Earlier3(at[m], at[n])
    {
      assert Earlier(outer[m], outer[n]);
      if outer[m].0 == outer[n].0 {
        assert Earlier(within[outer[m].0][outer[m].1], within[outer[m].0][outer[n].1]);
      }
    }
    forall i: nat, j: nat, k: nat | i < |lists| && j < |lists[i]| && k < |lists[i][j]|
      ensures (i, j, k) in at
    {
      assert (j, k) in within[i];
      var x :| 0 <= x < |within[i]| && within[i][x] == (j, k);
      assert (i, x) in outer;
      var n :| 0 <= n < |outer| && outer[n] == (i, x);
      assert at[n] == (i, j, k);
    }
  }
}
