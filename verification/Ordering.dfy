/** The order on Go strings and the sorting of control ids.

    A string is a sequence of Unicode scalar values. Go compares the UTF-8 bytes; for
    valid UTF-8 that is the same order as comparing the scalar values one by one. */
module Ordering {

  // ----- Go's `<` on strings -----

  predicate Less(a: string, b: string) {
    b != [] && (a == [] || a[0] < b[0] || (a[0] == b[0] && Less(a[1..], b[1..])))
  }

  lemma {:induction false} LessTotal(a: string, b: string)
    ensures Less(a, b) || a == b || Less(b, a)
  {
    if a != [] && b != [] && a[0] == b[0] {
      LessTotal(a[1..], b[1..]);
      assert a == [a[0]] + a[1..] && b == [b[0]] + b[1..];
    }
  }

  lemma {:induction false} LessTransitive(a: string, b: string, c: string)
    requires Less(a, b) && Less(b, c)
    ensures Less(a, c)
  {
    if a != [] && a[0] == b[0] && b[0] == c[0] {
      LessTransitive(a[1..], b[1..], c[1..]);
    }
  }

  lemma {:induction false} LessIrreflexive(a: string)
    ensures !Less(a, a)
  {
    if a != [] {
      LessIrreflexive(a[1..]);
    }
  }

  // Which order this is: at the first position where the strings differ, the smaller one has the
  // smaller character, or has ended.
  lemma LessMeaning(a: string, b: string)
    ensures Less(a, b) <==>
            exists k: nat :: k <= |a| && k <= |b| && a[..k] == b[..k] &&
              ((k == |a| && k < |b|) || (k < |a| && k < |b| && a[k] < b[k]))
  {
    if Less(a, b) {
      var k := LessAt(a, b);
    }
    forall k: nat | k <= |a| && k <= |b| && a[..k] == b[..k]
      ensures (k == |a| && k < |b|) || (k < |a| && k < |b| && a[k] < b[k]) ==> Less(a, b)
    {
      if (k == |a| && k < |b|) || (k < |a| && k < |b| && a[k] < b[k]) {
        LessFrom(a, b, k);
      }
    }
  }

  lemma {:induction false} LessAt(a: string, b: string) returns (k: nat)
    requires Less(a, b)
    ensures k <= |a| && k <= |b| && a[..k] == b[..k]
    ensures (k == |a| && k < |b|) || (k < |a| && k < |b| && a[k] < b[k])
  {
    if a == [] || a[0] < b[0] {
      k := 0;
    } else {
      k := LessAt(a[1..], b[1..]);
      assert a[..k + 1] == [a[0]] + a[1..][..k] && b[..k + 1] == [b[0]] + b[1..][..k];
      k := k + 1;
    }
  }

  lemma {:induction false} LessFrom(a: string, b: string, k: nat)
    requires k <= |a| && k <= |b| && a[..k] == b[..k]
    requires (k == |a| && k < |b|) || (k < |a| && k < |b| && a[k] < b[k])
    ensures Less(a, b)
  {
    if k > 0 {
      assert a[0] == a[..k][0] == b[..k][0] == b[0];
      assert a[1..][..k - 1] == a[..k][1..] == b[..k][1..] == b[1..][..k - 1];
      LessFrom(a[1..], b[1..], k - 1);
    }
  }

  // ----- Strictly ascending lists -----

  ghost predicate StrictlyAscending(ids: seq<string>) {
    forall i, j :: 0 <= i < j < |ids| ==> Less(ids[i], ids[j])
  }

  ghost function Elements(s: seq<string>): (r: set<string>)
    ensures forall x :: x in r <==> x in s
  {
    set x | x in s
  }

  // Two strictly ascending lists with the same elements are the same list.
  lemma {:induction false} AscendingUnique(p: seq<string>, q: seq<string>)
    requires StrictlyAscending(p) && StrictlyAscending(q)
    requires Elements(p) == Elements(q)
    ensures p == q
  {
    assert q == [] || q[0] in Elements(q);
    if p != [] {
      assert p[0] in Elements(p) && p[0] in Elements(q);
      assert q != [] && q[0] in Elements(q) && q[0] in Elements(p);
      HeadIsLeast(p, q[0]);
      HeadIsLeast(q, p[0]);
      if p[0] != q[0] {
        LessTransitive(p[0], q[0], p[0]);
        LessIrreflexive(p[0]);
      }
      TailElements(p);
      TailElements(q);
      AscendingUnique(p[1..], q[1..]);
      assert p == [p[0]] + p[1..] && q == [q[0]] + q[1..];
    }
  }

  lemma HeadIsLeast(p: seq<string>, x: string)
    requires StrictlyAscending(p) && x in p
    ensures p[0] == x || Less(p[0], x)
  {
    var i :| 0 <= i < |p| && p[i] == x;
  }

  lemma TailElements(p: seq<string>)
    requires StrictlyAscending(p) && p != []
    ensures StrictlyAscending(p[1..])
    ensures Elements(p[1..]) == Elements(p) - {p[0]}
  {
    LessIrreflexive(p[0]);
    forall x | x in p && x != p[0]
      ensures x in p[1..]
    {
      var i :| 0 <= i < |p| && p[i] == x;
      assert p[1..][i - 1] == x;
    }
  }

  // ----- Inserting at the right place -----

  function Insert(x: string, ids: seq<string>): (r: seq<string>)
    ensures Elements(r) == Elements(ids) + {x}
  {
    if ids == [] || Less(x, ids[0]) then
      [x] + ids
    else
      var r := [ids[0]] + Insert(x, ids[1..]);
      assert forall y :: y in ids <==> y == ids[0] || y in ids[1..];
      r
  }

  lemma {:induction false} InsertAscending(x: string, ids: seq<string>)
    requires StrictlyAscending(ids) && x !in ids
    ensures StrictlyAscending(Insert(x, ids))
  {
    if ids == [] {
    } else if Less(x, ids[0]) {
      forall j | 0 <= j < |ids|
        ensures Less(x, ids[j])
      {
        if j > 0 {
          LessTransitive(x, ids[0], ids[j]);
        }
      }
    } else {
      LessTotal(x, ids[0]);
      assert Less(ids[0], x);
      TailElements(ids);
      assert x !in ids[1..];
      InsertAscending(x, ids[1..]);
      var t := Insert(x, ids[1..]);
      forall j | 0 <= j < |t|
        ensures Less(ids[0], t[j])
      {
        assert t[j] in Elements(t);
        if t[j] != x {
          assert t[j] in Elements(ids[1..]);
          HeadIsLeast(ids, t[j]);
        }
      }
    }
  }

  // ----- The list of a set of ids -----

  lemma {:induction false} AscendingExists(s: set<string>)
    ensures exists ids :: StrictlyAscending(ids) && Elements(ids) == s
  {
    if s == {} {
      assert StrictlyAscending([]) && Elements([]) == s;
    } else {
      var x :| x in s;
      AscendingExists(s - {x});
      var ids :| StrictlyAscending(ids) && Elements(ids) == s - {x};
      assert x !in ids;
      InsertAscending(x, ids);
      assert Elements(Insert(x, ids)) == s;
    }
  }

  // The one strictly ascending list of the ids in s.
  ghost function Ascending(s: set<string>): (ids: seq<string>)
    ensures StrictlyAscending(ids) && Elements(ids) == s
  {
    AscendingExists(s);
    var ids :| StrictlyAscending(ids) && Elements(ids) == s;
    ids
  }

  // sort.Slice on a slice of distinct ids.
  method SortIds(ids: seq<string>) returns (sorted: seq<string>)
    requires forall i, j :: 0 <= i < j < |ids| ==> ids[i] != ids[j]
    ensures sorted == Ascending(Elements(ids))
    ensures |sorted| == |ids|
  {
    sorted := [];
    for k := 0 to |ids|
      invariant StrictlyAscending(sorted)
      invariant Elements(sorted) == Elements(ids[..k])
      invariant |sorted| == k
    {
      assert ids[k] !in ids[..k];
      assert ids[k] !in Elements(sorted);
      InsertAscending(ids[k], sorted);
      InsertLength(ids[k], sorted);
      sorted := Insert(ids[k], sorted);
      assert ids[..k + 1] == ids[..k] + [ids[k]];
    }
    assert ids[..|ids|] == ids;
    AscendingUnique(sorted, Ascending(Elements(ids)));
  }

  lemma InsertLength(x: string, ids: seq<string>)
    ensures |Insert(x, ids)| == |ids| + 1
  {
  }
}
