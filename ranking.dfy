/** The descending sorts of data_matcher.py: `sorted(..., reverse=True)` in
    match_strategy and `list.sort(..., reverse=True)` in fuzzy_match.  Both
    are Python's stable sort, which keeps elements with equal keys in their
    input order even when reversing; here that sort is an insertion sort. */
module Ranking {

  /** A record index and the key it is sorted by (score or similarity). */
  datatype Scored = Scored(id: int, key: real)

  /** Non-increasing keys. */
  predicate Descending(s: seq<Scored>)
  {
    forall i, j :: 0 <= i < j < |s| ==> s[i].key >= s[j].key
  }

  /** Ids strictly increase along `s`. */
  predicate IdsAscending(s: seq<Scored>)
  {
    forall i, j :: 0 <= i < j < |s| ==> s[i].id < s[j].id
  }

  /** Among elements with equal keys, ids increase. */
  predicate TiesAscending(s: seq<Scored>)
  {
    forall i, j :: 0 <= i < j < |s| && s[i].key == s[j].key ==> s[i].id < s[j].id
  }

  /** No id occurs twice. */
  predicate IdsDistinct(s: seq<Scored>)
  {
    forall i, j :: 0 <= i < j < |s| ==> s[i].id != s[j].id
  }

  function Ids(s: seq<Scored>): set<int>
  {
    set x | x in s :: x.id
  }

  /** Place `x` after every leading element whose key is at least its own. */
  function Insert(x: Scored, s: seq<Scored>): seq<Scored>
  {
    if s == [] then [x]
    else if s[0].key >= x.key then [s[0]] + Insert(x, s[1..])
    else [x] + s
  }

  /** Stable sort by key, descending. */
  function SortDesc(xs: seq<Scored>): seq<Scored>
  {
    if xs == [] then []
    else Insert(xs[|xs| - 1], SortDesc(xs[..|xs| - 1]))
  }

  lemma {:induction false} InsertPermutes(x: Scored, s: seq<Scored>)
    ensures multiset(Insert(x, s)) == multiset(s) + multiset{x}
    decreases |s|
  {
    if s != [] && s[0].key >= x.key {
      InsertPermutes(x, s[1..]);
      assert s == [s[0]] + s[1..];
    }
  }

  lemma {:induction false} InsertDescending(x: Scored, s: seq<Scored>)
    requires Descending(s)
    ensures Descending(Insert(x, s))
    decreases |s|
  {
    if s != [] && s[0].key >= x.key {
      InsertDescending(x, s[1..]);
      InsertPermutes(x, s[1..]);
      var r := Insert(x, s[1..]);
      forall k | 0 <= k < |r|
        ensures s[0].key >= r[k].key
      {
        assert r[k] in multiset(r);
        if r[k] != x {
          assert r[k] in multiset(s[1..]);
        }
      }
    }
  }

  /** Inserting an element whose id exceeds every id present keeps ties in
      id order: equal keys already present stay in front of it. */
  lemma {:induction false} InsertTies(x: Scored, s: seq<Scored>)
    requires Descending(s) && TiesAscending(s)
    requires forall k :: 0 <= k < |s| ==> s[k].id < x.id
    ensures TiesAscending(Insert(x, s))
    decreases |s|
  {
    if s != [] && s[0].key >= x.key {
      InsertTies(x, s[1..]);
      InsertPermutes(x, s[1..]);
      var r := Insert(x, s[1..]);
      forall k | 0 <= k < |r| && s[0].key == r[k].key
        ensures s[0].id < r[k].id
      {
        assert r[k] in multiset(r);
        if r[k] != x {
          assert r[k] in multiset(s[1..]);
          var m :| 0 <= m < |s[1..]| && s[1..][m] == r[k];
          assert s[m + 1] == r[k];
        }
      }
    }
  }

  /** SortDesc returns its input reordered by non-increasing key. */
  lemma {:induction false} SortDescSpec(xs: seq<Scored>)
    ensures multiset(SortDesc(xs)) == multiset(xs)
    ensures Descending(SortDesc(xs))
    decreases |xs|
  {
    if xs != [] {
      var p := xs[..|xs| - 1];
      SortDescSpec(p);
      InsertPermutes(xs[|xs| - 1], SortDesc(p));
      InsertDescending(xs[|xs| - 1], SortDesc(p));
      assert xs == p + [xs[|xs| - 1]];
    }
  }

  /** Stability: when the input is in increasing id order (corpus order, or
      the ascending order matched ids are taken in), elements with equal keys
      come out in increasing id order. */
  lemma {:induction false} SortDescStable(xs: seq<Scored>)
    requires IdsAscending(xs)
    ensures TiesAscending(SortDesc(xs))
    decreases |xs|
  {
    if xs != [] {
      var p := xs[..|xs| - 1];
      var x := xs[|xs| - 1];
      SortDescStable(p);
      SortDescSpec(p);
      forall k | 0 <= k < |SortDesc(p)|
        ensures SortDesc(p)[k].id < x.id
      {
        assert SortDesc(p)[k] in multiset(p);
      }
      InsertTies(x, SortDesc(p));
    }
  }

  /** The sort neither adds nor drops elements. */
  lemma SortDescMembers(xs: seq<Scored>)
    ensures forall x :: x in SortDesc(xs) <==> x in xs
  {
    SortDescSpec(xs);
    assert forall x :: x in SortDesc(xs) <==> x in multiset(SortDesc(xs));
    assert forall x :: x in xs <==> x in multiset(xs);
  }

  /** The sort neither adds nor drops ids. */
  lemma SortDescIds(xs: seq<Scored>)
    ensures Ids(SortDesc(xs)) == Ids(xs) && |SortDesc(xs)| == |xs|
  {
    SortDescSpec(xs);
    assert forall x :: x in SortDesc(xs) <==> x in multiset(SortDesc(xs));
    assert forall x :: x in xs <==> x in multiset(xs);
  }

  lemma {:induction false} InsertIds(x: Scored, s: seq<Scored>)
    ensures Ids(Insert(x, s)) == Ids(s) + {x.id}
    decreases |s|
  {
    if s != [] && s[0].key >= x.key {
      InsertIds(x, s[1..]);
      assert s == [s[0]] + s[1..];
      assert Ids(s) == {s[0].id} + Ids(s[1..]);
      assert Ids([s[0]] + Insert(x, s[1..])) == {s[0].id} + Ids(Insert(x, s[1..]));
    } else if s != [] {
      assert Ids([x] + s) == {x.id} + Ids(s);
    }
  }

  lemma {:induction false} InsertDistinct(x: Scored, s: seq<Scored>)
    requires IdsDistinct(s) && x.id !in Ids(s)
    ensures IdsDistinct(Insert(x, s))
    decreases |s|
  {
    if s != [] {
      assert s[0] in s;
      if s[0].key >= x.key {
        assert forall k :: 0 < k < |s| ==> s[k] in s;
        assert forall k :: 0 < k < |s| ==> s[k] == s[1..][k - 1];
        assert x.id !in Ids(s[1..]) by {
          forall y | y in s[1..]
            ensures y.id != x.id
          {
            assert y in s;
          }
        }
        InsertDistinct(x, s[1..]);
        InsertIds(x, s[1..]);
        var r := Insert(x, s[1..]);
        forall k | 0 <= k < |r|
          ensures s[0].id != r[k].id
        {
          assert r[k] in r;
          assert r[k].id in Ids(r);
          if r[k].id in Ids(s[1..]) {
            var y :| y in s[1..] && y.id == r[k].id;
            var m :| 0 <= m < |s[1..]| && s[1..][m] == y;
            assert s[m + 1] == y;
          }
        }
      } else {
        forall k | 0 <= k < |s|
          ensures s[k].id != x.id
        {
          assert s[k] in s;
        }
      }
    }
  }

  /** Sorting keeps ids distinct when they are distinct in the input. */
  lemma {:induction false} SortDescDistinct(xs: seq<Scored>)
    requires IdsDistinct(xs)
    ensures IdsDistinct(SortDesc(xs))
    decreases |xs|
  {
    if xs != [] {
      var p := xs[..|xs| - 1];
      var x := xs[|xs| - 1];
      SortDescDistinct(p);
      SortDescIds(p);
      assert x.id !in Ids(p) by {
        forall y | y in p
          ensures y.id != x.id
        {
          var m :| 0 <= m < |p| && p[m] == y;
          assert xs[m] == y;
        }
      }
      InsertDistinct(x, SortDesc(p));
    }
  }
}
