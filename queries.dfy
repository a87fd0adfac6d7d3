/** What the query builder does for the read actions: rows in ascending id
    order, narrowed by a `where` condition. */
module Queries {

  predicate Increasing(s: seq<int>)
  {
    forall i, j :: 0 <= i < j < |s| ==> s[i] < s[j]
  }

  predicate IsLeast(m: int, s: set<int>)
  {
    m in s && forall x :: x in s ==> m <= x
  }

  lemma {:induction false} LeastExists(s: set<int>)
    requires s != {}
    ensures exists m :: IsLeast(m, s)
    decreases |s|
  {
    if forall x :: x !in s {
      assert false;
    }
    var y :| y in s;
    if s != {y} {
      LeastExists(s - {y});
      var m :| IsLeast(m, s - {y});
      var least := if y < m then y else m;
      forall x | x in s ensures least <= x {
        if x != y { assert x in s - {y}; }
      }
      assert IsLeast(least, s);
    } else {
      assert IsLeast(y, s);
    }
  }

  /** The ids of a table in ascending order, each exactly once. */
  function Ascending(s: set<int>): (r: seq<int>)
    ensures Increasing(r) && |r| == |s|
    ensures forall x :: x in r <==> x in s
    decreases |s|
  {
    if s == {} then []
    else
      LeastExists(s);
      var m :| IsLeast(m, s);
      [m] + Ascending(s - {m})
  }

  lemma LaterIsGreater(ids: seq<int>, x: int)
    requires Increasing(ids) && |ids| > 0 && x in ids[1..]
    ensures ids[0] < x
  {
    var k :| 0 <= k < |ids[1..]| && ids[1..][k] == x;
    assert ids[k + 1] == x;
  }

  lemma ConsIncreasing(a: int, rest: seq<int>)
    requires Increasing(rest) && forall x :: x in rest ==> a < x
    ensures Increasing([a] + rest)
  {
    var s := [a] + rest;
    forall i, j | 0 <= i < j < |s| ensures s[i] < s[j] {
      assert s[j] == rest[j - 1] && rest[j - 1] in rest;
      if i > 0 { assert s[i] == rest[i - 1]; }
    }
  }

  /** `where`: the ids for which `p` holds, in their original order. */
  function Where(ids: seq<int>, p: int -> bool): (r: seq<int>)
    ensures forall x :: x in r <==> x in ids && p(x)
    ensures Increasing(ids) ==> Increasing(r)
    ensures |r| <= |ids|
  {
    if ids == [] then []
    else if p(ids[0]) then
      var rest := Where(ids[1..], p);
      assert Increasing(ids) ==> Increasing([ids[0]] + rest) by {
        if Increasing(ids) {
          forall x | x in rest ensures ids[0] < x { LaterIsGreater(ids, x); }
          assert Increasing(ids[1..]);
          ConsIncreasing(ids[0], rest);
        }
      }
      [ids[0]] + rest
    else Where(ids[1..], p)
  }

  /** `r` lists the rows of `table`, each with its id, every row at least once,
      in strictly ascending id order. */
  ghost predicate ListsRows<T>(r: seq<(int, T)>, table: map<int, T>)
  {
    && (forall k :: 0 <= k < |r| ==> r[k].0 in table && r[k].1 == table[r[k].0])
    && (forall id :: id in table ==> exists k :: 0 <= k < |r| && r[k].0 == id)
    && (forall j, k :: 0 <= j < k < |r| ==> r[j].0 < r[k].0)
  }

  /** Every row of a table, with its id, in ascending id order. */
  function Rows<T>(table: map<int, T>): (r: seq<(int, T)>)
    ensures |r| == |table| && ListsRows(r, table)
  {
    var ids := Ascending(table.Keys);
    var r := RowsOf(ids, table);
    RowsFollowIds(table, ids, r);
    r
  }

  function RowsOf<T>(ids: seq<int>, table: map<int, T>): (r: seq<(int, T)>)
    requires forall k :: 0 <= k < |ids| ==> ids[k] in table
    ensures |r| == |ids| && forall k :: 0 <= k < |r| ==> r[k].0 == ids[k] && r[k].1 == table[ids[k]]
  {
    if ids == [] then [] else [(ids[0], table[ids[0]])] + RowsOf(ids[1..], table)
  }

  lemma RowsFollowIds<T>(table: map<int, T>, ids: seq<int>, r: seq<(int, T)>)
    requires Increasing(ids) && |ids| == |table.Keys| && forall x :: x in ids <==> x in table
    requires |r| == |ids| && forall k :: 0 <= k < |r| ==> r[k].0 == ids[k] && ids[k] in table && r[k].1 == table[ids[k]]
    ensures |r| == |table| && ListsRows(r, table)
  {
    assert |table.Keys| == |table|;
    forall id | id in table ensures exists k :: 0 <= k < |r| && r[k].0 == id {
      var k :| 0 <= k < |ids| && ids[k] == id;
      assert r[k].0 == id;
    }
  }
}
