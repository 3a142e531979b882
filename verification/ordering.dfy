/** What ORDER BY, LIMIT and OFFSET do to a list of rows: a comparison of
    text columns, a sort on a chosen comparison, the scan order of a table by
    primary key, and the cut of one page out of a sorted list. */
module Ordering {

  /** Text order on code points, as the C collation compares. */
  predicate LexLe(s: string, t: string)
    decreases |s|
  {
    s == [] || (t != [] && (s[0] < t[0] || (s[0] == t[0] && LexLe(s[1..], t[1..]))))
  }

  lemma {:induction false} LexLeTotal(s: string, t: string)
    ensures LexLe(s, t) || LexLe(t, s)
    decreases |s|
  {
    if s != [] && t != [] && s[0] == t[0] {
      LexLeTotal(s[1..], t[1..]);
    }
  }

  lemma {:induction false} LexLeTransitive(s: string, t: string, u: string)
    requires LexLe(s, t) && LexLe(t, u)
    ensures LexLe(s, u)
    decreases |s|
  {
    if s != [] && s[0] == t[0] && t[0] == u[0] {
      LexLeTransitive(s[1..], t[1..], u[1..]);
    }
  }

  /** `le` is a comparison a sort can use: any two rows compare, and it chains. */
  ghost predicate TotalPreorder<T(!new)>(le: (T, T) -> bool) {
    && (forall a, b :: le(a, b) || le(b, a))
    && (forall a, b, c :: le(a, b) && le(b, c) ==> le(a, c))
  }

  ghost predicate Sorted<T>(le: (T, T) -> bool, s: seq<T>) {
    forall i, j :: 0 <= i < j < |s| ==> le(s[i], s[j])
  }

  /** Puts `x` in front of the first row it may precede. */
  function Insert<T>(le: (T, T) -> bool, x: T, s: seq<T>): (r: seq<T>)
    ensures multiset(r) == multiset(s) + multiset{x}
  {
    if s == [] || le(x, s[0]) then [x] + s
    else
      assert s == [s[0]] + s[1..];
      [s[0]] + Insert(le, x, s[1..])
  }

  lemma {:induction false} InsertSorted<T(!new)>(le: (T, T) -> bool, x: T, s: seq<T>)
    requires TotalPreorder(le) && Sorted(le, s)
    ensures Sorted(le, Insert(le, x, s))
  {
    if s != [] && !le(x, s[0]) {
      var rest := Insert(le, x, s[1..]);
      InsertSorted(le, x, s[1..]);
      assert le(s[0], x);
      forall k | 0 <= k < |rest|
        ensures le(s[0], rest[k])
      {
        assert rest[k] in multiset(rest);
        assert rest[k] == x || rest[k] in multiset(s[1..]);
        if rest[k] != x {
          var m :| 0 <= m < |s[1..]| && s[1..][m] == rest[k];
          assert s[1 + m] == rest[k];
        }
      }
      assert Insert(le, x, s) == [s[0]] + rest;
    }
  }

  /** A stable insertion sort: rows that compare both ways keep their order. */
  function Sort<T>(le: (T, T) -> bool, s: seq<T>): (r: seq<T>)
    ensures multiset(r) == multiset(s)
    ensures |r| == |s|
  {
    if s == [] then []
    else
      assert s == [s[0]] + s[1..];
      Insert(le, s[0], Sort(le, s[1..]))
  }

  lemma SortKeepsRows<T>(le: (T, T) -> bool, s: seq<T>)
    ensures forall x :: x in Sort(le, s) <==> x in s
  {
    var r := Sort(le, s);
    forall x
      ensures x in r <==> x in s
    {
      assert x in r <==> x in multiset(r);
      assert x in s <==> x in multiset(s);
    }
  }

  lemma {:induction false} SortSorted<T(!new)>(le: (T, T) -> bool, s: seq<T>)
    requires TotalPreorder(le)
    ensures Sorted(le, Sort(le, s))
  {
    if s != [] {
      SortSorted(le, s[1..]);
      InsertSorted(le, s[0], Sort(le, s[1..]));
    }
  }

  lemma {:induction false} HasMinimum(s: set<int>)
    requires s != {}
    ensures exists m :: m in s && forall x :: x in s ==> m <= x
    decreases |s|
  {
    if forall x :: x !in s {
      assert false;
    }
    var y :| y in s;
    var rest := s - {y};
    if rest == {} {
      forall x | x in s
        ensures y <= x
      {
        assert x !in rest;
      }
    } else {
      HasMinimum(rest);
      var m :| m in rest && forall x :: x in rest ==> m <= x;
      var least := if y < m then y else m;
      forall x | x in s
        ensures least <= x
      {
        if x != y {
          assert x in rest;
        }
      }
      assert least in s;
    }
  }

  /** The smallest key of a non-empty set of keys. */
  function Least(s: set<int>): (m: int)
    requires s != {}
    ensures m in s && forall x :: x in s ==> m <= x
  {
    HasMinimum(s);
    var m :| m in s && forall x :: x in s ==> m <= x;
    m
  }

  /** A table scanned in primary-key order. */
  function SortedIds(s: set<int>): (r: seq<int>)
    ensures |r| == |s|
    ensures forall x :: x in r <==> x in s
    ensures forall i, j :: 0 <= i < j < |r| ==> r[i] < r[j]
    decreases |s|
  {
    if s == {} then []
    else
      var m := Least(s);
      var rest := SortedIds(s - {m});
      assert forall x :: x in rest ==> m < x;
      [m] + rest
  }

  /** The OFFSET of page `page` when pages hold `limit` rows. */
  function Offset(limit: nat, page: int): (off: nat)
    requires page >= 1
  {
    (page - 1) * limit
  }

  /** LIMIT `limit` OFFSET (`page` - 1) * `limit`. */
  function Paginate<T>(s: seq<T>, limit: nat, page: int): (r: seq<T>)
    requires limit > 0 && page >= 1
    ensures |r| <= limit
    ensures Offset(limit, page) >= |s| ==> r == []
    ensures Offset(limit, page) + limit <= |s| ==> |r| == limit
    ensures Offset(limit, page) < |s| < Offset(limit, page) + limit ==> |r| == |s| - Offset(limit, page)
    ensures forall i :: 0 <= i < |r| ==> Offset(limit, page) + i < |s| && r[i] == s[Offset(limit, page) + i]
  {
    var off := Offset(limit, page);
    if off >= |s| then []
    else if off + limit <= |s| then s[off..off + limit]
    else s[off..]
  }

  /** Every row of a list lies on exactly the page its position names. */
  lemma PageHolds<T>(s: seq<T>, limit: nat, k: nat)
    requires limit > 0 && k < |s|
    ensures Offset(limit, k / limit + 1) == k - k % limit
    ensures k % limit < |Paginate(s, limit, k / limit + 1)|
    ensures Paginate(s, limit, k / limit + 1)[k % limit] == s[k]
  {
    assert Offset(limit, k / limit + 1) == (k / limit) * limit;
    assert k == (k / limit) * limit + k % limit;
  }

  lemma PageOfSorted<T>(le: (T, T) -> bool, s: seq<T>, limit: nat, page: int)
    requires limit > 0 && page >= 1
    requires Sorted(le, s)
    ensures Sorted(le, Paginate(s, limit, page))
  {
    var r := Paginate(s, limit, page);
    var off := Offset(limit, page);
    forall i, j | 0 <= i < j < |r|
      ensures le(r[i], r[j])
    {
      assert r[i] == s[off + i] && r[j] == s[off + j];
    }
  }
}
