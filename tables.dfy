/** Table semantics of the statements the repositories issue: a table is the
    sequence of its rows in storage order, and each SQL clause is a function
    on such sequences. */
module Tables {

  datatype Option<T> = None | Some(value: T)

  /** `WHERE p`: the rows satisfying `p`, in table order. */
  function Filter<T(!new)>(s: seq<T>, p: T -> bool): (r: seq<T>)
    ensures |r| <= |s|
    ensures forall x :: x in r <==> x in s && p(x)
  {
    if s == [] then []
    else (if p(s[0]) then [s[0]] else []) + Filter(s[1..], p)
  }

  /** Filtering processes the table row by row, so it keeps the table order. */
  lemma {:induction false} FilterAppend<T(!new)>(a: seq<T>, b: seq<T>, p: T -> bool)
    ensures Filter(a + b, p) == Filter(a, p) + Filter(b, p)
  {
    if a == [] {
      assert a + b == b;
    } else {
      assert (a + b)[0] == a[0];
      assert (a + b)[1..] == a[1..] + b;
      FilterAppend(a[1..], b, p);
    }
  }

  /** A WHERE clause that no row passes returns nothing. */
  lemma {:induction false} FilterNone<T(!new)>(s: seq<T>, p: T -> bool)
    requires forall i :: 0 <= i < |s| ==> !p(s[i])
    ensures Filter(s, p) == []
  {
    if s != [] {
      FilterNone(s[1..], p);
    }
  }

  /** The negation of a WHERE clause: the rows a DELETE keeps. */
  function Not<T>(p: T -> bool): T -> bool {
    x => !p(x)
  }

  /** A DELETE splits the table into the rows it removes and the rows it keeps. */
  lemma {:induction false} FilterComplement<T(!new)>(s: seq<T>, p: T -> bool)
    ensures |Filter(s, p)| + |Filter(s, Not(p))| == |s|
  {
    if s != [] {
      FilterComplement(s[1..], p);
    }
  }

  /** `SELECT columns ... WHERE p`: every row satisfying `p` shows up through
      `view`, and every result is the view of such a row. */
  function Select<T(!new), R>(s: seq<T>, p: T -> bool, view: T -> R): (r: seq<R>)
    ensures |r| <= |s|
    ensures forall x :: x in s && p(x) ==> view(x) in r
    ensures forall y :: y in r ==> exists x :: x in s && p(x) && y == view(x)
  {
    if s == [] then []
    else (if p(s[0]) then [view(s[0])] else []) + Select(s[1..], p, view)
  }

  /** `SELECT columns FROM a JOIN b ON on`: a nested loop over the rows of `a`
      and, for each, the rows of `b`, keeping the pairs that satisfy `on` (the
      join condition together with the WHERE clause). */
  function JoinSelect<A(!new), B(!new), R>(left: seq<A>, right: seq<B>, on: (A, B) -> bool, view: (A, B) -> R): (r: seq<R>)
    ensures forall a, b :: a in left && b in right && on(a, b) ==> view(a, b) in r
    ensures forall y :: y in r ==> exists a, b :: a in left && b in right && on(a, b) && y == view(a, b)
  {
    if left == [] then []
    else PairsWith(left[0], right, on, view) + JoinSelect(left[1..], right, on, view)
  }

  /** The joined rows contributed by the single left-hand row `a`. */
  function PairsWith<A, B(!new), R>(a: A, bs: seq<B>, on: (A, B) -> bool, view: (A, B) -> R): (r: seq<R>)
    ensures forall b :: b in bs && on(a, b) ==> view(a, b) in r
    ensures forall y :: y in r ==> exists b :: b in bs && on(a, b) && y == view(a, b)
  {
    if bs == [] then []
    else (if on(a, bs[0]) then [view(a, bs[0])] else []) + PairsWith(a, bs[1..], on, view)
  }

  /** A join condition that no pair of rows meets yields nothing. */
  lemma {:induction false} JoinSelectNone<A(!new), B(!new), R>(left: seq<A>, right: seq<B>, on: (A, B) -> bool, view: (A, B) -> R)
    requires forall i, j :: 0 <= i < |left| && 0 <= j < |right| ==> !on(left[i], right[j])
    ensures JoinSelect(left, right, on, view) == []
  {
    if left != [] {
      PairsWithNone(left[0], right, on, view);
      JoinSelectNone(left[1..], right, on, view);
    }
  }

  lemma {:induction false} PairsWithNone<A, B(!new), R>(a: A, bs: seq<B>, on: (A, B) -> bool, view: (A, B) -> R)
    requires forall j :: 0 <= j < |bs| ==> !on(a, bs[j])
    ensures PairsWith(a, bs, on, view) == []
  {
    if bs != [] {
      PairsWithNone(a, bs[1..], on, view);
    }
  }

  /** `LIMIT n`. */
  function Limit<T>(s: seq<T>, n: nat): (r: seq<T>)
    ensures |r| <= n && |r| <= |s|
    ensures r <= s && forall x :: x in r ==> x in s
    ensures |s| <= n ==> r == s
  {
    if |s| <= n then s else s[..n]
  }

  /** `UPDATE ... SET f WHERE p`: every matching row is rewritten by `f`,
      every other row stays as it was, and the table keeps its order. */
  function Update<T>(s: seq<T>, p: T -> bool, f: T -> T): (r: seq<T>)
  {
    seq(|s|, i requires 0 <= i < |s| => if p(s[i]) then f(s[i]) else s[i])
  }

  /** `UPDATE ... SET f WHERE p LIMIT 1`: only the first matching row is
      rewritten. */
  function UpdateFirst<T>(s: seq<T>, p: T -> bool, f: T -> T): (r: seq<T>)
    ensures |r| == |s|
    ensures forall i :: 0 <= i < |s| ==> r[i] == s[i] || (p(s[i]) && r[i] == f(s[i]))
    ensures forall i, j :: 0 <= i < j < |s| && r[i] != s[i] ==> r[j] == s[j]
    ensures forall i :: 0 <= i < |s| && p(s[i]) && (forall j :: 0 <= j < i ==> !p(s[j])) ==> r[i] == f(s[i])
  {
    if s == [] then []
    else if p(s[0]) then [f(s[0])] + s[1..]
    else
      var t := UpdateFirst(s[1..], p, f);
      assert forall i :: 0 < i < |s| ==> ([s[0]] + t)[i] == t[i - 1] && s[i] == s[1..][i - 1];
      [s[0]] + t
  }

  /** When at most one row matches, `LIMIT 1` makes no difference. */
  lemma {:induction false} UpdateFirstIsUpdate<T(!new)>(s: seq<T>, p: T -> bool, f: T -> T)
    requires |Filter(s, p)| <= 1
    ensures UpdateFirst(s, p, f) == Update(s, p, f)
  {
    if s != [] {
      if p(s[0]) {
        assert s[0] in Filter(s, p);
        assert Filter(s, p) == [s[0]] + Filter(s[1..], p);
        NoMatchNoUpdate(s[1..], p, f);
      } else {
        assert Filter(s, p) == Filter(s[1..], p);
        UpdateFirstIsUpdate(s[1..], p, f);
        assert Update(s, p, f) == [s[0]] + Update(s[1..], p, f);
      }
    }
  }

  /** An UPDATE whose WHERE clause matches nothing leaves the table as it was. */
  lemma NoMatchNoUpdate<T(!new)>(s: seq<T>, p: T -> bool, f: T -> T)
    requires Filter(s, p) == []
    ensures Update(s, p, f) == s
  {
    forall i | 0 <= i < |s|
      ensures !p(s[i])
    {
      assert s[i] in s && s[i] !in Filter(s, p);
    }
  }

  /** Applying an update a second time changes nothing when the rewritten
      rows no longer match the WHERE clause. */
  lemma UpdateIdempotent<T>(s: seq<T>, p: T -> bool, f: T -> T)
    requires forall x :: p(x) ==> !p(f(x))
    ensures Update(Update(s, p, f), p, f) == Update(s, p, f)
  {
  }

  /** No two rows share a key (a primary-key column). */
  predicate UniqueKeys<T>(s: seq<T>, key: T -> int) {
    forall i, j :: 0 <= i < j < |s| ==> key(s[i]) != key(s[j])
  }

  /** Deleting rows keeps keys unique. */
  lemma {:induction false} FilterKeepsUniqueKeys<T(!new)>(s: seq<T>, p: T -> bool, key: T -> int)
    requires UniqueKeys(s, key)
    ensures UniqueKeys(Filter(s, p), key)
  {
    if s != [] {
      var tail := Filter(s[1..], p);
      FilterKeepsUniqueKeys(s[1..], p, key);
      forall x | x in tail
        ensures key(x) != key(s[0])
      {
        var j :| 0 <= j < |s[1..]| && s[1..][j] == x;
        assert s[j + 1] == x;
      }
      if p(s[0]) {
        var r := [s[0]] + tail;
        forall i, j | 0 <= i < j < |r|
          ensures key(r[i]) != key(r[j])
        {
          if i == 0 {
            assert r[j] == tail[j - 1];
            assert r[j] in tail;
          } else {
            assert r[i] == tail[i - 1] && r[j] == tail[j - 1];
          }
        }
      }
    }
  }

  /** A WHERE clause that fixes the primary key matches at most one row. */
  lemma {:induction false} AtMostOneWithKey<T(!new)>(s: seq<T>, key: T -> int, k: int, p: T -> bool)
    requires UniqueKeys(s, key)
    requires forall x :: p(x) ==> key(x) == k
    ensures |Filter(s, p)| <= 1
  {
    if s != [] {
      assert UniqueKeys(s[1..], key) by {
        forall i, j | 0 <= i < j < |s[1..]|
          ensures key(s[1..][i]) != key(s[1..][j])
        {
          assert s[1..][i] == s[i + 1] && s[1..][j] == s[j + 1];
        }
      }
      AtMostOneWithKey(s[1..], key, k, p);
      if p(s[0]) {
        forall j | 0 <= j < |s[1..]|
          ensures !p(s[1..][j])
        {
          assert s[1..][j] == s[j + 1];
        }
        FilterNone(s[1..], p);
      }
    }
  }

  /** Rewriting rows without touching their keys keeps keys unique. */
  lemma UpdateKeepsKeys<T>(s: seq<T>, p: T -> bool, f: T -> T, key: T -> int)
    requires UniqueKeys(s, key)
    requires forall x :: key(f(x)) == key(x)
    ensures UniqueKeys(Update(s, p, f), key)
    ensures forall i :: 0 <= i < |s| ==> key(Update(s, p, f)[i]) == key(s[i])
  {
  }
}
