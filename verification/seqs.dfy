/** Keyed selection over the sequences that stand for the datastore's tables.

    Every read filtered on a column's value and every such filtered delete of the
    handlers is one `Where` over a table, keyed by a named column function. */
module Seqs {

  /** The rows of `s` whose `key` equals `k` (when `matching`) or differs from
      `k` (otherwise), in their stored order. */
  function Where<T(!new), K(==)>(s: seq<T>, key: T -> K, k: K, matching: bool): (r: seq<T>)
    ensures |r| <= |s|
    ensures forall x :: x in r <==> x in s && (key(x) == k) == matching
  {
    if |s| == 0 then []
    else if (key(s[0]) == k) == matching then [s[0]] + Where(s[1..], key, k, matching)
    else Where(s[1..], key, k, matching)
  }

  /** A filtered read: the rows whose key is `k`. */
  function Select<T(!new), K(==)>(s: seq<T>, key: T -> K, k: K): (r: seq<T>)
    ensures forall x :: x in r <==> x in s && key(x) == k
  {
    Where(s, key, k, true)
  }

  /** A filtered delete: the rows that remain, those whose key is not `k`. */
  function Without<T(!new), K(==)>(s: seq<T>, key: T -> K, k: K): (r: seq<T>)
    ensures forall x :: x in r <==> x in s && key(x) != k
  {
    Where(s, key, k, false)
  }

  /** Strictly increasing in `f` along the sequence: the order of an
      append-only table under a monotone counter. */
  ghost predicate Increasing<T>(s: seq<T>, f: T -> nat) {
    forall i, j :: 0 <= i < j < |s| ==> f(s[i]) < f(s[j])
  }

  /** Strictly decreasing in `f` along the sequence. */
  ghost predicate Decreasing<T>(s: seq<T>, f: T -> nat) {
    forall i, j :: 0 <= i < j < |s| ==> f(s[i]) > f(s[j])
  }

  /** No two rows share a key: a unique constraint on the column `key`. */
  ghost predicate Distinct<T, K>(s: seq<T>, key: T -> K) {
    forall i, j :: 0 <= i < j < |s| ==> key(s[i]) != key(s[j])
  }

  /** The sequence in reverse order. */
  function Reverse<T>(s: seq<T>): (r: seq<T>)
    ensures |r| == |s|
    ensures forall i :: 0 <= i < |s| ==> r[i] == s[|s| - 1 - i]
  {
    if |s| == 0 then [] else Reverse(s[1..]) + [s[0]]
  }

  lemma IncreasingCons<T>(a: T, u: seq<T>, f: T -> nat)
    requires Increasing(u, f)
    requires forall y :: y in u ==> f(a) < f(y)
    ensures Increasing([a] + u, f)
  {
    var s := [a] + u;
    forall i, j | 0 <= i < j < |s|
      ensures f(s[i]) < f(s[j])
    {
      assert s[j] == u[j - 1];
      if i > 0 {
        assert s[i] == u[i - 1];
      } else {
        assert s[j] in u;
      }
    }
  }

  lemma IncreasingTail<T>(s: seq<T>, f: T -> nat)
    requires |s| > 0
    requires Increasing(s, f)
    ensures Increasing(s[1..], f)
    ensures forall y :: y in s[1..] ==> f(s[0]) < f(y)
  {
    forall y | y in s[1..]
      ensures f(s[0]) < f(y)
    {
      var m :| 0 <= m < |s[1..]| && s[1..][m] == y;
      assert s[m + 1] == y;
    }
  }

  /** Selecting rows keeps an increasing table increasing. */
  lemma {:induction false} WhereIncreasing<T(!new), K>(s: seq<T>, key: T -> K, k: K, matching: bool, f: T -> nat)
    requires Increasing(s, f)
    ensures Increasing(Where(s, key, k, matching), f)
  {
    if |s| > 0 {
      IncreasingTail(s, f);
      WhereIncreasing(s[1..], key, k, matching, f);
      if (key(s[0]) == k) == matching {
        IncreasingCons(s[0], Where(s[1..], key, k, matching), f);
      }
    }
  }

  /** A table increasing in `f` holds no two rows with the same `f`. */
  lemma IncreasingDistinct<T>(s: seq<T>, f: T -> nat)
    requires Increasing(s, f)
    ensures Distinct(s, f)
  {
  }

  lemma DistinctTail<T, K>(s: seq<T>, key: T -> K)
    requires |s| > 0
    requires Distinct(s, key)
    ensures Distinct(s[1..], key)
    ensures forall y :: y in s[1..] ==> key(y) != key(s[0])
  {
    forall y | y in s[1..]
      ensures key(y) != key(s[0])
    {
      var m :| 0 <= m < |s[1..]| && s[1..][m] == y;
      assert s[m + 1] == y;
    }
  }

  lemma DistinctCons<T, K>(a: T, u: seq<T>, key: T -> K)
    requires Distinct(u, key)
    requires forall y :: y in u ==> key(y) != key(a)
    ensures Distinct([a] + u, key)
  {
    var s := [a] + u;
    forall i, j | 0 <= i < j < |s|
      ensures key(s[i]) != key(s[j])
    {
      assert s[j] == u[j - 1];
      if i > 0 {
        assert s[i] == u[i - 1];
      } else {
        assert s[j] in u;
      }
    }
  }

  /** Selecting rows keeps a unique column unique. */
  lemma {:induction false} WhereDistinct<T(!new), K, L>(s: seq<T>, key: T -> K, k: K, matching: bool, unique: T -> L)
    requires Distinct(s, unique)
    ensures Distinct(Where(s, key, k, matching), unique)
  {
    if |s| > 0 {
      DistinctTail(s, unique);
      WhereDistinct(s[1..], key, k, matching, unique);
      if (key(s[0]) == k) == matching {
        DistinctCons(s[0], Where(s[1..], key, k, matching), unique);
      }
    }
  }

  /** Appending a row whose key is new keeps the column unique. */
  lemma DistinctAppend<T, K>(s: seq<T>, x: T, key: T -> K)
    requires Distinct(s, key)
    requires forall y :: y in s ==> key(y) != key(x)
    ensures Distinct(s + [x], key)
  {
    var t := s + [x];
    forall i, j | 0 <= i < j < |t|
      ensures key(t[i]) != key(t[j])
    {
      if j == |s| {
        assert t[i] == s[i];
        assert t[i] in s;
      } else {
        assert t[i] == s[i] && t[j] == s[j];
      }
    }
  }

  /** Appending a row above every existing value keeps the table increasing. */
  lemma IncreasingAppend<T>(s: seq<T>, x: T, f: T -> nat)
    requires Increasing(s, f)
    requires forall y :: y in s ==> f(y) < f(x)
    ensures Increasing(s + [x], f)
  {
    var t := s + [x];
    forall i, j | 0 <= i < j < |t|
      ensures f(t[i]) < f(t[j])
    {
      if j == |s| {
        assert t[i] == s[i];
        assert t[i] in s;
      } else {
        assert t[i] == s[i] && t[j] == s[j];
      }
    }
  }

  /** Over a unique column, a lookup by key finds at most one row. */
  lemma {:induction false} SelectAtMostOne<T(!new), K>(s: seq<T>, key: T -> K, k: K)
    requires Distinct(s, key)
    ensures |Select(s, key, k)| <= 1
  {
    if |s| > 0 {
      DistinctTail(s, key);
      SelectAtMostOne(s[1..], key, k);
      if key(s[0]) == k {
        WhereNone(s[1..], key, k, true);
      }
    }
  }

  /** When no row qualifies, nothing is selected. */
  lemma {:induction false} WhereNone<T(!new), K>(s: seq<T>, key: T -> K, k: K, matching: bool)
    requires forall y :: y in s ==> (key(y) == k) != matching
    ensures Where(s, key, k, matching) == []
  {
    if |s| > 0 {
      assert s[0] in s;
      WhereNone(s[1..], key, k, matching);
    }
  }

  /** When every row qualifies, the selection is the whole table, in order. */
  lemma {:induction false} WhereAll<T(!new), K>(s: seq<T>, key: T -> K, k: K, matching: bool)
    requires forall y :: y in s ==> (key(y) == k) == matching
    ensures Where(s, key, k, matching) == s
  {
    if |s| > 0 {
      assert s[0] in s;
      WhereAll(s[1..], key, k, matching);
      assert [s[0]] + s[1..] == s;
    }
  }

  /** Selecting from a table with one more row selects that row last, if at all. */
  lemma {:induction false} WhereAppend<T(!new), K>(s: seq<T>, x: T, key: T -> K, k: K, matching: bool)
    ensures Where(s + [x], key, k, matching)
         == Where(s, key, k, matching) + (if (key(x) == k) == matching then [x] else [])
  {
    if |s| == 0 {
      assert s + [x] == [x];
      assert [x][1..] == [];
    } else {
      assert (s + [x])[0] == s[0];
      assert (s + [x])[1..] == s[1..] + [x];
      WhereAppend(s[1..], x, key, k, matching);
    }
  }

  /** Deleting by the key of a row just appended, when no earlier row shares
      that key, gives back the table as it was before the append. */
  lemma WithoutAppended<T(!new), K>(s: seq<T>, x: T, key: T -> K, k: K)
    requires key(x) == k
    requires forall y :: y in s ==> key(y) != k
    ensures Without(s + [x], key, k) == s
  {
    WhereAppend(s, x, key, k, false);
    WhereAll(s, key, k, false);
  }

  /** Reversing an increasing table gives a decreasing one. */
  lemma ReverseDecreasing<T>(s: seq<T>, f: T -> nat)
    requires Increasing(s, f)
    ensures Decreasing(Reverse(s), f)
  {
    var r := Reverse(s);
    forall i, j | 0 <= i < j < |r|
      ensures f(r[i]) > f(r[j])
    {
      assert r[i] == s[|s| - 1 - i] && r[j] == s[|s| - 1 - j];
    }
  }

  /** Reversal keeps exactly the same rows. */
  lemma ReverseMembers<T>(s: seq<T>)
    ensures forall x :: x in Reverse(s) <==> x in s
  {
    var r := Reverse(s);
    forall x | x in s
      ensures x in r
    {
      var i :| 0 <= i < |s| && s[i] == x;
      assert r[|s| - 1 - i] == x;
    }
  }
}
