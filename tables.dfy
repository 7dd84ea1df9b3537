/** Vocabulary shared by the stages of the pipeline: nullable cells, failures,
    and the whole-column operations a table library performs (counting,
    filtering, extremes and sorting rows). */
module Tables {

  /** A nullable cell: a pandas NaN or an SQL NULL is `None`. */
  datatype Option<+T> = None | Some(value: T)

  /** The outcome of a stage that can raise an error. */
  datatype Result<+T, +E> = Success(value: T) | Failure(error: E)

  // ---------------------------------------------------------------------
  // Counting and filtering.  Each folds over the prefix and the
  // last row, so that extending a table by one row is one unfolding.
  // ---------------------------------------------------------------------

  /** Number of rows of `s` that satisfy `p`. */
  function Count<T>(s: seq<T>, p: T -> bool): (n: nat)
    ensures n <= |s|
  {
    if s == [] then 0
    else Count(s[..|s| - 1], p) + (if p(s[|s| - 1]) then 1 else 0)
  }

  /** The rows of `s` that satisfy `p`, in their original order. */
  function Filter<T>(s: seq<T>, p: T -> bool): (r: seq<T>)
    ensures |r| == Count(s, p)
  {
    if s == [] then []
    else Filter(s[..|s| - 1], p) + (if p(s[|s| - 1]) then [s[|s| - 1]] else [])
  }

  /** `Filter` keeps exactly the rows that satisfy `p`. */
  lemma {:induction false} FilterMembers<T>(s: seq<T>, p: T -> bool)
    ensures forall k :: 0 <= k < |Filter(s, p)| ==> Filter(s, p)[k] in s && p(Filter(s, p)[k])
    ensures forall k :: 0 <= k < |s| && p(s[k]) ==> s[k] in Filter(s, p)
  {
    if s != [] {
      var w := s[..|s| - 1];
      FilterMembers(w, p);
      var r := Filter(s, p);
      assert r == Filter(w, p) + (if p(s[|s| - 1]) then [s[|s| - 1]] else []);
      forall k | 0 <= k < |r| ensures r[k] in s && p(r[k]) {
        if k < |Filter(w, p)| {
          assert r[k] == Filter(w, p)[k];
          assert r[k] in w;
        }
      }
      forall k | 0 <= k < |s| && p(s[k]) ensures s[k] in r {
        if k < |w| {
          assert s[k] == w[k];
        }
      }
    }
  }

  lemma {:induction false} CountAppend<T>(u: seq<T>, v: seq<T>, p: T -> bool)
    ensures Count(u + v, p) == Count(u, p) + Count(v, p)
    decreases |v|
  {
    if v != [] {
      var w := v[..|v| - 1];
      assert (u + v)[..|u + v| - 1] == u + w;
      CountAppend(u, w, p);
    } else {
      assert u + v == u;
    }
  }

  /** Some row satisfies `p` exactly when the count is positive. */
  lemma {:induction false} CountPositive<T>(s: seq<T>, p: T -> bool)
    ensures Count(s, p) > 0 <==> exists k :: 0 <= k < |s| && p(s[k])
  {
    if s != [] {
      var w := s[..|s| - 1];
      CountPositive(w, p);
      if Count(w, p) > 0 {
        var k :| 0 <= k < |w| && p(w[k]);
        assert s[k] == w[k];
      }
      if exists k :: 0 <= k < |s| && p(s[k]) {
        var k :| 0 <= k < |s| && p(s[k]);
        if k < |w| { assert w[k] == s[k]; }
      }
    }
  }

  /** Removing the row at `i` removes one copy of it from the multiset. */
  lemma RemoveAt<T>(b: seq<T>, i: nat)
    requires i < |b|
    ensures multiset(b[..i] + b[i + 1..]) == multiset(b) - multiset{b[i]}
  {
    assert b == b[..i] + [b[i]] + b[i + 1..];
  }

  lemma DropLast<T>(a: seq<T>)
    requires a != []
    ensures multiset(a[..|a| - 1]) == multiset(a) - multiset{a[|a| - 1]}
  {
    assert a == a[..|a| - 1] + [a[|a| - 1]];
  }

  /** Counting does not depend on the order of the rows. */
  lemma {:induction false} CountPermutation<T>(a: seq<T>, b: seq<T>, p: T -> bool)
    requires multiset(a) == multiset(b)
    ensures Count(a, p) == Count(b, p)
    decreases |a|
  {
    if a == [] {
      assert |b| == |multiset(b)| == 0;
    } else {
      var x := a[|a| - 1];
      assert x in multiset(b);
      var i :| 0 <= i < |b| && b[i] == x;
      DropLast(a);
      RemoveAt(b, i);
      CountPermutation(a[..|a| - 1], b[..i] + b[i + 1..], p);
      assert b == b[..i] + ([x] + b[i + 1..]);
      CountAppend(b[..i], [x] + b[i + 1..], p);
      CountAppend([x], b[i + 1..], p);
      CountAppend(b[..i], b[i + 1..], p);
      assert [x][..0] == [];
    }
  }

  // ---------------------------------------------------------------------
  // Extremes of a non-empty column of reals.
  // ---------------------------------------------------------------------

  function SeqMax(s: seq<real>): (m: real)
    requires |s| > 0
    ensures forall k :: 0 <= k < |s| ==> s[k] <= m
    ensures exists k :: 0 <= k < |s| && s[k] == m
  {
    if |s| == 1 then s[0]
    else
      var m' := SeqMax(s[..|s| - 1]);
      assert forall k :: 0 <= k < |s| - 1 ==> s[..|s| - 1][k] == s[k];
      if s[|s| - 1] > m' then s[|s| - 1] else m'
  }

  function SeqMin(s: seq<real>): (m: real)
    requires |s| > 0
    ensures forall k :: 0 <= k < |s| ==> m <= s[k]
    ensures exists k :: 0 <= k < |s| && s[k] == m
  {
    if |s| == 1 then s[0]
    else
      var m' := SeqMin(s[..|s| - 1]);
      assert forall k :: 0 <= k < |s| - 1 ==> s[..|s| - 1][k] == s[k];
      if s[|s| - 1] < m' then s[|s| - 1] else m'
  }

  // ---------------------------------------------------------------------
  // Sorting by a total preorder ("may come before").  A table library's
  // sort is not stable, so only sortedness and permutation are promised.
  // ---------------------------------------------------------------------

  ghost predicate TotalPreorder<T(!new)>(le: (T, T) -> bool) {
    && (forall x, y :: le(x, y) || le(y, x))
    && (forall x, y, z :: le(x, y) && le(y, z) ==> le(x, z))
  }

  ghost predicate SortedBy<T>(s: seq<T>, le: (T, T) -> bool) {
    forall i, j :: 0 <= i < j < |s| ==> le(s[i], s[j])
  }

  function Insert<T>(x: T, s: seq<T>, le: (T, T) -> bool): (r: seq<T>)
    ensures multiset(r) == multiset(s) + multiset{x}
  {
    if s == [] || le(x, s[0]) then [x] + s
    else
      assert s == [s[0]] + s[1..];
      [s[0]] + Insert(x, s[1..], le)
  }

  function SortBy<T>(s: seq<T>, le: (T, T) -> bool): (r: seq<T>)
    ensures multiset(r) == multiset(s)
    ensures |r| == |s|
  {
    if s == [] then []
    else
      assert s == [s[0]] + s[1..];
      var r := Insert(s[0], SortBy(s[1..], le), le);
      assert |r| == |multiset(r)| == |multiset(s)| == |s|;
      r
  }

  lemma {:induction false} InsertSorted<T(!new)>(x: T, s: seq<T>, le: (T, T) -> bool)
    requires TotalPreorder(le) && SortedBy(s, le)
    ensures SortedBy(Insert(x, s, le), le)
  {
    if s == [] || le(x, s[0]) {
    } else {
      var r := Insert(x, s[1..], le);
      InsertSorted(x, s[1..], le);
      forall j | 0 <= j < |r|
        ensures le(s[0], r[j])
      {
        assert r[j] in multiset(r);
        if r[j] != x {
          assert r[j] in multiset(s[1..]);
          var k :| 0 <= k < |s[1..]| && s[1..][k] == r[j];
          assert s[k + 1] == r[j];
        }
      }
      assert Insert(x, s, le) == [s[0]] + r;
    }
  }

  /** `SortBy` returns its input rearranged into `le` order. */
  lemma {:induction false} SortBySorted<T(!new)>(s: seq<T>, le: (T, T) -> bool)
    requires TotalPreorder(le)
    ensures SortedBy(SortBy(s, le), le)
    ensures multiset(SortBy(s, le)) == multiset(s)
  {
    if s != [] {
      SortBySorted(s[1..], le);
      InsertSorted(s[0], SortBy(s[1..], le), le);
    }
  }
}
