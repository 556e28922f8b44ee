/**
 * Generic operations on the rows of a table: selecting (SQL `WHERE`),
 * counting (`COUNT(*)`, `iter().filter().count()`), finding the first match
 * (`.one()`), ordering (`ORDER BY`), paging (`OFFSET`/`LIMIT`) and the
 * uniqueness of a key (a `UNIQUE` or primary-key constraint).
 */
module Seqs {
  import opened Wrappers

  /** The rows satisfying `p`, in their original order. */
  function Filter<T(!new)>(s: seq<T>, p: T -> bool): (r: seq<T>)
    ensures |r| <= |s|
    ensures forall i | 0 <= i < |r| :: p(r[i])
    ensures forall x :: multiset(r)[x] == if p(x) then multiset(s)[x] else 0
    decreases |s|
  {
    if s == [] then []
    else
      var init, last := s[..|s| - 1], s[|s| - 1];
      var r := Filter(init, p) + (if p(last) then [last] else []);
      assert s == init + [last];
      assert multiset(s) == multiset(init) + multiset{last};
      assert multiset(r) == multiset(Filter(init, p)) + (if p(last) then multiset{last} else multiset{});
      r
  }

  /** A row of `s` that satisfies `p` is kept by Filter. */
  lemma {:induction false} FilterKeeps<T(!new)>(s: seq<T>, p: T -> bool, i: nat)
    requires i < |s| && p(s[i])
    ensures s[i] in Filter(s, p)
    decreases |s|
  {
    if i < |s| - 1 {
      FilterKeeps(s[..|s| - 1], p, i);
    }
  }

  /** Number of rows satisfying `p`: a live scan of the table. */
  function Count<T>(s: seq<T>, p: T -> bool): (n: nat)
    ensures n <= |s|
    decreases |s|
  {
    if s == [] then 0 else Count(s[..|s| - 1], p) + (if p(s[|s| - 1]) then 1 else 0)
  }

  /** The indices of the rows satisfying `p`. */
  function Matching<T>(s: seq<T>, p: T -> bool): set<nat> {
    set i: nat | i < |s| && p(s[i])
  }

  /** Count is the number of matching positions. */
  lemma {:induction false} CountIsCardinality<T>(s: seq<T>, p: T -> bool)
    ensures Count(s, p) == |Matching(s, p)|
    decreases |s|
  {
    if s != [] {
      var n := |s| - 1;
      CountIsCardinality(s[..n], p);
      var below := Matching(s[..n], p);
      if p(s[n]) {
        assert Matching(s, p) == below + {n};
      } else {
        assert Matching(s, p) == below;
      }
    }
  }

  /** Every row satisfies `p` exactly when all of them are counted. */
  lemma {:induction false} CountFull<T>(s: seq<T>, p: T -> bool)
    ensures Count(s, p) == |s| <==> forall i | 0 <= i < |s| :: p(s[i])
    decreases |s|
  {
    if s != [] {
      var init := s[..|s| - 1];
      CountFull(init, p);
      assert forall i | 0 <= i < |init| :: init[i] == s[i];
    }
  }

  /** When every row but the one at `k` satisfies `p`, and that one does not, all but one are counted. */
  lemma {:induction false} CountAllButOne<T>(s: seq<T>, p: T -> bool, k: nat)
    requires k < |s| && !p(s[k])
    requires forall i | 0 <= i < |s| && i != k :: p(s[i])
    ensures Count(s, p) == |s| - 1
    decreases |s|
  {
    var init := s[..|s| - 1];
    assert forall i | 0 <= i < |init| :: init[i] == s[i];
    if k == |s| - 1 {
      CountFull(init, p);
    } else {
      CountAllButOne(init, p, k);
    }
  }

  /** A row Filter returns is a row of the input. */
  lemma FilterFrom<T(!new)>(s: seq<T>, p: T -> bool, i: nat)
    requires i < |Filter(s, p)|
    ensures exists k | 0 <= k < |s| :: s[k] == Filter(s, p)[i]
  {
    var f := Filter(s, p);
    assert f[i] in multiset(f);
    assert f[i] in multiset(s);
  }

  /** Filtering keeps a key unique. */
  lemma {:induction false} FilterKeepsUnique<T(!new), K>(s: seq<T>, p: T -> bool, key: T -> K)
    requires KeysUnique(s, key)
    ensures KeysUnique(Filter(s, p), key)
    decreases |s|
  {
    if s != [] {
      var init, last := s[..|s| - 1], s[|s| - 1];
      assert forall i | 0 <= i < |init| :: init[i] == s[i];
      FilterKeepsUnique(init, p, key);
      var f := Filter(init, p);
      if p(last) {
        forall i | 0 <= i < |f|
          ensures key(f[i]) != key(last)
        {
          FilterFrom(init, p, i);
        }
        AppendKeepsUnique(f, key, last);
      }
    }
  }

  /** Filter keeps exactly Count rows. */
  lemma {:induction false} FilterLength<T(!new)>(s: seq<T>, p: T -> bool)
    ensures |Filter(s, p)| == Count(s, p)
    decreases |s|
  {
    if s != [] {
      FilterLength(s[..|s| - 1], p);
    }
  }

  /** The index of the first row whose key is `k`. */
  function FindKey<T, K(==)>(s: seq<T>, key: T -> K, k: K): (r: Option<nat>)
    ensures r.Some? ==> r.value < |s| && key(s[r.value]) == k
    ensures r.Some? ==> forall i | 0 <= i < r.value :: key(s[i]) != k
    ensures r.None? <==> forall i | 0 <= i < |s| :: key(s[i]) != k
    decreases |s|
  {
    if s == [] then None
    else if key(s[0]) == k then Some(0)
    else match FindKey(s[1..], key, k)
      case None => None
      case Some(j) => Some(j + 1)
  }

  /** The index of the first row satisfying `p`. */
  function FindFirst<T>(s: seq<T>, p: T -> bool): (r: Option<nat>)
    ensures r.Some? ==> r.value < |s| && p(s[r.value])
    ensures r.Some? ==> forall i | 0 <= i < r.value :: !p(s[i])
    ensures r.None? <==> forall i | 0 <= i < |s| :: !p(s[i])
    decreases |s|
  {
    if s == [] then None
    else if p(s[0]) then Some(0)
    else match FindFirst(s[1..], p)
      case None => None
      case Some(j) => Some(j + 1)
  }

  /** No two rows share a key: a `UNIQUE` constraint. */
  predicate KeysUnique<T, K(==)>(s: seq<T>, key: T -> K) {
    forall i, j | 0 <= i < j < |s| :: key(s[i]) != key(s[j])
  }

  /** No value occurs twice. */
  predicate Distinct<T(==)>(s: seq<T>) {
    forall i, j | 0 <= i < j < |s| :: s[i] != s[j]
  }

  /** A sequence with one more value is distinct when the rest is and the value is new. */
  lemma DistinctSnoc<T>(s: seq<T>, x: T)
    ensures Distinct(s + [x]) <==> Distinct(s) && x !in s
  {
    var t := s + [x];
    assert forall i | 0 <= i < |s| :: t[i] == s[i];
    assert t[|s|] == x;
  }

  /** Under a unique key, the row found for a key is the one holding it. */
  lemma FindKeyUnique<T, K>(s: seq<T>, key: T -> K, i: nat)
    requires KeysUnique(s, key) && i < |s|
    ensures FindKey(s, key, key(s[i])) == Some(i)
  {
  }

  /** Removing the row at index `k`, as `DELETE ... WHERE id = ?` does. */
  function RemoveAt<T>(s: seq<T>, k: nat): (r: seq<T>)
    requires k < |s|
    ensures |r| == |s| - 1
    ensures forall i | 0 <= i < k :: r[i] == s[i]
    ensures forall i | k <= i < |r| :: r[i] == s[i + 1]
    ensures multiset(r) + multiset{s[k]} == multiset(s)
  {
    assert s == s[..k] + [s[k]] + s[k + 1..];
    s[..k] + s[k + 1..]
  }

  lemma RemoveAtKeepsUnique<T, K>(s: seq<T>, key: T -> K, k: nat)
    requires KeysUnique(s, key) && k < |s|
    ensures KeysUnique(RemoveAt(s, k), key)
  {
    var r := RemoveAt(s, k);
    forall i, j | 0 <= i < j < |r| ensures key(r[i]) != key(r[j]) {
      var i' := if i < k then i else i + 1;
      var j' := if j < k then j else j + 1;
      assert r[i] == s[i'] && r[j] == s[j'];
    }
  }

  /** Appending a row whose key is new keeps the key unique. */
  lemma AppendKeepsUnique<T, K>(s: seq<T>, key: T -> K, x: T)
    requires KeysUnique(s, key)
    requires forall i | 0 <= i < |s| :: key(s[i]) != key(x)
    ensures KeysUnique(s + [x], key)
  {
  }

  /** Rewriting rows without touching their keys keeps the keys unique. */
  lemma SameKeysKeepUnique<T, K>(s: seq<T>, r: seq<T>, key: T -> K)
    requires KeysUnique(s, key) && |r| == |s|
    requires forall i | 0 <= i < |s| :: key(r[i]) == key(s[i])
    ensures KeysUnique(r, key)
  {
  }

  /** `le` orders every pair: the key of an `ORDER BY`. */
  ghost predicate Total<T(!new)>(le: (T, T) -> bool) {
    forall a, b :: le(a, b) || le(b, a)
  }

  ghost predicate Transitive<T(!new)>(le: (T, T) -> bool) {
    forall a, b, c :: le(a, b) && le(b, c) ==> le(a, c)
  }

  /** Every earlier row comes before every later one under `le`. */
  predicate SortedBy<T>(s: seq<T>, le: (T, T) -> bool) {
    forall i, j | 0 <= i < j < |s| :: le(s[i], s[j])
  }

  /** Inserts `x` before the first row ordered strictly after it, so after every row it ties with. */
  function Insert<T(!new)>(x: T, s: seq<T>, le: (T, T) -> bool): (r: seq<T>)
    requires Total(le) && Transitive(le) && SortedBy(s, le)
    ensures SortedBy(r, le)
    ensures multiset(r) == multiset(s) + multiset{x}
    ensures |r| == |s| + 1
    decreases |s|
  {
    if s == [] then [x]
    else if !le(s[0], x) then
      assert forall j | 1 <= j < |[x] + s| :: ([x] + s)[j] == s[j - 1];
      [x] + s
    else
      var rest := Insert(x, s[1..], le);
      assert s == [s[0]] + s[1..];
      forall y | y in multiset(rest) ensures le(s[0], y) {
        if y != x {
          assert y in multiset(s[1..]);
          var k :| 1 <= k < |s| && s[k] == y;
        }
      }
      forall j | 0 <= j < |rest| ensures le(s[0], rest[j]) {
        assert rest[j] in multiset(rest);
      }
      [s[0]] + rest
  }

  /**
   * A stable sort by `le` (insertion sort): each row goes after the rows
   * before it that it ties with, so tied rows keep their table order.
   */
  function SortBy<T(!new)>(s: seq<T>, le: (T, T) -> bool): (r: seq<T>)
    requires Total(le) && Transitive(le)
    ensures SortedBy(r, le)
    ensures multiset(r) == multiset(s)
    ensures |r| == |s|
    decreases |s|
  {
    if s == [] then []
    else
      assert s == s[..|s| - 1] + [s[|s| - 1]];
      Insert(s[|s| - 1], SortBy(s[..|s| - 1], le), le)
  }

  /** Two rows that tie keep their order. */
  lemma SortByKeepsTies()
    ensures SortBy([(1, 10), (1, 20)], (a: (int, int), b: (int, int)) => a.0 <= b.0) == [(1, 10), (1, 20)]
  {
    var le := (a: (int, int), b: (int, int)) => a.0 <= b.0;
    assert SortBy([(1, 10)], le) == [(1, 10)];
    assert [(1, 10), (1, 20)][..1] == [(1, 10)];
  }

  /** `OFFSET offset LIMIT limit`. */
  function Page<T>(s: seq<T>, offset: nat, limit: nat): (r: seq<T>)
    ensures |r| <= limit
    ensures offset >= |s| ==> r == []
    ensures offset < |s| ==> |r| == if offset + limit <= |s| then limit else |s| - offset
    ensures forall i | 0 <= i < |r| :: offset + i < |s| && r[i] == s[offset + i]
  {
    if offset >= |s| then []
    else if offset + limit <= |s| then s[offset..offset + limit]
    else s[offset..]
  }

  /** A page of a sorted sequence is sorted. */
  lemma PageSorted<T>(s: seq<T>, offset: nat, limit: nat, le: (T, T) -> bool)
    requires SortedBy(s, le)
    ensures SortedBy(Page(s, offset, limit), le)
  {
    var r := Page(s, offset, limit);
    forall i, j | 0 <= i < j < |r|
      ensures le(r[i], r[j])
    {
      assert r[i] == s[offset + i] && r[j] == s[offset + j];
    }
  }

  /** Filtering a sorted sequence keeps it sorted. */
  lemma {:induction false} FilterKeepsSorted<T(!new)>(s: seq<T>, p: T -> bool, le: (T, T) -> bool)
    requires SortedBy(s, le)
    ensures SortedBy(Filter(s, p), le)
    decreases |s|
  {
    if s != [] {
      var init, last := s[..|s| - 1], s[|s| - 1];
      assert forall i | 0 <= i < |init| :: init[i] == s[i];
      FilterKeepsSorted(init, p, le);
      var f := Filter(init, p);
      if p(last) {
        assert Filter(s, p) == f + [last];
        forall i | 0 <= i < |f|
          ensures le(f[i], last)
        {
          assert f[i] in multiset(f);
          assert f[i] in multiset(init);
          var k :| 0 <= k < |init| && init[k] == f[i];
        }
      }
    }
  }

  /** Rows of `s` that are ordered both ways are equal. */
  predicate AntisymmetricOn<T(==)>(s: seq<T>, le: (T, T) -> bool) {
    forall i, j | 0 <= i < |s| && 0 <= j < |s| :: le(s[i], s[j]) && le(s[j], s[i]) ==> s[i] == s[j]
  }

  /** Dropping the last row keeps a sequence sorted. */
  lemma DropLastSorted<T>(a: seq<T>, le: (T, T) -> bool)
    requires a != [] && SortedBy(a, le)
    ensures SortedBy(a[..|a| - 1], le)
  {
    assert forall i | 0 <= i < |a| - 1 :: a[..|a| - 1][i] == a[i];
  }

  /** Dropping the last row keeps a sequence free of ties. */
  lemma DropLastAntisymmetric<T>(a: seq<T>, le: (T, T) -> bool)
    requires a != [] && AntisymmetricOn(a, le)
    ensures AntisymmetricOn(a[..|a| - 1], le)
  {
    assert forall i | 0 <= i < |a| - 1 :: a[..|a| - 1][i] == a[i];
  }

  /** Two sorted arrangements of the same rows end with the same row, when no two rows tie. */
  lemma SameLast<T>(a: seq<T>, b: seq<T>, le: (T, T) -> bool)
    requires a != [] && |a| == |b|
    requires SortedBy(a, le) && SortedBy(b, le) && multiset(a) == multiset(b) && AntisymmetricOn(a, le)
    ensures a[|a| - 1] == b[|b| - 1]
  {
    var n := |a| - 1;
    assert b[n] in multiset(b);
    var i :| 0 <= i < |a| && a[i] == b[n];
    assert a[n] in multiset(a);
    var j :| 0 <= j < |b| && b[j] == a[n];
    if i < n && j < n {
      assert le(a[i], a[n]) && le(b[j], b[n]);
    }
  }

  /** Two sorted arrangements of the same rows are one and the same, when no two rows tie. */
  lemma {:induction false} SortedUnique<T>(a: seq<T>, b: seq<T>, le: (T, T) -> bool)
    requires SortedBy(a, le) && SortedBy(b, le) && multiset(a) == multiset(b) && AntisymmetricOn(a, le)
    ensures a == b
    decreases |a|
  {
    assert |multiset(a)| == |multiset(b)|;
    if a != [] {
      var n := |a| - 1;
      SameLast(a, b, le);
      var x := a[n];
      assert a == a[..n] + [x];
      assert b == b[..n] + [x];
      forall z
        ensures multiset(a[..n])[z] == multiset(b[..n])[z]
      {
        assert multiset(a)[z] == multiset(a[..n])[z] + multiset{x}[z];
        assert multiset(b)[z] == multiset(b[..n])[z] + multiset{x}[z];
      }
      assert multiset(a[..n]) == multiset(b[..n]);
      DropLastSorted(a, le);
      DropLastSorted(b, le);
      DropLastAntisymmetric(a, le);
      SortedUnique(a[..n], b[..n], le);
    }
  }

  /** A sequence is distinct exactly when no value occurs twice in its multiset. */
  lemma {:induction false} DistinctMultiset<T>(s: seq<T>)
    ensures Distinct(s) <==> forall x :: multiset(s)[x] <= 1
    decreases |s|
  {
    if s != [] {
      var init, last := s[..|s| - 1], s[|s| - 1];
      assert s == init + [last];
      DistinctMultiset(init);
      DistinctSnoc(init, last);
      if !Distinct(s) {
        if last in init {
          assert multiset(s)[last] == multiset(init)[last] + 1;
        } else {
          var x :| multiset(init)[x] > 1;
          assert multiset(s)[x] >= multiset(init)[x];
        }
      }
    }
  }

  /** A permutation of a distinct sequence is distinct. */
  lemma DistinctPermutation<T>(a: seq<T>, b: seq<T>)
    requires Distinct(a) && multiset(a) == multiset(b)
    ensures Distinct(b)
  {
    DistinctMultiset(a);
    DistinctMultiset(b);
  }

  /** No matching row, no count. */
  lemma {:induction false} CountNone<T>(s: seq<T>, p: T -> bool)
    requires forall i | 0 <= i < |s| :: !p(s[i])
    ensures Count(s, p) == 0
    decreases |s|
  {
    if s != [] {
      CountNone(s[..|s| - 1], p);
    }
  }

  /** The rows of `s` rewritten by `f`, in order (`.map(...).collect()`). */
  function Map<T, U>(s: seq<T>, f: T -> U): (r: seq<U>)
    ensures |r| == |s|
    ensures forall i | 0 <= i < |s| :: r[i] == f(s[i])
  {
    seq(|s|, i requires 0 <= i < |s| => f(s[i]))
  }

  /** Sum of `f` over the rows (a `forEach` accumulating a total). */
  function Sum<T>(s: seq<T>, f: T -> int): int
    decreases |s|
  {
    if s == [] then 0 else Sum(s[..|s| - 1], f) + f(s[|s| - 1])
  }

  /**
   * `f` applied to every row in order, collected while it succeeds (a `for`
   * loop pushing `f(row)?`): the first failing row decides the error.
   */
  function MapResult<T, U, E>(s: seq<T>, f: T -> Result<U, E>): (r: Result<seq<U>, E>)
    ensures r.Ok? <==> forall i | 0 <= i < |s| :: f(s[i]).Ok?
    ensures r.Ok? ==> |r.value| == |s| && forall i | 0 <= i < |s| :: r.value[i] == f(s[i]).value
    ensures r.Err? ==> exists i | 0 <= i < |s| :: f(s[i]).Err? && r.error == f(s[i]).error
    decreases |s|
  {
    if s == [] then Ok([])
    else
      match MapResult(s[..|s| - 1], f)
      case Err(e) => Err(e)
      case Ok(init) =>
        (match f(s[|s| - 1])
         case Err(e) => Err(e)
         case Ok(last) => Ok(init + [last]))
  }

  /** Once row `i` fails, every longer prefix fails with its error. */
  lemma {:induction false} MapResultStops<T, U, E>(s: seq<T>, f: T -> Result<U, E>, i: nat, n: nat)
    requires i < n <= |s| && MapResult(s[..i], f).Ok? && f(s[i]).Err?
    ensures MapResult(s[..n], f) == Err(f(s[i]).error)
    decreases n
  {
    if n == i + 1 {
      assert s[..n][..i] == s[..i];
    } else {
      MapResultStops(s, f, i, n - 1);
      assert s[..n][..n - 1] == s[..n - 1];
    }
  }
}
