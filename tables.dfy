/**
 * The data-frame operations the Python code chains together, stated once
 * over sequences of rows: sorting by a key (`sort_values`), keeping the first
 * row of each key (`drop_duplicates(keep="first")`), per-key sums
 * (`groupby(...).sum()`), and the cast of a label column to integers.
 */
module Tables {
  import opened Wrappers

  // ---------------------------------------------------------------------------
  // Sorting

  /** `le` is total and transitive: a sort key, possibly with ties. */
  ghost predicate IsTotalPreorder<T(!new)>(le: (T, T) -> bool) {
    && (forall x, y :: le(x, y) || le(y, x))
    && (forall x, y, z :: le(x, y) && le(y, z) ==> le(x, z))
  }

  predicate SortedBy<T>(le: (T, T) -> bool, s: seq<T>) {
    forall i, j :: 0 <= i < j < |s| ==> le(s[i], s[j])
  }

  /** Inserts `x` after every element of `t` that may precede it. */
  function Insert<T>(le: (T, T) -> bool, t: seq<T>, x: T): (r: seq<T>)
    ensures |r| == |t| + 1
    ensures multiset(r) == multiset(t) + multiset{x}
  {
    if t == [] then [x]
    else if !le(t[0], x) then [x] + t
    else
      assert t == [t[0]] + t[1..];
      [t[0]] + Insert(le, t[1..], x)
  }

  /** A stable insertion sort: the order `sort_values` leaves rows in, up to ties. */
  function Sort<T>(le: (T, T) -> bool, s: seq<T>): (r: seq<T>)
    ensures |r| == |s|
    ensures multiset(r) == multiset(s)
  {
    if s == [] then []
    else
      assert s == s[..|s| - 1] + [s[|s| - 1]];
      Insert(le, Sort(le, s[..|s| - 1]), s[|s| - 1])
  }

  lemma {:induction false} InsertSorted<T(!new)>(le: (T, T) -> bool, t: seq<T>, x: T)
    requires IsTotalPreorder(le) && SortedBy(le, t)
    ensures SortedBy(le, Insert(le, t, x))
  {
    if t != [] && le(t[0], x) {
      var rest := Insert(le, t[1..], x);
      InsertSorted(le, t[1..], x);
      forall j | 0 <= j < |rest| ensures le(t[0], rest[j]) {
        assert rest[j] in multiset(rest);
        assert rest[j] in multiset(t[1..]) || rest[j] == x;
        if rest[j] != x {
          var i :| 0 <= i < |t[1..]| && t[1..][i] == rest[j];
          assert t[i + 1] == rest[j];
        }
      }
    }
  }

  lemma {:induction false} SortSorted<T(!new)>(le: (T, T) -> bool, s: seq<T>)
    requires IsTotalPreorder(le)
    ensures SortedBy(le, Sort(le, s))
  {
    if s != [] {
      SortSorted(le, s[..|s| - 1]);
      InsertSorted(le, Sort(le, s[..|s| - 1]), s[|s| - 1]);
    }
  }

  // ---------------------------------------------------------------------------
  // Keeping the first row of each key

  /** No row before index `i` has the key of row `i`. */
  ghost predicate IsFirstOfKey<T, K>(s: seq<T>, key: T -> K, i: int)
    requires 0 <= i < |s|
  {
    forall j :: 0 <= j < i ==> key(s[j]) != key(s[i])
  }

  /** The index of the first row whose key is `k`, or |s| when there is none. */
  function FirstIndex<T, K(==)>(s: seq<T>, key: T -> K, k: K): (i: nat)
    ensures i <= |s|
    ensures i < |s| ==> key(s[i]) == k
    ensures forall j :: 0 <= j < i ==> key(s[j]) != k
  {
    if s == [] then 0
    else if key(s[0]) == k then 0
    else 1 + FirstIndex(s[1..], key, k)
  }

  /** pandas' `drop_duplicates(subset=key, keep="first")`. */
  function KeepFirst<T, K(==)>(s: seq<T>, key: T -> K): seq<T>
  {
    if s == [] then []
    else
      var p := KeepFirst(s[..|s| - 1], key);
      if FirstIndex(s, key, key(s[|s| - 1])) == |s| - 1 then p + [s[|s| - 1]] else p
  }

  lemma {:induction false} FirstIndexOfPrefix<T, K>(s: seq<T>, key: T -> K, n: nat, k: K)
    requires n <= |s|
    requires FirstIndex(s[..n], key, k) < n
    ensures FirstIndex(s, key, k) == FirstIndex(s[..n], key, k)
  {
    var i, i' := FirstIndex(s[..n], key, k), FirstIndex(s, key, k);
    assert key(s[..n][i]) == k;
    assert i' <= i;
    assert key(s[..n][i']) == k;
  }

  /** Every row `KeepFirst` keeps is the first row of its key in the input. */
  lemma {:induction false} KeepFirstKeepsFirsts<T, K>(s: seq<T>, key: T -> K)
    ensures |KeepFirst(s, key)| <= |s|
    ensures forall j :: 0 <= j < |KeepFirst(s, key)| ==>
      var f := FirstIndex(s, key, key(KeepFirst(s, key)[j]));
      f < |s| && KeepFirst(s, key)[j] == s[f]
  {
    if s != [] {
      var n := |s| - 1;
      var pre := s[..n];
      var p := KeepFirst(pre, key);
      KeepFirstKeepsFirsts(pre, key);
      forall j | 0 <= j < |p| ensures FirstIndex(s, key, key(p[j])) == FirstIndex(pre, key, key(p[j])) {
        FirstIndexOfPrefix(s, key, n, key(p[j]));
      }
    }
  }

  /** `KeepFirst` lists the keys in the order of their first rows. */
  lemma {:induction false} KeepFirstInFirstAppearanceOrder<T, K>(s: seq<T>, key: T -> K)
    ensures forall j1, j2 :: 0 <= j1 < j2 < |KeepFirst(s, key)| ==>
      FirstIndex(s, key, key(KeepFirst(s, key)[j1])) < FirstIndex(s, key, key(KeepFirst(s, key)[j2]))
  {
    if s != [] {
      var n := |s| - 1;
      var pre := s[..n];
      var p := KeepFirst(pre, key);
      KeepFirstInFirstAppearanceOrder(pre, key);
      KeepFirstKeepsFirsts(pre, key);
      forall j | 0 <= j < |p| ensures FirstIndex(s, key, key(p[j])) == FirstIndex(pre, key, key(p[j])) < n {
        FirstIndexOfPrefix(s, key, n, key(p[j]));
      }
    }
  }

  /** Every key of the input keeps a row. */
  lemma {:induction false} KeepFirstCoversKeys<T, K>(s: seq<T>, key: T -> K, i: int)
    requires 0 <= i < |s|
    ensures exists j :: 0 <= j < |KeepFirst(s, key)| && key(KeepFirst(s, key)[j]) == key(s[i])
  {
    var n := |s| - 1;
    var pre := s[..n];
    var p := KeepFirst(pre, key);
    var r := KeepFirst(s, key);
    var f := FirstIndex(s, key, key(s[i]));
    if f < n {
      assert pre[f] == s[f];
      KeepFirstCoversKeys(pre, key, f);
      var j :| 0 <= j < |p| && key(p[j]) == key(pre[f]);
      assert r[j] == p[j];
    } else {
      assert r == p + [s[n]];
      assert r[|p|] == s[n];
    }
  }

  /** The rows of `KeepFirst` have pairwise different keys. */
  lemma KeepFirstKeysDistinct<T, K>(s: seq<T>, key: T -> K, j1: int, j2: int)
    requires 0 <= j1 < j2 < |KeepFirst(s, key)|
    ensures key(KeepFirst(s, key)[j1]) != key(KeepFirst(s, key)[j2])
  {
    KeepFirstInFirstAppearanceOrder(s, key);
  }

  // ---------------------------------------------------------------------------
  // Sums

  /** The sum of `val` over the rows whose key is `k`. */
  function SumWhere<T, K(==)>(s: seq<T>, key: T -> K, k: K, val: T -> real): real
  {
    if s == [] then 0.0
    else SumWhere(s[..|s| - 1], key, k, val) + (if key(s[|s| - 1]) == k then val(s[|s| - 1]) else 0.0)
  }

  lemma {:induction false} SumWhereAppend<T, K>(s: seq<T>, t: seq<T>, key: T -> K, k: K, val: T -> real)
    ensures SumWhere(s + t, key, k, val) == SumWhere(s, key, k, val) + SumWhere(t, key, k, val)
    decreases |t|
  {
    if t != [] {
      assert (s + t)[..|s + t| - 1] == s + t[..|t| - 1];
      assert (s + t)[|s + t| - 1] == t[|t| - 1];
      SumWhereAppend(s, t[..|t| - 1], key, k, val);
    } else {
      assert s + t == s;
    }
  }

  /** A sum of positive terms over a key that occurs is positive. */
  lemma {:induction false} SumWherePositive<T, K>(s: seq<T>, key: T -> K, k: K, val: T -> real)
    requires forall i :: 0 <= i < |s| ==> val(s[i]) > 0.0
    requires FirstIndex(s, key, k) < |s|
    ensures SumWhere(s, key, k, val) > 0.0
  {
    var n := |s| - 1;
    var f := FirstIndex(s, key, k);
    if f < n {
      assert FirstIndex(s[..n], key, k) <= f by {
        assert key(s[..n][f]) == k;
      }
      SumWhereNonNegative(s[..n], key, k, val);
      SumWherePositive(s[..n], key, k, val);
    } else {
      SumWhereNonNegative(s[..n], key, k, val);
    }
  }

  lemma {:induction false} SumWhereNonNegative<T, K>(s: seq<T>, key: T -> K, k: K, val: T -> real)
    requires forall i :: 0 <= i < |s| ==> val(s[i]) > 0.0
    ensures SumWhere(s, key, k, val) >= 0.0
  {
    if s != [] {
      SumWhereNonNegative(s[..|s| - 1], key, k, val);
    }
  }

  // ---------------------------------------------------------------------------
  // Selecting rows by key

  /** The rows whose key is in `keys`, in order: `df[df[col].isin(keys)]`. */
  function Where<T, K>(s: seq<T>, key: T -> K, keys: set<K>): (r: seq<T>)
    ensures |r| <= |s|
    ensures forall i :: 0 <= i < |r| ==> r[i] in s && key(r[i]) in keys
    ensures forall i :: 0 <= i < |s| && key(s[i]) in keys ==> s[i] in r
  {
    if s == [] then []
    else Where(s[..|s| - 1], key, keys) + (if key(s[|s| - 1]) in keys then [s[|s| - 1]] else [])
  }

  /** The rows whose key is not in `keys`, in order: `DELETE ... WHERE col IN keys` leaves these. */
  function Without<T, K>(s: seq<T>, key: T -> K, keys: set<K>): (r: seq<T>)
    ensures |r| <= |s|
    ensures forall i :: 0 <= i < |r| ==> r[i] in s && key(r[i]) !in keys
    ensures forall i :: 0 <= i < |s| && key(s[i]) !in keys ==> s[i] in r
  {
    if s == [] then []
    else Without(s[..|s| - 1], key, keys) + (if key(s[|s| - 1]) !in keys then [s[|s| - 1]] else [])
  }

  lemma {:induction false} WhereAppend<T, K>(s: seq<T>, t: seq<T>, key: T -> K, keys: set<K>)
    ensures Where(s + t, key, keys) == Where(s, key, keys) + Where(t, key, keys)
    decreases |t|
  {
    if t == [] {
      assert s + t == s;
    } else {
      assert (s + t)[..|s + t| - 1] == s + t[..|t| - 1];
      WhereAppend(s, t[..|t| - 1], key, keys);
    }
  }

  /** Selecting twice is selecting by the intersection. */
  lemma {:induction false} WhereWithout<T, K>(s: seq<T>, key: T -> K, keys: set<K>, gone: set<K>)
    requires keys !! gone
    ensures Where(Without(s, key, gone), key, keys) == Where(s, key, keys)
  {
    if s != [] {
      WhereWithout(s[..|s| - 1], key, keys, gone);
      var x := s[|s| - 1];
      WhereAppend(Without(s[..|s| - 1], key, gone), if key(x) !in gone then [x] else [], key, keys);
    }
  }

  lemma {:induction false} WhereNone<T(!new), K>(s: seq<T>, key: T -> K, keys: set<K>)
    requires forall x :: x in s ==> key(x) !in keys
    ensures Where(s, key, keys) == []
  {
    if s != [] {
      assert s[|s| - 1] in s;
      assert forall x :: x in s[..|s| - 1] ==> x in s;
      WhereNone(s[..|s| - 1], key, keys);
    }
  }

  lemma {:induction false} WhereAll<T(!new), K>(s: seq<T>, key: T -> K, keys: set<K>)
    requires forall x :: x in s ==> key(x) in keys
    ensures Where(s, key, keys) == s
  {
    if s != [] {
      assert s[|s| - 1] in s;
      assert forall x :: x in s[..|s| - 1] ==> x in s;
      WhereAll(s[..|s| - 1], key, keys);
      assert s == s[..|s| - 1] + [s[|s| - 1]];
    }
  }

  // ---------------------------------------------------------------------------
  // How many rows keeping the first row of each key drops

  /** When all keys differ, `KeepFirst` keeps every row. */
  lemma {:induction false} KeepFirstOfDistinct<T, K>(s: seq<T>, key: T -> K)
    requires forall i, j :: 0 <= i < j < |s| ==> key(s[i]) != key(s[j])
    ensures KeepFirst(s, key) == s
  {
    if s != [] {
      var n := |s| - 1;
      KeepFirstOfDistinct(s[..n], key);
      var f := FirstIndex(s, key, key(s[n]));
      assert f == n;
      assert s == s[..n] + [s[n]];
    }
  }

  /** When some row repeats an earlier key, `KeepFirst` is shorter than its input. */
  lemma {:induction false} KeepFirstDropsRepeats<T, K>(s: seq<T>, key: T -> K, i: int, j: int)
    requires 0 <= i < j < |s| && key(s[i]) == key(s[j])
    ensures |KeepFirst(s, key)| < |s|
  {
    var n := |s| - 1;
    KeepFirstKeepsFirsts(s[..n], key);
    if j < n {
      KeepFirstDropsRepeats(s[..n], key, i, j);
    } else {
      assert FirstIndex(s, key, key(s[n])) <= i;
    }
  }

  // ---------------------------------------------------------------------------
  // Unique keys

  /** No two rows share a key: what a UNIQUE constraint on `key` demands of a table. */
  predicate KeysDistinct<T, K(==)>(s: seq<T>, key: T -> K) {
    forall i, j :: 0 <= i < j < |s| ==> key(s[i]) != key(s[j])
  }

  /** Some row has key `k`. */
  predicate HasKey<T, K(==)>(s: seq<T>, key: T -> K, k: K) {
    exists i :: 0 <= i < |s| && key(s[i]) == k
  }

  /** A key occurs in a concatenation exactly when it occurs in one of the parts. */
  lemma HasKeyConcat<T, K>(s: seq<T>, t: seq<T>, key: T -> K, k: K)
    ensures HasKey(s + t, key, k) <==> HasKey(s, key, k) || HasKey(t, key, k)
  {
    if HasKey(s + t, key, k) {
      var i :| 0 <= i < |s + t| && key((s + t)[i]) == k;
      if i >= |s| {
        assert (s + t)[i] == t[i - |s|];
      }
    }
    if HasKey(s, key, k) {
      var i :| 0 <= i < |s| && key(s[i]) == k;
      assert (s + t)[i] == s[i];
    }
    if HasKey(t, key, k) {
      var i :| 0 <= i < |t| && key(t[i]) == k;
      assert (s + t)[|s| + i] == t[i];
    }
  }

  /** Deleting rows keeps a unique key unique. */
  lemma {:induction false} DistinctWithout<T, J, K>(s: seq<T>, sel: T -> J, gone: set<J>, key: T -> K)
    requires KeysDistinct(s, key)
    ensures KeysDistinct(Without(s, sel, gone), key)
  {
    if s != [] {
      var n := |s| - 1;
      var p := Without(s[..n], sel, gone);
      assert KeysDistinct(s[..n], key);
      DistinctWithout(s[..n], sel, gone, key);
      forall i | 0 <= i < |p| ensures key(p[i]) != key(s[n]) {
        var m :| 0 <= m < n && s[..n][m] == p[i];
      }
    }
  }

  /** The rows `KeepFirst` keeps have pairwise different keys. */
  lemma KeepFirstIsDistinct<T, K>(s: seq<T>, key: T -> K)
    ensures KeysDistinct(KeepFirst(s, key), key)
  {
    forall j1, j2 | 0 <= j1 < j2 < |KeepFirst(s, key)|
      ensures key(KeepFirst(s, key)[j1]) != key(KeepFirst(s, key)[j2])
    {
      KeepFirstKeysDistinct(s, key, j1, j2);
    }
  }

  /** A prefix one longer is the shorter prefix and the next element. */
  lemma TakeSnoc<T>(s: seq<T>, i: nat)
    requires i < |s|
    ensures s[..i + 1] == s[..i] + [s[i]]
  {
  }

  /** Appending a row: `KeepFirst` keeps it exactly when its key is new. */
  lemma KeepFirstSnoc<T, K>(s: seq<T>, key: T -> K, x: T)
    ensures KeepFirst(s + [x], key) == if HasKey(s, key, key(x)) then KeepFirst(s, key) else KeepFirst(s, key) + [x]
  {
    var t := s + [x];
    assert t[..|t| - 1] == s && t[|t| - 1] == x;
    var f := FirstIndex(t, key, key(x));
    if HasKey(s, key, key(x)) {
      var i :| 0 <= i < |s| && key(s[i]) == key(x);
      assert key(t[i]) == key(x);
    } else {
      assert forall i :: 0 <= i < |s| ==> t[i] == s[i];
    }
  }

  /** `KeepFirst` keeps every key and adds none. */
  lemma KeepFirstHasKey<T, K>(s: seq<T>, key: T -> K, k: K)
    ensures HasKey(KeepFirst(s, key), key, k) <==> HasKey(s, key, k)
  {
    KeepFirstKeepsFirsts(s, key);
    if HasKey(s, key, k) {
      var i :| 0 <= i < |s| && key(s[i]) == k;
      KeepFirstCoversKeys(s, key, i);
    }
  }

  lemma KeepFirstHasKeys<T, K>(s: seq<T>, key: T -> K)
    ensures forall k :: HasKey(KeepFirst(s, key), key, k) <==> HasKey(s, key, k)
  {
    forall k ensures HasKey(KeepFirst(s, key), key, k) <==> HasKey(s, key, k) {
      KeepFirstHasKey(s, key, k);
    }
  }

  // ---------------------------------------------------------------------------
  // Filtering by a row predicate

  /** The rows satisfying `keep`, in order: what a `DELETE ... WHERE not keep` leaves. */
  function Filter<T>(s: seq<T>, keep: T -> bool): (r: seq<T>)
    ensures |r| <= |s|
    ensures forall i :: 0 <= i < |r| ==> r[i] in s && keep(r[i])
    ensures forall i :: 0 <= i < |s| && keep(s[i]) ==> s[i] in r
  {
    if s == [] then []
    else Filter(s[..|s| - 1], keep) + (if keep(s[|s| - 1]) then [s[|s| - 1]] else [])
  }

  lemma FilterSnoc<T>(s: seq<T>, keep: T -> bool, n: nat)
    requires n < |s|
    ensures Filter(s[..n + 1], keep) == Filter(s[..n], keep) + (if keep(s[n]) then [s[n]] else [])
  {
    assert s[..n + 1][..n] == s[..n];
  }

  /** Filtering keeps a unique key unique. */
  lemma {:induction false} DistinctFilter<T, K>(s: seq<T>, keep: T -> bool, key: T -> K)
    requires KeysDistinct(s, key)
    ensures KeysDistinct(Filter(s, keep), key)
  {
    if s != [] {
      var n := |s| - 1;
      var p := Filter(s[..n], keep);
      assert KeysDistinct(s[..n], key);
      DistinctFilter(s[..n], keep, key);
      forall i | 0 <= i < |p| ensures key(p[i]) != key(s[n]) {
        var m :| 0 <= m < n && s[..n][m] == p[i];
      }
    }
  }

  // ---------------------------------------------------------------------------
  // Concatenating per-item outputs

  /** The outputs of `f` on the items of `s`, one after another. */
  function FlatMap<T, U>(s: seq<T>, f: T -> seq<U>): seq<U> {
    if s == [] then [] else FlatMap(s[..|s| - 1], f) + f(s[|s| - 1])
  }

  lemma FlatMapSnoc<T, U>(s: seq<T>, f: T -> seq<U>, n: nat)
    requires n < |s|
    ensures FlatMap(s[..n + 1], f) == FlatMap(s[..n], f) + f(s[n])
  {
    assert s[..n + 1][..n] == s[..n];
  }

  /** Mapping over a concatenation concatenates the outputs. */
  lemma {:induction false} FlatMapAppend<T, U>(a: seq<T>, b: seq<T>, f: T -> seq<U>)
    ensures FlatMap(a + b, f) == FlatMap(a, f) + FlatMap(b, f)
    decreases |b|
  {
    if b == [] {
      assert a + b == a;
    } else {
      var n := |b| - 1;
      FlatMapAppend(a, b[..n], f);
      assert (a + b)[..|a + b| - 1] == a + b[..n];
    }
  }

  /** Every item of the output comes from the output of some input item. */
  lemma {:induction false} FlatMapMember<T, U>(s: seq<T>, f: T -> seq<U>, j: nat)
    requires j < |FlatMap(s, f)|
    ensures exists i, m :: 0 <= i < |s| && 0 <= m < |f(s[i])| && FlatMap(s, f)[j] == f(s[i])[m]
  {
    var n := |s| - 1;
    var p := FlatMap(s[..n], f);
    if j < |p| {
      FlatMapMember(s[..n], f, j);
      var i, m :| 0 <= i < n && 0 <= m < |f(s[..n][i])| && p[j] == f(s[..n][i])[m];
      assert s[..n][i] == s[i];
    } else {
      assert FlatMap(s, f)[j] == f(s[n])[j - |p|];
    }
  }

  // ---------------------------------------------------------------------------
  // Counting rows by key, and `groupby(key).cumcount() + 1`

  /** The number of rows whose key is `k`. */
  function Occurrences<T, K(==)>(s: seq<T>, key: T -> K, k: K): (n: nat)
    ensures n <= |s|
  {
    if s == [] then 0
    else Occurrences(s[..|s| - 1], key, k) + (if key(s[|s| - 1]) == k then 1 else 0)
  }

  lemma {:induction false} OccurrencesAppend<T, K>(s: seq<T>, t: seq<T>, key: T -> K, k: K)
    ensures Occurrences(s + t, key, k) == Occurrences(s, key, k) + Occurrences(t, key, k)
    decreases |t|
  {
    if t == [] {
      assert s + t == s;
    } else {
      assert (s + t)[..|s + t| - 1] == s + t[..|t| - 1];
      OccurrencesAppend(s, t[..|t| - 1], key, k);
    }
  }

  /** A key occurs exactly when some row carries it. */
  lemma {:induction false} OccurrencesHasKey<T, K>(s: seq<T>, key: T -> K, k: K)
    ensures Occurrences(s, key, k) > 0 <==> HasKey(s, key, k)
  {
    if s != [] {
      var n := |s| - 1;
      OccurrencesHasKey(s[..n], key, k);
      if HasKey(s[..n], key, k) {
        var i :| 0 <= i < n && key(s[..n][i]) == k;
        assert key(s[i]) == k;
      }
      if HasKey(s, key, k) && key(s[n]) != k {
        var i :| 0 <= i < |s| && key(s[i]) == k;
        assert key(s[..n][i]) == k;
      }
    }
  }

  lemma {:induction false} OccurrencesOfInsert<T, K>(le: (T, T) -> bool, t: seq<T>, x: T, key: T -> K, k: K)
    ensures Occurrences(Insert(le, t, x), key, k) == Occurrences(t, key, k) + (if key(x) == k then 1 else 0)
  {
    if t == [] {
      assert Insert(le, t, x) == [x];
      assert [x][..0] == [];
    } else if !le(t[0], x) {
      OccurrencesAppend([x], t, key, k);
      assert [x][..0] == [];
    } else {
      OccurrencesOfInsert(le, t[1..], x, key, k);
      OccurrencesAppend([t[0]], Insert(le, t[1..], x), key, k);
      OccurrencesAppend([t[0]], t[1..], key, k);
      assert [t[0]][..0] == [];
      assert [t[0]] + t[1..] == t;
    }
  }

  /** Sorting moves rows without adding or dropping any key. */
  lemma {:induction false} OccurrencesOfSort<T, K>(le: (T, T) -> bool, s: seq<T>, key: T -> K, k: K)
    ensures Occurrences(Sort(le, s), key, k) == Occurrences(s, key, k)
  {
    if s != [] {
      var n := |s| - 1;
      OccurrencesOfSort(le, s[..n], key, k);
      OccurrencesOfInsert(le, Sort(le, s[..n]), s[n], key, k);
    }
  }

  /** A row every element may precede goes to the end. */
  lemma {:induction false} InsertLast<T>(le: (T, T) -> bool, t: seq<T>, x: T)
    requires forall i :: 0 <= i < |t| ==> le(t[i], x)
    ensures Insert(le, t, x) == t + [x]
  {
    if t != [] {
      InsertLast(le, t[1..], x);
      assert t == [t[0]] + t[1..];
    }
  }

  /** Every row of the sorted table is a row of the input. */
  lemma SortMember<T>(le: (T, T) -> bool, s: seq<T>, j: nat)
    requires j < |Sort(le, s)|
    ensures Sort(le, s)[j] in s
  {
    var r := Sort(le, s);
    assert r[j] in multiset(r);
  }

  /** Sorting rows that are already in order leaves them as they are. */
  lemma {:induction false} SortOfSorted<T>(le: (T, T) -> bool, s: seq<T>)
    requires SortedBy(le, s)
    ensures Sort(le, s) == s
  {
    if s != [] {
      var n := |s| - 1;
      assert SortedBy(le, s[..n]);
      SortOfSorted(le, s[..n]);
      InsertLast(le, s[..n], s[n]);
      assert s[..n] + [s[n]] == s;
    }
  }

  /** `KeepFirst` leaves exactly one row of each key of its input. */
  lemma {:induction false} OccurrencesOfKeepFirst<T, K>(s: seq<T>, key: T -> K, k: K)
    ensures Occurrences(KeepFirst(s, key), key, k) == if HasKey(s, key, k) then 1 else 0
  {
    if s != [] {
      var n := |s| - 1;
      var x := s[n];
      assert s[..n] + [x] == s;
      OccurrencesOfKeepFirst(s[..n], key, k);
      KeepFirstSnoc(s[..n], key, x);
      OccurrencesAppend(KeepFirst(s[..n], key), [x], key, k);
      assert [x][..0] == [];
      if HasKey(s[..n], key, k) {
        var i :| 0 <= i < n && key(s[..n][i]) == k;
        assert key(s[i]) == k;
      }
      if HasKey(s[..n], key, key(x)) && key(x) == k {
        assert HasKey(s[..n], key, k);
      }
    }
  }

  /**
   * `groupby(key).cumcount() + 1` written into each row by `withRank`: the
   * row's position among the earlier rows of its key, counting from 1.
   */
  function Renumber<T, U, K(==)>(s: seq<T>, key: T -> K, withRank: (T, int) -> U): (r: seq<U>)
    ensures |r| == |s|
  {
    if s == [] then []
    else
      var n := |s| - 1;
      Renumber(s[..n], key, withRank) + [withRank(s[n], Occurrences(s[..n], key, key(s[n])) + 1)]
  }

  /** Row `i` keeps everything but its rank, which is one more than the earlier rows of its key. */
  lemma {:induction false} RenumberAt<T, U, K>(s: seq<T>, key: T -> K, withRank: (T, int) -> U, i: nat)
    requires i < |s|
    ensures Renumber(s, key, withRank)[i] == withRank(s[i], Occurrences(s[..i], key, key(s[i])) + 1)
  {
    var n := |s| - 1;
    if i < n {
      RenumberAt(s[..n], key, withRank, i);
      assert s[..n][..i] == s[..i];
    }
  }

  /** Renumbering keeps every column the rank does not touch. */
  lemma RenumberKeeps<T, U, K, J>(s: seq<T>, key: T -> K, withRank: (T, int) -> U, keyT: T -> J, keyU: U -> J, i: nat)
    requires i < |s|
    requires forall x, r :: keyU(withRank(x, r)) == keyT(x)
    ensures keyU(Renumber(s, key, withRank)[i]) == keyT(s[i])
  {
    RenumberAt(s, key, withRank, i);
  }

  /** Of two rows of the same key, the later one gets the larger rank. */
  lemma RenumberRanksGrow<T, U, K>(s: seq<T>, key: T -> K, withRank: (T, int) -> U, rank: U -> int, i: nat, j: nat)
    requires i < j < |s| && key(s[i]) == key(s[j])
    requires forall x, r :: rank(withRank(x, r)) == r
    ensures rank(Renumber(s, key, withRank)[i]) < rank(Renumber(s, key, withRank)[j])
  {
    RenumberAt(s, key, withRank, i);
    RenumberAt(s, key, withRank, j);
    OccurrencesPrefixGrows(s, key, i, j);
  }

  /** The numbers 1, 2, ..., n. */
  function OneTo(n: nat): (r: seq<int>)
    ensures |r| == n
    ensures forall i :: 0 <= i < n ==> r[i] == i + 1
  {
    if n == 0 then [] else OneTo(n - 1) + [n]
  }

  /** The ranks of the rows of key `k`, in row order. */
  function RanksOf<U, K(==)>(s: seq<U>, key: U -> K, rank: U -> int, k: K): seq<int> {
    if s == [] then []
    else RanksOf(s[..|s| - 1], key, rank, k) + (if key(s[|s| - 1]) == k then [rank(s[|s| - 1])] else [])
  }

  /**
   * After renumbering, the rows of every key carry the ranks 1..n in row order,
   * where n is the number of rows of that key.
   */
  lemma {:induction false} RenumberContiguous<T, U, K>(s: seq<T>, key: T -> K, withRank: (T, int) -> U, keyU: U -> K, rank: U -> int, k: K)
    requires forall x, r :: keyU(withRank(x, r)) == key(x)
    requires forall x, r :: rank(withRank(x, r)) == r
    ensures RanksOf(Renumber(s, key, withRank), keyU, rank, k) == OneTo(Occurrences(s, key, k))
  {
    if s != [] {
      var n := |s| - 1;
      var r := Renumber(s, key, withRank);
      assert r[..n] == Renumber(s[..n], key, withRank);
      RenumberContiguous(s[..n], key, withRank, keyU, rank, k);
    }
  }

  /** Renumbering keeps the count of every key the rank does not touch. */
  lemma {:induction false} OccurrencesOfRenumber<T, U, K, J>(s: seq<T>, key: T -> K, withRank: (T, int) -> U, keyT: T -> J, keyU: U -> J, k: J)
    requires forall x, r :: keyU(withRank(x, r)) == keyT(x)
    ensures Occurrences(Renumber(s, key, withRank), keyU, k) == Occurrences(s, keyT, k)
  {
    if s != [] {
      var n := |s| - 1;
      var r := Renumber(s, key, withRank);
      assert r[..n] == Renumber(s[..n], key, withRank);
      OccurrencesOfRenumber(s[..n], key, withRank, keyT, keyU, k);
    }
  }

  /** `KeepFirst` only keeps rows of its input. */
  lemma KeepFirstSubset<T, K>(s: seq<T>, key: T -> K)
    ensures forall j :: 0 <= j < |KeepFirst(s, key)| ==> KeepFirst(s, key)[j] in s
  {
    KeepFirstKeepsFirsts(s, key);
  }

  /**
   * `KeepFirst` by a key keeps every value of any coarser key (one that is a
   * function of it), and adds none.
   */
  lemma KeepFirstHasCoarserKey<T, K, J>(s: seq<T>, key: T -> K, coarse: K -> J, key2: T -> J, k2: J)
    requires forall x :: key2(x) == coarse(key(x))
    ensures HasKey(KeepFirst(s, key), key2, k2) <==> HasKey(s, key2, k2)
  {
    var r := KeepFirst(s, key);
    KeepFirstSubset(s, key);
    if HasKey(r, key2, k2) {
      var j :| 0 <= j < |r| && key2(r[j]) == k2;
      var i :| 0 <= i < |s| && s[i] == r[j];
    }
    if HasKey(s, key2, k2) {
      var i :| 0 <= i < |s| && key2(s[i]) == k2;
      KeepFirstCoversKeys(s, key, i);
      var j :| 0 <= j < |r| && key(r[j]) == key(s[i]);
      assert key2(r[j]) == coarse(key(s[i]));
    }
  }

  /** Sorting keeps every key and adds none. */
  lemma SortHasKey<T, K>(le: (T, T) -> bool, s: seq<T>, key: T -> K, k: K)
    ensures HasKey(Sort(le, s), key, k) <==> HasKey(s, key, k)
  {
    OccurrencesOfSort(le, s, key, k);
    OccurrencesHasKey(Sort(le, s), key, k);
    OccurrencesHasKey(s, key, k);
  }

  /** `KeepFirst` keeps rows in their order, so a sorted input stays sorted. */
  lemma KeepFirstSorted<T, K>(le: (T, T) -> bool, s: seq<T>, key: T -> K)
    requires SortedBy(le, s)
    ensures SortedBy(le, KeepFirst(s, key))
  {
    var r := KeepFirst(s, key);
    KeepFirstKeepsFirsts(s, key);
    KeepFirstInFirstAppearanceOrder(s, key);
    forall j1, j2 | 0 <= j1 < j2 < |r| ensures le(r[j1], r[j2]) {
      var f1 := FirstIndex(s, key, key(r[j1]));
      var f2 := FirstIndex(s, key, key(r[j2]));
      assert r[j1] == s[f1] && r[j2] == s[f2] && f1 < f2;
    }
  }

  /** A later row of the same key has seen at least one more row of that key. */
  lemma OccurrencesPrefixGrows<T, K>(s: seq<T>, key: T -> K, i: nat, j: nat)
    requires i < j <= |s|
    ensures Occurrences(s[..j], key, key(s[i])) >= Occurrences(s[..i], key, key(s[i])) + 1
  {
    assert s[..j] == s[..i] + s[i..j];
    OccurrencesAppend(s[..i], s[i..j], key, key(s[i]));
    assert key(s[i..j][0]) == key(s[i]);
    OccurrencesHasKey(s[i..j], key, key(s[i]));
  }

  // ---------------------------------------------------------------------------
  // Casting a label column: `fillna(0).astype(int)`

  /** Conversion to an integer, dropping the fraction: truncation toward zero. */
  function Truncate(x: real): (r: int)
    ensures 0.0 <= x ==> r as real <= x < r as real + 1.0
    ensures x < 0.0 ==> r as real - 1.0 < x <= r as real
  {
    if 0.0 <= x then x.Floor else -((-x).Floor)
  }

  /** `fillna(0).astype(int)`: a missing or non-numeric label is 0. */
  function CleanLabel(cell: Option<real>): (r: int)
    ensures cell.None? ==> r == 0
    ensures cell.Some? ==> r == Truncate(cell.value)
  {
    match cell
    case None => 0
    case Some(x) => Truncate(x)
  }

}
