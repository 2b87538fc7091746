/** Row-sequence helpers shared by the table model: filtering, first match
    in row order, key order and key uniqueness. */
module Seqs {

  datatype Option<+T> = None | Some(value: T)

  /** The elements of `s` that satisfy `p`, in their original order. */
  function Filter<T(!new)>(s: seq<T>, p: T -> bool): (r: seq<T>)
    ensures |r| <= |s|
    ensures forall x :: x in r <==> x in s && p(x)
  {
    if s == [] then []
    else if p(s[0]) then [s[0]] + Filter(s[1..], p)
    else Filter(s[1..], p)
  }

  /** Index of the first element that satisfies `p`: what a query's
      `.first()` returns when rows come back in row order. */
  function FirstIndex<T>(s: seq<T>, p: T -> bool): (r: Option<nat>)
    ensures r.Some? ==> r.value < |s| && p(s[r.value])
    ensures r.Some? ==> forall j :: 0 <= j < r.value ==> !p(s[j])
    ensures r.None? <==> forall j :: 0 <= j < |s| ==> !p(s[j])
  {
    if s == [] then None
    else if p(s[0]) then Some(0)
    else
      match FirstIndex(s[1..], p)
      case None => None
      case Some(k) => Some(k + 1)
  }

  /** Keys strictly increase along `s` (rows listed in primary-key order). */
  ghost predicate StrictlyIncreasing<T>(s: seq<T>, key: T -> nat) {
    forall i, j :: 0 <= i < j < |s| ==> key(s[i]) < key(s[j])
  }

  /** No two elements of `s` share a key (a UNIQUE column). */
  ghost predicate DistinctBy<T, K>(s: seq<T>, key: T -> K) {
    forall i, j :: 0 <= i < j < |s| ==> key(s[i]) != key(s[j])
  }

  /** The set of keys of `s` (a column's values). */
  function KeySet<T(==), K(==)>(s: seq<T>, key: T -> K): set<K> {
    set x | x in s :: key(x)
  }

  /** The identifier the next inserted row receives: one more than the
      largest identifier present, or 1 for an empty table. */
  function NextKey<T>(s: seq<T>, key: T -> nat): (k: nat)
    ensures StrictlyIncreasing(s, key) ==> forall x :: x in s ==> key(x) < k
  {
    if s == [] then 1 else key(s[|s| - 1]) + 1
  }

  lemma {:induction false} FilterIncreasing<T(!new)>(s: seq<T>, p: T -> bool, key: T -> nat)
    requires StrictlyIncreasing(s, key)
    ensures StrictlyIncreasing(Filter(s, p), key)
  {
    if s != [] {
      var rest := Filter(s[1..], p);
      FilterIncreasing(s[1..], p, key);
      if p(s[0]) {
        forall y | y in rest ensures key(s[0]) < key(y) {
          var j :| 0 <= j < |s[1..]| && s[1..][j] == y;
          assert s[j + 1] == y;
        }
        PrependIncreasing(s[0], rest, key);
      }
    }
  }

  lemma {:induction false} FilterDistinct<T(!new), K>(s: seq<T>, p: T -> bool, key: T -> K)
    requires DistinctBy(s, key)
    ensures DistinctBy(Filter(s, p), key)
  {
    if s != [] {
      var rest := Filter(s[1..], p);
      FilterDistinct(s[1..], p, key);
      if p(s[0]) {
        forall y | y in rest ensures key(s[0]) != key(y) {
          var j :| 0 <= j < |s[1..]| && s[1..][j] == y;
          assert s[j + 1] == y;
        }
        PrependDistinct(s[0], rest, key);
      }
    }
  }

  /** Putting in front a row whose key is below every present key keeps key order. */
  lemma PrependIncreasing<T>(x: T, s: seq<T>, key: T -> nat)
    requires StrictlyIncreasing(s, key)
    requires forall y :: y in s ==> key(x) < key(y)
    ensures StrictlyIncreasing([x] + s, key)
  {
    var r := [x] + s;
    forall i, j | 0 <= i < j < |r| ensures key(r[i]) < key(r[j]) {
      assert r[j] == s[j - 1];
      if i == 0 {
        assert r[j] in s;
      } else {
        assert r[i] == s[i - 1];
      }
    }
  }

  /** Putting in front a row whose key no present row has keeps keys distinct. */
  lemma PrependDistinct<T, K>(x: T, s: seq<T>, key: T -> K)
    requires DistinctBy(s, key)
    requires forall y :: y in s ==> key(x) != key(y)
    ensures DistinctBy([x] + s, key)
  {
    var r := [x] + s;
    forall i, j | 0 <= i < j < |r| ensures key(r[i]) != key(r[j]) {
      assert r[j] == s[j - 1];
      if i == 0 {
        assert r[j] in s;
      } else {
        assert r[i] == s[i - 1];
      }
    }
  }

  /** Filtering with a predicate every element satisfies keeps the sequence. */
  lemma {:induction false} FilterAll<T(!new)>(s: seq<T>, p: T -> bool)
    requires forall x :: x in s ==> p(x)
    ensures Filter(s, p) == s
  {
    if s != [] {
      FilterAll(s[1..], p);
      assert [s[0]] + s[1..] == s;
    }
  }

  /** Filtering gives nothing exactly when no element satisfies `p`. */
  lemma FilterEmpty<T(!new)>(s: seq<T>, p: T -> bool)
    ensures Filter(s, p) == [] <==> forall x :: x in s ==> !p(x)
  {
    if Filter(s, p) != [] {
      assert Filter(s, p)[0] in Filter(s, p);
    }
  }

  /** Under increasing keys a key identifies its element. */
  lemma IncreasingKeysIdentify<T>(s: seq<T>, x: T, y: T, key: T -> nat)
    requires StrictlyIncreasing(s, key) && x in s && y in s && key(x) == key(y)
    ensures x == y
  {
    var i :| 0 <= i < |s| && s[i] == x;
    var j :| 0 <= j < |s| && s[j] == y;
    if i < j {
      assert key(s[i]) < key(s[j]);
    } else if j < i {
      assert key(s[j]) < key(s[i]);
    }
  }

  /** Under distinct keys a key identifies its element. */
  lemma DistinctKeysIdentify<T, K>(s: seq<T>, x: T, y: T, key: T -> K)
    requires DistinctBy(s, key) && x in s && y in s && key(x) == key(y)
    ensures x == y
  {
    var i :| 0 <= i < |s| && s[i] == x;
    var j :| 0 <= j < |s| && s[j] == y;
  }

  /** Appending a row adds exactly its key to the key set. */
  lemma KeySetAppend<T, K>(s: seq<T>, x: T, key: T -> K)
    ensures KeySet(s + [x], key) == KeySet(s, key) + {key(x)}
  {
    assert x in s + [x];
    forall k | k in KeySet(s + [x], key) ensures k in KeySet(s, key) + {key(x)} {
      var y :| y in s + [x] && key(y) == k;
      if y != x { assert y in s; }
    }
  }

  /** Appending a row whose key exceeds every present key keeps key order. */
  lemma AppendIncreasing<T>(s: seq<T>, x: T, key: T -> nat)
    requires StrictlyIncreasing(s, key)
    requires forall y :: y in s ==> key(y) < key(x)
    ensures StrictlyIncreasing(s + [x], key)
  {
    var r := s + [x];
    forall i, j | 0 <= i < j < |r| ensures key(r[i]) < key(r[j]) {
      if j == |s| {
        assert r[i] in s;
      }
    }
  }

  /** Appending a row whose key is new keeps keys distinct. */
  lemma AppendDistinct<T, K>(s: seq<T>, x: T, key: T -> K)
    requires DistinctBy(s, key)
    requires key(x) !in KeySet(s, key)
    ensures DistinctBy(s + [x], key)
  {
    var r := s + [x];
    forall i, j | 0 <= i < j < |r| ensures key(r[i]) != key(r[j]) {
      if j == |s| {
        assert r[i] in s;
      }
    }
  }

  /** Replacing one row by a row with a key no other row has keeps keys distinct. */
  lemma ReplaceDistinct<T, K>(s: seq<T>, i: nat, x: T, key: T -> K)
    requires DistinctBy(s, key) && i < |s|
    requires forall j :: 0 <= j < |s| && j != i ==> key(s[j]) != key(x)
    ensures DistinctBy(s[i := x], key)
  {
  }

  /** Replacing one row by a row with the same key keeps key order and the key set. */
  lemma ReplaceSameKey<T>(s: seq<T>, i: nat, x: T, key: T -> nat)
    requires StrictlyIncreasing(s, key) && i < |s| && key(x) == key(s[i])
    ensures StrictlyIncreasing(s[i := x], key)
    ensures KeySet(s[i := x], key) == KeySet(s, key)
  {
    var r := s[i := x];
    forall k | k in KeySet(s, key) ensures k in KeySet(r, key) {
      var y :| y in s && key(y) == k;
      var j :| 0 <= j < |s| && s[j] == y;
      if j == i { assert key(r[i]) == k; } else { assert r[j] == y; }
    }
    forall k | k in KeySet(r, key) ensures k in KeySet(s, key) {
      var y :| y in r && key(y) == k;
      var j :| 0 <= j < |r| && r[j] == y;
      if j == i { assert key(s[i]) == k; } else { assert s[j] == y; }
    }
  }

  /** `m` maps the key of every element of `s`, and nothing else, to its value under `val`. */
  ghost predicate Tabulates<T, K, V>(s: seq<T>, key: T -> K, val: T -> V, m: map<K, V>)
  {
    && m.Keys == KeySet(s, key)
    && forall x | x in s :: key(x) in m && m[key(x)] == val(x)
  }

  /** The key of an element of a distinct-keyed sequence is not among the keys before it. */
  lemma DistinctPrefix<T, K>(s: seq<T>, i: nat, key: T -> K)
    requires DistinctBy(s, key) && i < |s|
    ensures key(s[i]) !in KeySet(s[..i], key)
  {
  }

  /** Recording the next element's value extends the table by that element. */
  lemma TabulateAppend<T, K, V>(s: seq<T>, x: T, key: T -> K, val: T -> V, m: map<K, V>)
    requires Tabulates(s, key, val, m) && key(x) !in KeySet(s, key)
    ensures Tabulates(s + [x], key, val, m[key(x) := val(x)])
  {
    KeySetAppend(s, x, key);
    forall y | y in s + [x] ensures key(y) in m[key(x) := val(x)] && m[key(x) := val(x)][key(y)] == val(y) {
      if y != x {
        assert y in s;
        assert key(y) in KeySet(s, key);
      }
    }
  }
}
