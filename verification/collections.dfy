/** Sequence helpers shared by the model: duplicate-free sequences and
    `list(dict.fromkeys(xs))`. */
module Seqs {
  import opened Wrappers

  predicate Distinct<T(==)>(s: seq<T>) {
    forall i, j :: 0 <= i < j < |s| ==> s[i] != s[j]
  }

  /** `s.index(x)`: the position of the first occurrence of `x`. */
  function FirstIndex<T(==)>(s: seq<T>, x: T): (k: nat)
    requires x in s
    ensures k < |s| && s[k] == x && x !in s[..k]
    decreases |s|
  {
    if s[0] == x then 0
    else
      var k := FirstIndex(s[1..], x);
      assert s[..k + 1] == [s[0]] + s[1..][..k];
      k + 1
  }

  /** Appending never moves the first occurrence of an element already present. */
  lemma FirstIndexAppend<T>(s: seq<T>, t: seq<T>, x: T)
    requires x in s
    ensures FirstIndex(s + t, x) == FirstIndex(s, x)
  {
    var k := FirstIndex(s, x);
    var k' := FirstIndex(s + t, x);
    assert (s + t)[k] == x;
    assert forall j :: 0 <= j < k' ==> (s + t)[..k'][j] == (s + t)[j];
    assert forall j :: 0 <= j < k ==> s[..k][j] == s[j] == (s + t)[j];
  }

  /** In a duplicate-free sequence the element at `i` first occurs at `i`. */
  lemma FirstIndexDistinct<T>(s: seq<T>, i: nat)
    requires Distinct(s) && i < |s|
    ensures FirstIndex(s, s[i]) == i
  {
    var k := FirstIndex(s, s[i]);
    assert forall j :: 0 <= j < k ==> s[..k][j] == s[j];
  }

  /** A duplicate-free sequence with one more element at the end. */
  lemma DistinctSnoc<T>(xs: seq<T>, y: T)
    ensures Distinct(xs + [y]) <==> Distinct(xs) && y !in xs
  {
    assert forall i :: 0 <= i < |xs| ==> (xs + [y])[i] == xs[i];
    assert (xs + [y])[|xs|] == y;
    if Distinct(xs) && y !in xs {
      forall i, j | 0 <= i < j < |xs| + 1
        ensures (xs + [y])[i] != (xs + [y])[j]
      {
        if j == |xs| {
          assert xs[i] in xs;
        }
      }
    }
  }

  /** `list(dict.fromkeys(xs))`: each element once, at the place it first occurs. */
  function Dedup<T(==)>(xs: seq<T>): (r: seq<T>)
    ensures Distinct(r)
    ensures forall i :: 0 <= i < |r| ==> r[i] in xs
    ensures forall i :: 0 <= i < |xs| ==> xs[i] in r
    decreases |xs|
  {
    if |xs| == 0 then []
    else
      var prefix := xs[..|xs| - 1];
      var last := xs[|xs| - 1];
      assert xs == prefix + [last];
      var r := Dedup(prefix);
      if last in r then r
      else
        DistinctSnoc(r, last);
        r + [last]
  }

  /** Dropping the last element never moves the first occurrence of an element the
      rest still holds. */
  lemma FirstIndexInit<T>(xs: seq<T>, y: T)
    requires |xs| > 0 && y in xs[..|xs| - 1]
    ensures FirstIndex(xs, y) == FirstIndex(xs[..|xs| - 1], y)
  {
    assert xs == xs[..|xs| - 1] + [xs[|xs| - 1]];
    FirstIndexAppend(xs[..|xs| - 1], [xs[|xs| - 1]], y);
  }

  /** An element that is new at the end first occurs there. */
  lemma FirstIndexLast<T>(xs: seq<T>)
    requires |xs| > 0 && xs[|xs| - 1] !in xs[..|xs| - 1]
    ensures FirstIndex(xs, xs[|xs| - 1]) == |xs| - 1
  {
  }

  /** `Dedup` keeps the order of first occurrences. */
  lemma {:induction false} DedupOrder<T>(xs: seq<T>)
    ensures forall i, j :: 0 <= i < j < |Dedup(xs)| ==> FirstIndex(xs, Dedup(xs)[i]) < FirstIndex(xs, Dedup(xs)[j])
    decreases |xs|
  {
    if |xs| > 0 {
      var prefix := xs[..|xs| - 1];
      var last := xs[|xs| - 1];
      DedupOrder(prefix);
      var r := Dedup(prefix);
      var d := Dedup(xs);
      forall i, j | 0 <= i < j < |d| ensures FirstIndex(xs, d[i]) < FirstIndex(xs, d[j]) {
        assert d[i] == r[i] && r[i] in prefix;
        FirstIndexInit(xs, r[i]);
        if j < |r| {
          assert d[j] == r[j] && r[j] in prefix;
          FirstIndexInit(xs, r[j]);
        } else {
          assert d[j] == last && last !in r;
          assert last !in prefix;
          FirstIndexLast(xs);
        }
      }
    }
  }

  /** The present values, in order: what a loop appending only successful lookups
      collects. */
  function Somes<T>(os: seq<Option<T>>): seq<T>
    decreases |os|
  {
    if |os| == 0 then []
    else Somes(os[..|os| - 1]) + (if os[|os| - 1].Some? then [os[|os| - 1].value] else [])
  }

  lemma {:induction false} SomesMembers<T>(os: seq<Option<T>>, x: T)
    ensures x in Somes(os) <==> Some(x) in os
    decreases |os|
  {
    if |os| > 0 {
      var init := os[..|os| - 1];
      SomesMembers(init, x);
      assert os == init + [os[|os| - 1]];
    }
  }
}

/** Python dictionaries as association lists: keys in first-insertion order,
    overwriting a key keeps its position (`d[k] = v`). */
module Dict {
  import opened Wrappers
  import opened Seqs

  function Keys<K, V>(d: seq<(K, V)>): (ks: seq<K>)
    ensures |ks| == |d|
    ensures forall i :: 0 <= i < |d| ==> ks[i] == d[i].0
  {
    seq(|d|, i requires 0 <= i < |d| => d[i].0)
  }

  function Values<K, V>(d: seq<(K, V)>): (vs: seq<V>)
    ensures |vs| == |d|
    ensures forall i :: 0 <= i < |d| ==> vs[i] == d[i].1
  {
    seq(|d|, i requires 0 <= i < |d| => d[i].1)
  }

  /** Two lists of pairs holding the same pairs hold the same keys. */
  lemma KeysPermuted<K, V>(a: seq<(K, V)>, b: seq<(K, V)>)
    requires multiset(a) == multiset(b)
    ensures forall k :: k in Keys(a) <==> k in Keys(b)
  {
    KeysIncluded(a, b);
    KeysIncluded(b, a);
  }

  lemma KeysIncluded<K, V>(a: seq<(K, V)>, b: seq<(K, V)>)
    requires multiset(a) <= multiset(b)
    ensures forall k :: k in Keys(a) ==> k in Keys(b)
  {
    forall k | k in Keys(a) ensures k in Keys(b) {
      var i :| 0 <= i < |a| && Keys(a)[i] == k;
      assert a[i] in multiset(b);
      var j :| 0 <= j < |b| && b[j] == a[i];
      assert Keys(b)[j] == k;
    }
  }

  /** `d.get(k)`. */
  function Get<K(==,!new), V>(d: seq<(K, V)>, k: K): Option<V> {
    if k in Keys(d) then Some(d[FirstIndex(Keys(d), k)].1) else None
  }

  /** `d[k] = v`: an existing key keeps its place and takes the new value, a new key
      goes to the end; nothing else changes. */
  function Put<K(==,!new), V>(d: seq<(K, V)>, k: K, v: V): (r: seq<(K, V)>)
    requires Distinct(Keys(d))
    ensures Distinct(Keys(r))
    ensures Keys(r) == if k in Keys(d) then Keys(d) else Keys(d) + [k]
    ensures Get(r, k) == Some(v)
    ensures forall k' :: k' != k ==> Get(r, k') == Get(d, k')
  {
    if k in Keys(d) then
      var i := FirstIndex(Keys(d), k);
      var r := d[i := (k, v)];
      assert Keys(r) == Keys(d);
      r
    else
      var r := d + [(k, v)];
      assert Keys(r) == Keys(d) + [k];
      forall k' | k' in Keys(d)
        ensures FirstIndex(Keys(r), k') == FirstIndex(Keys(d), k')
      {
        FirstIndexAppend(Keys(d), [k], k');
      }
      assert FirstIndex(Keys(r), k) == |d|;
      r
  }

  /** A new key is appended with its value. */
  lemma PutFresh<K(!new), V>(d: seq<(K, V)>, k: K, v: V)
    requires Distinct(Keys(d)) && k !in Keys(d)
    ensures Get(d, k) == None
    ensures Put(d, k, v) == d + [(k, v)]
  {
  }

  /** The value of the last pair with key `k`. */
  function LastValue<K(==,!new), V>(ps: seq<(K, V)>, k: K): Option<V>
    decreases |ps|
  {
    if |ps| == 0 then None
    else if ps[|ps| - 1].0 == k then Some(ps[|ps| - 1].1)
    else LastValue(ps[..|ps| - 1], k)
  }

  /** `{k: v for k, v in ps}`: keys in first-occurrence order, each with its last value. */
  function FromPairs<K(==,!new), V>(ps: seq<(K, V)>): (d: seq<(K, V)>)
    ensures Distinct(Keys(d))
    ensures Keys(d) == Dedup(Keys(ps))
    ensures forall k :: Get(d, k) == LastValue(ps, k)
    decreases |ps|
  {
    if |ps| == 0 then []
    else
      var prefix := ps[..|ps| - 1];
      assert Keys(ps)[..|ps| - 1] == Keys(prefix);
      Put(FromPairs(prefix), ps[|ps| - 1].0, ps[|ps| - 1].1)
  }

  /** Every key of the pairs is a key of the dict they build. */
  lemma FromPairsHasKey<K(!new), V>(ps: seq<(K, V)>, i: nat)
    requires i < |ps|
    ensures ps[i].0 in Keys(FromPairs(ps))
  {
    assert Keys(ps)[i] == ps[i].0;
  }
}

/** Python's ordering of `str` values (code point by code point) and `sorted()`. */
module StringOrder {

  /** `a <= b` on Python strings. */
  predicate LessEq(a: string, b: string)
    decreases |a|
  {
    |a| == 0 || (|b| > 0 && (a[0] < b[0] || (a[0] == b[0] && LessEq(a[1..], b[1..]))))
  }

  lemma {:induction false} LessEqReflexive(a: string)
    ensures LessEq(a, a)
    decreases |a|
  {
    if |a| > 0 {
      LessEqReflexive(a[1..]);
    }
  }

  lemma {:induction false} LessEqTotal(a: string, b: string)
    ensures LessEq(a, b) || LessEq(b, a)
    decreases |a|
  {
    if |a| > 0 && |b| > 0 && a[0] == b[0] {
      LessEqTotal(a[1..], b[1..]);
    }
  }

  lemma {:induction false} LessEqTransitive(a: string, b: string, c: string)
    requires LessEq(a, b) && LessEq(b, c)
    ensures LessEq(a, c)
    decreases |a|
  {
    if |a| > 0 && a[0] == b[0] && b[0] == c[0] {
      LessEqTransitive(a[1..], b[1..], c[1..]);
    }
  }

  lemma {:induction false} LessEqAntisymmetric(a: string, b: string)
    requires LessEq(a, b) && LessEq(b, a)
    ensures a == b
    decreases |a|
  {
    if |a| > 0 {
      LessEqAntisymmetric(a[1..], b[1..]);
      assert a == [a[0]] + a[1..];
      assert b == [b[0]] + b[1..];
    }
  }

  predicate Sorted(s: seq<string>) {
    forall i, j :: 0 <= i < j < |s| ==> LessEq(s[i], s[j])
  }

  /** A sorted sequence stays sorted under a new head that does not exceed any of it. */
  lemma SortedCons(y: string, t: seq<string>)
    requires Sorted(t)
    requires forall j :: 0 <= j < |t| ==> LessEq(y, t[j])
    ensures Sorted([y] + t)
  {
    forall i, j | 0 <= i < j < |t| + 1 ensures LessEq(([y] + t)[i], ([y] + t)[j]) {
      assert ([y] + t)[j] == t[j - 1];
      if i > 0 {
        assert ([y] + t)[i] == t[i - 1];
      }
    }
  }

  /** The head of a sorted sequence does not exceed any of its elements. */
  lemma HeadIsMin(a: seq<string>)
    requires Sorted(a) && |a| > 0
    ensures forall x :: x in multiset(a) ==> LessEq(a[0], x)
  {
    forall x | x in multiset(a) ensures LessEq(a[0], x) {
      var i :| 0 <= i < |a| && a[i] == x;
      if i == 0 {
        LessEqReflexive(x);
      }
    }
  }

  /** Inserts `x` before the first element it does not exceed. */
  function Insert(x: string, s: seq<string>): (r: seq<string>)
    requires Sorted(s)
    ensures Sorted(r)
    ensures multiset(r) == multiset(s) + multiset{x}
    decreases |s|
  {
    if |s| == 0 || LessEq(x, s[0]) then
      forall j | 0 <= j < |s|
        ensures LessEq(x, s[j])
      {
        if j > 0 {
          LessEqTransitive(x, s[0], s[j]);
        }
      }
      SortedCons(x, s);
      [x] + s
    else
      LessEqTotal(x, s[0]);
      var tail := Insert(x, s[1..]);
      assert s == [s[0]] + s[1..];
      HeadIsMin(s);
      forall j | 0 <= j < |tail|
        ensures LessEq(s[0], tail[j])
      {
        assert tail[j] in multiset(tail);
      }
      SortedCons(s[0], tail);
      [s[0]] + tail
  }

  /** `sorted(s)`: a sorted permutation of `s`. */
  function Sort(s: seq<string>): (r: seq<string>)
    ensures Sorted(r)
    ensures multiset(r) == multiset(s)
    decreases |s|
  {
    if |s| == 0 then []
    else
      assert s == [s[0]] + s[1..];
      Insert(s[0], Sort(s[1..]))
  }

  /** Sorting has one answer: two sorted sequences with the same elements are equal,
      so the order in which a Python set is iterated before `sorted()` is irrelevant. */
  lemma {:induction false} SortedUnique(a: seq<string>, b: seq<string>)
    requires Sorted(a) && Sorted(b)
    requires multiset(a) == multiset(b)
    ensures a == b
    decreases |a|
  {
    if |a| > 0 {
      assert |b| == |multiset(b)| == |a|;
      HeadIsMin(a);
      HeadIsMin(b);
      assert a[0] in multiset(a) && b[0] in multiset(b);
      LessEqAntisymmetric(a[0], b[0]);
      assert a == [a[0]] + a[1..];
      assert b == [b[0]] + b[1..];
      assert multiset(a[1..]) == multiset(a) - multiset{a[0]};
      assert multiset(b[1..]) == multiset(b) - multiset{b[0]};
      SortedUnique(a[1..], b[1..]);
    }
  }
}
