/** Sequence helpers shared by the model: duplicate-freedom, the JavaScript
    `[...new Set(xs)]` idiom (Dedup), filtering as `Array.prototype.filter`
    and an SQL `WHERE` clause do it, and first-match lookup. */
module Seqs {
  import opened Wrappers

  predicate NoDup<T(==)>(s: seq<T>) {
    forall i, j :: 0 <= i < j < |s| ==> s[i] != s[j]
  }

  /** The elements of `s` as a set. */
  function Elements<T>(s: seq<T>): set<T> {
    set x | x in s
  }

  /** Position of the first occurrence of `x` in `s`. */
  function FirstIndex<T(==)>(s: seq<T>, x: T): (i: nat)
    requires x in s
    ensures i < |s| && s[i] == x && x !in s[..i]
  {
    if s[0] == x then 0
    else
      var k := FirstIndex(s[1..], x);
      assert s[..k + 1] == [s[0]] + s[1..][..k];
      k + 1
  }

  lemma FirstIndexUnique<T>(s: seq<T>, x: T, k: nat)
    requires k < |s| && s[k] == x && x !in s[..k]
    ensures FirstIndex(s, x) == k
  {
    var i := FirstIndex(s, x);
  }

  /** The first occurrence of a value in a prefix is its first occurrence in the whole. */
  lemma FirstIndexOfPrefix<T>(s: seq<T>, n: nat, x: T)
    requires n <= |s| && x in s[..n]
    ensures FirstIndex(s, x) == FirstIndex(s[..n], x)
  {
    var k := FirstIndex(s[..n], x);
    assert s[..n][..k] == s[..k];
    FirstIndexUnique(s, x, k);
  }

  /** `[...new Set(s)]`: a JavaScript Set keeps insertion order, so each value
      is kept where it first occurs and later repeats are dropped. */
  function Dedup<T(==,!new)>(s: seq<T>): (r: seq<T>)
    ensures NoDup(r)
    ensures forall x :: x in r <==> x in s
    ensures |r| <= |s|
  {
    if s == [] then []
    else
      var d := Dedup(s[..|s| - 1]);
      var x := s[|s| - 1];
      if x in d then d else d + [x]
  }

  /** Adding one more value to the Set: the step a `forEach(... add ...)` loop takes. */
  lemma DedupSnoc<T(!new)>(s: seq<T>, x: T)
    ensures Dedup(s + [x]) == if x in Dedup(s) then Dedup(s) else Dedup(s) + [x]
  {
    assert (s + [x])[..|s + [x]| - 1] == s;
  }

  /** Dedup keeps the values in the order of their first occurrence. */
  lemma {:induction false} DedupKeepsFirstOccurrenceOrder<T(!new)>(s: seq<T>, i: nat, j: nat)
    requires i < j < |Dedup(s)|
    ensures FirstIndex(s, Dedup(s)[i]) < FirstIndex(s, Dedup(s)[j])
  {
    var n := |s|;
    var p := s[..n - 1];
    var d := Dedup(p);
    var x := s[n - 1];
    assert s == p + [x];
    DedupSnoc(p, x);
    if j < |d| {
      assert Dedup(s)[i] == d[i] && Dedup(s)[j] == d[j];
      DedupKeepsFirstOccurrenceOrder(p, i, j);
      FirstIndexOfPrefix(s, n - 1, d[i]);
      FirstIndexOfPrefix(s, n - 1, d[j]);
    } else {
      assert Dedup(s) == d + [x] && Dedup(s)[i] == d[i] && Dedup(s)[j] == x;
      assert x !in s[..n - 1];
      FirstIndexUnique(s, x, n - 1);
      FirstIndexOfPrefix(s, n - 1, d[i]);
    }
  }

  /** A duplicate-free sequence is its own Dedup. */
  lemma {:induction false} DedupOfNoDup<T(!new)>(s: seq<T>)
    requires NoDup(s)
    ensures Dedup(s) == s
  {
    if s != [] {
      var p := s[..|s| - 1];
      DedupOfNoDup(p);
      assert p + [s[|s| - 1]] == s;
    }
  }

  /** Dedup shortens a sequence exactly when it has a repeated value. */
  lemma {:induction false} DedupLength<T(!new)>(s: seq<T>)
    ensures |Dedup(s)| == |s| <==> NoDup(s)
  {
    if NoDup(s) {
      DedupOfNoDup(s);
    } else {
      DedupShortens(s);
    }
  }

  lemma {:induction false} DedupShortens<T(!new)>(s: seq<T>)
    requires !NoDup(s)
    ensures |Dedup(s)| < |s|
  {
    var p := s[..|s| - 1];
    var x := s[|s| - 1];
    if NoDup(p) {
      var i, j :| 0 <= i < j < |s| && s[i] == s[j];
      assert x in p by { assert p[i] == x; }
    } else {
      DedupShortens(p);
    }
  }

  /** A duplicate-free sequence has as many elements as its set. */
  lemma {:induction false} NoDupCardinality<T>(s: seq<T>)
    requires NoDup(s)
    ensures |Elements(s)| == |s|
  {
    if s != [] {
      var p := s[..|s| - 1];
      var x := s[|s| - 1];
      assert NoDup(p);
      NoDupCardinality(p);
      assert Elements(s) == Elements(p) + {x} by {
        assert s == p + [x];
      }
    }
  }

  /** The set of a sequence is no larger than the sequence, and as large
      exactly when the sequence has no repeats. */
  lemma ElementsCardinality<T(!new)>(s: seq<T>)
    ensures |Elements(s)| <= |s|
    ensures |Elements(s)| == |s| <==> NoDup(s)
  {
    var d := Dedup(s);
    assert Elements(d) == Elements(s);
    NoDupCardinality(d);
    DedupLength(s);
  }

  /** A subset as large as its superset is the superset. */
  lemma SubsetOfSameSize<T>(a: set<T>, b: set<T>)
    requires a <= b && |a| == |b|
    ensures a == b
  {
    var rest := b - a;
    assert b == a + rest && a * rest == {};
    assert |rest| == 0;
  }

  /** `xs.filter(p)`, and the rows an SQL `WHERE p` keeps, in their order. */
  function Filter<T(!new)>(s: seq<T>, p: T -> bool): (r: seq<T>)
    ensures forall x :: x in r <==> x in s && p(x)
    ensures r == [] <==> forall x :: x in s ==> !p(x)
    ensures |r| <= |s|
  {
    if s == [] then []
    else (if p(s[0]) then [s[0]] else []) + Filter(s[1..], p)
  }

  lemma {:induction false} FilterNoDup<T(!new)>(s: seq<T>, p: T -> bool)
    requires NoDup(s)
    ensures NoDup(Filter(s, p))
  {
    if s != [] {
      assert NoDup(s[1..]);
      FilterNoDup(s[1..], p);
    }
  }

  /** The first element of `s` that satisfies `p`, as TypeORM's `findOne` gives it. */
  function Find<T>(s: seq<T>, p: T -> bool): (r: Option<T>)
    ensures r.Some? ==> r.value in s && p(r.value)
    ensures r.None? ==> forall x :: x in s ==> !p(x)
  {
    if s == [] then None
    else if p(s[0]) then Some(s[0])
    else Find(s[1..], p)
  }

  /** `xs.map(f)`. */
  function Map<T, U>(s: seq<T>, f: T -> U): seq<U> {
    seq(|s|, i requires 0 <= i < |s| => f(s[i]))
  }

  /** Rows picked from a table by a key that identifies them, one row per
      requested key at most: as many rows come back as there are distinct keys
      requested exactly when every requested key is present. */
  lemma {:induction false} KeyedSelectionCount<T(!new), K(!new)>(r: seq<T>, rows: seq<T>, key: T -> K, keys: seq<K>)
    requires NoDup(r)
    requires forall x, y :: x in rows && y in rows && key(x) == key(y) ==> x == y
    requires forall x :: x in r <==> x in rows && key(x) in keys
    ensures |r| <= |Elements(keys)|
    ensures |r| == |Elements(keys)| <==> forall k :: k in keys ==> exists x :: x in rows && key(x) == k
  {
    var ks := Map(r, key);
    assert NoDup(ks) by {
      forall i, j | 0 <= i < j < |ks| ensures ks[i] != ks[j] {
        assert r[i] in rows && r[j] in rows;
      }
    }
    NoDupCardinality(ks);
    assert Elements(ks) <= Elements(keys) by {
      forall k | k in Elements(ks) ensures k in Elements(keys) {
        var i :| 0 <= i < |ks| && ks[i] == k;
        assert r[i] in r;
      }
    }
    assert |Elements(ks)| <= |Elements(keys)| by {
      assert Elements(keys) == Elements(ks) + (Elements(keys) - Elements(ks));
    }
    if forall k :: k in keys ==> exists x :: x in rows && key(x) == k {
      forall k | k in Elements(keys) ensures k in Elements(ks) {
        var x :| x in rows && key(x) == k;
        assert x in r;
        var i :| 0 <= i < |r| && r[i] == x;
        assert ks[i] == k;
      }
      assert Elements(ks) == Elements(keys);
    }
    if |r| == |Elements(keys)| {
      SubsetOfSameSize(Elements(ks), Elements(keys));
      forall k | k in keys ensures exists x :: x in rows && key(x) == k {
        assert k in Elements(ks);
        var i :| 0 <= i < |ks| && ks[i] == k;
        assert r[i] in r;
      }
    }
  }
}
