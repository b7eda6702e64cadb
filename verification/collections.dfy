/** Small facts about sets and sequences shared by the model. */
module Collections {

  /** No element occurs twice. */
  predicate NoDup<T(==)>(s: seq<T>)
  {
    forall a, b :: 0 <= a < b < |s| ==> s[a] != s[b]
  }

  /** `s` lists every element of `xs` exactly once. */
  predicate Enumerates<T(==)>(s: seq<T>, xs: set<T>)
  {
    NoDup(s) && (forall x | x in xs :: x in s) && (forall x | x in s :: x in xs)
  }

  lemma NonEmptyHasElement(s: set<int>)
    requires s != {}
    ensures exists x :: x in s
  {
    if forall x :: x !in s {
      assert false;
    }
  }

  /** `m` is the least element of `s`. */
  predicate IsMin(m: int, s: set<int>)
  {
    m in s && forall y :: y in s ==> m <= y
  }

  lemma {:induction false} HasMinimum(s: set<int>)
    requires s != {}
    ensures exists m :: IsMin(m, s)
    decreases |s|
  {
    NonEmptyHasElement(s);
    var x :| x in s;
    var rest := s - {x};
    assert s == rest + {x};
    if rest == {} {
      assert s == {x};
      assert IsMin(x, s);
    } else {
      HasMinimum(rest);
      var m :| IsMin(m, rest);
      var least := if x < m then x else m;
      forall y | y in s
        ensures least <= y
      {
        if y != x {
          assert y in rest;
        }
      }
      assert IsMin(least, s);
    }
  }

  /** The least element of a non-empty finite set. */
  function Min(s: set<int>): (m: int)
    requires s != {}
    ensures m in s
    ensures forall y :: y in s ==> m <= y
  {
    HasMinimum(s);
    var m :| IsMin(m, s);
    m
  }

  /** The elements of `s` in increasing order: how the model fixes the
      iteration order of a set of small integers. */
  function Ascending(s: set<int>): (r: seq<int>)
    ensures |r| == |s|
    ensures forall a, b :: 0 <= a < b < |r| ==> r[a] < r[b]
    ensures Enumerates(r, s)
    decreases |s|
  {
    if s == {} then []
    else
      var m := Min(s);
      var rest := Ascending(s - {m});
      AscendingCons(m, s, rest);
      [m] + rest
  }

  /** The least element of `s` followed by the rest of `s` in increasing
      order is `s` in increasing order. */
  lemma AscendingCons(m: int, s: set<int>, rest: seq<int>)
    requires m in s && forall y :: y in s ==> m <= y
    requires |rest| == |s - {m}| && Enumerates(rest, s - {m})
    requires forall a, b :: 0 <= a < b < |rest| ==> rest[a] < rest[b]
    ensures |[m] + rest| == |s|
    ensures forall a, b :: 0 <= a < b < |[m] + rest| ==> ([m] + rest)[a] < ([m] + rest)[b]
    ensures Enumerates([m] + rest, s)
  {
    var r := [m] + rest;
    assert forall x :: x in rest ==> m < x;
    forall a, b | 0 <= a < b < |r| ensures r[a] < r[b] {
      assert r[b] == rest[b - 1] && rest[b - 1] in rest;
      if a > 0 {
        assert r[a] == rest[a - 1];
      }
    }
  }

  /** Taking one more element of a prefix. */
  lemma PrefixSnoc<T>(s: seq<T>, i: int)
    requires 0 <= i < |s|
    ensures s[..i + 1] == s[..i] + [s[i]]
  {
  }

  /** The elements of a sequence. */
  function Elems<T>(s: seq<T>): set<T>
  {
    set x | x in s
  }

  lemma ElemsSnoc<T>(s: seq<T>, x: T)
    ensures Elems(s + [x]) == Elems(s) + {x}
  {
    assert forall y :: y in s + [x] <==> y in s || y == x;
  }

  /** The map sending every key of `ks` to `v`. */
  function Uniform<K, V>(ks: set<K>, v: V): map<K, V>
  {
    map k | k in ks :: v
  }

  lemma UniformUnion<K, V>(m: map<K, V>, a: set<K>, b: set<K>, v: V)
    ensures (m + Uniform(a, v)) + Uniform(b, v) == m + Uniform(a + b, v)
  {
    var l := (m + Uniform(a, v)) + Uniform(b, v);
    var r := m + Uniform(a + b, v);
    assert l.Keys == r.Keys;
    forall k | k in l
      ensures l[k] == r[k]
    {
    }
  }

  lemma UniformAdd<K, V>(m: map<K, V>, a: set<K>, k: K, v: V)
    ensures (m + Uniform(a, v))[k := v] == m + Uniform(a + {k}, v)
  {
    var l := (m + Uniform(a, v))[k := v];
    var r := m + Uniform(a + {k}, v);
    assert l.Keys == r.Keys;
    forall k' | k' in l
      ensures l[k'] == r[k']
    {
    }
  }

  lemma MergeUpdate<K, V>(m: map<K, V>, n: map<K, V>, k: K, v: V)
    ensures (m + n)[k := v] == m + n[k := v]
  {
    var l := (m + n)[k := v];
    var r := m + n[k := v];
    assert l.Keys == r.Keys;
    forall k' | k' in l
      ensures l[k'] == r[k']
    {
    }
  }

  lemma MergeAssoc<K, V>(m: map<K, V>, n: map<K, V>, o: map<K, V>)
    ensures (m + n) + o == m + (n + o)
  {
    var l := (m + n) + o;
    var r := m + (n + o);
    assert l.Keys == r.Keys;
    forall k | k in l
      ensures l[k] == r[k]
    {
    }
  }

  lemma UniformAddTwo<K, V>(m: map<K, V>, a: set<K>, k1: K, k2: K, v: V)
    ensures (m + Uniform(a, v))[k1 := v][k2 := v] == m + Uniform(a + {k1, k2}, v)
  {
    var l := (m + Uniform(a, v))[k1 := v][k2 := v];
    var r := m + Uniform(a + {k1, k2}, v);
    assert l.Keys == r.Keys;
    forall k | k in l
      ensures l[k] == r[k]
    {
    }
  }

  /** Two new keys make a map two entries larger. */
  lemma AddTwoSize<K, V>(m: map<K, V>, k1: K, v1: V, k2: K, v2: V)
    requires k1 !in m && k2 !in m && k1 != k2
    ensures |m[k1 := v1][k2 := v2]| == |m| + 2
  {
  }

  lemma UniformPrepend<K, V>(m: map<K, V>, k1: K, k2: K, a: set<K>, v: V)
    ensures m[k1 := v][k2 := v] + Uniform(a, v) == m + Uniform({k1, k2} + a, v)
  {
    var l := m[k1 := v][k2 := v] + Uniform(a, v);
    var r := m + Uniform({k1, k2} + a, v);
    assert l.Keys == r.Keys;
    forall k | k in l
      ensures l[k] == r[k]
    {
    }
  }

  /** The tail of a sequence without repeats has none, nor its head. */
  lemma NoDupTail<T>(s: seq<T>)
    requires NoDup(s) && |s| > 0
    ensures NoDup(s[1..]) && s[0] !in s[1..]
  {
    var rest := s[1..];
    forall a, b | 0 <= a < b < |rest|
      ensures rest[a] != rest[b]
    {
      assert rest[a] == s[a + 1] && rest[b] == s[b + 1];
    }
    forall t | 0 <= t < |rest|
      ensures rest[t] != s[0]
    {
      assert rest[t] == s[t + 1];
    }
  }

  lemma ElemsAppend<T>(s: seq<T>, t: seq<T>)
    ensures Elems(s + t) == Elems(s) + Elems(t)
  {
    assert forall y :: y in s + t <==> y in s || y in t;
  }

  /** The two parts of a sequence without repeats have none and share nothing. */
  lemma NoDupAppend<T>(s: seq<T>, t: seq<T>)
    requires NoDup(s + t)
    ensures NoDup(s) && NoDup(t)
    ensures forall x | x in s :: x !in t
  {
    var st := s + t;
    forall a, b | 0 <= a < b < |s|
      ensures s[a] != s[b]
    {
      assert st[a] == s[a] && st[b] == s[b];
    }
    forall a, b | 0 <= a < b < |t|
      ensures t[a] != t[b]
    {
      assert st[|s| + a] == t[a] && st[|s| + b] == t[b];
    }
    forall x | x in s
      ensures x !in t
    {
      var a :| 0 <= a < |s| && s[a] == x;
      forall b | 0 <= b < |t|
        ensures t[b] != x
      {
        assert st[a] == x && st[|s| + b] == t[b];
      }
    }
  }

  /** The maps `f(x)` for the elements `x` of `xs`, merged left to right:
      a later map wins on a shared key. */
  function MergeOver<T, K, V>(f: T -> map<K, V>, xs: seq<T>): map<K, V>
    decreases |xs|
  {
    if |xs| == 0 then map[]
    else MergeOver(f, xs[..|xs| - 1]) + f(xs[|xs| - 1])
  }

  /** A key only one of the merged maps holds keeps that map's value. */
  lemma {:induction false} MergeOverAt<T, K, V>(f: T -> map<K, V>, xs: seq<T>, t: int, k: K)
    requires 0 <= t < |xs| && k in f(xs[t])
    requires forall s | 0 <= s < |xs| && s != t :: k !in f(xs[s])
    ensures k in MergeOver(f, xs) && MergeOver(f, xs)[k] == f(xs[t])[k]
    decreases |xs|
  {
    var n := |xs| - 1;
    var pre := xs[..n];
    if t < n {
      assert pre[t] == xs[t];
      forall s | 0 <= s < |pre| && s != t
        ensures k !in f(pre[s])
      {
        assert pre[s] == xs[s];
      }
      MergeOverAt(f, pre, t, k);
    }
  }
}
