/** Small facts about sequences shared by the rest of the model. */
module Seqs {

  /** No element occurs twice. */
  predicate Distinct<T(==)>(s: seq<T>) {
    forall i, j :: 0 <= i < j < |s| ==> s[i] != s[j]
  }

  /** The concatenation of a sequence of sequences (JavaScript's `flat()`). */
  function Flatten<T>(ss: seq<seq<T>>): (r: seq<T>)
    ensures |ss| == 0 ==> r == []
  {
    if ss == [] then [] else Flatten(ss[..|ss| - 1]) + ss[|ss| - 1]
  }

  lemma FlattenSnoc<T>(ss: seq<seq<T>>, s: seq<T>)
    ensures Flatten(ss + [s]) == Flatten(ss) + s
  {
    assert (ss + [s])[..|ss|] == ss;
  }

  lemma FlattenPrefix<T>(ss: seq<seq<T>>, i: nat)
    requires i < |ss|
    ensures Flatten(ss[..i + 1]) == Flatten(ss[..i]) + ss[i]
  {
    assert ss[..i + 1] == ss[..i] + [ss[i]];
    FlattenSnoc(ss[..i], ss[i]);
  }

  /** One more element of `b` appended after `a`. */
  lemma AppendSlice<T>(a: seq<T>, b: seq<T>, j: nat)
    requires j < |b|
    ensures a + b[..j + 1] == (a + b[..j]) + [b[j]]
  {
    assert b[..j + 1] == b[..j] + [b[j]];
  }

  /** `s` with every occurrence of `x` taken out, the rest in order. */
  function Without<T(==)>(s: seq<T>, x: T): (r: seq<T>)
    ensures forall i :: 0 <= i < |r| ==> r[i] in s && r[i] != x
    ensures forall i :: 0 <= i < |s| && s[i] != x ==> s[i] in r
    ensures |r| <= |s|
  {
    if s == [] then []
    else if s[0] == x then Without(s[1..], x)
    else [s[0]] + Without(s[1..], x)
  }

  lemma {:induction false} WithoutAbsent<T>(s: seq<T>, x: T)
    requires x !in s
    ensures Without(s, x) == s
  {
    if s != [] {
      WithoutAbsent(s[1..], x);
    }
  }

  lemma {:induction false} WithoutAppend<T>(s: seq<T>, t: seq<T>, x: T)
    ensures Without(s + t, x) == Without(s, x) + Without(t, x)
  {
    if s == [] {
      assert s + t == t;
    } else {
      assert (s + t)[1..] == s[1..] + t;
      WithoutAppend(s[1..], t, x);
    }
  }

  lemma {:induction false} WithoutKeepsDistinct<T>(s: seq<T>, x: T)
    requires Distinct(s)
    ensures Distinct(Without(s, x))
  {
    if s != [] {
      WithoutKeepsDistinct(s[1..], x);
    }
  }

  // ---------------------------------------------------------------- stable sorting

  /** Non-decreasing by `key`. */
  predicate SortedBy<T>(s: seq<T>, key: T -> int) {
    forall i, j :: 0 <= i < j < |s| ==> key(s[i]) <= key(s[j])
  }

  /** `x` put into `s` after the trailing elements whose key is greater than its own:
      into a sorted `s`, after every element whose key is not greater. */
  function InsertBy<T(==)>(s: seq<T>, x: T, key: T -> int): (r: seq<T>)
    ensures multiset(r) == multiset(s) + multiset{x} && |r| == |s| + 1
    decreases |s|
  {
    if s == [] then [x]
    else if key(x) < key(s[|s| - 1]) then
      assert s == s[..|s| - 1] + [s[|s| - 1]];
      InsertBy(s[..|s| - 1], x, key) + [s[|s| - 1]]
    else s + [x]
  }

  lemma {:induction false} InsertBySorted<T>(s: seq<T>, x: T, key: T -> int)
    requires SortedBy(s, key)
    ensures SortedBy(InsertBy(s, x, key), key)
    decreases |s|
  {
    if s != [] {
      var last := s[|s| - 1];
      var p := s[..|s| - 1];
      assert forall i :: 0 <= i < |p| ==> p[i] == s[i];
      if key(x) < key(last) {
        InsertBySorted(p, x, key);
        var r0 := InsertBy(p, x, key);
        forall i | 0 <= i < |r0|
          ensures key(r0[i]) <= key(last)
        {
          assert r0[i] in multiset(r0);
          if r0[i] != x {
            assert r0[i] in multiset(p);
            var k :| 0 <= k < |p| && p[k] == r0[i];
          }
        }
        SortedSnoc(r0, last, key);
      } else {
        SortedSnoc(s, x, key);
      }
    }
  }

  /** One more element, at least as large as every other, keeps a sequence sorted. */
  lemma SortedSnoc<T>(r: seq<T>, y: T, key: T -> int)
    requires SortedBy(r, key)
    requires forall i :: 0 <= i < |r| ==> key(r[i]) <= key(y)
    ensures SortedBy(r + [y], key)
  {
    var s := r + [y];
    forall i, j | 0 <= i < j < |s| ensures key(s[i]) <= key(s[j]) {
      assert s[i] == r[i];
      if j < |r| {
        assert s[j] == r[j];
      }
    }
  }

  /** `Array.prototype.sort` with a comparator that orders by `key`: a stable sort,
      written as insertion of each element in turn. */
  function SortBy<T(==)>(s: seq<T>, key: T -> int): (r: seq<T>)
    ensures multiset(r) == multiset(s) && |r| == |s|
    ensures SortedBy(r, key)
    decreases |s|
  {
    if s == [] then []
    else
      assert s == s[..|s| - 1] + [s[|s| - 1]];
      InsertBySorted(SortBy(s[..|s| - 1], key), s[|s| - 1], key);
      InsertBy(SortBy(s[..|s| - 1], key), s[|s| - 1], key)
  }

  /** The elements whose key is `c`, in order. */
  function WithKey<T>(s: seq<T>, key: T -> int, c: int): (r: seq<T>)
    ensures forall i :: 0 <= i < |r| ==> key(r[i]) == c
    decreases |s|
  {
    if s == [] then []
    else WithKey(s[..|s| - 1], key, c) + (if key(s[|s| - 1]) == c then [s[|s| - 1]] else [])
  }

  lemma {:induction false} InsertByStable<T>(s: seq<T>, x: T, key: T -> int, c: int)
    requires SortedBy(s, key)
    ensures WithKey(InsertBy(s, x, key), key, c) == WithKey(s, key, c) + (if key(x) == c then [x] else [])
    decreases |s|
  {
    if s == [] {
    } else if key(x) < key(s[|s| - 1]) {
      var p := s[..|s| - 1];
      InsertByStable(p, x, key, c);
      var r0 := InsertBy(p, x, key);
      assert (r0 + [s[|s| - 1]])[..|r0|] == r0;
    } else {
      assert (s + [x])[..|s|] == s;
    }
  }

  /** Sorting keeps the relative order of elements with equal keys. */
  lemma {:induction false} SortByStable<T>(s: seq<T>, key: T -> int, c: int)
    ensures WithKey(SortBy(s, key), key, c) == WithKey(s, key, c)
    decreases |s|
  {
    if s != [] {
      var p := s[..|s| - 1];
      SortByStable(p, key, c);
      InsertByStable(SortBy(p, key), s[|s| - 1], key, c);
    }
  }

  /** The first element with key `c` heads the elements with that key. */
  lemma {:induction false} WithKeyHead<T>(s: seq<T>, key: T -> int, c: int)
    requires WithKey(s, key, c) != []
    ensures exists i :: 0 <= i < |s| && s[i] == WithKey(s, key, c)[0]
                        && forall j :: 0 <= j < i ==> key(s[j]) != c
    decreases |s|
  {
    var p := s[..|s| - 1];
    var w := WithKey(s, key, c);
    var wp := WithKey(p, key, c);
    assert w == wp + (if key(s[|s| - 1]) == c then [s[|s| - 1]] else []);
    if wp != [] {
      WithKeyHead(p, key, c);
      var i :| 0 <= i < |p| && p[i] == wp[0] && forall j :: 0 <= j < i ==> key(p[j]) != c;
      assert s[i] == p[i] && w[0] == wp[0];
      assert forall j :: 0 <= j < i ==> s[j] == p[j];
      assert 0 <= i < |s| && s[i] == w[0] && forall j :: 0 <= j < i ==> key(s[j]) != c;
    } else {
      forall j | 0 <= j < |p| ensures key(s[j]) != c {
        WithKeyMember(p, key, j);
        assert s[j] == p[j];
      }
      var i := |s| - 1;
      assert 0 <= i < |s| && s[i] == w[0] && forall j :: 0 <= j < i ==> key(s[j]) != c;
    }
  }

  lemma {:induction false} WithKeyMember<T>(s: seq<T>, key: T -> int, j: nat)
    requires j < |s|
    ensures WithKey(s, key, key(s[j])) != []
    decreases |s|
  {
    if j < |s| - 1 {
      WithKeyMember(s[..|s| - 1], key, j);
    }
  }

  /** The head of the sorted sequence is the first element of the input whose key
      is the least. */
  lemma SortByHead<T>(s: seq<T>, key: T -> int)
    requires s != []
    ensures forall j :: 0 <= j < |s| ==> key(SortBy(s, key)[0]) <= key(s[j])
    ensures exists i :: 0 <= i < |s| && s[i] == SortBy(s, key)[0]
                        && forall j :: 0 <= j < i ==> key(s[j]) > key(s[i])
  {
    var r := SortBy(s, key);
    var h := r[0];
    forall j | 0 <= j < |s|
      ensures key(h) <= key(s[j])
    {
      assert s[j] in multiset(r);
    }
    var c := key(h);
    SortByStable(s, key, c);
    assert WithKey(r, key, c)[0] == h by {
      RunHead(r, key, c);
    }
    WithKeyMember(r, key, 0);
    WithKeyHead(s, key, c);
  }

  lemma {:induction false} RunHead<T>(s: seq<T>, key: T -> int, c: int)
    requires s != [] && key(s[0]) == c
    ensures WithKey(s, key, c) != [] && WithKey(s, key, c)[0] == s[0]
    decreases |s|
  {
    if |s| > 1 {
      RunHead(s[..|s| - 1], key, c);
    }
  }

  /** The elements satisfying `p`, in order (JavaScript's `filter`). */
  function Filter<T(==)>(s: seq<T>, p: T -> bool): (r: seq<T>)
    ensures |r| <= |s|
    ensures forall i :: 0 <= i < |r| ==> p(r[i])
    ensures multiset(r) <= multiset(s)
    ensures forall x :: x in r ==> x in s
    ensures forall i :: 0 <= i < |s| && p(s[i]) ==> s[i] in r
    decreases |s|
  {
    if s == [] then []
    else
      var q := s[..|s| - 1];
      assert s == q + [s[|s| - 1]];
      assert forall i :: 0 <= i < |q| ==> s[i] == q[i];
      Filter(q, p) + (if p(s[|s| - 1]) then [s[|s| - 1]] else [])
  }

  lemma FilterSnoc<T>(s: seq<T>, x: T, p: T -> bool)
    ensures Filter(s + [x], p) == Filter(s, p) + (if p(x) then [x] else [])
  {
    assert (s + [x])[..|s|] == s;
  }

  /** A sequence without repetitions has as many elements as its set. */
  lemma {:induction false} DistinctCardinality<T>(s: seq<T>)
    requires Distinct(s)
    ensures |set x | x in s| == |s|
    decreases |s|
  {
    if s != [] {
      var p := s[..|s| - 1];
      var x := s[|s| - 1];
      assert s == p + [x];
      assert Distinct(p);
      DistinctCardinality(p);
      assert (set y | y in s) == (set y | y in p) + {x};
      assert x !in p;
    }
  }
}
