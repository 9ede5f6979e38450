/** Facts about sequences without repeated elements, used to reason about the
    name lists the scheduler and the CSV reader build. */
module Seqs {

  /** No element occurs twice. */
  predicate Distinct<T(==)>(s: seq<T>)
  {
    forall i, j :: 0 <= i < j < |s| ==> s[i] != s[j]
  }

  /** The set of elements of a sequence. */
  function Elems<T>(s: seq<T>): set<T>
  {
    set x | x in s
  }

  /** A sequence has at least as many positions as distinct elements. */
  lemma {:induction false} ElemsAtMostLength<T>(s: seq<T>)
    ensures |Elems(s)| <= |s|
  {
    if s != [] {
      var init := s[..|s| - 1];
      ElemsAtMostLength(init);
      assert s == init + [s[|s| - 1]];
      assert Elems(s) == Elems(init) + {s[|s| - 1]};
    }
  }

  /** Without repetitions the two counts agree, and conversely. */
  lemma {:induction false} DistinctIffElemsLength<T>(s: seq<T>)
    ensures Distinct(s) <==> |Elems(s)| == |s|
  {
    if s != [] {
      var init := s[..|s| - 1];
      var last := s[|s| - 1];
      DistinctIffElemsLength(init);
      ElemsAtMostLength(init);
      assert s == init + [last];
      assert Elems(s) == Elems(init) + {last};
      if last in init {
        assert Elems(s) == Elems(init);
        var k :| 0 <= k < |init| && init[k] == last;
        assert s[k] == s[|s| - 1];
      } else {
        assert |Elems(s)| == |Elems(init)| + 1;
        if Distinct(init) {
          forall i, j | 0 <= i < j < |s| ensures s[i] != s[j] {
            if j == |s| - 1 {
              assert s[i] == init[i];
            } else {
              assert s[i] == init[i] && s[j] == init[j];
            }
          }
        } else {
          var i, j :| 0 <= i < j < |init| && init[i] == init[j];
          assert s[i] == s[j];
        }
      }
    }
  }

  /** A subset is no larger than its superset, and of equal size only when equal. */
  lemma {:induction false} SubsetCardinality<T>(a: set<T>, b: set<T>)
    requires a <= b
    ensures |a| <= |b|
    ensures |a| == |b| ==> a == b
    decreases b
  {
    if b != {} {
      var y :| y in b;
      SubsetCardinality(a - {y}, b - {y});
      if y in a {
        assert |a| == |a - {y}| + 1;
        assert a == (a - {y}) + {y} && b == (b - {y}) + {y};
      } else {
        assert a - {y} == a;
      }
    }
  }

  /** A repetition-free sequence drawn from a set is no longer than the set,
      and exactly as long only when it enumerates the whole set. */
  lemma DistinctWithin<T>(s: seq<T>, universe: set<T>)
    requires Distinct(s)
    requires forall x :: x in s ==> x in universe
    ensures |s| <= |universe|
    ensures |s| == |universe| ==> Elems(s) == universe
  {
    DistinctIffElemsLength(s);
    SubsetCardinality(Elems(s), universe);
  }

  /** A map keyed by exactly the elements of a sequence without repetitions
      has as many keys as the sequence has elements. */
  lemma KeysOfDistinct<K, V>(m: map<K, V>, s: seq<K>)
    requires Distinct(s) && forall k :: k in m <==> k in s
    ensures |m.Keys| == |s|
  {
    DistinctIffElemsLength(s);
    assert m.Keys == Elems(s);
  }

  /** Fewer distinct elements than a set holds leave some of the set out. */
  lemma SomeLeftOut<T>(universe: set<T>, s: seq<T>)
    requires Distinct(s) && |s| < |universe|
    ensures universe - Elems(s) != {}
  {
    ElemsAtMostLength(s);
    if universe <= Elems(s) {
      SubsetCardinality(universe, Elems(s));
    }
    var x :| x in universe && x !in Elems(s);
    assert x in universe - Elems(s);
  }

  /** Rearranging a repetition-free sequence cannot introduce a repetition. */
  lemma DistinctPermutation<T>(a: seq<T>, b: seq<T>)
    requires multiset(a) == multiset(b) && Distinct(b)
    ensures Distinct(a)
  {
    DistinctIffElemsLength(a);
    DistinctIffElemsLength(b);
    forall x | x in Elems(a) ensures x in Elems(b) {
      assert x in multiset(a);
    }
    forall x | x in Elems(b) ensures x in Elems(a) {
      assert x in multiset(b);
    }
    assert Elems(a) == Elems(b);
    assert |a| == |multiset(a)| == |multiset(b)| == |b|;
  }

  /** Appending a new element keeps a sequence repetition-free. */
  lemma DistinctAppend<T>(s: seq<T>, x: T)
    requires Distinct(s) && x !in s
    ensures Distinct(s + [x])
  {
  }

  /** Two repetition-free sequences with no element in common concatenate to one. */
  lemma DistinctConcat<T>(a: seq<T>, b: seq<T>)
    requires Distinct(a) && Distinct(b) && forall x :: x in a ==> x !in b
    ensures Distinct(a + b)
  {
    forall i, j | 0 <= i < j < |a + b| ensures (a + b)[i] != (a + b)[j] {
      if i < |a| && |a| <= j {
        assert (a + b)[i] in a && (a + b)[j] in b;
      }
    }
  }

  /** Updating a key already present leaves the key set as it was. */
  lemma UpdateKeepsKeys<K, V>(m: map<K, V>, k: K, v: V)
    requires k in m
    ensures m[k := v].Keys == m.Keys
  {
  }

  /** Applies `f` to every element, keeping the order. */
  function Map<T, U>(f: T -> U, s: seq<T>): (r: seq<U>)
    ensures |r| == |s|
  {
    seq(|s|, k requires 0 <= k < |s| => f(s[k]))
  }

  /** Position `k` of the images is the image of position `k`. */
  lemma MapElements<T, U>(f: T -> U, s: seq<T>)
    ensures forall k :: 0 <= k < |s| ==> Map(f, s)[k] == f(s[k])
  {
  }

  /** Two arrangements of the same elements hold the same elements. */
  lemma SameElements<T>(a: seq<T>, b: seq<T>)
    requires multiset(a) == multiset(b)
    ensures forall x :: x in a <==> x in b
  {
    forall x
      ensures x in a <==> x in b
    {
      assert x in a <==> x in multiset(a);
      assert x in b <==> x in multiset(b);
    }
  }

  /** Mapping distributes over concatenation. */
  lemma MapAppend<T, U>(f: T -> U, a: seq<T>, b: seq<T>)
    ensures Map(f, a + b) == Map(f, a) + Map(f, b)
  {
    MapElements(f, a + b);
    MapElements(f, a);
    MapElements(f, b);
    var l, r := Map(f, a + b), Map(f, a) + Map(f, b);
    assert |l| == |r|;
    forall k | 0 <= k < |l|
      ensures l[k] == r[k]
    {
      if k < |a| {
        assert (a + b)[k] == a[k];
      } else {
        assert (a + b)[k] == b[k - |a|];
      }
    }
  }

  /** The images of a concatenation are the images of its two parts. */
  lemma MapMultisetAppend<T, U>(f: T -> U, a: seq<T>, b: seq<T>)
    ensures multiset(Map(f, a + b)) == multiset(Map(f, a)) + multiset(Map(f, b))
  {
    MapAppend(f, a, b);
  }

  /** Removing the element at `j` removes one occurrence of it. */
  lemma RemoveAt<T>(b: seq<T>, j: nat)
    requires j < |b|
    ensures b == b[..j] + [b[j]] + b[j + 1..]
    ensures multiset(b[..j] + b[j + 1..]) == multiset(b) - multiset{b[j]}
  {
    assert b == b[..j] + [b[j]] + b[j + 1..];
    assert multiset(b) == multiset(b[..j]) + multiset{b[j]} + multiset(b[j + 1..]);
  }

  /** The images of `front + [x] + back` are those of `front + back` and `f(x)`. */
  lemma MapInsert<T, U>(f: T -> U, front: seq<T>, x: T, back: seq<T>)
    ensures multiset(Map(f, front + [x] + back)) == multiset(Map(f, front + back)) + multiset{f(x)}
  {
    MapElements(f, [x]);
    assert Map(f, [x]) == [f(x)];
    MapMultisetAppend(f, front + [x], back);
    MapMultisetAppend(f, front, [x]);
    MapMultisetAppend(f, front, back);
  }

  /** Mapping two arrangements of the same elements gives two arrangements of
      the same images. */
  lemma {:induction false} MapPermutation<T, U>(f: T -> U, a: seq<T>, b: seq<T>)
    requires multiset(a) == multiset(b)
    ensures multiset(Map(f, a)) == multiset(Map(f, b))
    decreases |a|
  {
    if a == [] {
      assert |b| == |multiset(b)| == 0;
    } else {
      var n := |a| - 1;
      var x := a[n];
      assert x in multiset(b);
      var j :| 0 <= j < |b| && b[j] == x;
      RemoveAt(a, n);
      RemoveAt(b, j);
      MapPermutation(f, a[..n] + a[n + 1..], b[..j] + b[j + 1..]);
      MapInsert(f, a[..n], x, a[n + 1..]);
      MapInsert(f, b[..j], x, b[j + 1..]);
    }
  }
}
