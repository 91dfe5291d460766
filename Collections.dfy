/** Generic sequence helpers shared by the store model: the order-preserving
    filter that every query and every filter-delete is built from, and
    pairwise relations that express orderings and uniqueness constraints. */
module Collections {

  datatype Option<+T> = None | Some(value: T)

  /** The elements of `s` that satisfy `keep`, in their original order. */
  function Filter<T(!new)>(s: seq<T>, keep: T -> bool): (r: seq<T>)
    ensures |r| <= |s|
    ensures forall x :: x in r <==> x in s && keep(x)
  {
    if s == [] then []
    else if keep(s[0]) then [s[0]] + Filter(s[1..], keep)
    else Filter(s[1..], keep)
  }

  /** Every earlier element of `s` is in relation `rel` to every later one. */
  predicate Pairwise<T>(s: seq<T>, rel: (T, T) -> bool) {
    forall i, j :: 0 <= i < j < |s| ==> rel(s[i], s[j])
  }

  /** The relation at one ordered pair of positions, for any two positions. */
  lemma PairwiseAt<T>(s: seq<T>, rel: (T, T) -> bool, i: nat, j: nat)
    requires Pairwise(s, rel) && i < |s| && j < |s|
    ensures i < j ==> rel(s[i], s[j])
  {
  }

  /** Filtering keeps any pairwise relation: it only drops elements. */
  lemma {:induction false} FilterPairwise<T(!new)>(s: seq<T>, keep: T -> bool, rel: (T, T) -> bool)
    requires Pairwise(s, rel)
    ensures Pairwise(Filter(s, keep), rel)
  {
    if s != [] {
      assert Pairwise(s[1..], rel) by {
        forall i, j | 0 <= i < j < |s[1..]| ensures rel(s[1..][i], s[1..][j]) {
          assert s[1..][i] == s[i + 1] && s[1..][j] == s[j + 1];
        }
      }
      FilterPairwise(s[1..], keep, rel);
      var tail := Filter(s[1..], keep);
      if keep(s[0]) {
        var r := [s[0]] + tail;
        forall i, j | 0 <= i < j < |r| ensures rel(r[i], r[j]) {
          if i == 0 {
            assert r[j] in s[1..];
            var k :| 0 <= k < |s[1..]| && s[1..][k] == r[j];
            assert s[k + 1] == r[j];
          } else {
            assert r[i] == tail[i - 1] && r[j] == tail[j - 1];
          }
        }
      }
    }
  }

  /** Filtering distributes over concatenation. */
  lemma {:induction false} FilterAppend<T(!new)>(s: seq<T>, t: seq<T>, keep: T -> bool)
    ensures Filter(s + t, keep) == Filter(s, keep) + Filter(t, keep)
  {
    if s == [] {
      assert s + t == t;
    } else {
      assert (s + t)[0] == s[0];
      assert (s + t)[1..] == s[1..] + t;
      FilterAppend(s[1..], t, keep);
    }
  }

  /** A filter that keeps every element is the identity. */
  lemma {:induction false} FilterKeepsAll<T(!new)>(s: seq<T>, keep: T -> bool)
    requires forall x :: x in s ==> keep(x)
    ensures Filter(s, keep) == s
  {
    if s != [] {
      assert forall x :: x in s[1..] ==> x in s;
      FilterKeepsAll(s[1..], keep);
    }
  }

  /** Two elements differ. As a pairwise relation: no element occurs twice. */
  predicate Differ<T(==)>(a: T, b: T) {
    a != b
  }

  /** In a sequence without repeated elements, each element occurs at most once. */
  lemma {:induction false} DistinctOccursOnce<T>(s: seq<T>, x: T)
    requires Pairwise(s, Differ)
    ensures multiset(s)[x] == if x in s then 1 else 0
  {
    if s != [] {
      assert s == [s[0]] + s[1..];
      assert Pairwise(s[1..], Differ) by {
        forall i, j | 0 <= i < j < |s[1..]| ensures Differ(s[1..][i], s[1..][j]) {
          assert s[1..][i] == s[i + 1] && s[1..][j] == s[j + 1];
        }
      }
      DistinctOccursOnce(s[1..], x);
      if x == s[0] {
        forall k | 0 <= k < |s[1..]| ensures s[1..][k] != x {
          assert Differ(s[0], s[k + 1]);
        }
      }
      assert multiset(s) == multiset([s[0]]) + multiset(s[1..]);
    }
  }

  /** A sequence holds no element twice exactly when each of its elements
      occurs once in it. */
  lemma DistinctIffOnce<T>(s: seq<T>)
    ensures Pairwise(s, Differ) <==> forall x :: x in s ==> multiset(s)[x] == 1
  {
    if Pairwise(s, Differ) {
      forall x | x in s ensures multiset(s)[x] == 1 {
        DistinctOccursOnce(s, x);
      }
    }
    if !Pairwise(s, Differ) {
      var i, j :| 0 <= i < j < |s| && !Differ(s[i], s[j]);
      RepeatedOccursTwice(s, i, j);
    }
  }

  lemma RepeatedOccursTwice<T>(s: seq<T>, i: nat, j: nat)
    requires i < j < |s| && s[i] == s[j]
    ensures multiset(s)[s[i]] >= 2
  {
    assert s == s[..j] + s[j..];
    assert s[..j][i] == s[i] && s[j..][0] == s[j];
    assert multiset(s) == multiset(s[..j]) + multiset(s[j..]);
  }

  ghost predicate Transitive<T(!new)>(rel: (T, T) -> bool) {
    forall a, b, c :: rel(a, b) && rel(b, c) ==> rel(a, c)
  }

  /** For a transitive relation, holding between neighbours is holding
      between every ordered pair. */
  lemma PairwiseIffAdjacent<T(!new)>(s: seq<T>, rel: (T, T) -> bool)
    requires Transitive(rel)
    ensures Pairwise(s, rel) <==> forall k :: 0 <= k < |s| - 1 ==> rel(s[k], s[k + 1])
  {
    if forall k :: 0 <= k < |s| - 1 ==> rel(s[k], s[k + 1]) {
      forall i, j | 0 <= i < j < |s| ensures rel(s[i], s[j]) {
        AdjacentChain(s, rel, i, j);
      }
    }
  }

  lemma {:induction false} AdjacentChain<T(!new)>(s: seq<T>, rel: (T, T) -> bool, i: nat, j: nat)
    requires Transitive(rel)
    requires forall k :: 0 <= k < |s| - 1 ==> rel(s[k], s[k + 1])
    requires i < j < |s|
    ensures rel(s[i], s[j])
    decreases j - i
  {
    if j > i + 1 {
      AdjacentChain(s, rel, i + 1, j);
      assert rel(s[i], s[i + 1]);
    }
  }

  /** A consecutive slice keeps any pairwise relation. */
  lemma PairwiseSlice<T>(s: seq<T>, lo: nat, hi: nat, rel: (T, T) -> bool)
    requires Pairwise(s, rel) && lo <= hi <= |s|
    ensures Pairwise(s[lo .. hi], rel)
  {
    forall i, j | 0 <= i < j < hi - lo ensures rel(s[lo .. hi][i], s[lo .. hi][j]) {
      assert s[lo .. hi][i] == s[lo + i] && s[lo .. hi][j] == s[lo + j];
    }
  }

  /** An element related to every element of `s` can be put in front of it. */
  lemma PairwisePrepend<T>(x: T, s: seq<T>, rel: (T, T) -> bool)
    requires Pairwise(s, rel)
    requires forall y :: y in s ==> rel(x, y)
    ensures Pairwise([x] + s, rel)
  {
    var r := [x] + s;
    forall i, j | 0 <= i < j < |r| ensures rel(r[i], r[j]) {
      assert r[j] == s[j - 1];
      if i > 0 {
        assert r[i] == s[i - 1];
      }
    }
  }

  /** An element to which every element of `s` is related can be put after it. */
  lemma PairwiseAppend<T>(s: seq<T>, x: T, rel: (T, T) -> bool)
    requires Pairwise(s, rel)
    requires forall y :: y in s ==> rel(y, x)
    ensures Pairwise(s + [x], rel)
  {
    var r := s + [x];
    forall i, j | 0 <= i < j < |r| ensures rel(r[i], r[j]) {
      assert r[i] == s[i];
      if j < |s| {
        assert r[j] == s[j];
      }
    }
  }
}
