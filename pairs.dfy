/**
 * Pairwise relations over a collection counted with multiplicity: `P` holds between any two
 * distinct members, and between a member and itself when it occurs twice.
 */
module Pairs {

  ghost predicate PairwiseM<T>(m: multiset<T>, P: (T, T) -> bool) {
    forall a, b :: a in m && b in m && (a != b || m[a] > 1) ==> P(a, b)
  }

  /** `P` holds between the elements at any two different positions of `s`. */
  ghost predicate PairwiseAt<T>(s: seq<T>, P: (T, T) -> bool) {
    forall i, j :: 0 <= i < |s| && 0 <= j < |s| && i != j ==> P(s[i], s[j])
  }

  /** An element found at two different positions occurs at least twice. */
  lemma DuplicateCount<T>(s: seq<T>, i: nat, j: nat)
    requires i < j < |s| && s[i] == s[j]
    ensures multiset(s)[s[i]] >= 2
  {
    assert s == s[..i] + [s[i]] + s[i + 1..j] + [s[j]] + s[j + 1..];
  }

  /** An element that occurs twice sits at two different positions. */
  lemma {:induction false} TwoPositions<T>(s: seq<T>, x: T)
    requires multiset(s)[x] >= 2
    ensures exists i, j :: 0 <= i < j < |s| && s[i] == x && s[j] == x
  {
    var init, last := s[..|s| - 1], s[|s| - 1];
    assert s == init + [last];
    if last == x {
      assert x in multiset(init);
      var i :| 0 <= i < |init| && init[i] == x;
      assert s[i] == x && s[|s| - 1] == x;
    } else {
      TwoPositions(init, x);
      var i, j :| 0 <= i < j < |init| && init[i] == x && init[j] == x;
      assert s[i] == x && s[j] == x;
    }
  }

  /** The relation holds at every pair of positions exactly when it holds pairwise in the multiset. */
  lemma PairwiseAtMultiset<T>(s: seq<T>, P: (T, T) -> bool)
    ensures PairwiseAt(s, P) <==> PairwiseM(multiset(s), P)
  {
    var m := multiset(s);
    if PairwiseAt(s, P) {
      forall a, b | a in m && b in m && (a != b || m[a] > 1) ensures P(a, b) {
        if a != b {
          var i :| 0 <= i < |s| && s[i] == a;
          var j :| 0 <= j < |s| && s[j] == b;
        } else {
          TwoPositions(s, a);
          var i, j :| 0 <= i < j < |s| && s[i] == a && s[j] == a;
        }
      }
    }
    if PairwiseM(m, P) {
      forall i, j | 0 <= i < |s| && 0 <= j < |s| && i != j ensures P(s[i], s[j]) {
        if s[i] == s[j] {
          if i < j { DuplicateCount(s, i, j); } else { DuplicateCount(s, j, i); }
        }
      }
    }
  }

  /** A pairwise property survives taking a sub-multiset. */
  lemma PairwiseSub<T>(m: multiset<T>, sub: multiset<T>, P: (T, T) -> bool)
    requires sub <= m && PairwiseM(m, P)
    ensures PairwiseM(sub, P)
  {
    forall a, b | a in sub && b in sub && (a != b || sub[a] > 1) ensures P(a, b) {
      assert sub[a] <= m[a];
    }
  }

  /** A permutation, or a reordered part, of a sequence keeps a pairwise property of positions. */
  lemma PairwiseAtSub<T>(s: seq<T>, t: seq<T>, P: (T, T) -> bool)
    requires multiset(t) <= multiset(s) && PairwiseAt(s, P)
    ensures PairwiseAt(t, P)
  {
    PairwiseAtMultiset(s, P);
    PairwiseSub(multiset(s), multiset(t), P);
    PairwiseAtMultiset(t, P);
  }
}
