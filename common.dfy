/**
 * Small vocabulary shared by the scheduler model: an optional value, and the
 * order-preserving "subsequence" relation used to state that a filter or a
 * placement loop keeps its input order.
 */
module Common {

  datatype Option<+T> = None | Some(value: T)

  /** The elements of `s`, as a set. */
  function Elements<T>(s: seq<T>): set<T>
  {
    set x | x in s
  }

  /** No element occurs twice in `s`. */
  predicate Distinct<T(==)>(s: seq<T>)
  {
    forall i, j :: 0 <= i < j < |s| ==> s[i] != s[j]
  }

  /** `sub` is obtained from `s` by deleting elements, keeping the order of the rest. */
  ghost predicate IsSubsequence<T>(sub: seq<T>, s: seq<T>)
    decreases |s|
  {
    if sub == [] then true
    else if s == [] then false
    else (sub[0] == s[0] && IsSubsequence(sub[1..], s[1..])) || IsSubsequence(sub, s[1..])
  }

  /** A subsequence is no longer than its source and holds only elements of it. */
  lemma {:induction false} SubsequenceMembers<T>(sub: seq<T>, s: seq<T>)
    requires IsSubsequence(sub, s)
    ensures |sub| <= |s|
    ensures forall x :: x in sub ==> x in s
    decreases |s|
  {
    if sub != [] {
      if sub[0] == s[0] && IsSubsequence(sub[1..], s[1..]) {
        SubsequenceMembers(sub[1..], s[1..]);
        assert sub == [sub[0]] + sub[1..];
      } else {
        SubsequenceMembers(sub, s[1..]);
      }
    }
  }

  /**
   * Appending an element to the source keeps a subsequence one, and appending
   * the same element to both keeps the relation too.
   */
  lemma {:induction false} SubsequenceExtend<T>(sub: seq<T>, s: seq<T>, x: T)
    requires IsSubsequence(sub, s)
    ensures IsSubsequence(sub, s + [x])
    ensures IsSubsequence(sub + [x], s + [x])
    decreases |s|
  {
    if sub == [] {
      if s != [] {
        SubsequenceExtend(sub, s[1..], x);
        assert (s + [x])[1..] == s[1..] + [x];
      }
      assert sub + [x] == [x];
    } else {
      assert (s + [x])[0] == s[0] && (s + [x])[1..] == s[1..] + [x];
      assert (sub + [x])[0] == sub[0] && (sub + [x])[1..] == sub[1..] + [x];
      if sub[0] == s[0] && IsSubsequence(sub[1..], s[1..]) {
        SubsequenceExtend(sub[1..], s[1..], x);
      } else {
        SubsequenceExtend(sub, s[1..], x);
      }
    }
  }

  /** In a list without repeats, every element occurs at most once. */
  lemma {:induction false} DistinctCountsAtMostOne<T>(s: seq<T>, x: T)
    requires Distinct(s)
    ensures multiset(s)[x] <= 1
    decreases |s|
  {
    if s != [] {
      assert s == [s[0]] + s[1..];
      assert Distinct(s[1..]) by {
        forall i, j | 0 <= i < j < |s[1..]| ensures s[1..][i] != s[1..][j] {
          assert s[1..][i] == s[i + 1] && s[1..][j] == s[j + 1];
        }
      }
      DistinctCountsAtMostOne(s[1..], x);
      if s[0] == x {
        assert x !in s[1..] by {
          forall k | 0 <= k < |s[1..]| ensures s[1..][k] != x {
            assert s[1..][k] == s[k + 1];
          }
        }
      }
    }
  }

  /** Taking elements of a list without repeats, each at most as often as it occurs, gives a list without repeats. */
  lemma SubMultisetKeepsDistinct<T>(sub: seq<T>, s: seq<T>)
    requires multiset(sub) <= multiset(s)
    requires Distinct(s)
    ensures Distinct(sub)
  {
    forall i, j | 0 <= i < j < |sub|
      ensures sub[i] != sub[j]
    {
      if sub[i] == sub[j] {
        var x := sub[i];
        assert sub == sub[..j] + sub[j..];
        assert sub[..j][i] == x && sub[j..][0] == x;
        assert multiset(sub)[x] == multiset(sub[..j])[x] + multiset(sub[j..])[x];
        DistinctCountsAtMostOne(s, x);
        assert false;
      }
    }
  }
}
