/**
 Facts about sequences that the comment-thread model needs: what it means for
 one sequence to be a subsequence of another (same elements, same relative
 order, some dropped), and how that relates to multisets and lengths.
 */
module Sequences {

  /** True iff `sub` can be obtained from `s` by dropping elements while keeping
      the relative order of the rest. Defined greedily: the head of `sub` is
      matched against the first element of `s` that equals it. */
  predicate IsSubsequence<T(==)>(sub: seq<T>, s: seq<T>)
    decreases |s|
  {
    if |sub| == 0 then true
    else if |s| == 0 then false
    else if sub[0] == s[0] then IsSubsequence(sub[1..], s[1..])
    else IsSubsequence(sub, s[1..])
  }

  /** Every sequence is a subsequence of itself. */
  lemma {:induction false} SubsequenceReflexive<T>(s: seq<T>)
    ensures IsSubsequence(s, s)
    decreases |s|
  {
    if |s| > 0 {
      SubsequenceReflexive(s[1..]);
    }
  }

  /** A subsequence uses each value at most as often as the sequence it is
      drawn from. */
  lemma {:induction false} SubsequenceMultiset<T>(sub: seq<T>, s: seq<T>)
    requires IsSubsequence(sub, s)
    ensures multiset(sub) <= multiset(s)
    decreases |s|
  {
    if |sub| == 0 {
    } else {
      assert s == [s[0]] + s[1..];
      if sub[0] == s[0] {
        SubsequenceMultiset(sub[1..], s[1..]);
        assert sub == [sub[0]] + sub[1..];
      } else {
        SubsequenceMultiset(sub, s[1..]);
      }
    }
  }

  /** Every element of a subsequence occurs in the sequence it is drawn from. */
  lemma SubsequenceMembers<T>(sub: seq<T>, s: seq<T>)
    requires IsSubsequence(sub, s)
    ensures forall x :: x in sub ==> x in s
  {
    SubsequenceMultiset(sub, s);
    forall x | x in sub
      ensures x in s
    {
      assert x in multiset(sub);
    }
  }

  /** Two positions holding the same value make that value occur at least
      twice. */
  lemma TwoOccurrences<T>(s: seq<T>, i: nat, j: nat)
    requires i < j < |s| && s[i] == s[j]
    ensures multiset(s)[s[i]] >= 2
  {
    assert s == s[..i] + [s[i]] + s[i + 1..j] + [s[j]] + s[j + 1..];
  }
}
