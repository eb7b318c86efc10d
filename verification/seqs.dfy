/** Generic sequence facts: duplicate-freedom and slicing. */
module Seqs {

  /** True when no element occurs twice. */
  predicate Distinct<T(==)>(s: seq<T>)
  {
    forall i, j :: 0 <= i < j < |s| ==> s[i] != s[j]
  }

  /** Dropping the head of a duplicate-free list leaves a duplicate-free list
      without the head in it. */
  lemma DistinctTail<T>(s: seq<T>)
    requires s != []
    ensures Distinct(s) ==> Distinct(s[1..]) && s[0] !in s[1..]
  {
    if Distinct(s) {
      var t := s[1..];
      forall i, j | 0 <= i < j < |t|
        ensures t[i] != t[j]
      {
        assert t[i] == s[i + 1] && t[j] == s[j + 1];
      }
      forall j | 0 <= j < |t|
        ensures t[j] != s[0]
      {
        assert t[j] == s[j + 1];
      }
    }
  }

  /** In a duplicate-free list an element occurs neither before nor after its
      own position. */
  lemma DistinctOnlyAt<T>(s: seq<T>, i: int)
    requires Distinct(s) && 0 <= i < |s|
    ensures s[i] !in s[..i] && s[i] !in s[i + 1..]
  {
    var before := s[..i];
    var after := s[i + 1..];
    forall j | 0 <= j < |before|
      ensures before[j] != s[i]
    {
      assert before[j] == s[j];
    }
    forall j | 0 <= j < |after|
      ensures after[j] != s[i]
    {
      assert after[j] == s[i + 1 + j];
    }
  }

  lemma TakeSnoc<T>(s: seq<T>, n: int)
    requires 0 <= n < |s|
    ensures s[..n + 1] == s[..n] + [s[n]]
  {
  }

  lemma TakeDrop<T>(s: seq<T>, n: int)
    requires 0 <= n <= |s|
    ensures s[..n] + s[n..] == s
  {
  }
}
