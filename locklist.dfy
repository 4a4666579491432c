/** The list of write-locked cell indexes, as both storage classes keep it:
    `lockCell` appends, `unlockCell` erases the first match only, so an index
    may be present several times. */
module LockList {

  /** The list after erasing the first occurrence of `x`; unchanged when `x` is absent. */
  function RemoveFirst<T(==)>(s: seq<T>, x: T): (r: seq<T>)
    ensures |r| == if x in s then |s| - 1 else |s|
  {
    if s == [] then []
    else if s[0] == x then s[1..]
    else [s[0]] + RemoveFirst(s[1..], x)
  }

  /** Erasing at the first match: the elements before and after position `j` are kept in order. */
  lemma {:induction false} RemoveFirstAt<T>(s: seq<T>, x: T, j: nat)
    requires j < |s| && s[j] == x && x !in s[..j]
    ensures RemoveFirst(s, x) == s[..j] + s[j + 1..]
  {
    if j > 0 {
      assert s[0] in s[..j];
      assert s[1..][..j - 1] == s[1..j];
      RemoveFirstAt(s[1..], x, j - 1);
      assert s[1..][j..] == s[j + 1..];
      assert [s[0]] + s[1..j] == s[..j];
    }
  }

  /** Unlocking an index that is not in the list leaves the list as it was. */
  lemma {:induction false} RemoveFirstAbsent<T>(s: seq<T>, x: T)
    requires x !in s
    ensures RemoveFirst(s, x) == s
  {
    if s != [] {
      assert s[0] != x;
      RemoveFirstAbsent(s[1..], x);
      assert [s[0]] + s[1..] == s;
    }
  }

  /** Exactly one occurrence of `x` is removed, and nothing else. */
  lemma {:induction false} RemoveFirstMultiset<T>(s: seq<T>, x: T)
    ensures multiset(RemoveFirst(s, x)) == multiset(s) - multiset{x}
  {
    if s == [] {
    } else if s[0] == x {
      assert s == [s[0]] + s[1..];
      assert multiset(s) == multiset{x} + multiset(s[1..]);
    } else {
      RemoveFirstMultiset(s[1..], x);
      assert s == [s[0]] + s[1..];
      assert multiset(s) == multiset{s[0]} + multiset(s[1..]);
    }
  }

  /** After one unlock, `x` is still locked exactly when it was locked at least twice. */
  lemma StillLockedIffLockedTwice<T>(s: seq<T>, x: T)
    ensures x in RemoveFirst(s, x) <==> multiset(s)[x] >= 2
  {
    RemoveFirstMultiset(s, x);
  }

  /** Unlocking `x` does not change whether any other index is locked. */
  lemma {:induction false} OtherLocksKept<T>(s: seq<T>, x: T, y: T)
    requires y != x
    ensures y in RemoveFirst(s, x) <==> y in s
  {
    RemoveFirstMultiset(s, x);
    assert multiset(RemoveFirst(s, x))[y] == multiset(s)[y];
  }

  /** Every index left in the list was in it before. */
  lemma {:induction false} RemoveFirstSubset<T>(s: seq<T>, x: T)
    ensures forall y :: y in RemoveFirst(s, x) ==> y in s
  {
    RemoveFirstMultiset(s, x);
    forall y | y in RemoveFirst(s, x) ensures y in s {
      assert multiset(RemoveFirst(s, x))[y] <= multiset(s)[y];
    }
  }

  /** Locking `x` twice and unlocking it once leaves `x` locked, whatever the list held. */
  lemma LockTwiceUnlockOnce<T>(s: seq<T>, x: T)
    ensures x in RemoveFirst(s + [x] + [x], x)
  {
    assert multiset(s + [x] + [x]) == multiset(s) + multiset{x, x};
    StillLockedIffLockedTwice(s + [x] + [x], x);
  }
}
