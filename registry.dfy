/**
 * The order-keeping removal the watcher performs on its subscriber slice
 * when a connection ends: the first entry equal to the leaving subscriber is
 * cut out by joining what comes before it to what comes after it, and the
 * search stops there.
 */
module Registry {

  /** s without its first occurrence of x; s itself when x does not occur. */
  function RemoveFirst<T(==)>(s: seq<T>, x: T): (r: seq<T>)
    ensures x !in s ==> r == s
    ensures x in s ==> |r| == |s| - 1
  {
    if s == [] then []
    else if s[0] == x then s[1..]
    else [s[0]] + RemoveFirst(s[1..], x)
  }

  /** Exactly one copy of x goes, and nothing else. */
  lemma {:induction false} RemoveFirstMultiset<T>(s: seq<T>, x: T)
    ensures multiset(RemoveFirst(s, x)) == multiset(s) - multiset{x}
  {
    if s != [] {
      assert s == [s[0]] + s[1..];
      assert multiset(s) == multiset{s[0]} + multiset(s[1..]);
      if s[0] != x {
        var r := RemoveFirst(s[1..], x);
        RemoveFirstMultiset(s[1..], x);
        assert multiset([s[0]] + r) == multiset{s[0]} + multiset(r);
      }
    }
  }

  /** The index of the first occurrence of x. */
  predicate FirstAt<T(==)>(s: seq<T>, x: T, i: nat) {
    i < |s| && s[i] == x && x !in s[..i]
  }

  /**
   * Removing the first occurrence is the splice the source performs at the
   * first matching index: everything before it and everything after it keep
   * their relative order.
   */
  lemma {:induction false} RemoveFirstIsSplice<T>(s: seq<T>, x: T, i: nat)
    requires FirstAt(s, x, i)
    ensures RemoveFirst(s, x) == s[..i] + s[i + 1..]
  {
    if i > 0 {
      assert s[0] in s[..i];
      var t := s[1..];
      assert t[..i - 1] == s[..i][1..];
      assert FirstAt(t, x, i - 1);
      RemoveFirstIsSplice(t, x, i - 1);
      calc {
        RemoveFirst(s, x);
        [s[0]] + RemoveFirst(t, x);
        [s[0]] + (t[..i - 1] + t[i..]);
        { assert s[..i] == [s[0]] + t[..i - 1]; assert s[i + 1..] == t[i..]; }
        s[..i] + s[i + 1..];
      }
    }
  }

  predicate Distinct<T(==)>(s: seq<T>) {
    forall i, j :: 0 <= i < j < |s| ==> s[i] != s[j]
  }

  /** Cutting one entry out of a registry without duplicates leaves no trace of it. */
  lemma SpliceKeepsDistinct<T>(s: seq<T>, i: nat)
    requires Distinct(s) && i < |s|
    ensures Distinct(s[..i] + s[i + 1..])
    ensures s[i] !in s[..i] + s[i + 1..]
  {
    var r := s[..i] + s[i + 1..];
    assert forall k :: 0 <= k < |r| ==> r[k] == s[if k < i then k else k + 1];
  }

  /**
   * Subscribe followed by unsubscribe of the same, new subscriber leaves the
   * registry as it was.
   */
  lemma {:induction false} RemoveFirstUndoesAppend<T>(s: seq<T>, x: T)
    requires x !in s
    ensures RemoveFirst(s + [x], x) == s
  {
    assert FirstAt(s + [x], x, |s|) by {
      assert (s + [x])[..|s|] == s;
    }
    RemoveFirstIsSplice(s + [x], x, |s|);
    assert (s + [x])[..|s|] == s;
  }
}
