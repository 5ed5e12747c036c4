/** Sequences without repetition. */
module Sequences {
  import opened Machine

  function Last<T>(s: seq<T>): T
    requires s != []
  {
    s[|s| - 1]
  }

  ghost predicate NoRepeats<T>(s: seq<T>) {
    forall i, j | 0 <= i < j < |s| :: s[i] != s[j]
  }

  lemma NoRepeatsAppend<T>(a: seq<T>, b: seq<T>)
    requires NoRepeats(a) && NoRepeats(b) && forall x | x in a :: x !in b
    ensures NoRepeats(a + b)
  {
    forall i, j | 0 <= i < j < |a + b| ensures (a + b)[i] != (a + b)[j] {
      if i < |a| <= j {
        assert a[i] in a && b[j - |a|] in b;
      }
    }
  }

  ghost function Members<T>(s: seq<T>): set<T> {
    set x | x in s
  }

  lemma {:induction false} SizeOfMembers<T>(s: seq<T>)
    requires NoRepeats(s)
    ensures |Members(s)| == |s|
  {
    if s == [] {
      assert Members(s) == {};
    } else {
      var front := s[..|s| - 1];
      SizeOfMembers(front);
      assert Members(s) == Members(front) + {Last(s)};
      assert Last(s) !in Members(front);
    }
  }

  lemma NoRepeatsBound(s: seq<nat>, n: nat)
    requires NoRepeats(s) && forall i | 0 <= i < |s| :: s[i] < n
    ensures |s| <= n
  {
    SizeOfMembers(s);
    BoundedSetSize(Members(s), 0, n);
  }

  lemma {:induction false} CountsOnce<T>(s: seq<T>, x: T)
    requires NoRepeats(s)
    ensures multiset(s)[x] == if x in s then 1 else 0
  {
    if s != [] {
      var front := s[..|s| - 1];
      CountsOnce(front, x);
      assert s == front + [Last(s)];
    }
  }

  /** Without repetition, the same members make the same multiset. */
  lemma SameMembers<T>(a: seq<T>, b: seq<T>)
    requires NoRepeats(a) && NoRepeats(b) && forall x :: x in a <==> x in b
    ensures multiset(a) == multiset(b)
  {
    forall x ensures multiset(a)[x] == multiset(b)[x] {
      CountsOnce(a, x);
      CountsOnce(b, x);
    }
  }

  lemma SplitAround<T>(s: seq<T>, x: T, other: seq<T>) returns (left: seq<T>, right: seq<T>)
    requires multiset(s) == multiset(other) && x in other
    ensures s == left + [x] + right
  {
    assert x in multiset(s);
    var j :| 0 <= j < |s| && s[j] == x;
    left, right := s[..j], s[j + 1..];
  }

  lemma RemoveBoth<T>(front: seq<T>, left: seq<T>, x: T, right: seq<T>)
    requires multiset(front + [x]) == multiset(left + [x] + right)
    ensures multiset(front) == multiset(left + right)
  {
    assert multiset(front + [x]) - multiset{x} == multiset(front);
    assert multiset(left + [x] + right) - multiset{x} == multiset(left + right);
  }

  lemma Associates<T>(a: seq<T>, b: seq<T>, c: seq<T>)
    ensures a + (b + c) == (a + b) + c
  {}
}
