/** Sequence facts behind the list view models: order-preserving
    subsequences, filtering, and List.Remove. */
module Lists {

  /** r can be obtained from s by deleting elements, keeping the order. */
  ghost predicate IsSubsequence<T>(r: seq<T>, s: seq<T>)
    decreases |s|
  {
    if r == [] then true
    else if s == [] then false
    else (r[0] == s[0] && IsSubsequence(r[1..], s[1..])) || IsSubsequence(r, s[1..])
  }

  lemma {:induction false} SubsequenceReflexive<T>(s: seq<T>)
    ensures IsSubsequence(s, s)
    decreases |s|
  {
    if s != [] {
      SubsequenceReflexive(s[1..]);
    }
  }

  /** The index of the first element of s equal to x. */
  function IndexOf<T(==)>(s: seq<T>, x: T): (k: nat)
    requires x in s
    ensures k < |s| && s[k] == x && x !in s[..k]
  {
    if s[0] == x then 0
    else
      var k := 1 + IndexOf(s[1..], x);
      assert s[..k] == [s[0]] + s[1..][..k - 1];
      k
  }

  /** List<T>.Remove(x): deletes the first element equal to x, if any. */
  function RemoveFirst<T(==)>(s: seq<T>, x: T): (r: seq<T>)
    ensures x !in s ==> r == s
    ensures x in s ==> r == s[..IndexOf(s, x)] + s[IndexOf(s, x) + 1..]
  {
    if s == [] then []
    else if s[0] == x then s[1..]
    else
      var rest := RemoveFirst(s[1..], x);
      assert x !in s ==> [s[0]] + rest == s by {
        assert s == [s[0]] + s[1..];
      }
      assert x in s ==> [s[0]] + rest == s[..IndexOf(s, x)] + s[IndexOf(s, x) + 1..] by {
        if x in s {
          var k := IndexOf(s[1..], x);
          assert IndexOf(s, x) == k + 1;
          calc {
            [s[0]] + rest;
            [s[0]] + (s[1..][..k] + s[1..][k + 1..]);
            ([s[0]] + s[1..][..k]) + s[1..][k + 1..];
            { assert [s[0]] + s[1..][..k] == s[..k + 1]; }
            s[..k + 1] + s[k + 2..];
          }
        }
      }
      [s[0]] + rest
  }

  /** RemoveFirst takes exactly one copy of x away, when there is one. */
  lemma {:induction false} RemoveFirstCount<T>(s: seq<T>, x: T)
    ensures multiset(RemoveFirst(s, x)) == multiset(s) - multiset{x}
    decreases |s|
  {
    if s != [] {
      assert s == [s[0]] + s[1..];
      if s[0] != x {
        var rest := RemoveFirst(s[1..], x);
        RemoveFirstCount(s[1..], x);
        assert RemoveFirst(s, x) == [s[0]] + rest;
        calc {
          multiset(RemoveFirst(s, x));
          multiset{s[0]} + multiset(rest);
          multiset{s[0]} + (multiset(s[1..]) - multiset{x});
          (multiset{s[0]} + multiset(s[1..])) - multiset{x};
        }
      }
    }
  }

  /** RemoveFirst shortens the list by one exactly when x is in it. */
  lemma {:induction false} RemoveFirstLength<T>(s: seq<T>, x: T)
    ensures |RemoveFirst(s, x)| == if x in s then |s| - 1 else |s|
  {
    if x in s {
      var k := IndexOf(s, x);
      assert |s[..k] + s[k + 1..]| == k + (|s| - k - 1);
    }
  }

  /** Removing an element of r keeps r a subsequence of s. */
  lemma {:induction false} RemoveFirstOfSubsequence<T>(r: seq<T>, s: seq<T>, x: T)
    requires IsSubsequence(r, s)
    ensures IsSubsequence(RemoveFirst(r, x), s)
    decreases |s|
  {
    var r' := RemoveFirst(r, x);
    if r != [] {
      if r[0] == s[0] && IsSubsequence(r[1..], s[1..]) {
        if r[0] == x {
          if r' != [] {
            assert IsSubsequence(r', s[1..]);
          }
        } else {
          RemoveFirstOfSubsequence(r[1..], s[1..], x);
          assert r'[0] == s[0] && r'[1..] == RemoveFirst(r[1..], x);
        }
      } else {
        RemoveFirstOfSubsequence(r, s[1..], x);
      }
    }
  }

  /** Removing the same element from both sides keeps a subsequence a
      subsequence: the two lists of a view model stay in step. */
  lemma {:induction false} RemoveFirstKeepsSubsequence<T>(r: seq<T>, s: seq<T>, x: T)
    requires IsSubsequence(r, s)
    ensures IsSubsequence(RemoveFirst(r, x), RemoveFirst(s, x))
    decreases |s|
  {
    var r', s' := RemoveFirst(r, x), RemoveFirst(s, x);
    if r != [] {
      if r[0] == s[0] && IsSubsequence(r[1..], s[1..]) {
        if s[0] != x {
          RemoveFirstKeepsSubsequence(r[1..], s[1..], x);
          assert r'[0] == s'[0] && r'[1..] == RemoveFirst(r[1..], x) && s'[1..] == RemoveFirst(s[1..], x);
        }
      } else {
        if s[0] == x {
          RemoveFirstOfSubsequence(r, s[1..], x);
        } else {
          RemoveFirstKeepsSubsequence(r, s[1..], x);
          if r' != [] {
            assert s'[1..] == RemoveFirst(s[1..], x);
          }
        }
      }
    }
  }

  /** Enumerable.Where(p).ToList(): the elements of s that satisfy p, in
      their order in s. */
  function Where<T>(s: seq<T>, p: T -> bool): (r: seq<T>)
    ensures |r| <= |s|
    ensures forall i :: 0 <= i < |r| ==> p(r[i])
  {
    if s == [] then []
    else if p(s[0]) then [s[0]] + Where(s[1..], p)
    else Where(s[1..], p)
  }

  /** What Where keeps is an order-preserving subsequence of its input. */
  lemma {:induction false} WhereIsSubsequence<T>(s: seq<T>, p: T -> bool)
    ensures IsSubsequence(Where(s, p), s)
    decreases |s|
  {
    if s != [] {
      WhereIsSubsequence(s[1..], p);
      var r := Where(s, p);
      if p(s[0]) {
        assert r[0] == s[0] && r[1..] == Where(s[1..], p);
      }
    }
  }

  /** Where keeps every copy of each element that satisfies p and drops
      every copy of the others. */
  lemma {:induction false} WhereKeepsExactly<T>(s: seq<T>, p: T -> bool, x: T)
    ensures multiset(Where(s, p))[x] == if p(x) then multiset(s)[x] else 0
    ensures x in Where(s, p) <==> x in s && p(x)
    decreases |s|
  {
    if s != [] {
      WhereKeepsExactly(s[1..], p, x);
      assert s == [s[0]] + s[1..];
    }
  }
}
