/**
  Counting the elements of a sequence that satisfy a predicate: the
  vectorised `.sum()` of a boolean mask, and `len([... if ...])`.
*/
module Counting {

  /** Number of elements of `s` for which `p` holds, counted from the left. */
  function CountIf<T>(s: seq<T>, p: T -> bool): nat
  {
    if |s| == 0 then 0 else CountIf(s[..|s| - 1], p) + (if p(s[|s| - 1]) then 1 else 0)
  }

  /** The indices of `s` at which `p` holds. */
  function Where<T>(s: seq<T>, p: T -> bool): set<int>
  {
    set i | 0 <= i < |s| && p(s[i])
  }

  /** The count is the number of positions where the predicate holds. */
  lemma {:induction false} CountIfIsCardinality<T>(s: seq<T>, p: T -> bool)
    ensures CountIf(s, p) == |Where(s, p)|
  {
    if |s| == 0 {
      assert Where(s, p) == {};
    } else {
      var n := |s| - 1;
      var init := s[..n];
      CountIfIsCardinality(init, p);
      var before := Where(init, p);
      assert n !in before;
      if p(s[n]) {
        assert Where(s, p) == before + {n};
      } else {
        assert Where(s, p) == before;
      }
    }
  }

  /** A positive count means a witness exists, and conversely. */
  lemma {:induction false} CountIfPositive<T>(s: seq<T>, p: T -> bool)
    ensures CountIf(s, p) > 0 <==> exists i :: 0 <= i < |s| && p(s[i])
  {
    if |s| > 0 {
      var n := |s| - 1;
      CountIfPositive(s[..n], p);
      if exists i :: 0 <= i < |s| && p(s[i]) {
        var i :| 0 <= i < |s| && p(s[i]);
        if i < n {
          assert s[..n][i] == s[i];
        }
      }
    }
  }

  /** The count never exceeds the length. */
  lemma {:induction false} CountIfAtMost<T>(s: seq<T>, p: T -> bool)
    ensures CountIf(s, p) <= |s|
    ensures CountIf(s, p) == |s| <==> forall i :: 0 <= i < |s| ==> p(s[i])
  {
    if |s| > 0 {
      var n := |s| - 1;
      CountIfAtMost(s[..n], p);
      if forall i :: 0 <= i < n ==> p(s[..n][i]) {
        assert forall i :: 0 <= i < n ==> p(s[i]);
      } else {
        var i :| 0 <= i < n && !p(s[..n][i]);
        assert !p(s[i]);
      }
    }
  }

  /** Two predicates that never hold together count at most the length between them. */
  lemma {:induction false} CountIfDisjoint<T>(s: seq<T>, p: T -> bool, q: T -> bool)
    requires forall x :: !(p(x) && q(x))
    ensures CountIf(s, p) + CountIf(s, q) <= |s|
  {
    if |s| > 0 {
      CountIfDisjoint(s[..|s| - 1], p, q);
    }
  }

  /** Appending to a concatenation is appending to its last part. */
  lemma AppendAssociative<T>(a: seq<T>, b: seq<T>, c: seq<T>)
    ensures a + b + c == a + (b + c)
  {
  }

  /** The prefix one longer is the prefix plus the next element. */
  lemma PrefixExtends<T>(s: seq<T>, i: nat, x: T)
    requires i < |s| && x == s[i]
    ensures s[..i + 1] == s[..i] + [x]
  {
  }

  /** Imperative counting pass over `s`: the `.sum()` of a boolean mask. */
  method Count<T>(s: seq<T>, p: T -> bool) returns (k: nat)
    ensures k == CountIf(s, p)
  {
    k := 0;
    for i := 0 to |s|
      invariant k == CountIf(s[..i], p)
    {
      assert s[..i + 1][..i] == s[..i];
      if p(s[i]) {
        k := k + 1;
      }
    }
    assert s[..|s|] == s;
  }
}
