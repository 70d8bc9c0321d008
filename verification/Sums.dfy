// Sums of a weight over a sequence; a count is the sum of a 0/1 weight.
module Sums {
  function Sum<T>(s: seq<T>, f: T -> nat): nat {
    if s == [] then 0 else Sum(s[..|s| - 1], f) + f(s[|s| - 1])
  }

  lemma {:induction false} SumUpdate<T>(s: seq<T>, f: T -> nat, i: nat, x: T)
    requires i < |s|
    ensures Sum(s[i := x], f) == Sum(s, f) - f(s[i]) + f(x)
  {
    var n := |s| - 1;
    if i == n {
      assert s[i := x][..n] == s[..n];
    } else {
      SumUpdate(s[..n], f, i, x);
      assert s[i := x][..n] == s[..n][i := x];
    }
  }

  lemma SumAppend<T>(s: seq<T>, f: T -> nat, x: T)
    ensures Sum(s + [x], f) == Sum(s, f) + f(x)
  {
    assert (s + [x])[..|s|] == s;
  }

  lemma {:induction false} SumMember<T>(s: seq<T>, f: T -> nat, i: nat)
    requires i < |s|
    ensures f(s[i]) <= Sum(s, f)
  {
    if i == |s| - 1 {
    } else {
      SumMember(s[..|s| - 1], f, i);
    }
  }

  lemma {:induction false} SumPositive<T>(s: seq<T>, f: T -> nat) returns (i: nat)
    requires Sum(s, f) > 0
    ensures i < |s| && f(s[i]) > 0
  {
    if f(s[|s| - 1]) > 0 {
      i := |s| - 1;
    } else {
      i := SumPositive(s[..|s| - 1], f);
    }
  }

  lemma {:induction false} SumZero<T>(s: seq<T>, f: T -> nat)
    requires forall i :: 0 <= i < |s| ==> f(s[i]) == 0
    ensures Sum(s, f) == 0
  {
    if s == [] {
    } else {
      SumZero(s[..|s| - 1], f);
    }
  }

  // A 0/1 weight sums to at most the length, and reaches it only when every element weighs 1.
  lemma {:induction false} SumAtMostLength<T>(s: seq<T>, f: T -> nat)
    requires forall i :: 0 <= i < |s| ==> f(s[i]) <= 1
    ensures Sum(s, f) <= |s|
    ensures Sum(s, f) == |s| <==> forall i :: 0 <= i < |s| ==> f(s[i]) == 1
  {
    if s == [] {
    } else {
      var n := |s| - 1;
      SumAtMostLength(s[..n], f);
      assert forall i :: 0 <= i < n ==> s[..n][i] == s[i];
    }
  }
}
