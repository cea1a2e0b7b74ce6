/** Adding up a quantity over all threads of a program. */
module Totals {

  function Total<T>(s: seq<T>, f: T -> nat): nat {
    if s == [] then 0 else f(s[0]) + Total(s[1..], f)
  }

  lemma {:induction false} TotalUpdate<T>(s: seq<T>, i: nat, x: T, f: T -> nat)
    requires i < |s|
    ensures Total(s[i := x], f) == Total(s, f) - f(s[i]) + f(x)
  {
    if i == 0 {
      assert s[0 := x][1..] == s[1..];
    } else {
      assert s[i := x][1..] == s[1..][i - 1 := x];
      TotalUpdate(s[1..], i - 1, x, f);
    }
  }

  lemma {:induction false} TotalAtLeast<T>(s: seq<T>, i: nat, f: T -> nat)
    requires i < |s|
    ensures f(s[i]) <= Total(s, f)
  {
    if i > 0 {
      TotalAtLeast(s[1..], i - 1, f);
    }
  }

  lemma {:induction false} TotalAtLeastTwo<T>(s: seq<T>, i: nat, j: nat, f: T -> nat)
    requires i < j < |s|
    ensures f(s[i]) + f(s[j]) <= Total(s, f)
  {
    if i == 0 {
      TotalAtLeast(s[1..], j - 1, f);
    } else {
      TotalAtLeastTwo(s[1..], i - 1, j - 1, f);
    }
  }

  lemma {:induction false} TotalZero<T>(s: seq<T>, f: T -> nat)
    ensures Total(s, f) == 0 <==> forall i | 0 <= i < |s| :: f(s[i]) == 0
  {
    if s != [] {
      TotalZero(s[1..], f);
      assert forall i | 0 < i < |s| :: s[i] == s[1..][i - 1];
    }
  }

  lemma {:induction false} TotalConstant<T>(s: seq<T>, x: T, f: T -> nat)
    requires forall i | 0 <= i < |s| :: s[i] == x
    ensures Total(s, f) == |s| * f(x)
  {
    if s != [] {
      TotalConstant(s[1..], x, f);
    }
  }

  lemma {:induction false} TotalMonotone<T>(s: seq<T>, f: T -> nat, g: T -> nat)
    requires forall i | 0 <= i < |s| :: f(s[i]) <= g(s[i])
    ensures Total(s, f) <= Total(s, g)
  {
    if s != [] {
      TotalMonotone(s[1..], f, g);
    }
  }

  /** A 0/1 quantity counts members. */
  lemma {:induction false} TotalAtMostLength<T>(s: seq<T>, f: T -> nat)
    requires forall i | 0 <= i < |s| :: f(s[i]) <= 1
    ensures Total(s, f) <= |s|
  {
    if s != [] {
      TotalAtMostLength(s[1..], f);
    }
  }
}
