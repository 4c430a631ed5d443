/** Finite sums over sequences, used to count lock units, waiting work and bytes. */
module Sums {

  /** The sum of `f` over the elements of `s`. */
  function Total<T>(f: T -> nat, s: seq<T>): nat
  {
    if s == [] then 0 else f(s[0]) + Total(f, s[1..])
  }

  lemma {:induction false} TotalConcat<T>(f: T -> nat, s: seq<T>, t: seq<T>)
    ensures Total(f, s + t) == Total(f, s) + Total(f, t)
  {
    if s == [] {
      assert s + t == t;
    } else {
      TotalConcat(f, s[1..], t);
      assert (s + t)[1..] == s[1..] + t;
    }
  }

  lemma {:induction false} TotalSplit<T>(f: T -> nat, s: seq<T>, i: nat)
    requires i < |s|
    ensures Total(f, s) == Total(f, s[..i]) + f(s[i]) + Total(f, s[i+1..])
  {
    assert s == s[..i] + s[i..];
    TotalConcat(f, s[..i], s[i..]);
    assert s[i..][1..] == s[i+1..];
  }

  lemma {:induction false} TotalUpdate<T>(f: T -> nat, s: seq<T>, i: nat, x: T)
    requires i < |s|
    ensures Total(f, s[i := x]) + f(s[i]) == Total(f, s) + f(x)
  {
    TotalSplit(f, s, i);
    TotalSplit(f, s[i := x], i);
    assert s[i := x][..i] == s[..i] && s[i := x][i+1..] == s[i+1..];
  }

  /** A sum is zero exactly when every term is. */
  lemma {:induction false} TotalZero<T>(f: T -> nat, s: seq<T>)
    ensures Total(f, s) == 0 <==> forall i | 0 <= i < |s| :: f(s[i]) == 0
  {
    if s == [] {
    } else {
      TotalZero(f, s[1..]);
      assert forall i | 0 <= i < |s| :: i == 0 || s[i] == s[1..][i-1];
      assert forall i | 0 <= i < |s| - 1 :: s[1..][i] == s[i+1];
    }
  }

  /** Two terms of the sum at different positions are together no more than the sum. */
  lemma TotalTwo<T>(f: T -> nat, s: seq<T>, i: nat, j: nat)
    requires i < j < |s|
    ensures f(s[i]) + f(s[j]) <= Total(f, s)
  {
    TotalSplit(f, s, j);
    TotalSplit(f, s[..j], i);
  }

  lemma TotalOne<T>(f: T -> nat, s: seq<T>, i: nat)
    requires i < |s|
    ensures f(s[i]) <= Total(f, s)
  {
    TotalSplit(f, s, i);
  }

  lemma RemoveOne<T>(s: seq<T>, i: nat)
    requires i < |s|
    ensures multiset(s) == multiset(s[..i] + s[i+1..]) + multiset{s[i]}
  {
    assert s == s[..i] + [s[i]] + s[i+1..];
  }

  lemma SameMultisetEmpty<T>(t: seq<T>)
    requires multiset(t) == multiset{}
    ensures t == []
  {
    assert |multiset(t)| == |t|;
  }

  lemma SamePlace<T>(s: seq<T>, t: seq<T>) returns (i: nat)
    requires s != [] && multiset(s) == multiset(t)
    ensures i < |t| && t[i] == s[0]
    ensures multiset(s[1..]) == multiset(t[..i] + t[i+1..])
  {
    assert s[0] in multiset(s);
    assert s[0] in multiset(t);
    assert s[0] in t;
    i :| 0 <= i < |t| && t[i] == s[0];
    RemoveOne(s, 0);
    RemoveOne(t, i);
    assert s[..0] + s[1..] == s[1..];
    assert multiset(s[1..]) == multiset(s) - multiset{s[0]};
    assert multiset(t[..i] + t[i+1..]) == multiset(t) - multiset{t[i]};
  }

  /** A sum does not depend on the order of its terms. */
  lemma {:induction false} TotalPermutation<T>(f: T -> nat, s: seq<T>, t: seq<T>)
    requires multiset(s) == multiset(t)
    ensures Total(f, s) == Total(f, t)
    decreases |s|
  {
    if s == [] {
      SameMultisetEmpty(t);
    } else {
      var i := SamePlace(s, t);
      TotalPermutation(f, s[1..], t[..i] + t[i+1..]);
      TotalSplit(f, t, i);
      TotalConcat(f, t[..i], t[i+1..]);
    }
  }

  /** Taking element `i` out of `s` and putting it behind `done` moves nothing else. */
  lemma MoveOne<T>(done: seq<T>, s: seq<T>, i: nat)
    requires i < |s|
    ensures multiset(done + [s[i]]) + multiset(s[..i] + s[i+1..]) == multiset(done) + multiset(s)
  {
    assert s == s[..i] + [s[i]] + s[i+1..];
  }
}
