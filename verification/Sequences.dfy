/** Concatenations taken apart and regrouped. */
module Sequences {
  lemma Assoc<T>(a: seq<T>, b: seq<T>, c: seq<T>)
    ensures a + b + c == a + (b + c)
  {
  }

  lemma Within<T>(a: seq<T>, b: seq<T>, i: nat, j: nat)
    requires i <= j <= |a|
    ensures (a + b)[i..j] == a[i..j]
  {
  }

  lemma Apart<T>(a: seq<T>, b: seq<T>)
    ensures (a + b)[..|a|] == a && (a + b)[|a|..] == b
  {
  }

  lemma Behind<T>(t: T, a: seq<T>, b: seq<T>, c: seq<T>)
    ensures var s := [t] + a + b + c; s[0] == t && s[1..] == a + (b + c)
  {
    assert [t] + a + b + c == [t] + (a + (b + c));
  }

  lemma Nested<T>(a: seq<T>, b: seq<T>, c: seq<T>, d: seq<T>, e: seq<T>)
    ensures a + b + c + d + e == a + (b + (c + d + e))
  {
  }

  lemma TwoAhead<T>(a: seq<T>, b: seq<T>, c: seq<T>, d: seq<T>, e: seq<T>, f: seq<T>)
    ensures a + b + c + d + e + f == a + (b + (c + d + e + f))
  {
  }

  lemma CutConcat<T>(a: seq<T>, b: seq<T>, n: nat)
    requires n <= |a| + |b|
    ensures (a + b)[..n] == if n < |a| then a[..n] else a + b[..n - |a|]
  {
  }

  lemma Regroup<T>(a: seq<T>, b: seq<T>, c: seq<T>, d: seq<T>)
    ensures a + b + c + d == a + (b + c + d) && a + b + d == a + (b + d)
  {
  }

  lemma Join<T>(o: seq<T>, a: seq<T>, b: seq<T>, c: seq<T>, d: seq<T>, e: seq<T>)
    ensures o + a + b + c + d + e == o + (a + b + c + d + e)
  {
  }

  function Map<T, U>(f: T -> U, s: seq<T>): (r: seq<U>)
    ensures |r| == |s|
  {
    seq(|s|, i requires 0 <= i < |s| => f(s[i]))
  }

  lemma MapFrom<T, U>(f: T -> U, s: seq<T>, acc: seq<U>)
    requires s != []
    ensures acc + [f(s[0])] + Map(f, s[1..]) == acc + Map(f, s)
  {
  }
}
