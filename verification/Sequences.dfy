/** Regrouping concatenations, stated away from other facts so that they stay cheap. */
module Sequences {
  lemma Assoc<T>(a: seq<T>, b: seq<T>, c: seq<T>)
    ensures (a + b) + c == a + (b + c)
  {
  }

  lemma Regroup<T>(a: seq<T>, b: seq<T>, c: seq<T>, d: seq<T>)
    ensures (a + (b + c)) + d == a + (b + (c + d))
  {
    Assoc(a, b + c, d);
    Assoc(b, c, d);
  }

  lemma LeftToRight<T>(a: seq<T>, b: seq<T>, c: seq<T>, d: seq<T>)
    ensures ((a + b) + c) + d == a + (b + (c + d))
  {
    Assoc(a + b, c, d);
    Assoc(a, b, c + d);
  }

  /** Two splits of a sequence, one inside the other. */
  lemma Gather<T>(s: seq<T>, front: seq<T>, after: seq<T>, middle: seq<T>, rest: seq<T>)
    requires front <= s && after == s[|front|..] && middle + rest == after
    ensures (front + middle) + rest == s
  {
    Assoc(front, middle, rest);
  }

  lemma Slices<T>(s: seq<T>, i: nat, j: nat)
    requires i <= j <= |s|
    ensures s[i..] == s[i..j] + s[j..]
  {
  }

  lemma SamePrefix<T>(a: seq<T>, b: seq<T>, rest: seq<T>)
    requires a + rest == b + rest
    ensures a == b
  {
    assert |a| == |b|;
    assert (a + rest)[..|a|] == a && (b + rest)[..|b|] == b;
  }

  lemma MiddleFirst<T>(a: seq<T>, b: seq<T>, c: seq<T>, d: seq<T>)
    ensures ((a + b) + c) + d == a + ((b + c) + d)
  {
    Assoc(a, b, c);
    Assoc(a, b + c, d);
  }

  lemma WindowOfRight<T>(a: seq<T>, b: seq<T>, i: nat, n: nat)
    requires i + n <= |b|
    ensures (a + b)[|a| + i..|a| + i + n] == b[i..i + n]
  {
    var window, all := b[i..i + n], a + b;
    forall k | 0 <= k < |window| ensures all[|a| + i..|a| + i + n][k] == window[k] {
    }
  }

  lemma WindowOfLeft<T>(a: seq<T>, b: seq<T>, i: nat, n: nat)
    requires i + n <= |a|
    ensures (a + b)[i..i + n] == a[i..i + n]
  {
    var window, all := a[i..i + n], a + b;
    forall k | 0 <= k < |window| ensures all[i..i + n][k] == window[k] {
    }
  }

  lemma SameSuffix<T>(front: seq<T>, a: seq<T>, b: seq<T>)
    requires front + a == front + b
    ensures a == b
  {
    assert (front + a)[|front|..] == a && (front + b)[|front|..] == b;
  }
}
