/** Facts about sequences that the solver does not see by itself. */
module Seqs {
  lemma Regroup<T>(a: seq<T>, b: seq<T>, c: seq<T>)
    ensures a + (b + c) == (a + b) + c
  {
  }

  lemma Regroup5<T>(a: seq<T>, b: seq<T>, c: seq<T>, d: seq<T>, e: seq<T>)
    ensures a + b + c + d + e == a + (b + c + d + e)
  {
    Regroup(a, b, c);
    Regroup(a, b + c, d);
    Regroup(a, b + c + d, e);
  }

  lemma ConsEquals<T>(x: T, t: seq<T>, s: seq<T>)
    requires s != []
    ensures [x] + t == s <==> x == s[0] && t == s[1..]
  {
    assert s == [s[0]] + s[1..];
    assert ([x] + t)[0] == x && ([x] + t)[1..] == t;
  }

  lemma SubSlice<T>(s: seq<T>, a: nat, b: nat, c: nat, d: nat)
    requires a <= b <= |s| && c <= d <= b - a
    ensures s[a..b][c..d] == s[a + c..a + d]
  {
    var t, x, y := s[a..b], s[a..b][c..d], s[a + c..a + d];
    forall k | 0 <= k < |x| ensures x[k] == y[k]
    {
      assert t[c + k] == s[a + (c + k)];
    }
  }
}
