/** A counter whose digits have different ranges and sit in signed bytes, as the level bytes of argp's usage
    message do. The first digit moves fastest. */
module Odometer {
  /** The line a digit stands for: the loop that skips lines does not run for a negative one. */
  function Row(d: int): nat
  {
    if d < 0 then 0 else d
  }

  /** One digit of r lines that is told to advance: its next value, and whether it passes the carry on.
      Adding one to 127 gives -128. */
  function DigitUp(d: int, r: nat): (int, bool)
  {
    if Row(d) + 1 < r then (if d == 127 then -128 else d + 1, false)
    else (if d > 0 then 0 else d, true)
  }

  function Inc(ds: seq<int>, rs: seq<nat>, carry: bool): (r: (seq<int>, bool))
    requires |ds| == |rs|
    ensures |r.0| == |ds|
  {
    if ds == [] then ([], carry)
    else
      var (d, c) := if carry then DigitUp(ds[0], rs[0]) else (ds[0], false);
      var t := Inc(ds[1..], rs[1..], c);
      ([d] + t.0, t.1)
  }

  /** Every digit is a signed byte that stands for one of its lines. */
  predicate InBytes(ds: seq<int>, rs: seq<nat>)
  {
    |ds| == |rs| && forall k :: 0 <= k < |ds| ==> -128 <= ds[k] <= 127 && Row(ds[k]) < rs[k]
  }

  predicate InRange(ds: seq<int>, rs: seq<nat>)
  {
    |ds| == |rs| && forall k :: 0 <= k < |ds| ==> 0 <= ds[k] < rs[k]
  }

  /** No digit has more lines than a signed byte can count. */
  predicate Narrow(rs: seq<nat>)
  {
    forall k :: 0 <= k < |rs| ==> rs[k] <= 128
  }

  function Product(rs: seq<nat>): nat
  {
    if rs == [] then 1 else rs[0] * Product(rs[1..])
  }

  function Value(ds: seq<int>, rs: seq<nat>): nat
    requires InRange(ds, rs)
  {
    if ds == [] then 0 else ds[0] + rs[0] * Value(ds[1..], rs[1..])
  }

  function Zeros(n: nat): seq<int>
  {
    seq(n, _ => 0)
  }

  // ---------- Arithmetic ----------

  lemma MulLess(r: nat, x: nat, y: nat)
    requires x < y
    ensures r * x + r <= r * y
  {
    assert r * (x + 1) == r * x + r;
    MulMono(r, x + 1, y);
  }

  lemma MulMono(r: nat, x: nat, y: nat)
    requires x <= y
    ensures r * x <= r * y
  {
    assert r * (y - x) >= 0;
    assert r * y == r * x + r * (y - x);
  }

  /** Quotient and remainder are determined. */
  lemma DivModUnique(r: nat, d: nat, q: nat, d': nat, q': nat)
    requires d < r && d' < r && d + r * q == d' + r * q'
    ensures d == d' && q == q'
  {
    if q < q' { MulLess(r, q, q'); }
    if q' < q { MulLess(r, q', q); }
  }

  lemma {:induction false} ValueBound(ds: seq<int>, rs: seq<nat>)
    requires InRange(ds, rs)
    ensures Value(ds, rs) < Product(rs)
  {
    if ds != [] {
      ValueBound(ds[1..], rs[1..]);
      MulLess(rs[0], Value(ds[1..], rs[1..]), Product(rs[1..]));
    }
  }

  /** A combination of digits is determined by its value. */
  lemma {:induction false} ValueDetermines(ds: seq<int>, ds': seq<int>, rs: seq<nat>)
    requires InRange(ds, rs) && InRange(ds', rs) && Value(ds, rs) == Value(ds', rs)
    ensures ds == ds'
  {
    if ds != [] {
      DivModUnique(rs[0], ds[0], Value(ds[1..], rs[1..]), ds'[0], Value(ds'[1..], rs[1..]));
      ValueDetermines(ds[1..], ds'[1..], rs[1..]);
      assert ds == [ds[0]] + ds[1..] && ds' == [ds'[0]] + ds'[1..];
    }
  }

  lemma {:induction false} ZerosValue(rs: seq<nat>)
    requires InRange(Zeros(|rs|), rs)
    ensures Value(Zeros(|rs|), rs) == 0
  {
    if rs != [] {
      assert Zeros(|rs|)[1..] == Zeros(|rs[1..]|);
      ZerosValue(rs[1..]);
    }
  }

  // ---------- One step ----------

  lemma {:induction false} IncStays(ds: seq<int>, rs: seq<nat>)
    requires |ds| == |rs|
    ensures Inc(ds, rs, false) == (ds, false)
  {
    if ds != [] {
      IncStays(ds[1..], rs[1..]);
      assert [ds[0]] + ds[1..] == ds;
    }
  }

  /** With a carry coming in, the value goes up by one; from the last value all digits go back to zero and
      the carry goes out. */
  lemma {:induction false} IncCounts(ds: seq<int>, rs: seq<nat>)
    requires InRange(ds, rs) && Narrow(rs)
    ensures var (ds', c) := Inc(ds, rs, true);
      && InRange(ds', rs) && c == (Value(ds, rs) + 1 == Product(rs))
      && (if c then ds' == Zeros(|ds|) else Value(ds', rs) == Value(ds, rs) + 1)
  {
    if ds != [] {
      var t, u := ds[1..], rs[1..];
      ValueBound(t, u);
      if ds[0] + 1 < rs[0] {
        IncStays(t, u);
        assert Inc(ds, rs, true) == ([ds[0] + 1] + t, false);
        assert ([ds[0] + 1] + t)[1..] == t;
        MulLess(rs[0], Value(t, u), Product(u));
      } else {
        IncCounts(t, u);
        LastDigit(ds, rs);
        ResetDigit(Inc(t, u, true).0, rs);
        assert Inc(ds, rs, true) == ([0] + Inc(t, u, true).0, Inc(t, u, true).1);
      }
    }
  }

  /** The first digit is at its end: the value is one less than a multiple of its range. */
  lemma {:induction false} LastDigit(ds: seq<int>, rs: seq<nat>)
    requires ds != [] && InRange(ds, rs) && ds[0] + 1 == rs[0] && Value(ds[1..], rs[1..]) < Product(rs[1..])
    ensures Value(ds, rs) + 1 == rs[0] * (Value(ds[1..], rs[1..]) + 1)
    ensures Value(ds, rs) + 1 == Product(rs) <==> Value(ds[1..], rs[1..]) + 1 == Product(rs[1..])
  {
    CarryArithmetic(rs[0], Value(ds[1..], rs[1..]), Product(rs[1..]));
  }

  lemma {:induction false} ResetDigit(t: seq<int>, rs: seq<nat>)
    requires rs != [] && rs[0] > 0 && InRange(t, rs[1..])
    ensures InRange([0] + t, rs) && Value([0] + t, rs) == rs[0] * Value(t, rs[1..])
  {
    assert ([0] + t)[1..] == t;
  }

  lemma CarryArithmetic(r: nat, v: nat, p: nat)
    requires 0 < r && v < p
    ensures r - 1 + r * v + 1 == r * (v + 1) && (r * (v + 1) == r * p <==> v + 1 == p)
  {
    if v + 1 < p { MulLess(r, v + 1, p); }
  }

  // ---------- Too many lines ----------

  lemma {:induction false} IncKeepsBytes(ds: seq<int>, rs: seq<nat>, carry: bool)
    requires InBytes(ds, rs)
    ensures InBytes(Inc(ds, rs, carry).0, rs)
  {
    if ds != [] {
      var c := if carry then DigitUp(ds[0], rs[0]).1 else false;
      IncKeepsBytes(ds[1..], rs[1..], c);
    }
  }

  /** A digit with more than 128 lines never shows its last one and never passes the carry on. */
  lemma {:induction false} WideNeverCarries(ds: seq<int>, rs: seq<nat>, carry: bool)
    requires InBytes(ds, rs) && !Narrow(rs)
    ensures !Inc(ds, rs, carry).1
  {
    if rs[0] > 128 {
      IncStays(ds[1..], rs[1..]);
    } else {
      var k :| 0 <= k < |rs| && rs[k] > 128;
      assert rs[1..][k - 1] == rs[k];
      WideNeverCarries(ds[1..], rs[1..], if carry then DigitUp(ds[0], rs[0]).1 else false);
    }
  }

  // ---------- Two counters in a row ----------

  lemma {:induction false} IncConcat(x: seq<int>, p: seq<nat>, y: seq<int>, q: seq<nat>, carry: bool)
    requires |x| == |p| && |y| == |q|
    ensures var a := Inc(x, p, carry); var b := Inc(y, q, a.1); Inc(x + y, p + q, carry) == (a.0 + b.0, b.1)
  {
    if x == [] {
      assert x + y == y && p + q == q;
      assert [] + Inc(y, q, carry).0 == Inc(y, q, carry).0;
    } else {
      var c := if carry then DigitUp(x[0], p[0]) else (x[0], false);
      IncConcat(x[1..], p[1..], y, q, c.1);
      assert (x + y)[1..] == x[1..] + y && (p + q)[1..] == p[1..] + q;
      var a := Inc(x[1..], p[1..], c.1);
      assert [c.0] + (a.0 + Inc(y, q, a.1).0) == ([c.0] + a.0) + Inc(y, q, a.1).0;
    }
  }

  lemma MulAssoc(x: nat, y: nat, z: nat)
    ensures x * (y * z) == (x * y) * z
  {
  }

  /** The digits after x count in units of what the digits of x can express. */
  lemma {:induction false} ValueConcat(x: seq<int>, p: seq<nat>, y: seq<int>, q: seq<nat>)
    requires InRange(x, p) && InRange(y, q) && InRange(x + y, p + q)
    ensures Value(x + y, p + q) == Value(x, p) + Product(p) * Value(y, q)
  {
    if x == [] {
      assert x + y == y && p + q == q;
    } else {
      assert (x + y)[1..] == x[1..] + y && (p + q)[1..] == p[1..] + q;
      ValueConcat(x[1..], p[1..], y, q);
      Distribute(p[0], Value(x[1..], p[1..]), Product(p[1..]), Value(y, q));
    }
  }

  lemma Distribute(r: nat, u: nat, v: nat, w: nat)
    ensures r * (u + v * w) == r * u + (r * v) * w
  {
    MulAssoc(r, v, w);
  }
}
