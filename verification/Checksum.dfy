/** gf_rsync_weak_checksum: the rolling checksum of section 3 of the rsync technical report TR-CS-96-05, over
    signed bytes and with the loop unrolled four times. */
module Checksum {
  const WORD: nat := 0x1_0000_0000
  const HALF: nat := 0x1_0000

  /** s1: the sum of the bytes. */
  function Sum(b: seq<int>): int
  {
    if b == [] then 0 else b[0] + Sum(b[1..])
  }

  /** s2: the sum of the bytes, each weighted by its distance from the end. */
  function Weighted(b: seq<int>): int
  {
    if b == [] then 0 else |b| * b[0] + Weighted(b[1..])
  }

  /** Both halves packed into one word. */
  function Packed(b: seq<int>): nat
  {
    Sum(b) % HALF + HALF * (Weighted(b) % HALF)
  }

  // ---------- One more byte ----------

  lemma {:induction false} SumSnoc(b: seq<int>, x: int)
    ensures Sum(b + [x]) == Sum(b) + x
  {
    if b == [] {
      assert [] + [x] == [x] && [x][1..] == [];
    } else {
      SumSnoc(b[1..], x);
      assert (b + [x])[1..] == b[1..] + [x];
    }
  }

  lemma {:induction false} WeightedSnoc(b: seq<int>, x: int)
    ensures Weighted(b + [x]) == Weighted(b) + Sum(b) + x
  {
    if b == [] {
      assert [] + [x] == [x] && [x][1..] == [];
    } else {
      WeightedSnoc(b[1..], x);
      assert (b + [x])[1..] == b[1..] + [x];
      assert (|b| + 1) * b[0] == |b| * b[0] + b[0];
    }
  }

  /** One more byte, at position i of the buffer. */
  lemma Next(b: seq<int>, i: nat)
    requires i < |b|
    ensures Sum(b[..i + 1]) == Sum(b[..i]) + b[i]
    ensures Weighted(b[..i + 1]) == Weighted(b[..i]) + Sum(b[..i + 1])
  {
    assert b[..i + 1] == b[..i] + [b[i]];
    SumSnoc(b[..i], b[i]);
    WeightedSnoc(b[..i], b[i]);
  }

  /** Four bytes at a time. */
  lemma NextFour(b: seq<int>, i: nat)
    requires i + 4 <= |b|
    ensures Sum(b[..i + 4]) == Sum(b[..i]) + b[i] + b[i + 1] + b[i + 2] + b[i + 3]
    ensures Weighted(b[..i + 4]) == Weighted(b[..i]) + 4 * (Sum(b[..i]) + b[i]) + 3 * b[i + 1] + 2 * b[i + 2] + b[i + 3]
  {
    Next(b, i);
    Next(b, i + 1);
    Next(b, i + 2);
    Next(b, i + 3);
  }

  // ---------- Words ----------

  /** Adding to a word that has wrapped is adding and then wrapping. */
  lemma WrapAdd(x: int, y: int)
    ensures (x % WORD + y) % WORD == (x + y) % WORD
  {
    ModShift(x + y, -(x / WORD), WORD);
    assert x % WORD + y == x + y + -(x / WORD) * WORD;
  }

  lemma ModShift(x: int, k: int, m: nat)
    requires m > 0
    ensures (x + k * m) % m == x % m
  {
    var q := x / m;
    assert x + k * m == (q + k) * m + x % m;
    ModIs(x + k * m, q + k, x % m, m);
  }

  lemma ModIs(x: int, q: int, r: int, m: nat)
    requires m > 0 && x == q * m + r && 0 <= r < m
    ensures x % m == r
  {
    var d := x / m - q;
    assert d * m + (x % m - r) == 0;
    assert d >= 1 ==> d * m >= m;
    assert d <= -1 ==> d * m <= -(m as int);
  }

  /** The unrolled loop wraps its four-fold term too. */
  lemma WrapFour(w: int, s: int, c: int)
    ensures (w % WORD + 4 * (s % WORD) + c) % WORD == (w + 4 * s + c) % WORD
  {
    var k := -(w / WORD) - 4 * (s / WORD);
    ModShift(w + 4 * s + c, k, WORD);
    assert w % WORD + 4 * (s % WORD) + c == w + 4 * s + c + k * WORD;
  }

  lemma LowHalf(x: int)
    ensures x % WORD % HALF == x % HALF
  {
    ModShift(x, -(x / WORD) * HALF, HALF);
    assert x % WORD == x + -(x / WORD) * HALF * HALF;
  }

  // ---------- gf_rsync_weak_checksum ----------

  /** csum = (s1 & 0xffff) + (s2 << 16) in a word. */
  function Pack(s1: nat, s2: nat): nat
  {
    (s1 % HALF + s2 * HALF) % WORD
  }

  lemma PackHalves(s1: nat, s2: nat)
    ensures Pack(s1, s2) == s1 % HALF + HALF * (s2 % HALF)
  {
    ModIs(s1 % HALF + s2 * HALF, s2 / HALF, s1 % HALF + HALF * (s2 % HALF), WORD);
  }

  /** The checksum of the first len bytes, whatever the length; bytes are read as signed. */
  method WeakChecksum(buf: seq<int>, len: int) returns (csum: nat)
    requires len <= |buf| && forall k :: 0 <= k < |buf| ==> -128 <= buf[k] < 128
    ensures csum == Packed(buf[..if len < 0 then 0 else len])
  {
    var s1, s2, i: nat := 0, 0, 0;
    while i < len - 4
      invariant i <= |buf| && (i <= len || i == 0)
      invariant s1 == Sum(buf[..i]) % WORD && s2 == Weighted(buf[..i]) % WORD
    {
      NextFour(buf, i);
      var c := 4 * buf[i] + 3 * buf[i + 1] + 2 * buf[i + 2] + buf[i + 3];
      WrapFour(Weighted(buf[..i]), Sum(buf[..i]), c);
      WrapAdd(Sum(buf[..i]), buf[i] + buf[i + 1] + buf[i + 2] + buf[i + 3]);
      s2 := (s2 + 4 * (s1 + buf[i]) + 3 * buf[i + 1] + 2 * buf[i + 2] + buf[i + 3]) % WORD;
      s1 := (s1 + buf[i] + buf[i + 1] + buf[i + 2] + buf[i + 3]) % WORD;
      i := i + 4;
    }
    while i < len
      invariant i <= |buf| && (i <= len || i == 0)
      invariant s1 == Sum(buf[..i]) % WORD && s2 == Weighted(buf[..i]) % WORD
    {
      Next(buf, i);
      WrapAdd(Sum(buf[..i]), buf[i]);
      s1 := (s1 + buf[i]) % WORD;
      WrapBoth(Weighted(buf[..i]), Sum(buf[..i + 1]));
      s2 := (s2 + s1) % WORD;
      i := i + 1;
    }
    PackHalves(s1, s2);
    LowHalf(Sum(buf[..i]));
    LowHalf(Weighted(buf[..i]));
    csum := Pack(s1, s2);
  }

  lemma WrapBoth(x: int, y: int)
    ensures (x % WORD + y % WORD) % WORD == (x + y) % WORD
  {
    WrapAdd(x, y % WORD);
    WrapAdd(y, x);
  }

  // ---------- The rolling law ----------

  lemma {:induction false} Slide(x: int, m: seq<int>, y: int)
    ensures Sum(m + [y]) == Sum([x] + m) - x + y
    ensures Weighted(m + [y]) == Weighted([x] + m) - (|m| + 1) * x + Sum(m + [y])
  {
    SumSnoc(m, y);
    WeightedSnoc(m, y);
    assert ([x] + m)[1..] == m;
  }

  /** When the window moves on by one byte, from [x] + m to m + [y], the new checksum follows from the old
      one and the two bytes: each half from the halves before. */
  lemma RollingLaw(x: int, m: seq<int>, y: int)
    ensures var c, c' := Packed([x] + m), Packed(m + [y]);
      && c' % HALF == (c % HALF - x + y) % HALF
      && c' / HALF == (c / HALF - (|m| + 1) * x + c' % HALF) % HALF
  {
    var s, w := Sum([x] + m), Weighted([x] + m);
    var s', w' := Sum(m + [y]), Weighted(m + [y]);
    Slide(x, m, y);
    Halves(s, w);
    Halves(s', w');
    HalfAdd(s, y - x);
    HalfAddBoth(w - (|m| + 1) * x, s');
    HalfAdd(w, -((|m| + 1) * x) + s' % HALF);
  }

  lemma Halves(s: int, w: int)
    ensures (s % HALF + HALF * (w % HALF)) % HALF == s % HALF && (s % HALF + HALF * (w % HALF)) / HALF == w % HALF
  {
    ModIs(s % HALF + HALF * (w % HALF), w % HALF, s % HALF, HALF);
  }

  lemma HalfAdd(x: int, y: int)
    ensures (x % HALF + y) % HALF == (x + y) % HALF
  {
    ModShift(x + y, -(x / HALF), HALF);
    assert x % HALF + y == x + y + -(x / HALF) * HALF;
  }

  lemma HalfAddBoth(x: int, y: int)
    ensures (x + y % HALF) % HALF == (x + y) % HALF
  {
    HalfAdd(y, x);
  }
}
