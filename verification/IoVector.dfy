/** Slicing of I/O vectors: iov_length, iov_subset and iov_unload in common-utils.h. */
module IoVector {
  import opened Seqs

  /** struct iovec: len bytes of memory from base on. */
  datatype Vec = Vec(base: nat, len: nat)

  ghost predicate InMemory(mem: seq<int>, vs: seq<Vec>)
  {
    forall k :: 0 <= k < |vs| ==> vs[k].base + vs[k].len <= |mem|
  }

  /** The bytes that the vectors hold, in order. */
  function Bytes(mem: seq<int>, vs: seq<Vec>): seq<int>
    requires InMemory(mem, vs)
  {
    if vs == [] then [] else mem[vs[0].base..vs[0].base + vs[0].len] + Bytes(mem, vs[1..])
  }

  function TotalLength(vs: seq<Vec>): nat
  {
    if vs == [] then 0 else vs[0].len + TotalLength(vs[1..])
  }

  lemma {:induction false} BytesLength(mem: seq<int>, vs: seq<Vec>)
    requires InMemory(mem, vs)
    ensures |Bytes(mem, vs)| == TotalLength(vs)
  {
    if vs != [] { BytesLength(mem, vs[1..]); }
  }

  // ---------- Clipping ----------

  /** x moved into 0 .. n. */
  function Clamp(x: int, n: nat): (r: nat)
    ensures r <= n
  {
    if x < 0 then 0 else if x > n then n else x
  }

  /** The bytes from position a up to position b, as far as there are any. */
  function Clip(s: seq<int>, a: int, b: int): seq<int>
  {
    if s == [] then [] else (if a <= 0 < b then [s[0]] else []) + Clip(s[1..], a - 1, b - 1)
  }

  lemma {:induction false} ClipIsSlice(s: seq<int>, a: int, b: int)
    requires a <= b
    ensures Clip(s, a, b) == s[Clamp(a, |s|)..Clamp(b, |s|)]
  {
    if s != [] {
      ClipIsSlice(s[1..], a - 1, b - 1);
      var i, j := Clamp(a, |s|), Clamp(b, |s|);
      if a <= 0 < b {
        SliceHead(s, j);
      } else if b > 0 {
        SliceTail(s, i, j);
      }
    }
  }

  lemma SliceHead(s: seq<int>, j: nat)
    requires 0 < j <= |s|
    ensures s[0..j] == [s[0]] + s[1..][0..j - 1]
  {
  }

  lemma SliceTail(s: seq<int>, i: nat, j: nat)
    requires 0 < i <= j <= |s|
    ensures s[i..j] == s[1..][i - 1..j - 1]
  {
    var t := s[1..];
    assert forall k :: 0 <= k < j - i ==> s[i..j][k] == s[i + k] == t[i - 1 + k] == t[i - 1..j - 1][k];
  }

  lemma {:induction false} ClipConcat(x: seq<int>, y: seq<int>, a: int, b: int)
    ensures Clip(x + y, a, b) == Clip(x, a, b) + Clip(y, a - |x|, b - |x|)
  {
    if x == [] {
      assert x + y == y;
    } else {
      ClipConcat(x[1..], y, a - 1, b - 1);
      assert (x + y)[1..] == x[1..] + y;
      Regroup(if a <= 0 < b then [x[0]] else [], Clip(x[1..], a - 1, b - 1), Clip(y, a - |x|, b - |x|));
    }
  }

  // ---------- iov_subset ----------

  /** The vector overlaps the range, or touches its boundary. */
  predicate Touches(v: Vec, offset: nat, src: nat, dst: nat)
  {
    !(offset + v.len < src || offset > dst)
  }

  predicate Within(x: int, a: int, b: int)
  {
    a <= x <= b
  }

  /** A vector gets a piece exactly if it has a position in common with the range, ends included; the piece is
      empty if that is all they have in common. */
  lemma TouchMeaning(v: Vec, offset: nat, src: nat, dst: nat)
    requires src <= dst
    ensures Touches(v, offset, src, dst) <==> exists x :: Within(x, offset, offset + v.len) && Within(x, src, dst)
    ensures Touches(v, offset, src, dst) ==>
      (Piece(v, offset, src, dst).len == 0 <==> v.len == 0 || src == dst || offset + v.len == src || offset == dst)
  {
    if Touches(v, offset, src, dst) {
      var x := if src >= offset then src else offset;
      assert Within(x, offset, offset + v.len) && Within(x, src, dst);
    }
  }

  function Piece(v: Vec, offset: nat, src: nat, dst: nat): (r: Vec)
    requires src <= dst && Touches(v, offset, src, dst)
    ensures v.base <= r.base && r.base + r.len <= v.base + v.len
  {
    var start := if src >= offset then src - offset else 0;
    var end := if dst <= offset + v.len then dst - offset else v.len;
    Vec(v.base + start, end - start)
  }

  function Pieces(vs: seq<Vec>, offset: nat, src: nat, dst: nat): seq<Vec>
    requires src <= dst
  {
    if vs == [] then []
    else WithPiece(vs[0], offset, src, dst, Pieces(vs[1..], offset + vs[0].len, src, dst))
  }

  /** One vector contributes its part of the range, perhaps nothing. */
  lemma {:induction false} PieceIsClip(mem: seq<int>, v: Vec, offset: nat, src: nat, dst: nat)
    requires v.base + v.len <= |mem| && src <= dst
    ensures var clip := Clip(mem[v.base..v.base + v.len], src - offset, dst - offset);
      if Touches(v, offset, src, dst) then
        var r := Piece(v, offset, src, dst); mem[r.base..r.base + r.len] == clip
      else clip == []
  {
    ClipIsSlice(mem[v.base..v.base + v.len], src - offset, dst - offset);
    if Touches(v, offset, src, dst) {
      var i, j, r := Clamp(src - offset, v.len), Clamp(dst - offset, v.len), Piece(v, offset, src, dst);
      assert r.base == v.base + i && r.base + r.len == v.base + j;
      SubSlice(mem, v.base, v.base + v.len, i, j);
    }
  }

  lemma {:induction false} BytesCons(mem: seq<int>, v: Vec, vs: seq<Vec>, x: seq<int>, y: seq<int>)
    requires v.base + v.len <= |mem| && InMemory(mem, vs) && x == mem[v.base..v.base + v.len] && y == Bytes(mem, vs)
    ensures InMemory(mem, [v] + vs) && Bytes(mem, [v] + vs) == x + y
  {
    assert ([v] + vs)[1..] == vs;
  }

  /** The piece of v, if any, in front of pieces that hold y. */
  function WithPiece(v: Vec, offset: nat, src: nat, dst: nat, rest: seq<Vec>): seq<Vec>
    requires src <= dst
  {
    (if Touches(v, offset, src, dst) then [Piece(v, offset, src, dst)] else []) + rest
  }

  lemma {:induction false} HeadPiece(mem: seq<int>, v: Vec, offset: nat, src: nat, dst: nat, rest: seq<Vec>,
                                     y: seq<int>)
    requires v.base + v.len <= |mem| && src <= dst && InMemory(mem, rest) && Bytes(mem, rest) == y
    ensures InMemory(mem, WithPiece(v, offset, src, dst, rest))
    ensures Bytes(mem, WithPiece(v, offset, src, dst, rest)) ==
      Clip(mem[v.base..v.base + v.len], src - offset, dst - offset) + y
  {
    PieceIsClip(mem, v, offset, src, dst);
    if Touches(v, offset, src, dst) {
      var p := Piece(v, offset, src, dst);
      BytesCons(mem, p, rest, mem[p.base..p.base + p.len], y);
    } else {
      assert [] + rest == rest && [] + y == y;
    }
  }

  lemma {:induction false} PiecesAreClip(mem: seq<int>, vs: seq<Vec>, offset: nat, src: nat, dst: nat)
    requires InMemory(mem, vs) && src <= dst
    ensures InMemory(mem, Pieces(vs, offset, src, dst))
    ensures Bytes(mem, Pieces(vs, offset, src, dst)) == Clip(Bytes(mem, vs), src - offset, dst - offset)
  {
    if vs != [] {
      PiecesAreClip(mem, vs[1..], offset + vs[0].len, src, dst);
      var x, y := mem[vs[0].base..vs[0].base + vs[0].len], Bytes(mem, vs[1..]);
      HeadPiece(mem, vs[0], offset, src, dst, Pieces(vs[1..], offset + vs[0].len, src, dst),
                Clip(y, src - (offset + vs[0].len), dst - (offset + vs[0].len)));
      ClipConcat(x, y, src - offset, dst - offset);
      assert src - offset - |x| == src - (offset + vs[0].len) && dst - offset - |x| == dst - (offset + vs[0].len);
    }
  }

  /** The vectors that iov_subset builds hold exactly the bytes from src up to dst of the original, clipped
      to its length. */
  lemma {:induction false} SubsetHolds(mem: seq<int>, vs: seq<Vec>, src: nat, dst: nat)
    requires InMemory(mem, vs) && src <= dst
    ensures InMemory(mem, Pieces(vs, 0, src, dst))
    ensures var all := Bytes(mem, vs); Bytes(mem, Pieces(vs, 0, src, dst)) == all[Clamp(src, |all|)..Clamp(dst, |all|)]
  {
    PiecesAreClip(mem, vs, 0, src, dst);
    ClipIsSlice(Bytes(mem, vs), src, dst);
  }

  /** iov_subset. With no output array it counts only, and the count is that of a filling pass. */
  method Subset(orig: seq<Vec>, src: nat, dst: nat, out: array?<Vec>) returns (count: nat)
    requires src <= dst && (out != null ==> |Pieces(orig, 0, src, dst)| <= out.Length)
    modifies out
    ensures count == |Pieces(orig, 0, src, dst)|
    ensures out != null ==> out[..count] == Pieces(orig, 0, src, dst) && out[count..] == old(out[count..])
  {
    count := 0;
    var offset := 0;
    ghost var goal, done := Pieces(orig, 0, src, dst), [];
    assert orig[0..] == orig && done + goal == goal;
    for i := 0 to |orig|
      invariant 0 <= offset && count == |done| && done + Pieces(orig[i..], offset, src, dst) == goal
      invariant out != null ==> out[..count] == done && forall k :: count <= k < out.Length ==> out[k] == old(out[k])
    {
      PiecesStep(orig, i, offset, src, dst, done, goal);
      if Touches(orig[i], offset, src, dst) {
        if out != null {
          var start := if src >= offset then src - offset else 0;
          var end := if dst <= offset + orig[i].len then dst - offset else orig[i].len;
          out[count] := Vec(orig[i].base + start, end - start);
        }
        count, done := count + 1, done + [Piece(orig[i], offset, src, dst)];
      }
      offset := offset + orig[i].len;
    }
    assert done + [] == done;
  }

  lemma {:induction false} PiecesStep(orig: seq<Vec>, i: nat, offset: nat, src: nat, dst: nat, done: seq<Vec>,
                                      goal: seq<Vec>)
    requires i < |orig| && src <= dst && done + Pieces(orig[i..], offset, src, dst) == goal
    ensures var rest := Pieces(orig[i + 1..], offset + orig[i].len, src, dst);
      if Touches(orig[i], offset, src, dst) then (done + [Piece(orig[i], offset, src, dst)]) + rest == goal
      else done + rest == goal
    ensures Touches(orig[i], offset, src, dst) ==> |done| < |goal|
  {
    var rest := Pieces(orig[i + 1..], offset + orig[i].len, src, dst);
    assert orig[i..][1..] == orig[i + 1..] && orig[i..][0] == orig[i];
    if Touches(orig[i], offset, src, dst) {
      Regroup(done, [Piece(orig[i], offset, src, dst)], rest);
    } else {
      assert [] + rest == rest;
    }
  }

  // ---------- iov_length and iov_unload ----------

  lemma {:induction false} TotalSnoc(vs: seq<Vec>, i: nat)
    requires i < |vs|
    ensures TotalLength(vs[..i + 1]) == TotalLength(vs[..i]) + vs[i].len
    decreases i
  {
    if i > 0 {
      TotalSnoc(vs[1..], i - 1);
      assert vs[1..][..i] == vs[..i + 1][1..] && vs[1..][..i - 1] == vs[..i][1..];
    } else {
      assert vs[..1][1..] == [] && vs[..0] == [];
    }
  }

  /** iov_length. */
  method Length(vs: seq<Vec>) returns (size: nat)
    ensures size == TotalLength(vs)
  {
    size := 0;
    for i := 0 to |vs|
      invariant size == TotalLength(vs[..i])
    {
      TotalSnoc(vs, i);
      size := size + vs[i].len;
    }
    assert vs[..|vs|] == vs;
  }

  lemma {:induction false} BytesSnoc(mem: seq<int>, vs: seq<Vec>, i: nat)
    requires InMemory(mem, vs) && i < |vs|
    ensures InMemory(mem, vs[..i]) && InMemory(mem, vs[..i + 1])
    ensures Bytes(mem, vs[..i + 1]) == Bytes(mem, vs[..i]) + mem[vs[i].base..vs[i].base + vs[i].len]
    decreases i
  {
    var x := mem[vs[i].base..vs[i].base + vs[i].len];
    if i > 0 {
      BytesSnoc(mem, vs[1..], i - 1);
      assert vs[1..][..i] == vs[..i + 1][1..] && vs[1..][..i - 1] == vs[..i][1..];
      var y, z := mem[vs[0].base..vs[0].base + vs[0].len], Bytes(mem, vs[..i][1..]);
      Regroup(y, z, x);
      assert Bytes(mem, vs[..i + 1]) == y + (z + x) && Bytes(mem, vs[..i]) == y + z;
    } else {
      assert vs[..1][1..] == [] && vs[..0] == [] && x + [] == [] + x;
    }
  }

  /** iov_unload: copies all vectors into buf, one behind the other. */
  method Unload(buf: array<int>, mem: seq<int>, vs: seq<Vec>)
    requires InMemory(mem, vs) && TotalLength(vs) <= buf.Length
    modifies buf
    ensures var n := TotalLength(vs); buf[..n] == Bytes(mem, vs) && buf[n..] == old(buf[n..])
  {
    var copied := 0;
    BytesLength(mem, vs);
    for i := 0 to |vs|
      invariant InMemory(mem, vs[..i])
      invariant 0 <= copied <= TotalLength(vs) && buf[..copied] == Bytes(mem, vs[..i])
      invariant copied == TotalLength(vs[..i])
      invariant forall k :: copied <= k < buf.Length ==> buf[k] == old(buf[k])
    {
      BytesSnoc(mem, vs, i);
      TotalSnoc(vs, i);
      PrefixLength(vs, i + 1);
      Copy(buf, copied, mem, vs[i]);
      copied := copied + vs[i].len;
    }
    assert vs[..|vs|] == vs;
  }

  lemma {:induction false} PrefixLength(vs: seq<Vec>, i: nat)
    requires i <= |vs|
    ensures TotalLength(vs[..i]) <= TotalLength(vs)
  {
    if i > 0 {
      PrefixLength(vs[1..], i - 1);
      assert vs[..i][1..] == vs[1..][..i - 1];
    }
  }

  /** memcpy. */
  method Copy(buf: array<int>, at: nat, mem: seq<int>, v: Vec)
    requires v.base + v.len <= |mem| && at + v.len <= buf.Length
    modifies buf
    ensures buf[..at + v.len] == old(buf[..at]) + mem[v.base..v.base + v.len]
    ensures forall k :: at + v.len <= k < buf.Length ==> buf[k] == old(buf[k])
  {
    for i := 0 to v.len
      invariant forall k :: 0 <= k < at || at + i <= k < buf.Length ==> buf[k] == old(buf[k])
      invariant buf[at..at + i] == mem[v.base..v.base + i]
    {
      buf[at + i] := mem[v.base + i];
    }
    assert buf[..at] == old(buf[..at]);
    assert buf[..at + v.len] == buf[..at] + buf[at..at + v.len];
  }

  /** Unloading the subset gives the range of the unloaded original: both counts, both copies. */
  method SubsetUnloaded(mem: seq<int>, orig: seq<Vec>, src: nat, dst: nat) returns (bytes: seq<int>)
    requires InMemory(mem, orig) && src <= dst
    ensures var all := Bytes(mem, orig); bytes == all[Clamp(src, |all|)..Clamp(dst, |all|)]
  {
    var count := Subset(orig, src, dst, null);
    var out := new Vec[count](_ => Vec(0, 0));
    var filled := Subset(orig, src, dst, out);
    SubsetHolds(mem, orig, src, dst);
    var subset := out[..];
    assert subset == Pieces(orig, 0, src, dst);
    var size := Length(subset);
    var buf := new int[size];
    Unload(buf, mem, subset);
    BytesLength(mem, subset);
    bytes := buf[..];
  }
}
