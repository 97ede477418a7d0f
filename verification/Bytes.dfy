/**
  Bytes, the exclusive-or of two bytes, and big-endian numbers.

  A byte is an integer in 0..255, so that lengths and bytes live in one arithmetic.
  Exclusive-or is defined bit by bit.
*/
module Bytes {

  type byte = b: int | 0 <= b < 256

  /** A masking key, the `[4]byte` of section 5.3 of RFC 6455. */
  type Mask = m: seq<byte> | |m| == 4 witness [0, 0, 0, 0]

  const NO_MASK: Mask := [0, 0, 0, 0]

  function Min(a: nat, b: nat): nat {
    if a < b then a else b
  }

  function Concat<T>(parts: seq<seq<T>>): seq<T> {
    if parts == [] then [] else parts[0] + Concat(parts[1..])
  }

  lemma {:induction false} ConcatAppend<T>(parts: seq<seq<T>>, more: seq<seq<T>>)
    ensures Concat(parts + more) == Concat(parts) + Concat(more)
  {
    if parts == [] {
      assert parts + more == more;
    } else {
      assert (parts + more)[1..] == parts[1..] + more;
      ConcatAppend(parts[1..], more);
    }
  }

  lemma ConcatSnoc<T>(parts: seq<seq<T>>, last: seq<T>)
    ensures Concat(parts + [last]) == Concat(parts) + last
  {
    ConcatAppend(parts, [last]);
    assert Concat([last]) == last + Concat([]);
  }

  /** `n` elements move from the rest to what is done. */
  lemma ChunkMoved<T>(done: seq<T>, rest: seq<T>, n: nat)
    requires n <= |rest|
    ensures (done + rest[..n]) + rest[n..] == done + rest
  {
    assert rest == rest[..n] + rest[n..];
  }

  // ----- exclusive-or -----

  function Pow2(n: nat): (p: nat)
    ensures p > 0
  {
    if n == 0 then 1 else 2 * Pow2(n - 1)
  }

  /** Exclusive-or of the low `bits` bits of `a` and `b`. */
  function XorBits(a: nat, b: nat, bits: nat): nat {
    if bits == 0 then 0 else 2 * XorBits(a / 2, b / 2, bits - 1) + (a + b) % 2
  }

  lemma {:induction false} XorBitsBound(a: nat, b: nat, bits: nat)
    ensures XorBits(a, b, bits) < Pow2(bits)
  {
    if bits > 0 {
      XorBitsBound(a / 2, b / 2, bits - 1);
    }
  }

  function Xor(a: byte, b: byte): byte {
    XorBitsBound(a, b, 8);
    assert Pow2(8) == 256;
    XorBits(a, b, 8)
  }

  lemma HalveXor(a: nat, b: nat, bits: nat)
    requires bits > 0
    ensures XorBits(a, b, bits) / 2 == XorBits(a / 2, b / 2, bits - 1)
    ensures XorBits(a, b, bits) % 2 == (a + b) % 2
  {
  }

  lemma ParityTwice(x: nat, a: nat, b: nat)
    requires x % 2 == (a + b) % 2
    ensures (x + b) % 2 == a % 2
  {
  }

  lemma {:induction false} XorBitsTwice(a: nat, b: nat, bits: nat)
    requires a < Pow2(bits)
    ensures XorBits(XorBits(a, b, bits), b, bits) == a
  {
    if bits > 0 {
      var x := XorBits(a, b, bits);
      HalveXor(a, b, bits);
      XorBitsTwice(a / 2, b / 2, bits - 1);
      ParityTwice(x, a, b);
      assert XorBits(x, b, bits) == 2 * (a / 2) + a % 2;
    }
  }

  /** Masking twice with the same key byte gives back the byte. */
  lemma XorTwice(a: byte, b: byte)
    ensures Xor(Xor(a, b), b) == a
  {
    assert Pow2(8) == 256;
    XorBitsTwice(a, b, 8);
  }

  // ----- bit by bit -----

  /** Bit `k` of a number: halved `k` times, is it odd? */
  function Bit(a: nat, k: nat): nat {
    if k == 0 then a % 2 else Bit(a / 2, k - 1)
  }

  /** `r` is the exclusive-or of `a` and `b`: each of its eight bits is set if just one of theirs is. */
  ghost predicate IsXor(r: byte, a: byte, b: byte) {
    forall k :: 0 <= k < 8 ==> Bit(r, k) == (Bit(a, k) + Bit(b, k)) % 2
  }

  /** Dividing by `d` and then by 2 is dividing by `2 * d`. */
  lemma DivideTwice(a: nat, d: nat)
    requires d > 0
    ensures a / (2 * d) == (a / 2) / d
  {
    var q, r := (a / 2) / d, (a / 2) % d;
    assert a / 2 == q * d + r;
    assert a == q * (2 * d) + (2 * r + a % 2) by {
      assert q * (2 * d) == 2 * (q * d);
    }
    DivideIs(a, 2 * d, q, 2 * r + a % 2);
  }

  lemma DivideIs(a: nat, d: nat, q: nat, r: nat)
    requires r < d && a == q * d + r
    ensures a / d == q
  {
    var e := a / d - q;
    DivideMod(a, d);
    assert e * d == r - a % d;
    TimesBound(e, d);
  }

  lemma DivideMod(a: nat, d: nat)
    requires d > 0
    ensures (a / d) * d == a - a % d
  {
  }

  lemma TimesBound(e: int, d: nat)
    ensures e >= 1 ==> e * d >= d
    ensures e <= -1 ==> e * d + d <= 0
  {
    if e >= 1 {
      assert (e - 1) * d >= 0;
    } else if e <= -1 {
      assert (-e - 1) * d >= 0;
    }
  }

  /** Bit `k` has the value `2^k`. */
  lemma {:induction false} BitIs(a: nat, k: nat)
    ensures Bit(a, k) == a / Pow2(k) % 2
  {
    if k > 0 {
      BitIs(a / 2, k - 1);
      DivideTwice(a, Pow2(k - 1));
    }
  }

  /** The bits of `x` but the lowest are those of its half. */
  lemma BitStep(x: nat, half: nat, a: nat, b: nat, k: nat)
    requires k > 0 && x / 2 == half && Bit(half, k - 1) == (Bit(a / 2, k - 1) + Bit(b / 2, k - 1)) % 2
    ensures Bit(x, k) == (Bit(a, k) + Bit(b, k)) % 2
  {
  }

  lemma BitLow(x: nat, a: nat, b: nat)
    requires x % 2 == (a + b) % 2
    ensures Bit(x, 0) == (Bit(a, 0) + Bit(b, 0)) % 2
  {
  }

  lemma {:induction false} XorBitsAt(a: nat, b: nat, bits: nat, k: nat)
    requires k < bits
    ensures Bit(XorBits(a, b, bits), k) == (Bit(a, k) + Bit(b, k)) % 2
  {
    HalveXor(a, b, bits);
    if k == 0 {
      BitLow(XorBits(a, b, bits), a, b);
    } else {
      XorBitsAt(a / 2, b / 2, bits - 1, k - 1);
      BitStep(XorBits(a, b, bits), XorBits(a / 2, b / 2, bits - 1), a, b, k);
    }
  }

  lemma {:induction false} BitsDetermine(a: nat, b: nat, bits: nat)
    requires a < Pow2(bits) && b < Pow2(bits)
    requires forall k :: 0 <= k < bits ==> Bit(a, k) == Bit(b, k)
    ensures a == b
  {
    if bits > 0 {
      assert Bit(a, 0) == Bit(b, 0);
      forall k | 0 <= k < bits - 1
        ensures Bit(a / 2, k) == Bit(b / 2, k)
      {
        assert Bit(a, k + 1) == Bit(b, k + 1);
      }
      BitsDetermine(a / 2, b / 2, bits - 1);
    }
  }

  /** `Xor` is exclusive-or, and nothing else is. */
  lemma XorExact(r: byte, a: byte, b: byte)
    ensures IsXor(r, a, b) <==> r == Xor(a, b)
  {
    var x := Xor(a, b);
    forall k | 0 <= k < 8
      ensures Bit(x, k) == (Bit(a, k) + Bit(b, k)) % 2
    {
      XorBitsAt(a, b, 8, k);
    }
    if IsXor(r, a, b) {
      assert Pow2(8) == 256;
      BitsDetermine(r, x, 8);
    }
  }

  // ----- big-endian numbers -----

  function Pow256(n: nat): nat {
    if n == 0 then 1 else 256 * Pow256(n - 1)
  }

  function FromBigEndian(s: seq<byte>): nat {
    if s == [] then 0 else FromBigEndian(s[..|s| - 1]) * 256 + s[|s| - 1]
  }

  function ToBigEndian(v: nat, n: nat): (s: seq<byte>)
    ensures |s| == n
  {
    if n == 0 then [] else ToBigEndian(v / 256, n - 1) + [v % 256]
  }

  lemma {:induction false} BigEndianRoundTrip(v: nat, n: nat)
    requires v < Pow256(n)
    ensures FromBigEndian(ToBigEndian(v, n)) == v
  {
    if n > 0 {
      BigEndianRoundTrip(v / 256, n - 1);
      assert ToBigEndian(v, n)[..n - 1] == ToBigEndian(v / 256, n - 1);
    }
  }

  lemma {:induction false} BigEndianUnique(s: seq<byte>)
    ensures ToBigEndian(FromBigEndian(s), |s|) == s
  {
    if s != [] {
      var v, w, last := FromBigEndian(s), FromBigEndian(s[..|s| - 1]), s[|s| - 1];
      assert v == w * 256 + last;
      assert v / 256 == w && v % 256 == last;
      BigEndianUnique(s[..|s| - 1]);
      assert s == s[..|s| - 1] + [last];
    }
  }

  /** The first byte bounds the number from both sides. */
  lemma {:induction false} BigEndianTop(s: seq<byte>)
    requires s != []
    ensures var top: int := s[0];
            top * Pow256(|s| - 1) <= FromBigEndian(s) < (top + 1) * Pow256(|s| - 1)
  {
    if |s| == 1 {
      assert s[..0] == [];
    } else {
      var w := s[..|s| - 1];
      BigEndianTop(w);
      var top: int, q: int := s[0], Pow256(|w| - 1);
      assert Pow256(|s| - 1) == 256 * q;
      assert top * (256 * q) == 256 * (top * q);
      assert (top + 1) * (256 * q) == 256 * ((top + 1) * q);
    }
  }
}
