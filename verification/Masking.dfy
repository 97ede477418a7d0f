/**
  Payload masking (section 5.3 of RFC 6455): the one-line specification,
  its laws, and the in-place three-phase loop that computes it.
*/
module Masking {
  import opened Bytes

  /** `s` with byte `i` combined with key byte `(off + i) mod 4`. */
  function Masked(s: seq<byte>, mask: Mask, off: int): (r: seq<byte>)
    ensures |r| == |s|
  {
    seq(|s|, i requires 0 <= i < |s| => Xor(s[i], mask[(off + i) % 4]))
  }

  /** Bit by bit, byte `i` is combined with its key byte by exclusive-or. */
  lemma MaskedBits(s: seq<byte>, mask: Mask, off: int, i: nat)
    requires i < |s|
    ensures IsXor(Masked(s, mask, off)[i], s[i], mask[(off + i) % 4])
  {
    XorExact(Masked(s, mask, off)[i], s[i], mask[(off + i) % 4]);
  }

  lemma SliceBits(s: seq<byte>, r: seq<byte>, lo: nat, hi: nat, mask: Mask, off: int)
    requires lo <= hi <= |s| == |r| && r[lo..hi] == Masked(s[lo..hi], mask, off)
    ensures forall i :: lo <= i < hi ==> IsXor(r[i], s[i], mask[(off + i - lo) % 4])
  {
    forall i | lo <= i < hi
      ensures IsXor(r[i], s[i], mask[(off + i - lo) % 4])
    {
      MaskedBits(s[lo..hi], mask, off, i - lo);
      assert r[i] == r[lo..hi][i - lo] && off + (i - lo) == off + i - lo;
    }
  }

  lemma MaskedTwice(s: seq<byte>, mask: Mask, off: int)
    ensures Masked(Masked(s, mask, off), mask, off) == s
  {
    var r := Masked(Masked(s, mask, off), mask, off);
    forall i | 0 <= i < |s|
      ensures r[i] == s[i]
    {
      XorTwice(s[i], mask[(off + i) % 4]);
    }
  }

  lemma PhaseShift(off: int, k: int, i: int)
    ensures (off + (k + i)) % 4 == ((off + k) % 4 + i) % 4
  {
  }

  /** A payload may be masked in two parts, the second at the phase where the first stopped. */
  lemma MaskedSplit(a: seq<byte>, b: seq<byte>, mask: Mask, off: int)
    ensures Masked(a + b, mask, off) == Masked(a, mask, off) + Masked(b, mask, (off + |a|) % 4)
  {
    var whole := Masked(a + b, mask, off);
    var parts := Masked(a, mask, off) + Masked(b, mask, (off + |a|) % 4);
    forall i | 0 <= i < |a + b|
      ensures whole[i] == parts[i]
    {
      if i >= |a| {
        PhaseShift(off, |a|, i - |a|);
        assert (off + i) % 4 == ((off + |a|) % 4 + (i - |a|)) % 4;
        assert (a + b)[i] == b[i - |a|];
      }
    }
  }

  lemma MaskedFront(s: seq<byte>, k: nat, mask: Mask, off: int)
    requires k <= |s|
    ensures Masked(s, mask, off)[..k] == Masked(s[..k], mask, off)
  {
  }

  lemma MaskedBack(s: seq<byte>, k: nat, mask: Mask, off: int)
    requires k <= |s|
    ensures Masked(s, mask, off)[k..] == Masked(s[k..], mask, (off + k) % 4)
  {
    var whole, back := Masked(s, mask, off)[k..], Masked(s[k..], mask, (off + k) % 4);
    forall i | 0 <= i < |back|
      ensures whole[i] == back[i]
    {
      PhaseShift(off, k, i);
      assert s[k..][i] == s[k + i];
    }
  }

  /** A chunk of `k` bytes, and what is left, at the phase that the reader keeps. */
  lemma MaskedChunk(s: seq<byte>, k: nat, mask: Mask, off: nat)
    requires k <= |s| && off < 4
    ensures Masked(s, mask, off)[..k] == Masked(s[..k], mask, off)
    ensures Masked(s, mask, off)[k..] == Masked(s[k..], mask, (off + k) % 4)
    ensures k == 0 ==> (off + k) % 4 == off && Masked(s[..k], mask, off) == []
  {
    MaskedFront(s, k, mask, off);
    MaskedBack(s, k, mask, off);
  }

  // ----- the in-place loop -----

  /** The buffer `s` once positions `lo..i` have been combined with the key. */
  ghost function MaskedUpto(s: seq<byte>, lo: nat, i: nat, mask: Mask, off: int): (r: seq<byte>)
    requires lo <= i <= |s|
    ensures |r| == |s|
  {
    if i == lo then s else
      MaskedUpto(s, lo, i - 1, mask, off)[i - 1 := Xor(s[i - 1], mask[(off + i - 1 - lo) % 4])]
  }

  lemma {:induction false} MaskedUptoAt(s: seq<byte>, lo: nat, i: nat, mask: Mask, off: int, j: nat)
    requires lo <= i <= |s| && j < |s|
    ensures MaskedUpto(s, lo, i, mask, off)[j] ==
            if lo <= j < i then Xor(s[j], mask[(off + j - lo) % 4]) else s[j]
  {
    if lo < i {
      MaskedUptoAt(s, lo, i - 1, mask, off, j);
    }
  }

  lemma MaskedUptoParts(s: seq<byte>, lo: nat, hi: nat, mask: Mask, off: int)
    requires lo <= hi <= |s|
    ensures var r := MaskedUpto(s, lo, hi, mask, off);
            r[..lo] == s[..lo] && r[lo..hi] == Masked(s[lo..hi], mask, off) && r[hi..] == s[hi..]
  {
    var r, m := MaskedUpto(s, lo, hi, mask, off), Masked(s[lo..hi], mask, off);
    forall j | 0 <= j < |s|
      ensures r[j] == if lo <= j < hi then m[j - lo] else s[j]
    {
      MaskedUptoAt(s, lo, hi, mask, off, j);
      if lo <= j < hi {
        assert off + (j - lo) == off + j - lo;
      }
    }
  }

  lemma MaskedSlices(p: array<byte>, s: seq<byte>, lo: nat, hi: nat, mask: Mask, off: int)
    requires lo <= hi <= |s| && p[..] == MaskedUpto(s, lo, hi, mask, off)
    ensures p.Length == |s|
    ensures p[..lo] == s[..lo] && p[lo..hi] == Masked(s[lo..hi], mask, off) && p[hi..] == s[hi..]
  {
    MaskedUptoParts(s, lo, hi, mask, off);
    assert p[..lo] == p[..][..lo] && p[lo..hi] == p[..][lo..hi] && p[hi..] == p[..][hi..];
  }

  lemma MaskedUptoStep(s: seq<byte>, lo: nat, i: nat, mask: Mask, off: int, k: int)
    requires lo <= i < |s| && 0 <= k < 4 && (off + i - lo) % 4 == k
    ensures MaskedUpto(s, lo, i, mask, off)[i] == s[i]
    ensures MaskedUpto(s, lo, i + 1, mask, off) == MaskedUpto(s, lo, i, mask, off)[i := Xor(s[i], mask[k])]
  {
    MaskedUptoAt(s, lo, i, mask, off, i);
  }

  lemma PhaseNext(a: int, b: int)
    requires a % 4 == b % 4
    ensures (a + 1) % 4 == (b + 1) % 4
  {
  }

  lemma PhaseBlock(a: int)
    requires a % 4 == 0
    ensures (a + 1) % 4 == 1 && (a + 2) % 4 == 2 && (a + 3) % 4 == 3 && (a + 4) % 4 == 0
  {
  }

  /** `p[i] ^= mask[k]`, where `k` is the phase of position `i`. */
  method XorAt(p: array<byte>, i: nat, mask: Mask, k: nat, ghost s: seq<byte>, ghost lo: nat, ghost off: int)
    requires lo <= i < p.Length == |s|
    requires k < 4 && (off + i - lo) % 4 == k
    requires p[..] == MaskedUpto(s, lo, i, mask, off)
    modifies p
    ensures p[..] == MaskedUpto(s, lo, i + 1, mask, off)
  {
    MaskedUptoStep(s, lo, i, mask, off, k);
    assert p[i] == p[..][i];
    p[i] := Xor(p[i], mask[k]);
  }

  /** One round of the loop unrolled by four. */
  method XorBlock(p: array<byte>, i: nat, mask: Mask, ghost s: seq<byte>, ghost lo: nat, ghost off: int)
    requires lo <= i <= i + 4 <= p.Length == |s|
    requires (off + i - lo) % 4 == 0
    requires p[..] == MaskedUpto(s, lo, i, mask, off)
    modifies p
    ensures p[..] == MaskedUpto(s, lo, i + 4, mask, off)
  {
    PhaseBlock(off + i - lo);
    XorAt(p, i, mask, 0, s, lo, off);
    XorAt(p, i + 1, mask, 1, s, lo, off);
    XorAt(p, i + 2, mask, 2, s, lo, off);
    XorAt(p, i + 3, mask, 3, s, lo, off);
  }

  /** The first loop: up to a whole key, or to the end. */
  method Align(p: array<byte>, lo: nat, hi: nat, mask: Mask, off: int, ghost s: seq<byte>) returns (i: nat, o: int)
    requires lo <= hi <= p.Length == |s| && p[..] == s
    modifies p
    ensures lo <= i <= hi && o == off + i - lo && (i == hi || o % 4 == 0)
    ensures p[..] == MaskedUpto(s, lo, i, mask, off)
  {
    i, o := lo, off;
    while i < hi && o % 4 != 0
      invariant lo <= i <= hi && o == off + i - lo
      invariant p[..] == MaskedUpto(s, lo, i, mask, off)
    {
      XorAt(p, i, mask, o % 4, s, lo, off);
      i, o := i + 1, o + 1;
    }
  }

  /** The second loop: whole keys, as long as there are four bytes. */
  method Blocks(p: array<byte>, i0: nat, hi: nat, mask: Mask, ghost s: seq<byte>, ghost lo: nat, ghost off: int)
    returns (i: nat)
    requires lo <= i0 <= hi <= p.Length == |s|
    requires i0 == hi || (off + i0 - lo) % 4 == 0
    requires p[..] == MaskedUpto(s, lo, i0, mask, off)
    modifies p
    ensures i0 <= i <= hi && (i == hi || (off + i - lo) % 4 == 0)
    ensures p[..] == MaskedUpto(s, lo, i, mask, off)
  {
    i := i0;
    while i + 4 <= hi
      invariant i0 <= i <= hi && (i == hi || (off + i - lo) % 4 == 0)
      invariant p[..] == MaskedUpto(s, lo, i, mask, off)
    {
      XorBlock(p, i, mask, s, lo, off);
      PhaseBlock(off + i - lo);
      assert off + (i + 4) - lo == (off + i - lo) + 4;
      i := i + 4;
    }
  }

  /** The third loop: the bytes that are left; `o0` has the phase of position `i0`, and need not be its offset. */
  method Remainder(p: array<byte>, i0: nat, hi: nat, mask: Mask, o0: int,
                   ghost s: seq<byte>, ghost lo: nat, ghost off: int)
    requires lo <= i0 <= hi <= p.Length == |s|
    requires i0 == hi || (off + i0 - lo) % 4 == o0 % 4
    requires p[..] == MaskedUpto(s, lo, i0, mask, off)
    modifies p
    ensures p[..] == MaskedUpto(s, lo, hi, mask, off)
  {
    var i, o := i0, o0;
    while i < hi
      invariant i0 <= i <= hi && (i == hi || (off + i - lo) % 4 == o % 4)
      invariant p[..] == MaskedUpto(s, lo, i, mask, off)
    {
      PhaseNext(off + i - lo, o);
      XorAt(p, i, mask, o % 4, s, lo, off);
      assert off + (i + 1) - lo == (off + i - lo) + 1;
      i, o := i + 1, o + 1;
    }
  }

  /** In place, masks the slice `p[lo..hi]` with the key at offset `off` and touches nothing else. */
  method FastCipher(p: array<byte>, lo: nat, hi: nat, mask: Mask, off: int)
    requires lo <= hi <= p.Length
    modifies p
    ensures p[..lo] == old(p[..lo])
    ensures p[lo..hi] == Masked(old(p[lo..hi]), mask, off)
    ensures p[hi..] == old(p[hi..])
    ensures forall i :: lo <= i < hi ==> IsXor(p[i], old(p[i]), mask[(off + i - lo) % 4])
  {
    ghost var s := p[..];
    if lo == hi {
      return;
    }
    var i, o := Align(p, lo, hi, mask, off, s);
    i := Blocks(p, i, hi, mask, s, lo, off);
    Remainder(p, i, hi, mask, o, s, lo, off);
    MaskedSlices(p, s, lo, hi, mask, off);
    assert s[..lo] == old(p[..lo]) && s[lo..hi] == old(p[lo..hi]) && s[hi..] == old(p[hi..]);
    SliceBits(s, p[..], lo, hi, mask, off);
  }
}
