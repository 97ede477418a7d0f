/**
  The byte source and the small readers stacked on it.

  A source is a finite byte string. Each read of a non-empty slice hands out an arbitrary
  non-zero number of the bytes that are left, so every contract below holds for every way
  in which the network may cut the stream.
*/
module Streams {
  import opened Bytes
  import opened Errors
  import opened Masking

  class Source {
    const data: seq<byte>
    var pos: nat

    ghost predicate Valid()
      reads this
    {
      pos <= |data|
    }

    ghost function Rest(): seq<byte>
      requires Valid()
      reads this
    {
      data[pos..]
    }

    constructor (data: seq<byte>)
      ensures Valid() && this.data == data && pos == 0
    {
      this.data, pos := data, 0;
    }

    /** Fills a front part of the slice `p[lo..hi]`. */
    method Read(p: array<byte>, lo: nat, hi: nat) returns (n: nat, err: Error)
      requires Valid() && lo <= hi <= p.Length
      modifies this, p
      ensures Valid() && pos == old(pos) + n && lo + n <= hi
      ensures p[..lo] == old(p[..lo])
      ensures p[lo..lo + n] == data[old(pos)..pos]
      ensures err == Ok || (err == Eof && n == 0 && pos == |data|)
      ensures lo < hi && old(pos) < |data| ==> n > 0
      ensures lo < hi && old(pos) == |data| ==> err == Eof
    {
      n, err := 0, Ok;
      if pos == |data| {
        if lo < hi {
          err := Eof;
        } else {
          err :| err == Ok || err == Eof;
        }
      } else if lo < hi {
        var most := Min(hi - lo, |data| - pos);
        n :| 1 <= n <= most;
        forall i | 0 <= i < n {
          p[lo + i] := data[pos + i];
        }
        pos := pos + n;
      }
    }

    /** Reads until the slice is full or the source ends. */
    method ReadFull(p: array<byte>, lo: nat, hi: nat) returns (n: nat, err: Error)
      requires Valid() && lo <= hi <= p.Length
      modifies this, p
      ensures Valid() && pos == old(pos) + n
      ensures n == Min(hi - lo, |data| - old(pos))
      ensures p[..lo] == old(p[..lo])
      ensures p[lo..lo + n] == data[old(pos)..pos]
      ensures err == if n == hi - lo then Ok else if n == 0 then Eof else UnexpectedEof
    {
      n, err := 0, Ok;
      while lo + n < hi && err == Ok
        invariant Valid() && pos == old(pos) + n && lo + n <= hi
        invariant err == Ok || (err == Eof && pos == |data|)
        invariant p[..lo] == old(p[..lo])
        invariant p[lo..lo + n] == data[old(pos)..pos]
        decreases |data| - pos, if err == Ok then 1 else 0
      {
        ghost var before := p[..lo + n];
        var k;
        k, err := Read(p, lo + n, hi);
        assert p[..lo + n] == before;
        assert p[..lo] == before[..lo];
        assert p[lo..lo + n + k] == before[lo..] + p[lo + n..lo + n + k];
        assert data[old(pos)..pos] == data[old(pos)..pos - k] + data[pos - k..pos];
        n := n + k;
      }
      if lo + n == hi {
        err := Ok;
      } else if n > 0 {
        err := UnexpectedEof;
      }
    }
  }

  /** Taking `k` bytes off a window of at most `n` bytes. */
  lemma WindowMoves(data: seq<byte>, pos: nat, n: nat, k: nat)
    requires k <= n && pos + k <= |data|
    ensures var window := data[pos..Min(pos + n, |data|)];
            k <= |window| && window[..k] == data[pos..pos + k] &&
            window[k..] == data[pos + k..Min(pos + k + (n - k), |data|)]
  {
  }

  /** At most `n` bytes of `r`. */
  class LimitedReader {
    var r: Source?
    var n: nat

    ghost predicate Valid()
      reads this, r
    {
      (n > 0 ==> r != null) && (r != null ==> r.Valid())
    }

    /** The bytes still to come: those of the source, up to the limit. */
    ghost function Avail(): seq<byte>
      requires Valid()
      reads this, r
    {
      if r == null then [] else r.data[r.pos..Min(r.pos + n, |r.data|)]
    }

    constructor ()
      ensures Valid() && r == null && n == 0
    {
      r, n := null, 0;
    }

    method Reset(r: Source?, n: nat)
      modifies this
      ensures this.r == r && this.n == n
    {
      this.r, this.n := r, n;
    }

    method Read(p: array<byte>, lo: nat, hi: nat) returns (k: nat, err: Error)
      requires Valid() && lo <= hi <= p.Length
      modifies this, r, p
      ensures Valid() && r == old(r) && n == old(n) - k && lo + k <= hi
      ensures r != null ==> r.pos == old(r.pos) + k
      ensures p[..lo] == old(p[..lo])
      ensures k <= |old(Avail())| && p[lo..lo + k] == old(Avail())[..k] && Avail() == old(Avail())[k..]
      ensures err == Ok || (err == Eof && k == 0)
      ensures err == Eof && n > 0 ==> r.pos == |r.data|
      ensures old(n) == 0 ==> err == Eof
      ensures lo < hi && err == Ok ==> k > 0
    {
      if n == 0 {
        return 0, Eof;
      }
      var limit := if hi - lo > n then lo + n else hi;
      ghost var at := r.pos;
      k, err := r.Read(p, lo, limit);
      WindowMoves(r.data, at, n, k);
      n := n - k;
    }

    /** `io.Copy` into a sink that drops everything: it ends at the limit or at the end of the source. */
    method Drain()
      requires Valid()
      modifies this, r
      ensures Valid() && r == old(r)
      ensures r != null ==> r.pos == Min(old(r.pos) + old(n), |r.data|) && n == old(n) - (r.pos - old(r.pos))
      ensures r == null ==> n == 0
    {
      var buffer := new byte[512];
      var err := Ok;
      while err == Ok
        invariant Valid() && r == old(r)
        invariant err == Ok || (err == Eof && (n == 0 || r.pos == |r.data|))
        invariant r == null ==> n == 0
        invariant r != null ==> old(r.pos) <= r.pos && n + r.pos == old(n) + old(r.pos)
        decreases n, if err == Ok then 1 else 0
      {
        var k;
        k, err := Read(buffer, 0, buffer.Length);
      }
    }
  }

  /** Unmasks a limited reader; `pos` is the phase of the key, in 0..3. */
  class CipherReader {
    var r: LimitedReader?
    var m: Mask
    var pos: nat

    constructor (r: LimitedReader?, mask: Mask)
      ensures this.r == r && m == mask && pos == 0
    {
      this.r, m, pos := r, mask, 0;
    }

    method Reset(r: LimitedReader?, mask: Mask)
      modifies this
      ensures this.r == r && m == mask && pos == 0
    {
      this.r, m, pos := r, mask, 0;
    }

    ghost predicate Valid()
      reads this, r, if r == null then null else r.r
    {
      r != null && r.Valid() && pos < 4
    }

    /** The unmasked bytes still to come. */
    ghost function Plain(): (s: seq<byte>)
      requires Valid()
      reads this, r, r.r
      ensures |s| == |r.Avail()|
    {
      Masked(r.Avail(), m, pos)
    }

    /** Whatever the size of the chunk read from below, its bytes continue the unmasking of the payload. */
    method Read(p: array<byte>, lo: nat, hi: nat) returns (k: nat, err: Error)
      requires Valid() && lo <= hi <= p.Length
      modifies this, r, r.r, p
      ensures Valid() && r == old(r) && m == old(m)
      ensures r.r == old(r.r) && r.n == old(r.n) - k && lo + k <= hi
      ensures r.r != null ==> r.r.pos == old(r.r.pos) + k
      ensures p[..lo] == old(p[..lo])
      ensures k <= |old(Plain())| && p[lo..lo + k] == old(Plain())[..k] && Plain() == old(Plain())[k..]
      ensures err == Ok || (err == Eof && k == 0)
      ensures err == Eof && r.n > 0 ==> r.r.pos == |r.r.data|
      ensures old(r.n) == 0 ==> err == Eof
      ensures lo < hi && err == Ok ==> k > 0
    {
      ghost var all := r.Avail();
      k, err := r.Read(p, lo, hi);
      MaskedChunk(all, k, m, pos);
      assert r.Avail() == all[k..];
      if k > 0 {
        FastCipher(p, lo, lo + k, m, pos);
        pos := (pos + k) % 4;
      } else {
        assert p[lo..lo] == [];
      }
    }
  }
}
