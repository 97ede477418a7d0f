/**
  What the frame reader is configured with and decides on single headers and payloads, and the
  notion of a read: which bytes it returns and where it leaves the reader.
*/
module Framing {
  import opened Bytes
  import opened Errors
  import opened Header
  import opened Masking

  const ACCEPT := 0
  const REJECT := 12

  /**
    The reader's options. `accept` is the opcode bit set (1 text, 2 binary); `step` is the
    transition function of the UTF-8 decoder; `closeOk` judges the payload of a close frame.
  */
  datatype Config = Config(
    server: bool, checkUtf8: bool, maxFrameSize: int, accept: nat,
    step: (int, byte) -> int, closeOk: seq<byte> -> bool)

  predicate Accepts(c: Config, opCode: nat) {
    if opCode == OP_TEXT then c.accept % 2 == 1 else c.accept / 2 % 2 == 1
  }

  /** Frames that the reader writes in answer; masking of answers is left to the wire. */
  datatype Reply =
    | Pong(payload: seq<byte>)
    | CloseEmpty
    | CloseEcho(code: seq<byte>)
    | CloseProtocolError
    | CloseUnsupported

  // ----- the checks on one header -----

  predicate Reserved(opCode: nat) { 3 <= opCode <= 7 || 11 <= opCode }

  predicate FirstDataOp(opCode: nat) { opCode == OP_TEXT || opCode == OP_BINARY }

  /** Sections 5.2, 5.4 and 5.5 of RFC 6455, with reserved bits allowed. */
  function CheckHeader(c: Config, h: Head, fragmented: bool): Error {
    if Reserved(h.opCode) then OpCodeReserved
    else if IsControl(h.opCode) && h.length > 125 then ControlPayloadOverflow
    else if IsControl(h.opCode) && !h.fin then ControlNotFinal
    else if c.server && !h.masked then MaskRequired
    else if !c.server && h.masked then MaskUnexpected
    else if fragmented && !IsControl(h.opCode) && h.opCode != OP_CONTINUATION then ContinuationExpected
    else if !fragmented && h.opCode == OP_CONTINUATION then ContinuationUnexpected
    else Ok
  }

  /** RSV1 on the first frame of a data message; section 6 of RFC 7692. */
  predicate Compressed(h: Head) { h.rsv >= 4 && FirstDataOp(h.opCode) }

  /** The checks made before the payload is touched. */
  function Admit(c: Config, h: Head, fragmented: bool): Error {
    if CheckHeader(c, h, fragmented) != Ok then CheckHeader(c, h, fragmented)
    else if c.maxFrameSize > 0 && h.length > c.maxFrameSize then FrameTooLarge
    else Ok
  }

  function CheckFrame(c: Config, h: Head, fragmented: bool): Error {
    if Admit(c, h, fragmented) != Ok then Admit(c, h, fragmented)
    else if h.rsv >= 4 && !FirstDataOp(h.opCode) then UnexpectedCompressionBit
    else Ok
  }

  function Unmask(h: Head, s: seq<byte>): (r: seq<byte>)
    ensures |r| == |s|
  {
    if h.masked then Masked(s, h.mask, 0) else s
  }

  /**
    The end of a message of which a frame stops at `from`: there, unless the message goes on (`more`), and else
    where the frame behind leads, with control frames in between. A stream that has no header there ends it too.
  */
  function MessageEnd(data: seq<byte>, from: nat, more: bool): nat
    decreases |data| - from
  {
    if !more || from > |data| then from
    else match ParseHeader(data[from..])
      case Bad(_) => from
      case Parsed(h, k) => MessageEnd(data, from + k + h.length, IsControl(h.opCode) || !h.fin)
  }

  /** The header at `pos` leads on. */
  lemma MessageGoesOn(data: seq<byte>, pos: nat, s: seq<byte>, h: Head, end: nat, more: bool)
    requires pos <= |data| && s == data[pos..] && ParseHeader(s).Parsed? && h == ParseHeader(s).h
    requires end == pos + ParseHeader(s).size + h.length && more == (IsControl(h.opCode) || !h.fin)
    ensures MessageEnd(data, pos, true) == MessageEnd(data, end, more)
  {
  }

  // ----- UTF-8 -----

  /** The decoder state after `s`; once rejected it stays rejected. */
  function RunUtf8(c: Config, u: int, s: seq<byte>): int
    decreases |s|
  {
    if s == [] then u
    else if c.step(u, s[0]) == REJECT then REJECT
    else RunUtf8(c, c.step(u, s[0]), s[1..])
  }

  lemma {:induction false} RunUtf8Split(c: Config, u: int, a: seq<byte>, b: seq<byte>)
    ensures RunUtf8(c, u, a + b) ==
            if RunUtf8(c, u, a) == REJECT && a != [] then REJECT else RunUtf8(c, RunUtf8(c, u, a), b)
    decreases |a|
  {
    if a == [] {
      assert a + b == b;
    } else {
      assert (a + b)[1..] == a[1..] + b;
      if c.step(u, a[0]) != REJECT {
        RunUtf8Split(c, c.step(u, a[0]), a[1..], b);
        if a[1..] == [] {
          assert RunUtf8(c, u, a) == c.step(u, a[0]);
        }
      }
    }
  }

  lemma RunUtf8Next(c: Config, u: int, a: seq<byte>, b: byte)
    requires a != [] ==> RunUtf8(c, u, a) != REJECT
    ensures RunUtf8(c, u, a + [b]) == c.step(RunUtf8(c, u, a), b)
  {
    RunUtf8Split(c, u, a, [b]);
  }

  /** The first `n` bytes of `s` are the longest part of it that ends with a whole code point. */
  ghost predicate WholePoints(c: Config, u: int, s: seq<byte>, n: nat) {
    && n <= |s|
    && (n > 0 ==> RunUtf8(c, u, s[..n]) == ACCEPT)
    && forall j :: n < j <= |s| ==> RunUtf8(c, u, s[..j]) != ACCEPT
  }

  lemma WholePointsNext(c: Config, u: int, s: seq<byte>, b: byte, n: nat)
    requires WholePoints(c, u, s, n)
    ensures WholePoints(c, u, s + [b], if RunUtf8(c, u, s + [b]) == ACCEPT then |s| + 1 else n)
  {
    var s' := s + [b];
    assert s'[..|s| + 1] == s' && s'[..n] == s[..n];
    forall j | n < j <= |s|
      ensures RunUtf8(c, u, s'[..j]) != ACCEPT
    {
      assert s'[..j] == s[..j];
    }
  }

  /** Behind a rejected byte no code point ends. */
  lemma WholePointsStop(c: Config, u: int, a: seq<byte>, b: seq<byte>, n: nat)
    requires WholePoints(c, u, a, n) && a != [] && RunUtf8(c, u, a) == REJECT
    ensures WholePoints(c, u, a + b, n)
  {
    assert (a + b)[..n] == a[..n];
    forall j | n < j <= |a + b|
      ensures RunUtf8(c, u, (a + b)[..j]) != ACCEPT
    {
      if j <= |a| {
        assert (a + b)[..j] == a[..j];
      } else {
        RunUtf8Split(c, u, a, b[..j - |a|]);
        assert (a + b)[..j] == a + b[..j - |a|];
      }
    }
  }

  // ----- control frames -----

  function CloseReply(c: Config, payload: seq<byte>): Reply {
    if payload == [] then CloseEmpty
    else if |payload| >= 2 && c.closeOk(payload) then CloseEcho(payload[..2])
    else CloseProtocolError
  }

  function CloseError(c: Config, payload: seq<byte>): Error {
    if payload == [] then Closed(1005)
    else if |payload| >= 2 && c.closeOk(payload) then Closed(FromBigEndian(payload[..2]))
    else BadCloseData
  }

  /**
    The answer to a ping or a pong of which `payload` arrived. The pong is flushed only if something was
    written to it, so a ping that announces a payload of which nothing arrives is not answered.
  */
  function PingReplies(h: Head, payload: seq<byte>): seq<Reply> {
    if h.opCode == OP_PING && (h.length == 0 || payload != []) then [Pong(payload)] else []
  }

  // ----- reading from an open frame -----

  /** The data message in progress: delivered, with its UTF-8 state if it is checked text, or discarded. */
  datatype Msg = Msg(text: bool, u: int) | Skipped

  function Front(h: Head, t: seq<byte>): seq<byte> { t[..Min(h.length, |t|)] }

  function Behind(h: Head, t: seq<byte>): seq<byte> { t[Min(h.length, |t|)..] }

  function Advance(c: Config, m: Msg, d: seq<byte>): Msg
    requires m.Msg?
  {
    if m.text then Msg(true, RunUtf8(c, m.u, d)) else m
  }

  predicate Decodes(c: Config, m: Msg, d: seq<byte>)
    requires m.Msg?
  {
    m.text && d != [] ==> RunUtf8(c, m.u, d) != REJECT
  }

  /**
    One read took the first `k` bytes of `d` and returned `bytes`: all of them, or, if the decoder
    rejected, those up to the last whole code point.
  */
  ghost predicate Chunk(c: Config, m: Msg, d: seq<byte>, k: nat, bytes: seq<byte>, err: Error, m': Msg)
    requires m.Msg?
  {
    && |bytes| <= k <= |d|
    && bytes == d[..|bytes|]
    && Decodes(c, m, bytes)
    && if Decodes(c, m, d[..k])
       then |bytes| == k && m' == Advance(c, m, bytes) && (err == Ok || (err == Eof && k == 0))
       else err == InvalidUtf8 && WholePoints(c, m.u, d[..k], |bytes|)
  }

  lemma ChunkPlain(c: Config, m: Msg, d: seq<byte>, k: nat, err: Error)
    requires m.Msg? && !m.text && k <= |d| && (err == Ok || (err == Eof && k == 0))
    ensures Chunk(c, m, d, k, d[..k], err, m)
  {
  }

  lemma ChunkChecked(c: Config, u: int, d: seq<byte>, k: nat, bytes: seq<byte>, valid: bool, u': int,
                     err: Error, err': Error)
    requires |bytes| <= k <= |d| && bytes == d[..k][..|bytes|] && (err == Ok || (err == Eof && k == 0))
    requires valid == (k > 0 ==> RunUtf8(c, u, d[..k]) != REJECT)
    requires if valid then |bytes| == k && err' == err && u' == RunUtf8(c, u, d[..k])
             else err' == InvalidUtf8 && WholePoints(c, u, d[..k], |bytes|)
    ensures Chunk(c, Msg(true, u), d, k, bytes, err', Msg(true, u'))
  {
    assert d[..k][..|bytes|] == d[..|bytes|];
  }

  // ----- where a reader stands in the stream, and one read from an open frame -----

  /**
    Inside a frame with `d` of it and then `t` to come; between two fragments of `m`; between two
    messages; or after a read that failed.
  */
  datatype Place =
    | Inside(m: Msg, d: seq<byte>, complete: bool, fin: bool, t: seq<byte>)
    | Gap(m: Msg, s: seq<byte>)
    | Over(s: seq<byte>)

  /**
    A read from the frame `v` returned `bytes` and `err` and left the reader at `v'`. Of a text
    message that fails, the bytes may stop short of those that were taken from the source.
  */
  predicate Moves(c: Config, v: Place, bytes: seq<byte>, err: Error, v': Place)
    requires v.Inside? && v.m.Msg?
  {
    match err
    case Ok =>
      && bytes <= v.d && Decodes(c, v.m, bytes)
      && v' == (if v'.Inside? then v.(m := Advance(c, v.m, bytes), d := v.d[|bytes|..])
                else Gap(Advance(c, v.m, bytes), v.t))
      && (v'.Inside? || (v.complete && !v.fin && bytes == v.d))
    case Eof =>
      && bytes == v.d && Decodes(c, v.m, bytes)
      && v.complete && v.fin
      && (v.m.text ==> Advance(c, v.m, bytes).u == ACCEPT)
      && v' == Over(v.t)
    case UnexpectedEof =>
      !v.complete && v.d == [] && bytes == []
    case InvalidUtf8 =>
      && v.m.text && bytes <= v.d && Decodes(c, v.m, bytes)
      && ((exists k :: 0 <= k <= |v.d| && !Decodes(c, v.m, v.d[..k])) ||
          (v.complete && v.fin && Decodes(c, v.m, v.d) && Advance(c, v.m, v.d).u != ACCEPT))
    case _ => false
  }

  lemma DecodesPrefix(c: Config, m: Msg, d: seq<byte>, k: nat)
    requires m.Msg? && k <= |d| && Decodes(c, m, d)
    ensures Decodes(c, m, d[..k])
  {
    assert d == d[..k] + d[k..];
    RunUtf8Split(c, m.u, d[..k], d[k..]);
  }

  /** The read left bytes in the frame. */
  lemma MovesOn(c: Config, v: Place, k: nat, bytes: seq<byte>, m': Msg)
    requires v.Inside? && v.m.Msg? && Chunk(c, v.m, v.d, k, bytes, Ok, m')
    ensures Moves(c, v, bytes, Ok, Inside(m', v.d[k..], v.complete, v.fin, v.t))
  {
  }

  /** The read emptied a frame that has a successor. */
  lemma MovesToGap(c: Config, v: Place, bytes: seq<byte>, err: Error, m': Msg)
    requires v.Inside? && v.m.Msg? && err != InvalidUtf8 && Chunk(c, v.m, v.d, |v.d|, bytes, err, m')
    requires v.complete && !v.fin
    ensures Moves(c, v, bytes, Ok, Gap(m', v.t))
  {
    assert v.d[..|v.d|] == v.d;
  }

  /** The read emptied the last frame. */
  lemma MovesToEnd(c: Config, v: Place, bytes: seq<byte>, err: Error, m': Msg)
    requires v.Inside? && v.m.Msg? && err != InvalidUtf8 && Chunk(c, v.m, v.d, |v.d|, bytes, err, m')
    requires v.complete && v.fin
    ensures (m'.text ==> m'.u == ACCEPT) ==> Moves(c, v, bytes, Eof, Over(v.t))
    ensures m'.text && m'.u != ACCEPT ==>
              forall n :: 0 <= n <= |bytes| ==> Moves(c, v, bytes[..n], InvalidUtf8, Over(v.t))
  {
    assert v.d[..|v.d|] == v.d && bytes == v.d;
    forall n | 0 <= n <= |bytes|
      ensures Decodes(c, v.m, bytes[..n])
    {
      DecodesPrefix(c, v.m, bytes, n);
    }
  }

  lemma MovesRejected(c: Config, v: Place, k: nat, bytes: seq<byte>, m': Msg, v': Place)
    requires v.Inside? && v.m.Msg? && Chunk(c, v.m, v.d, k, bytes, InvalidUtf8, m')
    ensures Moves(c, v, bytes, InvalidUtf8, v')
  {
    assert !Decodes(c, v.m, v.d[..k]);
  }

  /**
    Reading one header of the stream `s` between two fragments of `m`: the answers written, the
    error, and, if there is none, where it leaves the reader.
  */
  predicate Opens(c: Config, m: Msg, s: seq<byte>, rs: seq<Reply>, err: Error, v': Place) {
    match ParseHeader(s)
    case Bad(e) => rs == [] && err == (if e == Eof then UnexpectedEof else e)
    case Parsed(h, k) =>
      var t := s[k..];
      var body := Unmask(h, Front(h, t));
      var e := CheckFrame(c, h, true);
      if e != Ok then rs == [] && err == e
      else if h.opCode == OP_CLOSE then
        if |body| < h.length then rs == [] && err == (if body == [] then Eof else UnexpectedEof)
        else rs == [CloseReply(c, body)] && err == CloseError(c, body)
      else if IsControl(h.opCode) then
        rs == PingReplies(h, body) && err == Ok && v' == Gap(m, Behind(h, t))
      else
        rs == [] && err == Ok && v' == Inside(m, body, h.length <= |t|, h.fin, Behind(h, t))
  }

  /** A read of the frame reader that started at `v0`, in terms of places. */
  predicate ReadStep(c: Config, v0: Place, rs: seq<Reply>, mid: Place, bytes: seq<byte>, err: Error, v': Place) {
    && !v0.Over? && (v0.Gap? ==> v0.m.Msg?)
    && (v0.Inside? ==> rs == [] && mid == v0)
    && (v0.Gap? ==>
          if mid.Inside? then Opens(c, v0.m, v0.s, rs, Ok, mid)
          else bytes == [] && Opens(c, v0.m, v0.s, rs, err, mid) && (err == Ok ==> mid == v'))
    && (mid.Inside? ==> mid.m.Msg? && Moves(c, mid, bytes, err, v'))
  }

  /** A gap, a header that opens a frame, and a read from that frame. */
  lemma StepOpens(c: Config, v0: Place, rs: seq<Reply>, mid: Place, bytes: seq<byte>, err: Error, v': Place)
    requires v0.Gap? && v0.m.Msg? && mid.Inside? && mid.m.Msg?
    requires Opens(c, v0.m, v0.s, rs, Ok, mid) && Moves(c, mid, bytes, err, v')
    ensures ReadStep(c, v0, rs, mid, bytes, err, v')
  {
  }

  /** A gap, and a header that opens no frame. */
  lemma StepStays(c: Config, v0: Place, rs: seq<Reply>, mid: Place, err: Error)
    requires v0.Gap? && v0.m.Msg? && !mid.Inside? && Opens(c, v0.m, v0.s, rs, err, mid)
    ensures ReadStep(c, v0, rs, mid, [], err, mid)
  {
  }
}
