/**
  The wire format and the rules for frames in the numbers of RFC 6455 and RFC 7692: where each field of a frame is,
  which headers are refused and what is observed then, which messages are delivered, and how a close is answered.
*/
module Rules {
  import opened Bytes
  import opened Errors
  import opened Frames
  import opened Framing
  import opened Header
  import opened Honesty
  import opened Inbound
  import opened Masking
  import opened Messages
  import opened Outbound
  import opened ReadLoop
  import opened Semantics

  // ----- the bytes of a frame -----

  lemma BigEndianStep(s: seq<byte>, i: nat)
    requires i < |s|
    ensures FromBigEndian(s[..i + 1]) == FromBigEndian(s[..i]) * 256 + s[i]
  {
    assert s[..i + 1][..i] == s[..i];
  }

  lemma TwoMore(s: seq<byte>, i: nat)
    requires i + 2 <= |s|
    ensures FromBigEndian(s[..i + 2]) == FromBigEndian(s[..i]) * 0x1_0000 + 0x100 * (s[i] as int) + s[i + 1]
  {
    BigEndianStep(s, i);
    BigEndianStep(s, i + 1);
  }

  lemma TwoBytes(s: seq<byte>)
    requires |s| == 2
    ensures FromBigEndian(s) == 0x100 * (s[0] as int) + s[1]
  {
    TwoMore(s, 0);
    assert s[..2] == s && s[..0] == [];
  }

  /** The number in two bytes, the high one first. */
  function Pair(a: byte, b: byte): nat { 0x100 * (a as int) + b }

  lemma PairMore(s: seq<byte>, i: nat)
    requires i + 2 <= |s|
    ensures FromBigEndian(s[..i + 2]) == FromBigEndian(s[..i]) * 0x1_0000 + Pair(s[i], s[i + 1])
  {
    TwoMore(s, i);
  }

  lemma EightBytes(s: seq<byte>)
    requires |s| == 8
    ensures FromBigEndian(s) ==
            ((Pair(s[0], s[1]) * 0x1_0000 + Pair(s[2], s[3])) * 0x1_0000 + Pair(s[4], s[5])) * 0x1_0000
            + Pair(s[6], s[7])
  {
    PairMore(s, 0);
    PairMore(s, 2);
    PairMore(s, 4);
    PairMore(s, 6);
    assert s[..8] == s && s[..0] == [];
  }

  /** `length` is in the low seven bits of the second byte, or in two or eight bytes behind it, the high one first. */
  predicate HasLength(s: seq<byte>, length: nat) {
    && |s| >= 2
    && if s[1] % 128 == 126 then |s| >= 4 && length == Pair(s[2], s[3])
       else if s[1] % 128 == 127 then
         && |s| >= 10 && s[2] < 128
         && length == ((Pair(s[2], s[3]) * 0x1_0000 + Pair(s[4], s[5])) * 0x1_0000 + Pair(s[6], s[7])) * 0x1_0000
                      + Pair(s[8], s[9])
       else length == s[1] % 128
  }

  /** Where the fields of a header are: final bit, reserved bits, opcode, mask bit, length, and the key behind it. */
  lemma HeadFields(s: seq<byte>)
    requires ParseHeader(s).Parsed?
    ensures var h, k := ParseHeader(s).h, ParseHeader(s).size;
            && s[0] == (if h.fin then 0x80 else 0) + 0x10 * h.rsv + h.opCode && h.rsv < 8 && h.opCode < 16
            && h.masked == (s[1] >= 0x80)
            && HasLength(s, h.length)
            && k == 2 + (if s[1] % 128 == 126 then 2 else if s[1] % 128 == 127 then 8 else 0)
                      + (if h.masked then 4 else 0)
            && (h.masked ==> h.mask == s[k - 4..k])
  {
    var extra := ExtraSize(s[1]);
    var ext := s[2..2 + extra];
    if s[1] % 128 == 126 {
      TwoBytes(ext[..2]);
    } else if s[1] % 128 == 127 {
      EightBytes(ext[..8]);
    }
  }

  /**
    What `Write`, `WriteClose` and `WriteAnswer` put on the wire, byte by byte: the final bit with RSV1 for a compressed
    message and the opcode; the mask bit of a client and the shortest form of the length; a client's key and the
    payload under exclusive-or with it, bit by bit and from the key's first byte on, or a server's payload as it is.
  */
  lemma FrameLayout(client: bool, opCode: nat, mask: Mask, payload: seq<byte>, compressed: bool) returns (k: nat)
    requires opCode < 16 && |payload| <= LEN64
    ensures var f, n := FrameBytes(client, opCode, mask, payload, compressed), |payload|;
            && k == (if n <= 125 then 2 else if n <= 0xffff then 4 else 10) + (if client then 4 else 0)
            && |f| == k + n
            && f[0] == 0x80 + (if compressed then 0x40 else 0) + opCode
            && f[1] == (if client then 0x80 else 0) + (if n <= 125 then n else if n <= 0xffff then 126 else 127)
            && HasLength(f, n)
            && if client then f[k - 4..k] == mask && forall i :: 0 <= i < n ==> IsXor(f[k + i], payload[i], mask[i % 4])
               else f[k..] == payload
  {
    k := |HeaderBytes(DataHead(client, opCode, true, mask, |payload|, compressed))|;
    HeadLayout(client, opCode, mask, payload, compressed);
    BodyLayout(client, mask, payload, k, FrameBytes(client, opCode, mask, payload, compressed));
  }

  lemma HeadLayout(client: bool, opCode: nat, mask: Mask, payload: seq<byte>, compressed: bool)
    requires opCode < 16 && |payload| <= LEN64
    ensures var f, n := FrameBytes(client, opCode, mask, payload, compressed), |payload|;
            var k := |HeaderBytes(DataHead(client, opCode, true, mask, n, compressed))|;
            && k == (if n <= 125 then 2 else if n <= 0xffff then 4 else 10) + (if client then 4 else 0)
            && f[0] == 0x80 + (if compressed then 0x40 else 0) + opCode
            && f[1] == (if client then 0x80 else 0) + (if n <= 125 then n else if n <= 0xffff then 126 else 127)
            && HasLength(f, n)
            && (client ==> f[k - 4..k] == mask)
            && k <= |f| && f[k..] == OnTheWire(client, mask, payload)
  {
    var h := DataHead(client, opCode, true, mask, |payload|, compressed);
    var body := OnTheWire(client, mask, payload);
    HeaderRoundTrip(h, body);
    HeadFields(HeaderBytes(h) + body);
  }

  lemma BodyLayout(client: bool, mask: Mask, payload: seq<byte>, k: nat, f: seq<byte>)
    requires k <= |f| && f[k..] == OnTheWire(client, mask, payload)
    ensures |f| == k + |payload|
    ensures client ==> forall i :: 0 <= i < |payload| ==> IsXor(f[k + i], payload[i], mask[i % 4])
  {
    if client {
      forall i | 0 <= i < |payload|
        ensures IsXor(f[k + i], payload[i], mask[i % 4])
      {
        MaskedBits(payload, mask, 0, i);
        assert f[k + i] == f[k..][i];
      }
    }
  }

  /** The payload of a frame as it is read: as it is, or under exclusive-or with the key at the end of the header. */
  lemma PayloadRead(f: Frame)
    requires OnWire(f)
    ensures !f.h.masked ==> Payload(f) == f.body
    ensures f.h.masked ==> |f.hb| >= 6
    ensures f.h.masked ==>
              forall i :: 0 <= i < |f.body| ==> IsXor(Payload(f)[i], f.body[i], f.hb[|f.hb| - 4 + i % 4])
  {
    if f.h.masked {
      assert |f.hb| >= 6 && f.hb[|f.hb| - 4..|f.hb|] == f.h.mask by {
        HeadFields(f.hb);
      }
      forall i | 0 <= i < |f.body|
        ensures IsXor(Payload(f)[i], f.body[i], f.hb[|f.hb| - 4 + i % 4])
      {
        MaskedBits(f.body, f.h.mask, 0, i);
        assert f.hb[|f.hb| - 4..|f.hb|][i % 4] == f.hb[|f.hb| - 4 + i % 4];
      }
    }
  }

  // ----- headers that are refused -----

  /** The header breaks the rule that the error names: sections 5.1 to 5.5 of RFC 6455, section 6 of RFC 7692. */
  predicate Breaks(c: Config, inside: bool, h: Head, e: Error) {
    match e
    case OpCodeReserved => h.opCode !in {0, 1, 2, 8, 9, 10}
    case ControlPayloadOverflow => h.opCode >= 8 && h.length > 125
    case ControlNotFinal => h.opCode >= 8 && !h.fin
    case MaskRequired => c.server && !h.masked
    case MaskUnexpected => !c.server && h.masked
    case ContinuationExpected => inside && (h.opCode == 1 || h.opCode == 2)
    case ContinuationUnexpected => !inside && h.opCode == 0
    case FrameTooLarge => 0 < c.maxFrameSize < h.length
    case UnexpectedCompressionBit => h.rsv >= 4 && h.opCode != 1 && h.opCode != 2
    case _ => false
  }

  ghost predicate Permitted(c: Config, inside: bool, h: Head) {
    forall e :: !Breaks(c, inside, h, e)
  }

  lemma PermittedExact(c: Config, inside: bool, h: Head)
    ensures CheckFrame(c, h, inside) == Ok <==> Permitted(c, inside, h)
    ensures CheckFrame(c, h, inside) != Ok ==> Breaks(c, inside, h, CheckFrame(c, h, inside))
  {
    if CheckFrame(c, h, inside) == Ok {
      forall e
        ensures !Breaks(c, inside, h, e)
      {
        match e
        case _ =>
      }
    } else {
      assert Breaks(c, inside, h, CheckFrame(c, h, inside));
    }
  }

  /** A header and nothing behind it. */
  lemma HeaderAlone(s: seq<byte>)
    requires ParseHeader(s).Parsed?
    ensures ParseHeader(s[..ParseHeader(s).size]) == ParseHeader(s)
  {
    ParsePrefix(s, []);
    assert s[..ParseHeader(s).size] + [] == s[..ParseHeader(s).size];
  }

  /** What a permitted header alone ends in is not the breach of a rule. */
  lemma AloneEnds(c: Config, mode: Mode, s: seq<byte>)
    requires ParseHeader(s).Parsed? && ParseHeader(s).size == |s|
    requires CheckFrame(c, ParseHeader(s).h, mode.Mid?) == Ok
    ensures var end := At(c, mode, s).end;
            end.Fails? ==> end.err == UnexpectedEof || end.err == InvalidUtf8 || end.err == Closed(1005)
  {
    var h, t := ParseHeader(s).h, s[ParseHeader(s).size..];
    assert t == [] && Front(h, t) == [] && Behind(h, t) == [] && Unmask(h, []) == [];
    NothingLeft(c, Skipped);
    match mode
    case Mid(m) =>
      NothingLeft(c, m);
      if !IsControl(h.opCode) {
        assert At(c, mode, s) == Open(c, m, h, t);
      }
    case Ready =>
      var m := FirstMsg(c, h);
      NothingLeft(c, m);
      if !IsControl(h.opCode) && !(Accepts(c, h.opCode) && Compressed(h)) {
        assert At(c, mode, s) == Open(c, m, h, t);
      }
  }

  /**
    A header is refused if and only if it breaks a rule, and nothing of its frame or of what follows is observed but
    the error, which names a rule that is broken. Whether it is refused does not depend on what follows it.
  */
  lemma HeaderVerdict(c: Config, mode: Mode, s: seq<byte>)
    requires ParseHeader(s).Parsed?
    ensures var h, k, o := ParseHeader(s).h, ParseHeader(s).size, At(c, mode, s);
            && (!Permitted(c, mode.Mid?, h) ==>
                  o.events == [] && o.end.Fails? && Breaks(c, mode.Mid?, h, o.end.err) && At(c, mode, s[..k]) == o)
            && (Permitted(c, mode.Mid?, h) ==>
                  forall e :: At(c, mode, s[..k]).end == Fails(e) ==>
                                e == UnexpectedEof || e == InvalidUtf8 || e == Closed(1005))
  {
    HeaderAlone(s);
    PermittedExact(c, mode.Mid?, ParseHeader(s).h);
    if Permitted(c, mode.Mid?, ParseHeader(s).h) {
      AloneEnds(c, mode, s[..ParseHeader(s).size]);
    }
  }

  /**
    A frame whose header is otherwise in order is refused as too large if its length exceeds a positive limit, and, as
    the header alone shows, only then.
  */
  lemma TooLarge(c: Config, mode: Mode, s: seq<byte>)
    requires ParseHeader(s).Parsed? && CheckHeader(c, ParseHeader(s).h, mode.Mid?) == Ok
    ensures var h, k := ParseHeader(s).h, ParseHeader(s).size;
            && (0 < c.maxFrameSize < h.length ==> At(c, mode, s) == Outcome([], Fails(FrameTooLarge)))
            && (At(c, mode, s[..k]) == Outcome([], Fails(FrameTooLarge)) <==> 0 < c.maxFrameSize < h.length)
  {
    HeaderAlone(s);
    if CheckFrame(c, ParseHeader(s).h, mode.Mid?) == Ok {
      AloneEnds(c, mode, s[..ParseHeader(s).size]);
    }
  }

  /** With more behind it, the error may be a later frame's: an empty pong, and then "ab" against a limit of one. */
  lemma LaterTooLarge(c: Config, s: seq<byte>)
    requires !c.server && c.maxFrameSize == 1 && s == [0x8a, 0x00, 0x81, 0x02, 97, 98]
    ensures ParseHeader(s).h.length == 0 && Idle(c, s) == Outcome([], Fails(FrameTooLarge))
  {
    ShortHeader(0x8a, 0x00, s[2..], s);
    ShortHeader(0x81, 0x02, [97, 98], s[2..]);
    var h := ParseHeader(s).h;
    assert Behind(h, s[2..]) == s[2..];
    TooLarge(c, Ready, s[2..]);
    assert Answers([]) == [];
    PrependNone(Idle(c, s[2..]));
  }

  lemma {:induction false} RunWithin(c: Config, mode: Mode, fs: seq<Frame>)
    requires Run(c, mode, fs).Go?
    ensures forall i :: 0 <= i < |fs| ==> !(0 < c.maxFrameSize < fs[i].h.length)
    decreases |fs|
  {
    if fs != [] {
      PermittedExact(c, mode.Mid?, fs[0].h);
      assert !Breaks(c, mode.Mid?, fs[0].h, FrameTooLarge);
      RunWithin(c, StepOf(c, mode, fs[0]).next, fs[1..]);
      forall i | 0 < i < |fs|
        ensures !(0 < c.maxFrameSize < fs[i].h.length)
      {
        assert fs[i] == fs[1..][i - 1];
      }
    }
  }

  /**
    No byte of a frame longer than a positive limit is delivered, in any byte string, cut by `Split` into whole frames
    and a rest: all the whole frames that are read are within the limit, and if the rest starts with a frame that is
    not, nothing is observed behind them but an error.
  */
  lemma LimitKept(c: Config, s: seq<byte>, fs: seq<Frame>, es: seq<Event>, last: Mode, rest: seq<byte>)
    requires Splits(c, Ready, s, fs, es, last, rest)
    ensures forall i :: 0 <= i < |fs| ==> !(0 < c.maxFrameSize < fs[i].h.length)
    ensures ParseHeader(rest).Parsed? && 0 < c.maxFrameSize < ParseHeader(rest).h.length ==>
              Idle(c, s).events == es && Idle(c, s).end.Fails?
  {
    RunWithin(c, Ready, fs);
    StreamReads(c, Ready, fs, rest);
    if ParseHeader(rest).Parsed? && 0 < c.maxFrameSize < ParseHeader(rest).h.length {
      assert Breaks(c, last.Mid?, ParseHeader(rest).h, FrameTooLarge);
      HeaderVerdict(c, last, rest);
      assert es + [] == es;
    }
  }

  // ----- messages that are accepted -----

  lemma AcceptBit(c: Config, op: nat)
    requires op == 1 || op == 2
    ensures Accepts(c, op) <==> c.accept / op % 2 == 1
  {
    if op == 1 {
      assert c.accept / op == c.accept;
    }
  }

  /**
    An uncompressed message is delivered if the bit of its opcode, 1 for text and 2 for binary, is set in the option,
    and the pings in it are all that is answered. If the bit is clear, the message is dropped and the peer is told so.
  */
  lemma AcceptedOrRefused(c: Config, fs: seq<Frame>, t: seq<byte>, mail: Mail)
    requires IsMessage(c, fs) && fs[0].hb[0] / 64 % 2 == 0
    ensures var op, o, es := fs[0].hb[0] % 16, Idle(c, Stream(fs) + t), EventsOf(c, fs);
            && (op == 1 || op == 2)
            && if c.accept / op % 2 == 0 then
                 o == Prepend(Answers(PongsOf(fs) + [CloseUnsupported]), Idle(c, t))
               else if c.checkUtf8 && op == 1 && RunUtf8(c, 0, DataOf(fs)) != 0 then
                 o == Outcome(es, Fails(InvalidUtf8)) && Withholds(mail, es, DataOf(fs))
               else
                 o == Prepend(es, Idle(c, t)) && Delivers(mail, es, DataOf(fs), PongsOf(fs))
  {
    FirstByteBits(fs[0].hb);
    var op: nat := fs[0].hb[0] % 16;
    assert op == fs[0].h.opCode;
    AcceptBit(c, op);
    if c.accept / op % 2 == 0 {
      MessageSkipped(c, fs, t);
    } else {
      Reassembly(c, fs, t, mail);
    }
  }

  /**
    The first frame of a message, the rest of which may be missing. If the bit of its opcode is clear, its payload is
    dropped, and behind the last frame the peer is told so. If the bit is set, RSV1 marks a compressed message, of
    which nothing is claimed; without RSV1 the payload is what is observed next, unless it is checked as text.
  */
  lemma FirstFrameVerdict(c: Config, s: seq<byte>)
    requires ParseHeader(s).Parsed? && Permitted(c, false, ParseHeader(s).h)
    requires s[0] % 16 == 1 || s[0] % 16 == 2
    ensures var h, t, op := ParseHeader(s).h, s[ParseHeader(s).size..], s[0] % 16;
            if c.accept / op % 2 == 0 then
              Idle(c, s) == if h.fin then Prepend([Sent(CloseUnsupported)], Idle(c, Behind(h, t)))
                            else Between(c, Skipped, Behind(h, t))
            else if s[0] / 64 % 2 == 1 then Idle(c, s) == Outcome([], Unspecified)
            else !(c.checkUtf8 && op == 1) ==> Chars(Unmask(h, Front(h, t))) <= Idle(c, s).events
  {
    FirstByteBits(s);
    FirstFrameOpens(c, s);
  }

  /** The opcode and RSV1 in the first byte. */
  lemma FirstByteBits(s: seq<byte>)
    requires ParseHeader(s).Parsed?
    ensures ParseHeader(s).h.opCode == s[0] % 16 && (ParseHeader(s).h.rsv >= 4 <==> s[0] / 64 % 2 == 1)
  {
    HeadFields(s);
  }

  lemma FirstFrameOpens(c: Config, s: seq<byte>)
    requires ParseHeader(s).Parsed? && Permitted(c, false, ParseHeader(s).h)
    requires ParseHeader(s).h.opCode == 1 || ParseHeader(s).h.opCode == 2
    ensures var h, t := ParseHeader(s).h, s[ParseHeader(s).size..];
            if c.accept / h.opCode % 2 == 0 then
              Idle(c, s) == if h.fin then Prepend([Sent(CloseUnsupported)], Idle(c, Behind(h, t)))
                            else Between(c, Skipped, Behind(h, t))
            else if h.rsv >= 4 then Idle(c, s) == Outcome([], Unspecified)
            else !(c.checkUtf8 && h.opCode == 1) ==> Chars(Unmask(h, Front(h, t))) <= Idle(c, s).events
  {
    var h, t := ParseHeader(s).h, s[ParseHeader(s).size..];
    PermittedExact(c, false, h);
    AcceptBit(c, h.opCode);
    IdleOpens(c, s);
    if Accepts(c, h.opCode) && !Compressed(h) && !(c.checkUtf8 && h.opCode == 1) {
      PayloadFirst(c, FirstPlace(c, h, t));
    }
  }

  /** All that is there of a frame that is not checked as text is delivered. */
  lemma PayloadFirst(c: Config, v: Place)
    requires v.Inside? && v.m.Msg? && !v.m.text
    ensures Chars(v.d) <= Observed(c, v).events
  {
    assert v.d == v.d + [];
    DeliverSplit(c, v.m, v.d, [], v.complete, v.fin, v.t);
  }

  // ----- close frames -----

  /**
    A whole close frame, between messages or inside one, ends the reading. An empty one is answered empty, and the
    code is 1005; one whose payload is in order is answered with its first two bytes, which are the code, high byte
    first; any other is answered with a protocol error.
  */
  lemma CloseVerdict(c: Config, mode: Mode, s: seq<byte>)
    requires ParseHeader(s).Parsed? && s[0] % 16 == 8 && Permitted(c, mode.Mid?, ParseHeader(s).h)
    requires ParseHeader(s).size + ParseHeader(s).h.length <= |s|
    ensures var p := Payload(FirstFrame(s));
            At(c, mode, s) ==
            if p == [] then Outcome([Sent(CloseEmpty)], Fails(Closed(1005)))
            else if |p| >= 2 && c.closeOk(p) then
              Outcome([Sent(CloseEcho([p[0], p[1]]))], Fails(Closed(0x100 * (p[0] as int) + p[1])))
            else Outcome([Sent(CloseProtocolError)], Fails(BadCloseData))
  {
    FirstByteBits(s);
    PermittedExact(c, mode.Mid?, ParseHeader(s).h);
    FirstFrameIs(s);
    var f := FirstFrame(s);
    FrameReads(c, mode, f, s[|Wire(f)|..]);
    var p := Payload(f);
    if |p| >= 2 {
      TwoBytes(p[..2]);
      assert p[..2] == [p[0], p[1]];
    }
  }
}
