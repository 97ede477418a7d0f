/**
  The two ways in which the frame reader leaves a frame that the stream cuts off without an error, each on a
  concrete stream: with payload left over, and with a position that is short of the frame boundary.
*/
module Sync {
  import opened Bytes
  import opened Errors
  import opened FrameReader
  import opened Framing
  import opened Header
  import opened Streams

  /** A client that accepts text and binary messages and checks nothing. */
  function Client(): Config {
    Config(false, false, 0, 3, (u, b) => ACCEPT, payload => true)
  }

  /** The header in front of `s` is unmasked and has a seven-bit length. */
  lemma ShortHead(s: seq<byte>, b0: byte, b1: byte)
    requires |s| >= 2 && s[0] == b0 && s[1] == b1 < 126
    ensures ParseHeader(s) == Parsed(Head(b0 >= 128, b0 / 16 % 8, b0 % 16, false, NO_MASK, b1), 2)
  {
  }

  method Start(stream: seq<byte>) returns (reader: Reader)
    ensures fresh(reader.Repr()) && reader.Valid() && reader.Settled() && reader.c == Client()
    ensures reader.source.data == stream && reader.source.pos == 0
    ensures !reader.fragmented && reader.frame == NoFrame
  {
    var source := new Source(stream);
    var out := new Answerer();
    reader := new Reader(Client(), source, out);
  }

  /** Opens the first frame of a binary message. */
  method Open(reader: Reader, h: Head)
    requires reader.Valid() && reader.Settled() && reader.c == Client() && !reader.fragmented
    requires ParseHeader(reader.source.Rest()) == Parsed(h, 2)
    requires h.opCode == OP_BINARY && h.rsv == 0 && !h.masked
    modifies reader.Repr()
    ensures (reader.cipher == old(reader.cipher) || fresh(reader.cipher)) && reader.Valid()
    ensures reader.frame.Layered? && reader.fragmented == !h.fin
    ensures reader.raw.n == h.length && reader.source.pos == old(reader.source.pos) + 2
    ensures reader.source.pos + reader.raw.n == reader.frameEnd
  {
    ghost var s := reader.source.Rest();
    var hdr, err := reader.NextFrame();
    assert err == Ok && reader.source.Rest() == s[2..];
  }

  /** Reads a ping inside a message: what is missing of it is left over. */
  method Ping(reader: Reader, h: Head) returns (err: Error)
    requires reader.Valid() && reader.Settled() && reader.c == Client() && reader.fragmented
    requires ParseHeader(reader.source.Rest()) == Parsed(h, 2)
    requires h.opCode == OP_PING && h.rsv == 0 && !h.masked && h.fin && h.length <= 125
    requires reader.source.pos + 2 + h.length > |reader.source.data|
    modifies reader.Repr()
    ensures err == Ok && reader.raw.n == h.length - (|reader.source.data| - old(reader.source.pos) - 2)
  {
    ghost var s := reader.source.Rest();
    var hdr;
    hdr, err := reader.NextFrame();
    assert |Front(h, s[2..])| == |s| - 2;
  }

  /** An empty first fragment, and then a ping of which one of two bytes is there. */
  method CutPing(stream: seq<byte>) returns (left: nat, err: Error)
    requires stream == [0x02, 0x00, 0x89, 0x02, 98]
    ensures err == Ok && left == 1
  {
    var reader := Start(stream);
    var source := reader.source;
    ShortHead(source.Rest(), 0x02, 0x00);
    Open(reader, Head(false, 0, OP_BINARY, false, NO_MASK, 0));
    ShortHead(source.Rest(), 0x89, 0x02);
    err := Ping(reader, Head(true, 0, OP_PING, false, NO_MASK, 2));
    left := reader.raw.n;
  }

  /** A binary message that announces five bytes, of which one is there, and that is discarded. */
  method CutFragment(stream: seq<byte>) returns (left: nat, missing: int, err: Error)
    requires stream == [0x82, 0x05, 7]
    ensures err == Ok && left == 0 && missing == 4
  {
    var reader := Start(stream);
    var source := reader.source;
    ShortHead(source.Rest(), 0x82, 0x05);
    Open(reader, Head(true, 0, OP_BINARY, false, NO_MASK, 5));
    var end := source.pos + reader.raw.n;
    ghost var rs;
    err, rs := reader.Discard();
    left, missing := reader.raw.n, end - source.pos;
  }
}
