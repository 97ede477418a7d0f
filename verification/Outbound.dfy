/** The writing half of the websocket transport: one frame for each message, plain or compressed. */
module Outbound {
  import opened Bytes
  import opened Deflate
  import opened Errors
  import opened Framing
  import opened Header
  import opened HeaderIO
  import opened Masking

  /** A step of a writer: it takes the write lock, puts `n` bytes on the connection, or releases the lock. */
  datatype Action = Take(id: nat) | Put(n: nat) | Release

  /** The bytes that the steps `acts`, all of them writes, put on the connection. */
  function PutTotal(acts: seq<Action>): nat {
    if acts == [] then 0 else (if acts[0].Put? then acts[0].n else 0) + PutTotal(acts[1..])
  }

  /** Writer `id` put `n` bytes on the connection, in any number of writes, holding the lock all the time. */
  predicate LockedRun(acts: seq<Action>, id: nat, n: nat) {
    && |acts| >= 2 && acts[0] == Take(id) && acts[|acts| - 1] == Release
    && (forall k :: 0 < k < |acts| - 1 ==> acts[k].Put?)
    && PutTotal(acts[1..|acts| - 1]) == n
  }

  /**
    The connection and its write lock. It cannot be written to without the lock, and it records the steps of
    its writers. If it is faulty, a write may fail after any part of it.
  */
  class Connection {
    const faulty: bool
    var sent: seq<byte>
    var held: bool
    ghost var acts: seq<Action>

    constructor (faulty: bool)
      ensures sent == [] && this.faulty == faulty && !held && acts == []
    {
      this.faulty, sent, held, acts := faulty, [], false, [];
    }

    method Lock(ghost id: nat)
      requires !held
      modifies `held, `acts
      ensures held && acts == old(acts) + [Take(id)]
    {
      held, acts := true, acts + [Take(id)];
    }

    method Unlock()
      requires held
      modifies `held, `acts
      ensures !held && acts == old(acts) + [Release]
    {
      held, acts := false, acts + [Release];
    }

    method Write(p: array<byte>, n: nat) returns (err: Error)
      requires n <= p.Length && held
      modifies `sent, `acts
      ensures Sends(old(sent), p[..n], sent, err, faulty)
      ensures acts == old(acts) + [Put(|sent| - |old(sent)|)]
    {
      var k: nat :| k <= n && (k < n ==> faulty);
      assert p[..k] <= p[..n];
      sent := sent + p[..k];
      acts := acts + [Put(k)];
      err := if k == n then Ok else WriteFailed;
    }
  }

  /** The payload as it is sent: a client masks it. */
  function OnTheWire(client: bool, mask: Mask, payload: seq<byte>): seq<byte> {
    if client then Masked(payload, mask, 0) else payload
  }

  /** The frame of one message. */
  function FrameBytes(client: bool, opCode: nat, mask: Mask, payload: seq<byte>, compressed: bool): seq<byte>
    requires opCode < 16 && |payload| <= LEN64
  {
    HeaderBytes(DataHead(client, opCode, true, mask, |payload|, compressed)) + OnTheWire(client, mask, payload)
  }

  /** The first byte of a frame: the final bit, RSV1 for a compressed message, and the opcode. */
  lemma FirstOnWire(client: bool, opCode: nat, mask: Mask, payload: seq<byte>, compressed: bool, before: seq<byte>,
                    after: seq<byte>, err: Error, faulty: bool)
    requires opCode < 16 && |payload| <= LEN64
    requires Sends(before, FrameBytes(client, opCode, mask, payload, compressed), after, err, faulty)
    ensures |after| > |before| ==> after[|before|] == 0x80 + opCode + if compressed then 0x40 else 0
    ensures err == Ok ==> |after| > |before|
  {
    var frame := FrameBytes(client, opCode, mask, payload, compressed);
    assert frame[0] == 0x80 + opCode + if compressed then 0x40 else 0;
    assert (before + frame)[|before|] == frame[0];
  }

  const MAX_CLOSE_REASON := 123

  /** The payload of a close frame: the code as a 16-bit number, and as much of the reason as fits. */
  function CloseBody(code: int, reason: seq<byte>): (s: seq<byte>)
    ensures 2 <= |s| <= 125
  {
    ToBigEndian(code % 0x1_0000, 2) + reason[..Min(|reason|, MAX_CLOSE_REASON)]
  }

  /** The code in two bytes, the high one first, and then the reason, or its first 123 bytes. */
  lemma CloseBodyBytes(code: int, reason: seq<byte>)
    ensures var b := CloseBody(code, reason);
            && b[0] == code / 256 % 256 && b[1] == code % 256
            && (|reason| <= 123 ==> b[2..] == reason) && (|reason| > 123 ==> b[2..] == reason[..123])
  {
    var low := code % 0x1_0000;
    assert ToBigEndian(low, 2) == ToBigEndian(low / 256, 1) + [low % 256];
    assert ToBigEndian(low / 256, 1) == ToBigEndian(low / 256 / 256, 0) + [low / 256 % 256];
    LowBytes(code);
  }

  lemma LowBytes(code: int)
    ensures code % 0x1_0000 % 256 == code % 256
    ensures code % 0x1_0000 / 256 % 256 == code / 256 % 256
  {
  }

  function ReplyOp(r: Reply): nat {
    if r.Pong? then OP_PONG else OP_CLOSE
  }

  /** The payload of an answer; `reason` is the text of a close that this side starts. */
  function ReplyBody(r: Reply, reason: seq<byte>): seq<byte> {
    match r
    case Pong(payload) => payload
    case CloseEmpty => []
    case CloseEcho(code) => code
    case CloseProtocolError => CloseBody(1002, reason)
    case CloseUnsupported => CloseBody(1003, reason)
  }

  /** The answers in bytes: 1002 is 0x03ea, a protocol error, and 1003 is 0x03eb, data that is not accepted. */
  lemma ReplyBytes(r: Reply, reason: seq<byte>)
    requires |reason| <= 123
    ensures ReplyOp(r) == if r.Pong? then 0xa else 0x8
    ensures ReplyBody(r, reason) == match r
                                    case Pong(payload) => payload
                                    case CloseEmpty => []
                                    case CloseEcho(code) => code
                                    case CloseProtocolError => [0x03, 0xea] + reason
                                    case CloseUnsupported => [0x03, 0xeb] + reason
  {
    CloseBodyBytes(1002, reason);
    CloseBodyBytes(1003, reason);
    if r.CloseProtocolError? || r.CloseUnsupported? {
      var b := ReplyBody(r, reason);
      assert b == [b[0], b[1]] + b[2..];
    }
  }

  /** What was written for one message. */
  datatype Record = Record(mask: Mask, payload: seq<byte>, compressed: bool)

  predicate Sized(rs: seq<Record>) {
    forall i :: 0 <= i < |rs| ==> |rs[i].payload| <= LEN64
  }

  /** The frames of the records, one after the other. */
  function FramesOf(client: bool, opCode: nat, rs: seq<Record>): seq<byte>
    requires opCode < 16 && Sized(rs)
  {
    if rs == [] then []
    else FrameBytes(client, opCode, rs[0].mask, rs[0].payload, rs[0].compressed) + FramesOf(client, opCode, rs[1..])
  }

  lemma FramesCons(client: bool, opCode: nat, r: Record, rs: seq<Record>)
    requires opCode < 16 && Sized(rs) && |r.payload| <= LEN64
    ensures Sized([r] + rs)
    ensures FramesOf(client, opCode, [r] + rs) ==
            FrameBytes(client, opCode, r.mask, r.payload, r.compressed) + FramesOf(client, opCode, rs)
  {
    assert ([r] + rs)[1..] == rs;
  }

  lemma SizedSnoc(rs: seq<Record>, r: Record)
    requires Sized(rs) && |r.payload| <= LEN64
    ensures Sized(rs + [r])
  {
  }

  lemma {:induction false} FramesSnoc(client: bool, opCode: nat, rs: seq<Record>, r: Record)
    requires opCode < 16 && Sized(rs) && |r.payload| <= LEN64
    ensures Sized(rs + [r])
    ensures FramesOf(client, opCode, rs + [r]) ==
            FramesOf(client, opCode, rs) + FrameBytes(client, opCode, r.mask, r.payload, r.compressed)
    decreases |rs|
  {
    SizedSnoc(rs, r);
    if rs == [] {
      FramesCons(client, opCode, r, []);
      assert rs + [r] == [r] + [];
    } else {
      var first, rest := rs[0], rs[1..];
      FramesSnoc(client, opCode, rest, r);
      assert rs == [first] + rest && rs + [r] == [first] + (rest + [r]);
      FramesCons(client, opCode, first, rest);
      FramesCons(client, opCode, first, rest + [r]);
    }
  }

  lemma FramesBehind(before: seq<byte>, frames: seq<byte>, frame: seq<byte>)
    ensures (before + frames) + frame == before + (frames + frame)
  {
  }

  function TotalSize(messages: seq<seq<byte>>): nat {
    |Concat(messages)|
  }

  method RandomMask() returns (mask: Mask)
  {
    var a: byte, b: byte, c: byte, d: byte :| true;
    mask := [a, b, c, d];
  }

  class MessageWriter {
    const client: bool
    const opCode: nat
    const connection: Connection
    const compress: bool  // enabled here and negotiated with the peer
    const threshold: int
    const codec: Codec
    const persistent: FlateWriter?  // kept from message to message if context takeover is allowed

    ghost predicate Valid()
      reads this, if persistent == null then {} else {persistent, persistent.cbuf}
    {
      && (opCode == OP_TEXT || opCode == OP_BINARY)
      && (persistent != null ==> persistent.codec == codec && persistent.cbuf.buf.Length == 4)
    }

    ghost function Repr(): set<object>
      reads this
    {
      {connection} + if persistent == null then {} else {persistent, persistent.cbuf, persistent.cbuf.buf}
    }

    constructor (client: bool, opCode: nat, connection: Connection, compress: bool, threshold: int, codec: Codec,
                 takeover: bool)
      requires opCode == OP_TEXT || opCode == OP_BINARY
      ensures Valid() && fresh(Repr() - {connection})
      ensures this.client == client && this.opCode == opCode && this.connection == connection
      ensures this.compress == compress && this.threshold == threshold && this.codec == codec
    {
      this.client, this.opCode, this.connection := client, opCode, connection;
      this.compress, this.threshold, this.codec := compress, threshold, codec;
      if takeover {
        persistent := new FlateWriter(codec);
      } else {
        persistent := null;
      }
    }

    /** Copies the payload behind the header in the pooled buffer. */
    method CopyPayload(buffer: array<byte>, hn: nat, p: array<byte>)
      requires hn + p.Length <= buffer.Length && buffer != p
      modifies buffer
      ensures buffer[..hn + p.Length] == old(buffer[..hn]) + p[..]
    {
      forall i | 0 <= i < p.Length {
        buffer[hn + i] := p[i];
      }
    }

    /** A client masks the caller's bytes in place, with a fresh mask. */
    method MaskInPlace(p: array<byte>) returns (mask: Mask)
      modifies p
      ensures p[..] == OnTheWire(client, mask, old(p[..]))
    {
      mask := NO_MASK;
      if client {
        mask := RandomMask();
        FastCipher(p, 0, p.Length, mask, 0);
        assert p[..] == p[0..p.Length];
        assert old(p[..]) == old(p[0..p.Length]);
      }
    }

    /** Since the steps `before`, writer `id` put `n` bytes on the connection under one hold of the lock. */
    ghost predicate Ran(before: seq<Action>, run: seq<Action>, id: nat, n: int)
      reads connection
    {
      !connection.held && connection.acts == before + run && n >= 0 && LockedRun(run, id, n)
    }

    /**
      Masks `p` in place if this is a client, and writes it as one frame. The buffer comes from a
      pool and holds anything.
    */
    method WriteFrame(p: array<byte>, compressed: bool, ghost id: nat)
      returns (err: Error, ghost mask: Mask, ghost run: seq<Action>)
      requires (opCode == OP_TEXT || opCode == OP_BINARY) && !connection.held
      modifies p, connection
      ensures p[..] == OnTheWire(client, mask, old(p[..]))
      ensures p.Length > LEN64 ==> err == HeaderLengthUnexpected && unchanged(connection)
      ensures p.Length <= LEN64 ==>
                Ran(old(connection.acts), run, id, |connection.sent| - |old(connection.sent)|) &&
                Sends(old(connection.sent), FrameBytes(client, opCode, mask, old(p[..]), compressed),
                      connection.sent, err, connection.faulty)
    {
      var buffer := new byte[MAX_HEADER_SIZE + p.Length];
      var key := MaskInPlace(p);
      mask := key;
      run := [];
      var hn;
      hn, err := PackHeader(buffer, client, opCode, true, key, p.Length, compressed);
      if err == Ok {
        CopyPayload(buffer, hn, p);
        err, run := WriteBytes(buffer, hn + p.Length, id);
      }
    }

    /** One write under the lock. */
    method WriteBytes(buffer: array<byte>, n: nat, ghost id: nat) returns (err: Error, ghost run: seq<Action>)
      requires n <= buffer.Length && !connection.held
      modifies connection
      ensures Sends(old(connection.sent), buffer[..n], connection.sent, err, connection.faulty)
      ensures Ran(old(connection.acts), run, id, |connection.sent| - |old(connection.sent)|)
    {
      connection.Lock(id);
      err := connection.Write(buffer, n);
      connection.Unlock();
      run := [Take(id), Put(|connection.sent| - |old(connection.sent)|), Release];
      assert run[1..2] == [run[1]] && run[1..2][1..] == [];
    }

    /** Writes the header and the payload of a close frame, one after the other, under one hold of the lock. */
    method WriteClose(code: int, reason: seq<byte>, ghost id: nat)
      returns (err: Error, ghost mask: Mask, ghost run: seq<Action>)
      requires !connection.held
      modifies connection
      ensures Sends(old(connection.sent), FrameBytes(client, OP_CLOSE, mask, CloseBody(code, reason), false),
                    connection.sent, err, connection.faulty)
      ensures Ran(old(connection.acts), run, id, |connection.sent| - |old(connection.sent)|)
    {
      var body := CloseBody(code, reason);
      var payload := new byte[|body|](i requires 0 <= i < |body| => body[i]);
      assert payload[..] == body;
      var key := MaskInPlace(payload);
      mask := key;
      var head := HeaderBytes(DataHead(client, OP_CLOSE, true, key, payload.Length, false));
      var header := new byte[|head|](i requires 0 <= i < |head| => head[i]);
      assert header[..] == head;
      err, run := WriteParts(header, payload, id);
    }

    /** Two writes, the second unless the first failed, under one hold of the lock. */
    method WriteParts(a: array<byte>, b: array<byte>, ghost id: nat) returns (err: Error, ghost run: seq<Action>)
      requires !connection.held
      modifies connection
      ensures Sends(old(connection.sent), a[..] + b[..], connection.sent, err, connection.faulty)
      ensures Ran(old(connection.acts), run, id, |connection.sent| - |old(connection.sent)|)
    {
      ghost var before := connection.sent;
      connection.Lock(id);
      err := connection.Write(a, a.Length);
      assert a[..a.Length] == a[..] && b[..b.Length] == b[..];
      SendsFirst(before, a[..], b[..], connection.sent, err, connection.faulty);
      run := [Put(|connection.sent| - |before|)];
      if err == Ok {
        ghost var middle := connection.sent;
        err := connection.Write(b, b.Length);
        SendsThen(before, a[..], b[..], connection.sent, err, connection.faulty);
        run := run + [Put(|connection.sent| - |middle|)];
      }
      connection.Unlock();
      PutsInLock(id, run);
      run := [Take(id)] + run + [Release];
    }

    /**
      Writes the answer to a control frame. Empty answers are bare headers with a zero mask, pongs and echoed
      codes go through the control writer, which writes once, and the other closes go the way of `WriteClose`.
    */
    method WriteAnswer(r: Reply, reason: seq<byte>, ghost id: nat)
      returns (err: Error, ghost mask: Mask, ghost run: seq<Action>)
      requires !connection.held && |ReplyBody(r, reason)| <= 125
      modifies connection
      ensures Sends(old(connection.sent), FrameBytes(client, ReplyOp(r), mask, ReplyBody(r, reason), false),
                    connection.sent, err, connection.faulty)
      ensures Ran(old(connection.acts), run, id, |connection.sent| - |old(connection.sent)|)
    {
      if r.CloseProtocolError? || r.CloseUnsupported? {
        err, mask, run := WriteClose(if r.CloseProtocolError? then 1002 else 1003, reason, id);
      } else {
        var body := ReplyBody(r, reason);
        var payload := new byte[|body|](i requires 0 <= i < |body| => body[i]);
        assert payload[..] == body;
        var key := NO_MASK;
        if body != [] {
          key := MaskInPlace(payload);
        }
        mask := key;
        var frame := HeaderBytes(DataHead(client, ReplyOp(r), true, key, |body|, false)) + payload[..];
        var buffer := new byte[|frame|](i requires 0 <= i < |frame| => frame[i]);
        assert buffer[..|frame|] == frame;
        err, run := WriteBytes(buffer, |frame|, id);
      }
    }

    /** A message of this size is compressed. */
    predicate Compresses(size: nat) {
      compress && size >= threshold
    }

    /** The compressor does what it should, and its output fits into a frame. */
    predicate Squeezable(m: seq<byte>) {
      EndsInTail(Deflated(codec, m)) && |Deflated(codec, m)| - 4 <= LEN64
    }

    /** The message can become a frame. */
    predicate Writable(m: seq<byte>) {
      if Compresses(|m|) then Squeezable(m) else |m| <= LEN64
    }

    /** Runs the compressor over `p`, whatever it did before, and strips the tail. */
    method Squeeze(flate: FlateWriter, m: seq<byte>) returns (payload: array<byte>, err: Error)
      requires flate.codec == codec && flate.cbuf.buf.Length == 4
      modifies flate, flate.cbuf, flate.cbuf.buf
      ensures fresh(payload)
      ensures err == Ok <==> EndsInTail(Deflated(codec, m))
      ensures err == Ok ==> payload[..] + TAIL == payload[..] + [0, 0, 0xff, 0xff] == Deflated(codec, m)
    {
      var buffer := new Sink(false);
      payload := new byte[0];
      flate.Reset(buffer);
      var count;
      count, err := flate.Write(m);
      if err == Ok {
        err := flate.Flush();
      }
      FreshOutput(codec, m, buffer.contents);
      if err == Ok {
        var bytes := buffer.contents;
        payload := new byte[|bytes|](i requires 0 <= i < |bytes| => bytes[i]);
        assert payload[..] == bytes;
      }
    }

    /**
      Compresses a message and writes it with RSV1 set; `pooled` is some writer from the pool. A message
      that cannot be compressed is not written at all.
    */
    method WriteCompress(p: array<byte>, pooled: FlateWriter, ghost id: nat)
      returns (n: nat, err: Error, ghost mask: Mask, ghost payload: seq<byte>, ghost run: seq<Action>)
      requires !connection.held
      requires Valid() && pooled.codec == codec && pooled.cbuf.buf.Length == 4
      requires p != pooled.cbuf.buf && (persistent != null ==> p != persistent.cbuf.buf)
      modifies Repr(), pooled, pooled.cbuf, pooled.cbuf.buf
      ensures n == if err == Ok then p.Length else 0
      ensures !Squeezable(p[..]) ==> err != Ok && unchanged(connection)
      ensures Squeezable(p[..]) ==>
                && payload + TAIL == Deflated(codec, p[..]) && |payload| <= LEN64
                && Sends(old(connection.sent), FrameBytes(client, opCode, mask, payload, true),
                         connection.sent, err, connection.faulty)
                && Ran(old(connection.acts), run, id, |connection.sent| - |old(connection.sent)|)
    {
      n, mask, payload, run := 0, NO_MASK, [], [];
      var flate := if persistent != null then persistent else pooled;
      var compressed;
      compressed, err := Squeeze(flate, p[..]);
      if err == Ok {
        payload := compressed[..];
        err, mask, run := WriteFrame(compressed, true, id);
      }
      if err == Ok {
        n := p.Length;
      }
    }

    /**
      `Write`: a message becomes one final frame. A plain frame carries the message, masked in the
      caller's own buffer by a client; a compressed one carries what the compressor makes of it,
      without the tail. Of a message that cannot become a frame nothing is written; of any other the
      whole frame is on the connection, unless a write on a faulty connection failed.
    */
    method Write(p: array<byte>, pooled: FlateWriter, ghost id: nat)
      returns (n: nat, err: Error, ghost mask: Mask, ghost payload: seq<byte>, ghost run: seq<Action>)
      requires !connection.held
      requires Valid() && pooled.codec == codec && pooled.cbuf.buf.Length == 4
      requires p != pooled.cbuf.buf && (persistent != null ==> p != persistent.cbuf.buf)
      modifies p, Repr(), pooled, pooled.cbuf, pooled.cbuf.buf
      ensures n == if err == Ok then p.Length else 0
      ensures if Compresses(p.Length) then p[..] == old(p[..]) else p[..] == OnTheWire(client, mask, old(p[..]))
      ensures !Writable(old(p[..])) ==> err != Ok && unchanged(connection)
      ensures Writable(old(p[..])) ==>
                && (if Compresses(p.Length) then payload + TAIL == Deflated(codec, old(p[..]))
                    else payload == old(p[..]))
                && |payload| <= LEN64
                && Sends(old(connection.sent), FrameBytes(client, opCode, mask, payload, Compresses(p.Length)),
                         connection.sent, err, connection.faulty)
                && Ran(old(connection.acts), run, id, |connection.sent| - |old(connection.sent)|)
      ensures !compress || p.Length < threshold ==> payload == old(p[..])
      ensures compress && p.Length >= threshold && |connection.sent| > |old(connection.sent)| ==>
                payload + [0, 0, 0xff, 0xff] == Deflated(codec, old(p[..]))
      ensures |connection.sent| > |old(connection.sent)| ==>
                connection.sent[|old(connection.sent)|] ==
                0x80 + opCode + if compress && p.Length >= threshold then 0x40 else 0
      ensures err == Ok ==> |connection.sent| > |old(connection.sent)|
    {
      ghost var m, before := p[..], connection.sent;
      if Compresses(p.Length) {
        n, err, mask, payload, run := WriteCompress(p, pooled, id);
      } else {
        payload := p[..];
        err, mask, run := WriteFrame(p, false, id);
        n := if err == Ok then p.Length else 0;
      }
      if Writable(m) {
        FirstOnWire(client, opCode, mask, payload, Compresses(p.Length), before, connection.sent, err,
                    connection.faulty);
      }
    }

    /** `r` is how `m` is written: as it is, or compressed and without the tail. */
    predicate Writes(m: seq<byte>, r: Record) {
      && r.compressed == Compresses(|m|) && |r.payload| <= LEN64
      && if r.compressed then r.payload + TAIL == Deflated(codec, m) else r.payload == m
    }

    /** Behind `before`, `sent` holds the frames of the messages and nothing else. */
    predicate Written(before: seq<byte>, messages: seq<seq<byte>>, rs: seq<Record>, sent: seq<byte>)
      requires opCode < 16
    {
      && |rs| == |messages| && Sized(rs) && (forall i :: 0 <= i < |rs| ==> Writes(messages[i], rs[i]))
      && sent == before + FramesOf(client, opCode, rs)
    }

    lemma WrittenSnoc(before: seq<byte>, messages: seq<seq<byte>>, rs: seq<Record>, sent: seq<byte>,
                      m: seq<byte>, r: Record)
      requires opCode < 16 && Written(before, messages, rs, sent) && Writes(m, r)
      ensures Written(before, messages + [m], rs + [r],
                      sent + FrameBytes(client, opCode, r.mask, r.payload, r.compressed))
    {
      FramesSnoc(client, opCode, rs, r);
      FramesBehind(before, FramesOf(client, opCode, rs), FrameBytes(client, opCode, r.mask, r.payload, r.compressed));
      forall i | 0 <= i < |rs + [r]|
        ensures Writes((messages + [m])[i], (rs + [r])[i])
      {
        if i < |rs| {
          assert Writes(messages[i], rs[i]);
        }
      }
    }

    /** Writes one message from a buffer of its own. */
    method WriteMessage(m: seq<byte>, pooled: FlateWriter, ghost id: nat) returns (err: Error, ghost r: Record)
      requires Valid() && pooled.codec == codec && pooled.cbuf.buf.Length == 4 && !connection.held
      modifies Repr(), pooled, pooled.cbuf, pooled.cbuf.buf
      ensures !connection.held && (Writable(m) && !connection.faulty ==> err == Ok)
      ensures err == Ok ==>
                && Writes(m, r)
                && connection.sent == old(connection.sent) + FrameBytes(client, opCode, r.mask, r.payload, r.compressed)
    {
      var p := new byte[|m|](k requires 0 <= k < |m| => m[k]);
      assert p[..] == m;
      var n;
      ghost var mask, payload, run;
      n, err, mask, payload, run := Write(p, pooled, id);
      r := Record(mask, payload, Compresses(|m|));
    }

    /**
      `Writev`: the messages become whole frames, one after the other, each under a lock of its own. On success
      the number of all their bytes is returned, and at the first error zero.
    */
    method Writev(messages: seq<seq<byte>>, pooled: FlateWriter, ghost id: nat)
      returns (size: nat, err: Error, ghost rs: seq<Record>)
      requires Valid() && pooled.codec == codec && pooled.cbuf.buf.Length == 4 && !connection.held
      modifies Repr(), pooled, pooled.cbuf, pooled.cbuf.buf
      ensures !connection.held
      ensures (forall m :: m in messages ==> Writable(m)) && !connection.faulty ==> err == Ok
      ensures size == if err == Ok then TotalSize(messages) else 0
      ensures err == Ok ==> Written(old(connection.sent), messages, rs, connection.sent)
    {
      size, err, rs := 0, Ok, [];
      for i := 0 to |messages|
        invariant pooled.cbuf.buf.Length == 4 && !connection.held && err == Ok
        invariant size == TotalSize(messages[..i]) && Written(old(connection.sent), messages[..i], rs, connection.sent)
      {
        assert messages[i] in messages;
        ghost var r;
        ghost var sent := connection.sent;
        err, r := WriteMessage(messages[i], pooled, id);
        if err != Ok {
          size := 0;
          return;
        }
        assert messages[..i + 1] == messages[..i] + [messages[i]];
        ConcatSnoc(messages[..i], messages[i]);
        WrittenSnoc(old(connection.sent), messages[..i], rs, sent, messages[i], r);
        size, rs := size + |messages[i]|, rs + [r];
      }
      assert messages[..|messages|] == messages;
    }
  }

  /** What a compressor that was just reset has written for `m` once it was flushed. */
  lemma FreshOutput(codec: Codec, m: seq<byte>, contents: seq<byte>)
    ensures [] + Concat(codec.onWrite([], m)) + Concat(codec.onFlush([] + [m])) == Deflated(codec, m)
    ensures EndsInTail(Deflated(codec, m)) && contents == [] + Passed(Deflated(codec, m)) ==>
              contents + TAIL == Deflated(codec, m)
  {
    assert [] + [m] == [m];
    assert [] + Concat(codec.onWrite([], m)) == Concat(codec.onWrite([], m));
    if EndsInTail(Deflated(codec, m)) {
      StripThenAppend(Deflated(codec, m));
    }
  }

  /** `frame` was written, or, only if the connection is faulty, a part of it and an error returned. */
  predicate Sends(before: seq<byte>, frame: seq<byte>, after: seq<byte>, err: Error, faulty: bool) {
    && (err == Ok || (err == WriteFailed && faulty))
    && (err == Ok ==> after == before + frame)
    && before <= after <= before + frame
  }

  lemma SendsFirst(before: seq<byte>, a: seq<byte>, b: seq<byte>, after: seq<byte>, err: Error, faulty: bool)
    requires Sends(before, a, after, err, faulty)
    ensures err != Ok ==> Sends(before, a + b, after, err, faulty)
  {
    assert before + a <= before + (a + b);
  }

  lemma SendsThen(before: seq<byte>, a: seq<byte>, b: seq<byte>, after: seq<byte>, err: Error, faulty: bool)
    requires Sends(before + a, b, after, err, faulty)
    ensures Sends(before, a + b, after, err, faulty)
  {
    assert before + a + b == before + (a + b);
  }

  lemma PutsInLock(id: nat, puts: seq<Action>)
    requires forall k :: 0 <= k < |puts| ==> puts[k].Put?
    requires 1 <= |puts| <= 2
    ensures LockedRun([Take(id)] + puts + [Release], id, puts[0].n + if |puts| == 2 then puts[1].n else 0)
  {
    var acts := [Take(id)] + puts + [Release];
    assert acts[1..|acts| - 1] == puts;
    assert PutTotal(puts[1..]) == if |puts| == 2 then puts[1].n + PutTotal(puts[2..]) else 0;
  }
}
