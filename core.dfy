// The core (core/core.go, core/send.go, core/receive.go): it builds the version and
// verack frames, sends them through the client, starts the receive loop once, and runs
// the handshake: send version, wait for the node's version, send verack, wait for the
// node's verack. Each sending method is proved against a function of the writer state.
module Core {
  import opened Model
  import opened Bytes
  import opened Streams
  import Encode
  import opened Decode
  import opened Frames
  import opened Client
  import opened Generator
  import opened Handshake

  const ReceiveChannelSize: nat := 10

  /** "127.0.0.1": the local address the version message advertises */
  const LocalHost: seq<byte> := [0x31, 0x32, 0x37, 0x2e, 0x30, 0x2e, 0x30, 0x2e, 0x31]

  /**
   * The encoder the core is given: the codec of the Encode module writing into a
   * bytes.Buffer, where the buffer for the payload and the buffer for the header may
   * each be given failing write calls (a stand-in for an encoder that reports errors);
   * the program's own encoder fails nowhere.
   */
  datatype Encoder = Encoder(payloadFaults: map<nat, Error>, headerFaults: map<nat, Error>)

  const ProgramEncoder := Encoder(map[], map[])

  /** uint16(n): the low 16 bits */
  function Port16(port: int): (p: uint16)
    ensures 0 <= port < 0x1_0000 ==> p as int == port
  {
    (port % 0x1_0000) as uint16
  }

  /** uint32(n): the low 32 bits */
  function Length32(n: nat): (l: uint32)
    ensures n < 0x1_0000_0000 ==> l as int == n
  {
    (n % 0x1_0000_0000) as uint32
  }

  /** The version message SendVersionMessage generates for a node at host:port */
  function VersionMessageFor(g: MessageGenerator, host: seq<byte>, port: int, now: int64): VersionMessage
  {
    GenerateNewVersionMessage(g, host, Port16(port), LocalHost, 0, now)
  }

  /** The write calls a message takes on the connection, or the encoding error that stops it before any */
  datatype Frame = Frame(writes: seq<seq<byte>>) | Unencodable(err: Error)

  /**
   * SendVersionMessage's frame: the payload is encoded first; the header announces
   * its length and the first four bytes of its double hash; the header is written,
   * then the payload.
   */
  function VersionFrame(enc: Encoder, m: VersionMessage, hash: seq<byte> -> Digest): Frame
    requires |m.userAgent| <= Encode.MaxLen
  {
    var pr := Run(enc.payloadFaults, Sink([], 0), Encode.VersionChunks(m));
    if pr.err.Some? then Unencodable(pr.err.value)
    else
      var payload := pr.sink.written;
      var hr := Run(enc.headerFaults, Sink([], 0),
                    Encode.ElementsChunks(HeaderElements(TestNetMagic, PadCommand(VersionCmd), Length32(|payload|),
                                                         ChecksumOf(hash, payload))));
      if hr.err.Some? then Unencodable(hr.err.value) else Frame([hr.sink.written, payload])
  }

  /** SendVerackMessage's frame: a lone header whose length and checksum are left zero */
  function VerackFrame(enc: Encoder): Frame
  {
    var hr := Run(enc.headerFaults, Sink([], 0),
                  Encode.ElementsChunks(HeaderElements(TestNetMagic, PadCommand(VerackCmd), 0, [0, 0, 0, 0])));
    if hr.err.Some? then Unencodable(hr.err.value) else Frame([hr.sink.written])
  }

  /** Sending a frame through the client: refused while disconnected, stopped by the first failing write */
  function SendOf(f: Frame, connected: bool, faults: map<nat, Error>, out: Sink): Outcome
  {
    match f
    case Unencodable(e) => Outcome(out, Some(e))
    case Frame(ws) => if !connected then Outcome(out, Some(ConnectionClosed)) else Run(faults, out, ws)
  }

  /**
   * sendHandshakeMessages, given the signals the listener gives in order: the version
   * frame, then the version signal (or the context's deadline), then the verack frame,
   * then the verack signal (or the deadline).
   */
  function HandshakeOf(vf: Frame, kf: Frame, gates: seq<Gate>, connected: bool, faults: map<nat, Error>, out: Sink): Outcome
  {
    var o1 := SendOf(vf, connected, faults, out);
    if o1.err.Some? then o1
    else if !(|gates| > 0 && gates[0] == VersionGate) then Outcome(o1.sink, Some(ContextTimeout))
    else
      var o2 := SendOf(kf, connected, faults, o1.sink);
      if o2.err.Some? then o2
      else if !(|gates| > 1 && gates[1] == VerackGate) then Outcome(o2.sink, Some(ContextTimeout))
      else o2
  }

  /** None of the write calls numbered from..from + n - 1 fails */
  ghost predicate NoFaults(faults: map<nat, Error>, from: nat, n: nat)
  {
    forall k :: from <= k < from + n ==> k !in faults
  }

  /**
   * A frame is sent exactly when it was encoded, the client is connected and none of
   * its write calls fails; then its bytes follow what was written before. On any
   * failure nothing after the failing write reaches the connection.
   */
  lemma SendOfWrites(f: Frame, connected: bool, faults: map<nat, Error>, out: Sink)
    ensures SendOf(f, connected, faults, out).err.None? <==>
            f.Frame? && connected && NoFaults(faults, out.calls, |f.writes|)
    ensures SendOf(f, connected, faults, out).err.None? ==>
            SendOf(f, connected, faults, out).sink == Sink(out.written + Flatten(f.writes), out.calls + |f.writes|)
    ensures f.Unencodable? || !connected ==> SendOf(f, connected, faults, out).sink == out
  {
    if f.Frame? {
      RunSucceeds(faults, out, f.writes);
    }
  }

  /**
   * The handshake succeeds exactly when both frames are encoded, the client is
   * connected, none of the three write calls fails and the listener gives the version
   * signal and then the verack signal; the connection then holds the version header
   * and payload followed by the verack header.
   */
  lemma HandshakeSucceeds(vf: Frame, kf: Frame, gates: seq<Gate>, connected: bool, faults: map<nat, Error>, out: Sink)
    requires vf.Frame? ==> |vf.writes| == 2
    requires kf.Frame? ==> |kf.writes| == 1
    ensures HandshakeOf(vf, kf, gates, connected, faults, out).err.None? <==>
            && vf.Frame? && kf.Frame? && connected && NoFaults(faults, out.calls, 3)
            && |gates| > 1 && gates[0] == VersionGate && gates[1] == VerackGate
    ensures HandshakeOf(vf, kf, gates, connected, faults, out).err.None? ==>
            HandshakeOf(vf, kf, gates, connected, faults, out).sink ==
            Sink(out.written + Flatten(vf.writes) + Flatten(kf.writes), out.calls + 3)
  {
    SendOfWrites(vf, connected, faults, out);
    var o1 := SendOf(vf, connected, faults, out);
    SendOfWrites(kf, connected, faults, o1.sink);
    if vf.Frame? && kf.Frame? && connected && NoFaults(faults, out.calls, 3) {
      assert NoFaults(faults, out.calls, 2);
      assert NoFaults(faults, out.calls + 2, 1);
    }
  }

  /**
   * How the handshake fails: an error sending the version frame comes back as it is
   * and nothing more is written; without the version signal the context's deadline
   * ends it with only the version frame on the wire; an error sending the verack
   * frame comes back as it is; without the verack signal the deadline ends it after
   * both frames.
   */
  lemma HandshakeFails(vf: Frame, kf: Frame, gates: seq<Gate>, connected: bool, faults: map<nat, Error>, out: Sink)
    requires vf.Frame? ==> |vf.writes| == 2
    requires kf.Frame? ==> |kf.writes| == 1
    ensures var v := SendOf(vf, connected, faults, out);
            v.err.Some? ==> HandshakeOf(vf, kf, gates, connected, faults, out) == v
    ensures vf.Frame? && connected && NoFaults(faults, out.calls, 2) && !(|gates| > 0 && gates[0] == VersionGate) ==>
            HandshakeOf(vf, kf, gates, connected, faults, out) ==
            Outcome(Sink(out.written + Flatten(vf.writes), out.calls + 2), Some(ContextTimeout))
    ensures var v := SendOf(vf, connected, faults, out);
            var k := SendOf(kf, connected, faults, v.sink);
            v.err.None? && |gates| > 0 && gates[0] == VersionGate && k.err.Some? ==>
            HandshakeOf(vf, kf, gates, connected, faults, out) == k
    ensures && vf.Frame? && kf.Frame? && connected && NoFaults(faults, out.calls, 3)
            && |gates| > 0 && gates[0] == VersionGate && !(|gates| > 1 && gates[1] == VerackGate) ==>
            HandshakeOf(vf, kf, gates, connected, faults, out) ==
            Outcome(Sink(out.written + Flatten(vf.writes) + Flatten(kf.writes), out.calls + 3), Some(ContextTimeout))
  {
    SendOfWrites(vf, connected, faults, out);
    var v := SendOf(vf, connected, faults, out);
    SendOfWrites(kf, connected, faults, v.sink);
    if vf.Frame? && kf.Frame? && connected && NoFaults(faults, out.calls, 3) {
      assert NoFaults(faults, out.calls, 2);
      assert NoFaults(faults, out.calls + 2, 1);
    }
  }

  /**
   * With the program's encoder the version frame is always encoded: a header of 24
   * bytes announcing the payload's length and carrying its checksum, then the payload.
   */
  lemma ProgramVersionFrame(m: VersionMessage, hash: seq<byte> -> Digest)
    requires |m.userAgent| <= Encode.MaxLen
    ensures var p := Encode.VersionPayload(m);
            VersionFrame(ProgramEncoder, m, hash) ==
            Frame([HeaderBytes(TestNetMagic, PadCommand(VersionCmd), Length32(|p|), ChecksumOf(hash, p)), p])
  {
    var p := Encode.VersionPayload(m);
    RunSucceeds(map[], Sink([], 0), Encode.VersionChunks(m));
    assert [] + p == p;
    var es := HeaderElements(TestNetMagic, PadCommand(VersionCmd), Length32(|p|), ChecksumOf(hash, p));
    RunSucceeds(map[], Sink([], 0), Encode.ElementsChunks(es));
    assert [] + Flatten(Encode.ElementsChunks(es)) == Flatten(Encode.ElementsChunks(es));
  }

  /** The verack frame the program sends: the testnet magic, "verack", a zero length and a zero checksum */
  lemma ProgramVerackFrame()
    ensures VerackFrame(ProgramEncoder) ==
            Frame([HeaderBytes(TestNetMagic, PadCommand(VerackCmd), 0, [0, 0, 0, 0])])
    ensures HeaderBytes(TestNetMagic, PadCommand(VerackCmd), 0, [0, 0, 0, 0]) ==
            LE32(TestNetMagic) + PadCommand(VerackCmd) + [0, 0, 0, 0] + [0, 0, 0, 0]
  {
    var es := HeaderElements(TestNetMagic, PadCommand(VerackCmd), 0, [0, 0, 0, 0]);
    RunSucceeds(map[], Sink([], 0), Encode.ElementsChunks(es));
    assert [] + Flatten(Encode.ElementsChunks(es)) == Flatten(Encode.ElementsChunks(es));
    HeaderLayout(TestNetMagic, PadCommand(VerackCmd), 0, [0, 0, 0, 0]);
    Pow256Widths();
    assert LE32(0) == [0, 0, 0, 0];
  }

  lemma VerackName()
    ensures |VerackCmd| <= CommandSize && VerackCmd[|VerackCmd| - 1] != 0
    ensures |VersionCmd| <= CommandSize && VersionCmd[|VersionCmd| - 1] != 0
  {
  }

  /**
   * The program's verack frame, as receive classifies it: accepted as an empty message
   * only when the double hash of no bytes starts with four zero bytes, and otherwise
   * published as an invalid-checksum error.
   */
  lemma VerackFrameReceived(hash: seq<byte> -> Digest, rest: seq<byte>)
    ensures var frame := HeaderBytes(TestNetMagic, PadCommand(VerackCmd), 0, [0, 0, 0, 0]);
            ReceiveOf(frame + rest, hash) ==
            if ChecksumOf(hash, []) == [0, 0, 0, 0] then
              Reception(HeaderSize, false, Some(Event(MessageHeader(TestNetMagic, VerackCmd, 0, [0, 0, 0, 0]), Empty, None)))
            else Reception(HeaderSize, false, Some(Rejected(InvalidMessageChecksum)))
  {
    VerackName();
    var none: seq<byte> := [];
    var frame := HeaderBytes(TestNetMagic, PadCommand(VerackCmd), 0, [0, 0, 0, 0]);
    var hdr := MessageHeader(TestNetMagic, VerackCmd, 0, [0, 0, 0, 0]);
    assert |none| as uint32 == 0 && none == [];
    PayloadReadCommands(none, hdr);
    ReceiveFrame(VerackCmd, none, [0, 0, 0, 0], rest, hash);
    AppendNothing(frame, none, rest);
  }

  lemma AppendNothing(a: seq<byte>, none: seq<byte>, b: seq<byte>)
    requires none == []
    ensures a + none + b == a + b
  {
  }

  /** The program's version frame: a header announcing 99 bytes, then the 99-byte payload */
  lemma GeneratedVersionFrame(g: MessageGenerator, host: seq<byte>, port: int, now: int64, hash: seq<byte> -> Digest)
    ensures var p := Encode.VersionPayload(VersionMessageFor(g, host, port, now));
            && |p| == 99
            && VersionFrame(ProgramEncoder, VersionMessageFor(g, host, port, now), hash) ==
               Frame([HeaderBytes(TestNetMagic, PadCommand(VersionCmd), 99, ChecksumOf(hash, p)), p])
  {
    GeneratedPayloadSize(g, host, Port16(port), LocalHost, 0, now);
    ProgramVersionFrame(VersionMessageFor(g, host, port, now), hash);
  }

  /**
   * payloadRead on the program's version payload: the version, services, timestamp and
   * nonce come back, the two addresses swapped, the user agent empty, the start height
   * read from the bytes 0x0e "/se" (so 0 comes back as 0x65732f0e) and relay from the
   * "n" after them.
   */
  lemma GeneratedVersionAsRead(g: MessageGenerator, host: seq<byte>, port: int, now: int64, hdr: MessageHeader)
    requires hdr.command == VersionCmd
    ensures var m := VersionMessageFor(g, host, port, now);
            PayloadReadOf(Encode.VersionPayload(m), hdr) ==
            Parsed(Version(VersionMessage(m.version, m.services, m.timestamp, Received(m.addrFrom), Received(m.addrRecv),
                                          m.nonce, [], 0x6573_2f0e, true)), None)
  {
    var m := VersionMessageFor(g, host, port, now);
    var p := Encode.VersionPayload(m);
    VersionPayloadAsRead(m, [], hdr);
    assert p + [] == p;
    Encode.VarIntForm(14);
    var tail := AfterNonce(m, []);
    StartHeightAsRead(tail, LE32(Int32Bits(0)) + []);
  }

  /** The start height and relay the decoder reads from the user agent's length byte and first bytes */
  lemma StartHeightAsRead(tail: seq<byte>, rest: seq<byte>)
    requires tail == [0x0e] + UserAgent + rest
    ensures |tail| >= 5 && Int32OfBits(Uint32LE(tail[..4])) == 0x6573_2f0e && tail[4] != 0
  {
    assert tail[0] == 0x0e && tail[1] == 0x2f && tail[2] == 0x73 && tail[3] == 0x65 && tail[4] == 0x6e;
    var b := tail[..4];
    assert b == [0x0e, 0x2f, 0x73, 0x65];
    assert FromLE(b[3..]) == 0x65 by { assert b[3..][1..] == []; }
    assert FromLE(b[2..]) == 0x6573 by { assert b[2..][1..] == b[3..]; }
    assert FromLE(b[1..]) == 0x65_732f by { assert b[1..][1..] == b[2..]; }
    assert FromLE(b) == 0x6573_2f0e;
  }

  /**
   * The program's version frame, as receive takes it back: 24 + 99 bytes are consumed
   * and a version message is published under the header as written, with the fields
   * GeneratedVersionAsRead gives.
   */
  lemma VersionFrameReceived(g: MessageGenerator, host: seq<byte>, port: int, now: int64,
                             hash: seq<byte> -> Digest, rest: seq<byte>)
    ensures var m := VersionMessageFor(g, host, port, now);
            var p := Encode.VersionPayload(m);
            var hdr := MessageHeader(TestNetMagic, VersionCmd, 99, ChecksumOf(hash, p));
            ReceiveOf(HeaderBytes(TestNetMagic, PadCommand(VersionCmd), 99, ChecksumOf(hash, p)) + p + rest, hash) ==
            Reception(HeaderSize + 99, false, Some(Event(hdr, Version(VersionMessage(
              m.version, m.services, m.timestamp, Received(m.addrFrom), Received(m.addrRecv), m.nonce, [],
              0x6573_2f0e, true)), None)))
  {
    var m := VersionMessageFor(g, host, port, now);
    var p := Encode.VersionPayload(m);
    GeneratedVersionFrame(g, host, port, now, hash);
    VerackName();
    var hdr := MessageHeader(TestNetMagic, VersionCmd, 99, ChecksumOf(hash, p));
    ReceiveFrame(VersionCmd, p, ChecksumOf(hash, p), rest, hash);
    assert |p| as uint32 == 99;
    GeneratedVersionAsRead(g, host, port, now, hdr);
  }

  /** The core: its collaborators, the channel of received messages and the receive-once gate */
  class Core {
    const encoder: Encoder
    const generator: MessageGenerator
    const client: BitcoinClient
    const receiveCh: Channel
    var receiving: bool
    ghost var launches: nat

    /** The receive loop has been launched once if at all, and the channel holds ten messages */
    ghost predicate Valid()
      reads this
    {
      launches == (if receiving then 1 else 0) && receiveCh.capacity == ReceiveChannelSize
    }

    constructor New(encoder: Encoder, generator: MessageGenerator, client: BitcoinClient)
      ensures this.encoder == encoder && this.generator == generator && this.client == client
      ensures fresh(receiveCh) && receiveCh.events == [] && !receiving && Valid()
    {
      this.encoder, this.generator, this.client := encoder, generator, client;
      receiveCh := new Channel(ReceiveChannelSize);
      receiving, launches := false, 0;
    }

    /** The channel the receive loop publishes on, the same one on every call */
    function GetReceiveChannel(): (ch: Channel)
      reads this
      requires Valid()
      ensures ch == receiveCh && ch.capacity == ReceiveChannelSize
    {
      receiveCh
    }

    /** ReceiveMessages: the receive loop is launched by the first call only */
    method ReceiveMessages() returns (launched: bool)
      requires Valid()
      modifies this
      ensures Valid() && receiving && launched == !old(receiving)
      ensures launches == old(launches) + (if launched then 1 else 0) && launches == 1
    {
      launched := !receiving;
      if launched {
        receiving, launches := true, launches + 1;
      }
    }

    method SendVersionMessage(hash: seq<byte> -> Digest, now: int64) returns (err: Option<Error>)
      requires client.conn != null
      modifies client.conn.output
      ensures var out := client.conn.output;
              Outcome(out.State(), err) ==
              SendOf(VersionFrame(encoder, VersionMessageFor(generator, client.nodeHost, client.nodePort, now), hash),
                     client.isConnected, out.faults, old(out.State()))
    {
      var out := client.conn.output;
      ghost var s0 := out.State();
      var msg := GenerateNewVersionMessage(generator, client.nodeHost, Port16(client.nodePort), LocalHost, 0, now);
      ghost var frame := VersionFrame(encoder, msg, hash);
      assert msg == VersionMessageFor(generator, client.nodeHost, client.nodePort, now);
      var bw := new Writer(encoder.payloadFaults);
      err := Encode.EncodeVersionMessage(bw, msg);
      if err.Some? {
        assert frame == Unencodable(err.value);
        return;
      }
      var payload := bw.written;
      var hdr := MessageHeader(TestNetMagic, VersionCmd, Length32(|payload|), ChecksumOf(hash, payload));
      var hw := new Writer(encoder.headerFaults);
      err := Encode.EncodeElements(hw, HeaderElements(hdr.magic, PadCommand(VersionCmd), hdr.length, hdr.checksum));
      if err.Some? {
        assert frame == Unencodable(err.value);
        return;
      }
      var header := hw.written;
      assert frame == Frame([header, payload]);
      RunTwo(out.faults, s0, header, payload);
      var n;
      n, err := client.Write(header);
      if err.Some? {
        return;
      }
      n, err := client.Write(payload);
    }

    method SendVerackMessage() returns (err: Option<Error>)
      requires client.conn != null
      modifies client.conn.output
      ensures var out := client.conn.output;
              Outcome(out.State(), err) == SendOf(VerackFrame(encoder), client.isConnected, out.faults, old(out.State()))
    {
      var hdr := MessageHeader(TestNetMagic, VerackCmd, 0, [0, 0, 0, 0]);
      var hw := new Writer(encoder.headerFaults);
      err := Encode.EncodeElements(hw, HeaderElements(hdr.magic, PadCommand(VerackCmd), hdr.length, hdr.checksum));
      if err.Some? {
        return;
      }
      var n;
      n, err := client.Write(hw.written);
    }

    /**
     * listenReceiveChannel: takes messages from the channel, signals the version gate
     * for a version message and the verack gate for the first verack, and stops
     * there; `accepted` says whether the sender will receive the version signal, and
     * a version signal nobody receives blocks the listener for good. When no message
     * is waiting the context's deadline ends the listening.
     */
    method ListenReceiveChannel(accepted: bool) returns (gates: seq<Gate>)
      requires Valid()
      modifies receiveCh
      ensures gates == Listen(old(receiveCh.events), accepted)
      ensures receiveCh.events == old(receiveCh.events)[Taken(old(receiveCh.events), accepted)..]
    {
      var ch := GetReceiveChannel();
      ghost var es := ch.events;
      ghost var i := 0;
      var open := accepted;
      gates := [];
      while ch.events != []
        invariant 0 <= i <= |es| && ch.events == es[i..]
        invariant Listen(es, accepted) == gates + Listen(es[i..], open)
        invariant Taken(es, accepted) == i + Taken(es[i..], open)
        decreases |ch.events|
      {
        assert es[i..][0] == es[i] && es[i..][1..] == es[i + 1..];
        var msg := ch.Receive();
        if msg.header.command == VersionCmd {
          gates := gates + [VersionGate];
          if !open {
            // nobody receives this signal: the listener blocks here
            return;
          }
          open := false;
        }
        if msg.header.command == VerackCmd {
          gates := gates + [VerackGate];
          return;
        }
        i := i + 1;
      }
      assert es[i..] == [];
    }

    method SendHandshakeMessages(hash: seq<byte> -> Digest, now: int64, gates: seq<Gate>) returns (err: Option<Error>)
      requires client.conn != null
      modifies client.conn.output
      ensures var out := client.conn.output;
              Outcome(out.State(), err) ==
              HandshakeOf(VersionFrame(encoder, VersionMessageFor(generator, client.nodeHost, client.nodePort, now), hash),
                          VerackFrame(encoder), gates, client.isConnected, out.faults, old(out.State()))
    {
      err := SendVersionMessage(hash, now);
      if err.Some? {
        return;
      }
      if !(|gates| > 0 && gates[0] == VersionGate) {
        return Some(ContextTimeout);
      }
      err := SendVerackMessage();
      if err.Some? {
        return;
      }
      if !(|gates| > 1 && gates[1] == VerackGate) {
        return Some(ContextTimeout);
      }
    }

    /**
     * Handshake: the listener's signals come from the messages on the channel; the
     * sender takes the version signal only when its version frame goes out, and the
     * listener blocks on a version signal nobody takes. The result is the elapsed time
     * on success and 0 with the error otherwise.
     */
    method Handshake(hash: seq<byte> -> Digest, now: int64, elapsed: int64) returns (ms: int64, err: Option<Error>)
      requires Valid() && client.conn != null
      modifies receiveCh, client.conn.output
      ensures var out := client.conn.output;
              var vf := VersionFrame(encoder, VersionMessageFor(generator, client.nodeHost, client.nodePort, now), hash);
              var accepted := SendOf(vf, client.isConnected, out.faults, old(out.State())).err.None?;
              && Outcome(out.State(), err) ==
                 HandshakeOf(vf, VerackFrame(encoder), Listen(old(receiveCh.events), accepted), client.isConnected,
                             out.faults, old(out.State()))
              && receiveCh.events == old(receiveCh.events)[Taken(old(receiveCh.events), accepted)..]
      ensures ms == if err.None? then elapsed else 0
    {
      var out := client.conn.output;
      var vf := VersionFrame(encoder, VersionMessageFor(generator, client.nodeHost, client.nodePort, now), hash);
      var accepted := SendOf(vf, client.isConnected, out.faults, out.State()).err.None?;
      var gates := ListenReceiveChannel(accepted);
      err := SendHandshakeMessages(hash, now, gates);
      ms := if err.None? then elapsed else 0;
    }
  }

  /**
   * The program's handshake succeeds exactly when the client is connected, none of
   * the three write calls fails, and exactly one version message arrives before the
   * first verack; the node then holds our version frame followed by our verack frame.
   * The listener's signals are those it gives when the sender takes the version
   * signal exactly when the version frame goes out.
   */
  lemma ProgramHandshake(g: MessageGenerator, host: seq<byte>, port: int, now: int64, hash: seq<byte> -> Digest,
                         es: seq<Event>, connected: bool, faults: map<nat, Error>, out: Sink)
    ensures var m := VersionMessageFor(g, host, port, now);
            var p := Encode.VersionPayload(m);
            var vf := VersionFrame(ProgramEncoder, m, hash);
            var accepted := SendOf(vf, connected, faults, out).err.None?;
            var o := HandshakeOf(vf, VerackFrame(ProgramEncoder), Listen(es, accepted), connected, faults, out);
            && (o.err.None? <==>
                  connected && NoFaults(faults, out.calls, 3) && exists i, j :: OneVersionThenVerack(es, i, j))
            && (o.err.None? ==>
                  o.sink == Sink(out.written + HeaderBytes(TestNetMagic, PadCommand(VersionCmd), 99, ChecksumOf(hash, p))
                                 + p + HeaderBytes(TestNetMagic, PadCommand(VerackCmd), 0, [0, 0, 0, 0]), out.calls + 3))
  {
    var m := VersionMessageFor(g, host, port, now);
    var p := Encode.VersionPayload(m);
    var vf := VersionFrame(ProgramEncoder, m, hash);
    var kf := VerackFrame(ProgramEncoder);
    GeneratedVersionFrame(g, host, port, now, hash);
    ProgramVerackFrame();
    SendOfWrites(vf, connected, faults, out);
    if SendOf(vf, connected, faults, out).err.None? {
      var h := HeaderBytes(TestNetMagic, PadCommand(VersionCmd), 99, ChecksumOf(hash, p));
      var k := HeaderBytes(TestNetMagic, PadCommand(VerackCmd), 0, [0, 0, 0, 0]);
      HandshakeSucceeds(vf, kf, Listen(es, true), connected, faults, out);
      FlattenTwo(h, p);
      FlattenOne(k);
      ListenHandshake(es);
      ListenStops(es, true);
      if |Listen(es, true)| > 1 && Listen(es, true)[0] == VersionGate && Listen(es, true)[1] == VerackGate {
        assert Listen(es, true) == [VersionGate, VerackGate];
      }
    } else {
      HandshakeFails(vf, kf, Listen(es, false), connected, faults, out);
      assert NoFaults(faults, out.calls, 3) ==> NoFaults(faults, out.calls, 2);
    }
  }
}
