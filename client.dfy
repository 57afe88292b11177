// The connection to the node (client/bitcoin.go): connecting through a dial function,
// writing frames while connected, and receive, which reads one frame from the node,
// checks its magic number and checksum and publishes what it read on the channel.
module Client {
  import opened Model
  import opened Bytes
  import opened Streams
  import opened Decode
  import opened Frames

  /** What one call of receive does: bytes taken from the stream, whether the connection is dropped, what is published */
  datatype Reception = Reception(used: nat, disconnect: bool, event: Option<Event>)

  const HeaderSize: nat := 24

  /** An event carrying only an error, with a zero header and a nil payload */
  function Rejected(e: Error): Event
  {
    Event(ZeroHeader, NoPayload, Some(e))
  }

  /**
   * The second half of receive, once a header with the right magic number has been
   * read from a stream that then holds s: read the payload the header announces,
   * publish an invalid-checksum event if its double hash does not start with the
   * header's checksum, parse the payload, and publish the message unless parsing failed.
   */
  function PayloadStage(s: seq<byte>, hdr: MessageHeader, hash: seq<byte> -> Digest): (r: Reception)
    ensures !r.disconnect && r.used == if hdr.length as nat <= |s| then hdr.length as nat else |s|
    ensures hdr.length as nat > |s| ==> r.event == None
    ensures r.event.Some? && r.event.value.error.None? ==>
              r.event.value.header == hdr && hdr.checksum == ChecksumOf(hash, s[..hdr.length])
    ensures hdr.length as nat <= |s| && hdr.checksum != ChecksumOf(hash, s[..hdr.length]) ==>
              r.event == Some(Rejected(InvalidMessageChecksum))
    ensures hdr.length as nat <= |s| && hdr.checksum == ChecksumOf(hash, s[..hdr.length]) ==>
              var p := PayloadReadOf(s[..hdr.length], hdr);
              && (r.event.Some? <==> p.err.None?)
              && (r.event.Some? ==> r.event.value == Event(hdr, p.payload, None))
  {
    var rp := ReadFullOf(s, hdr.length as nat);
    if rp.err.Some? then Reception(rp.used, false, None)
    else if hdr.checksum != ChecksumOf(hash, rp.got) then Reception(rp.used, false, Some(Rejected(InvalidMessageChecksum)))
    else
      var p := PayloadReadOf(rp.got, hdr);
      if p.err.Some? then Reception(rp.used, false, None)
      else Reception(rp.used, false, Some(Event(hdr, p.payload, None)))
  }

  /**
   * receive on a connected client whose stream holds s: read a 24-byte header (an
   * empty stream drops the connection), parse it, publish an invalid-magic event
   * without reading further if the magic is wrong, and otherwise go on to the payload.
   * Every failure other than the magic number and the checksum is dropped silently.
   */
  function ReceiveOf(s: seq<byte>, hash: seq<byte> -> Digest): (r: Reception)
    ensures r.used <= |s|
  {
    var rh := ReadFullOf(s, HeaderSize);
    if rh.err.Some? then Reception(rh.used, rh.err == Some(EOF), None)
    else
      var h := ReadHeaderOf(rh.got);
      if h.err.Some? then Reception(HeaderSize, false, None)
      else if h.value.magic != TestNetMagic then Reception(HeaderSize, false, Some(Rejected(InvalidMagicNumber)))
      else
        var r := PayloadStage(s[HeaderSize..], h.value, hash);
        Reception(HeaderSize + r.used, false, r.event)
  }

  function Published(r: Reception): seq<Event>
  {
    if r.event.Some? then [r.event.value] else []
  }

  /** The connection is dropped exactly when the stream has nothing more: an io.EOF on the header */
  lemma ReceiveDisconnects(s: seq<byte>, hash: seq<byte> -> Digest)
    ensures ReceiveOf(s, hash).disconnect <==> s == []
    ensures s == [] ==> ReceiveOf(s, hash) == Reception(0, true, None)
  {
  }

  /** A stream that ends inside a header is consumed and nothing is published */
  lemma ReceiveShortHeader(s: seq<byte>, hash: seq<byte> -> Digest)
    requires 0 < |s| < HeaderSize
    ensures ReceiveOf(s, hash) == Reception(|s|, false, None)
  {
  }

  /**
   * A wrong magic number is published as an error before the payload is read: only
   * the 24 header bytes are taken, whatever the header's length says.
   */
  lemma ReceiveWrongMagic(s: seq<byte>, hash: seq<byte> -> Digest)
    requires |s| >= HeaderSize && Uint32LE(s[..4]) != TestNetMagic
    ensures ReceiveOf(s, hash) == Reception(HeaderSize, false, Some(Rejected(InvalidMagicNumber)))
  {
    ReadHeaderFields(s[..HeaderSize]);
    assert s[..HeaderSize][..4] == s[..4];
  }

  /**
   * A header with the right magic number announcing more payload than the stream
   * holds: everything is consumed, nothing is published, and the connection is kept.
   */
  lemma ReceiveShortPayload(s: seq<byte>, hash: seq<byte> -> Digest)
    requires |s| >= HeaderSize && Uint32LE(s[..4]) == TestNetMagic
    requires |s| - HeaderSize < Uint32LE(s[16..20]) as int
    ensures ReceiveOf(s, hash) == Reception(|s|, false, None)
  {
    ReadHeaderFields(s[..HeaderSize]);
    assert s[..HeaderSize][..4] == s[..4];
    assert s[..HeaderSize][16..20] == s[16..20];
  }

  /**
   * A frame written as a header announcing its payload, followed by the payload: it is
   * consumed whole, and then rejected for its checksum, dropped if its payload does not
   * parse, or published with the header as written.
   */
  lemma ReceiveFrame(name: seq<byte>, payload: seq<byte>, checksum: Bytes4, rest: seq<byte>,
                     hash: seq<byte> -> Digest)
    requires |name| <= CommandSize && (name == [] || name[|name| - 1] != 0)
    requires |payload| < 0x1_0000_0000
    ensures var hdr := MessageHeader(TestNetMagic, name, |payload| as uint32, checksum);
            var p := PayloadReadOf(payload, hdr);
            ReceiveOf(HeaderBytes(TestNetMagic, PadCommand(name), |payload| as uint32, checksum) + payload + rest, hash) ==
            if checksum != ChecksumOf(hash, payload) then
              Reception(HeaderSize + |payload|, false, Some(Rejected(InvalidMessageChecksum)))
            else if p.err.Some? then Reception(HeaderSize + |payload|, false, None)
            else Reception(HeaderSize + |payload|, false, Some(Event(hdr, p.payload, None)))
  {
    var hb := HeaderBytes(TestNetMagic, PadCommand(name), |payload| as uint32, checksum);
    HeaderLayout(TestNetMagic, PadCommand(name), |payload| as uint32, checksum);
    FrameSlices(hb, payload, rest);
    ReadHeaderName(TestNetMagic, name, |payload| as uint32, checksum, []);
  }

  lemma FrameSlices(header: seq<byte>, payload: seq<byte>, rest: seq<byte>)
    requires |header| == HeaderSize
    ensures var s := header + payload + rest;
            s[..HeaderSize] == header + [] && s[HeaderSize..][..|payload|] == payload
  {
    var s := header + payload + rest;
    assert s[..HeaderSize] == header;
    assert s[HeaderSize..] == payload + rest;
  }

  /** The client: a connection (nil until the first successful connect), the node's address, the connected flag */
  class BitcoinClient {
    var conn: Connection?
    const nodeHost: seq<byte>
    const nodePort: int
    var isConnected: bool

    constructor (host: seq<byte>, port: int)
      ensures nodeHost == host && nodePort == port && conn == null && !isConnected
    {
      nodeHost, nodePort := host, port;
      conn, isConnected := null, false;
    }

    /**
     * connect: the client counts as disconnected while dialling; a failed dial is
     * wrapped and keeps the old connection, a successful one replaces it.
     */
    method Connect(dial: Result<Connection>) returns (err: Option<Error>)
      modifies this
      ensures dial.Err? ==> err == Some(ConnectFailed(dial.error)) && !isConnected && conn == old(conn)
      ensures dial.Ok? ==> err == None && isConnected && conn == dial.value
    {
      isConnected := false;
      if dial.Err? {
        return Some(ConnectFailed(dial.error));
      }
      conn := dial.value;
      isConnected := true;
      err := None;
    }

    /** NewBitcoinClient: a client exists only if the first connect succeeds */
    static method New(host: seq<byte>, port: int, dial: Result<Connection>) returns (c: BitcoinClient?, err: Option<Error>)
      ensures dial.Err? ==> c == null && err == Some(ConnectFailed(dial.error))
      ensures dial.Ok? ==> err == None && c != null && fresh(c) && c.conn == dial.value && c.isConnected
      ensures c != null ==> c.nodeHost == host && c.nodePort == port
    {
      var b := new BitcoinClient(host, port);
      err := b.Connect(dial);
      if err.Some? {
        return null, err;
      }
      c := b;
    }

    /** Write: refused while disconnected, otherwise one write call on the connection */
    method Write(msg: seq<byte>) returns (n: nat, err: Option<Error>)
      requires conn != null
      modifies conn.output
      ensures !isConnected ==> n == 0 && err == Some(ConnectionClosed) && conn.output.State() == old(conn.output.State())
      ensures isConnected ==> Outcome(conn.output.State(), err) == Run(conn.output.faults, old(conn.output.State()), [msg])
      ensures isConnected ==> n == if err.None? then |msg| else 0
    {
      if !isConnected {
        return 0, Some(ConnectionClosed);
      }
      n, err := conn.output.Write(msg);
    }

    /**
     * receive: a disconnected client only tries to reconnect; a connected one takes one
     * frame's worth of bytes from the node and publishes what ReceiveOf says.
     */
    method Receive(ch: Channel, hash: seq<byte> -> Digest, dial: Result<Connection>)
      requires conn != null
      modifies this, conn.input, ch
      ensures !old(isConnected) ==>
                && ch.events == old(ch.events) && old(conn).input.rest == old(conn.input.rest)
                && (dial.Err? ==> !isConnected && conn == old(conn))
                && (dial.Ok? ==> isConnected && conn == dial.value)
      ensures old(isConnected) ==>
                var r := ReceiveOf(old(conn.input.rest), hash);
                && conn == old(conn) && conn.input.rest == old(conn.input.rest)[r.used..]
                && isConnected == !r.disconnect
                && ch.events == old(ch.events) + Published(r)
    {
      if !isConnected {
        var e := Connect(dial);
        return;
      }
      ghost var s := conn.input.rest;
      var headerBytes, err := conn.input.ReadFull(HeaderSize);
      if err.Some? {
        if err == Some(EOF) {
          isConnected := false;
        }
        return;
      }
      var hr := new Reader(headerBytes);
      var hdr;
      hdr, err := ReadHeader(hr);
      if err.Some? {
        return;
      }
      if hdr.magic != TestNetMagic {
        ch.Send(Rejected(InvalidMagicNumber));
        return;
      }
      ReceivePayload(ch, hash, hdr);
    }

    /** The payload half of receive, after a header with the right magic number */
    method ReceivePayload(ch: Channel, hash: seq<byte> -> Digest, hdr: MessageHeader)
      requires conn != null
      modifies conn.input, ch
      ensures var r := PayloadStage(old(conn.input.rest), hdr, hash);
              conn.input.rest == old(conn.input.rest)[r.used..] && ch.events == old(ch.events) + Published(r)
    {
      var payloadBytes, err := conn.input.ReadFull(hdr.length as nat);
      if err.Some? {
        return;
      }
      var plr := new Reader(payloadBytes);
      if hdr.checksum != ChecksumOf(hash, payloadBytes) {
        ch.Send(Rejected(InvalidMessageChecksum));
        return;
      }
      var msg;
      msg, err := PayloadRead(plr, hdr);
      if err.Some? {
        return;
      }
      ch.Send(Event(hdr, msg, None));
    }

    /** The cancellation branch of ReceiveMsg: close the connection and count as disconnected */
    method Cancel()
      requires conn != null
      modifies this, conn
      ensures conn == old(conn) && conn.closed && !isConnected
    {
      conn.Close();
      isConnected := false;
    }
  }
}
