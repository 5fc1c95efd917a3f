/**
 * The Shadowsocks outbound adapter: construction, stream setup (obfuscation
 * wrapper, cipher, address frame, cleanup on error), datagram setup, and the
 * datagram connection that frames every packet with a SOCKS address
 * (section 5 of RFC 1928) in front of the payload.
 *
 * The network is not modelled: what the dialer, the resolver and the sockets
 * do is given to each operation as an outcome, and what the adapter does to
 * the network is returned as a trace of events.
 */
module Shadowsocks {
  import opened Wrappers

  type byte = x: int | 0 <= x < 256

  /** The name the adapter reports for its protocol. */
  const ShadowsocksProto := "ss"

  /** The cipher handle core.PickCipher returns, known here only by what it was built from. */
  datatype Cipher = Cipher(methodName: string, password: string)

  /** A Shadowsocks adapter: the proxy server's "host:port", its cipher, and the simple-obfs settings. */
  datatype Adapter = Adapter(addr: string, cipher: Cipher, obfsMode: string, obfsHost: string)

  datatype Error =
    | InitializeError(cause: string)         // "ss initialize: ..."
    | ConnectError(addr: string, cause: string)
    | ListenError(cause: string)
    | ResolveError(addr: string, cause: string)
    | ParseAddrError                         // "parse addr error"
    | IoError(cause: string)                 // a collaborator's error, returned unchanged

  /** The destination of a connection request (adapter.Metadata). */
  datatype Metadata = Metadata(network: string, dstHost: string, dstPort: nat)

  datatype UdpAddress = UdpAddress(ip: seq<byte>, port: nat)

  /** A `net.Addr`: request metadata, a resolved UDP address, or any other address. */
  datatype NetAddr =
    | MetadataAddr(m: Metadata)
    | Udp(u: UdpAddress)
    | OtherAddr(network: string, text: string)

  /** socks5.SplitAddr: the SOCKS address at the front of its input, if one is there. */
  type AddrSplitter = f: seq<byte> -> Option<seq<byte>> | forall b :: f(b).Some? ==> f(b).value <= b
    witness (b: seq<byte>) => None

  /** socks5.EncodeUDPPacket: a SOCKS5 UDP request, whose first three bytes are RSV and FRAG. */
  type UdpEncoder = f: (seq<byte>, seq<byte>) -> Result<seq<byte>, string>
    | forall a, p :: f(a, p).Success? ==> 3 <= |f(a, p).value|
    witness (a: seq<byte>, p: seq<byte>) => Failure("")

  /** The SOCKS address codec the adapter relies on, given by its functions. */
  datatype Codec = Codec(
    splitAddr: AddrSplitter,
    udpAddr: seq<byte> -> Option<UdpAddress>,   // socks5.Addr.UDPAddr; none for a domain name
    encodeUdpPacket: UdpEncoder,
    parseAddr: NetAddr -> seq<byte>,            // socks5.ParseAddrToSocksAddr
    serialize: Metadata -> seq<byte>)           // Metadata.SerializesSocksAddr

  /** A stream connection, as the layers wrapped around the dialed socket. */
  datatype Conn =
    | Raw(id: nat)
    | TlsObfs(inner: Conn, host: string)
    | HttpObfs(inner: Conn, host: string, port: string)
    | CipherStream(inner: Conn, cipher: Cipher)

  /** A packet socket, as the layers wrapped around the local socket. */
  datatype PacketSocket = Socket(id: nat) | CipherPacket(inner: PacketSocket, cipher: Cipher)

  /** What the adapter does to the network. */
  datatype Event =
    | Dial(network: string, addr: string)
    | KeepAlive(conn: Conn)
    | Write(conn: Conn, data: seq<byte>)
    | Close(conn: Conn)
    | Listen(network: string, laddr: string)
    | Resolve(network: string, addr: string)
    | ClosePacket(socket: PacketSocket)

  /** The socket a stream connection is layered over; closing the connection closes it. */
  function Root(c: Conn): nat
  {
    match c
    case Raw(id) => id
    case TlsObfs(inner, _) => Root(inner)
    case HttpObfs(inner, _, _) => Root(inner)
    case CipherStream(inner, _) => Root(inner)
  }

  /** The writes in a trace, in order. */
  function Writes(trace: seq<Event>): (w: seq<Event>)
    ensures forall k | 0 <= k < |w| :: w[k].Write? && w[k] in trace
    ensures |w| <= |trace|
  {
    if trace == [] then []
    else
      var rest := Writes(trace[1..]);
      if trace[0].Write? then [trace[0]] + rest else rest
  }

  /** The closes of stream or packet connections in a trace, in order. */
  function Closes(trace: seq<Event>): (w: seq<Event>)
    ensures forall k | 0 <= k < |w| :: (w[k].Close? || w[k].ClosePacket?) && w[k] in trace
    ensures |w| <= |trace|
  {
    if trace == [] then []
    else
      var rest := Closes(trace[1..]);
      if trace[0].Close? || trace[0].ClosePacket? then [trace[0]] + rest else rest
  }

  /** The closes of consecutive traces are those of the first followed by those of the second. */
  lemma {:induction false} ClosesAppend(a: seq<Event>, b: seq<Event>)
    ensures Closes(a + b) == Closes(a) + Closes(b)
  {
    if a == [] {
      assert a + b == b;
    } else {
      assert (a + b)[0] == a[0] && (a + b)[1..] == a[1..] + b;
      ClosesAppend(a[1..], b);
    }
  }

  /**
   * NewShadowsocks. `pickCipher` gives the error core.PickCipher reports for a
   * method and secret, or none when it accepts them.
   */
  function NewShadowsocks(addr: string, methodName: string, password: string, obfsMode: string, obfsHost: string,
                          pickCipher: (string, string) -> Option<string>): (r: Result<Adapter, Error>)
    ensures r.Failure? <==> pickCipher(methodName, password).Some?
    ensures r.Failure? ==> r.error == InitializeError(pickCipher(methodName, password).value)
    ensures r.Success? ==> r.value.addr == addr && r.value.cipher == Cipher(methodName, password)
    ensures r.Success? ==> r.value.obfsMode == obfsMode && r.value.obfsHost == obfsHost
  {
    match pickCipher(methodName, password)
    case Some(cause) => Failure(InitializeError(cause))
    case None => Success(Adapter(addr, Cipher(methodName, password), obfsMode, obfsHost))
  }

  /** Proto: every Shadowsocks adapter reports the scheme its descriptors are written with. */
  function Proto(ss: Adapter): (p: string)
    ensures p == ShadowsocksProto
  {
    ShadowsocksProto
  }

  /**
   * DialContext. `dialed` is what the dialer gave for "tcp" to the server
   * address (a socket or the error), `written` the error, if any, of writing
   * the address frame, and `port` what net.SplitHostPort gives as the port of
   * an address. Returns the connection, the error and what was done.
   */
  method DialContext(ss: Adapter, metadata: Metadata, codec: Codec, port: string -> string,
                     dialed: Result<nat, string>, written: Option<string>)
    returns (c: Option<Conn>, err: Option<Error>, trace: seq<Event>)
    ensures |trace| >= 1 && trace[0] == Dial("tcp", ss.addr)
    ensures dialed.Failure? ==> c == None && err == Some(ConnectError(ss.addr, dialed.error)) && |trace| == 1
    // the cipher is the outermost layer, over the obfuscation wrapper, over the dialed socket
    ensures dialed.Success? ==> c.Some? && c.value.CipherStream? && c.value.cipher == ss.cipher
    ensures dialed.Success? ==> Root(c.value) == dialed.value && |trace| >= 3 && trace[1] == KeepAlive(Raw(dialed.value))
    ensures dialed.Success? && ss.obfsMode == "tls" ==>
              c.value.inner == TlsObfs(Raw(dialed.value), ss.obfsHost)
    ensures dialed.Success? && ss.obfsMode == "http" ==>
              c.value.inner == HttpObfs(Raw(dialed.value), ss.obfsHost, port(ss.addr))
    ensures dialed.Success? && ss.obfsMode != "tls" && ss.obfsMode != "http" ==>
              c.value.inner == Raw(dialed.value)
    // the address frame is written once, through the cipher
    ensures dialed.Success? ==> Writes(trace) == [Write(c.value, codec.serialize(metadata))]
    ensures dialed.Success? ==> err == if written.Some? then Some(IoError(written.value)) else None
    // on an error after dialing the connection is closed as the last step; otherwise nothing is closed
    ensures dialed.Success? && err.Some? ==> Closes(trace) == [Close(c.value)] && trace[|trace| - 1] == Close(c.value)
    ensures err.None? ==> Closes(trace) == []
    // and nothing else is done: no other socket is dialed, written or left open
    ensures dialed.Success? ==>
              trace == [Dial("tcp", ss.addr), KeepAlive(Raw(dialed.value)), Write(c.value, codec.serialize(metadata))]
                       + (if err.Some? then [Close(c.value)] else [])
  {
    trace := [Dial("tcp", ss.addr)];
    if dialed.Failure? {
      return None, Some(ConnectError(ss.addr, dialed.error)), trace;
    }
    var raw := Raw(dialed.value);
    trace := trace + [KeepAlive(raw)];

    var conn := raw;
    if ss.obfsMode == "tls" {
      conn := TlsObfs(conn, ss.obfsHost);
    } else if ss.obfsMode == "http" {
      conn := HttpObfs(conn, ss.obfsHost, port(ss.addr));
    }
    assert Root(conn) == dialed.value;

    conn := CipherStream(conn, ss.cipher);
    trace := trace + [Write(conn, codec.serialize(metadata))];
    err := if written.Some? then Some(IoError(written.value)) else None;

    // the deferred close sees the outermost connection
    if err.Some? {
      trace := trace + [Close(conn)];
    }
    c := Some(conn);
    StreamSetupTrace(trace, ss.addr, raw, conn, codec.serialize(metadata), err.Some?);
  }

  /** The writes and the closes of a trace that starts with one event. */
  lemma EventThen(e: Event, rest: seq<Event>)
    ensures Writes([e] + rest) == (if e.Write? then [e] else []) + Writes(rest)
    ensures Closes([e] + rest) == (if e.Close? || e.ClosePacket? then [e] else []) + Closes(rest)
  {
    assert ([e] + rest)[1..] == rest;
  }

  /** The one write and the closes of a stream setup trace. */
  lemma StreamSetupTrace(trace: seq<Event>, addr: string, raw: Conn, conn: Conn, frame: seq<byte>, closing: bool)
    requires trace == [Dial("tcp", addr)] + [KeepAlive(raw)] + [Write(conn, frame)] + (if closing then [Close(conn)] else [])
    ensures Writes(trace) == [Write(conn, frame)]
    ensures Closes(trace) == if closing then [Close(conn)] else []
  {
    var last: seq<Event> := if closing then [Close(conn)] else [];
    var fromWrite := [Write(conn, frame)] + last;
    var fromKeepAlive := [KeepAlive(raw)] + fromWrite;
    assert trace == [Dial("tcp", addr)] + fromKeepAlive;
    EventThen(Dial("tcp", addr), fromKeepAlive);
    EventThen(KeepAlive(raw), fromWrite);
    EventThen(Write(conn, frame), last);
    if closing {
      EventThen(Close(conn), []);
      assert [Close(conn)] + [] == last;
    }
  }

  /** The datagram connection DialUDP returns: the cipher-wrapped socket and the server's address. */
  datatype PacketConn = PacketConn(socket: PacketSocket, rAddr: NetAddr)

  /**
   * DialUDP as written: `listened` is what ListenPacket("udp", "") gave,
   * `resolved` what ResolveUDPAddr gave for the server address. When the
   * resolution fails, the socket already opened is not closed.
   */
  function DialUDPAsWritten(ss: Adapter, listened: Result<nat, string>, resolved: Result<UdpAddress, string>)
    : (r: (Result<PacketConn, Error>, seq<Event>))
    ensures listened.Success? && resolved.Failure? ==>
              r.0 == Failure(ResolveError(ss.addr, resolved.error)) && Closes(r.1) == []
    // it returns what the corrected DialUDP returns; only the cleanup differs
    ensures r.0 == DialUDP(ss, listened, resolved).0
    ensures !(listened.Success? && resolved.Failure?) ==> r == DialUDP(ss, listened, resolved)
    ensures listened.Success? && resolved.Failure? ==> r.1 == [Listen("udp", ""), Resolve("udp", ss.addr)]
  {
    if listened.Failure? then
      (Failure(ListenError(listened.error)), [Listen("udp", "")])
    else if resolved.Failure? then
      (Failure(ResolveError(ss.addr, resolved.error)), [Listen("udp", ""), Resolve("udp", ss.addr)])
    else
      (Success(PacketConn(CipherPacket(Socket(listened.value), ss.cipher), Udp(resolved.value))),
       [Listen("udp", ""), Resolve("udp", ss.addr)])
  }

  /** An opened socket that the failed DialUDP as written leaves open. */
  lemma DialUDPAsWrittenLeaks(ss: Adapter)
    ensures var r := DialUDPAsWritten(ss, Success(7), Failure("no such host"));
            r.0.Failure? && r.1[0] == Listen("udp", "") && ClosePacket(Socket(7)) !in r.1
  {
  }

  /** DialUDP, closing the opened socket when the server address does not resolve. */
  function DialUDP(ss: Adapter, listened: Result<nat, string>, resolved: Result<UdpAddress, string>)
    : (r: (Result<PacketConn, Error>, seq<Event>))
    ensures r.0.Success? <==> listened.Success? && resolved.Success?
    ensures listened.Failure? ==> r.0 == Failure(ListenError(listened.error))
    ensures listened.Success? && resolved.Failure? ==> r.0 == Failure(ResolveError(ss.addr, resolved.error))
    // every packet goes out through the cipher, to the one resolved server address
    ensures r.0.Success? ==>
              r.0.value == PacketConn(CipherPacket(Socket(listened.value), ss.cipher), Udp(resolved.value))
    // nothing opened is left open on failure, and nothing is closed on success
    ensures listened.Success? && r.0.Failure? ==> Closes(r.1) == [ClosePacket(Socket(listened.value))]
    ensures r.0.Success? ==> Closes(r.1) == []
    // what is done, in each case: nothing is listened on or closed but the one socket
    ensures listened.Failure? ==> r.1 == [Listen("udp", "")]
    ensures listened.Success? && resolved.Failure? ==>
              r.1 == [Listen("udp", ""), Resolve("udp", ss.addr), ClosePacket(Socket(listened.value))]
    ensures r.0.Success? ==> r.1 == [Listen("udp", ""), Resolve("udp", ss.addr)]
  {
    if listened.Failure? then
      (Failure(ListenError(listened.error)), [Listen("udp", "")])
    else if resolved.Failure? then
      var setup := [Listen("udp", ""), Resolve("udp", ss.addr)];
      var release := [ClosePacket(Socket(listened.value))];
      assert setup[1..][1..] == [] && release[1..] == [];
      ClosesAppend(setup, release);
      (Failure(ResolveError(ss.addr, resolved.error)), setup + release)
    else
      (Success(PacketConn(CipherPacket(Socket(listened.value), ss.cipher), Udp(resolved.value))),
       [Listen("udp", ""), Resolve("udp", ss.addr)])
  }

  /** What ssPacketConn.WriteTo hands to the cipher socket: a packet and the address it goes to. */
  datatype Datagram = Datagram(payload: seq<byte>, to: NetAddr)

  /** The SOCKS address WriteTo puts in front of a payload for `addr`. */
  function FrameFor(addr: NetAddr, codec: Codec): (r: seq<byte>)
    // request metadata is serialised by itself; any other address goes through the codec's conversion
    ensures addr.MetadataAddr? ==> r == codec.serialize(addr.m)
    ensures !addr.MetadataAddr? ==> r == codec.parseAddr(addr)
  {
    if addr.MetadataAddr? then codec.serialize(addr.m) else codec.parseAddr(addr)
  }

  /** ssPacketConn.WriteTo: the packet to send, or the encoding error when nothing is sent. */
  function WriteTo(pc: PacketConn, b: seq<byte>, addr: NetAddr, codec: Codec): (r: Result<Datagram, Error>)
    // the packet always goes to the server, whatever the logical destination
    ensures r.Success? ==> r.value.to == pc.rAddr
    ensures r.Success? <==> codec.encodeUdpPacket(FrameFor(addr, codec), b).Success?
    ensures r.Success? ==>
              var packet := codec.encodeUdpPacket(FrameFor(addr, codec), b).value;
              packet == packet[..3] + r.value.payload
    ensures r.Failure? ==> r.error == IoError(codec.encodeUdpPacket(FrameFor(addr, codec), b).error)
  {
    match codec.encodeUdpPacket(FrameFor(addr, codec), b)
    case Failure(e) => Failure(IoError(e))
    case Success(packet) => Success(Datagram(packet[3..], pc.rAddr))
  }

  /**
   * The logical destination reaches the packet only through its SOCKS
   * address: destinations with the same address give the same packet, sent to
   * the same place.
   */
  lemma WriteToDependsOnlyOnFrame(pc: PacketConn, b: seq<byte>, a1: NetAddr, a2: NetAddr, codec: Codec)
    requires FrameFor(a1, codec) == FrameFor(a2, codec)
    ensures WriteTo(pc, b, a1, codec) == WriteTo(pc, b, a2, codec)
  {
  }

  /**
   * What the cipher socket's read did with the caller's buffer: the count it
   * returned and the whole buffer as it left it, with the decrypted datagram
   * in front and whatever else it wrote behind; or the error it returned.
   */
  datatype Inbound = Received(n: nat, filled: seq<byte>) | ReadFailed(cause: string)

  /** The buffer after Go's `copy(b, b[k:])`: everything from `k` on moved to the front. */
  ghost function ShiftDown(buf: seq<byte>, k: nat): seq<byte>
    requires k <= |buf|
  {
    buf[k..] + buf[|buf| - k..]
  }

  /** After the shift, the first `n - k` bytes are the bytes that were at `[k, n)`. */
  lemma ShiftDownKeepsPayload(buf: seq<byte>, k: nat, n: nat)
    requires k <= n <= |buf|
    ensures |ShiftDown(buf, k)| == |buf|
    ensures ShiftDown(buf, k)[..n - k] == buf[k..n]
  {
  }

  /** Go's built-in `copy(b, b[k:])`, element by element from the front. */
  method CopyDown(b: array<byte>, k: nat)
    requires k <= b.Length
    modifies b
    ensures b[..] == ShiftDown(old(b[..]), k)
  {
    var i := 0;
    while i < b.Length - k
      invariant 0 <= i <= b.Length - k
      invariant forall j | 0 <= j < i :: b[j] == old(b[j + k])
      invariant forall j | i <= j < b.Length :: b[j] == old(b[j])
    {
      b[i] := b[i + k];
      i := i + 1;
    }
  }

  /**
   * ssPacketConn.ReadFrom into the caller's buffer `b`: the SOCKS address in
   * front of the datagram is removed by shifting the buffer, and the payload
   * length and the sender's address are returned.
   */
  method ReadFrom(b: array<byte>, inbound: Inbound, codec: Codec)
    returns (n: int, addr: Option<NetAddr>, err: Option<Error>)
    // the inner read fills the caller's buffer and counts at most its length
    requires inbound.Received? ==> |inbound.filled| == b.Length && inbound.n <= b.Length
    modifies b
    // a read error is passed through
    ensures inbound.ReadFailed? ==>
              n == 0 && addr == None && err == Some(IoError(inbound.cause)) && b[..] == old(b[..])
    // no address in front of the datagram, or one without a UDP form: nothing is returned
    ensures inbound.Received? && codec.splitAddr(inbound.filled[..inbound.n]).None? ==>
              n == 0 && addr == None && err == Some(ParseAddrError) && b[..] == inbound.filled
    ensures inbound.Received? && codec.splitAddr(inbound.filled[..inbound.n]).Some?
            && codec.udpAddr(codec.splitAddr(inbound.filled[..inbound.n]).value).None? ==>
              n == 0 && addr == None && err == Some(ParseAddrError) && b[..] == inbound.filled
    // otherwise the payload after the address is moved to the front of the buffer
    ensures inbound.Received? && codec.splitAddr(inbound.filled[..inbound.n]).Some?
            && codec.udpAddr(codec.splitAddr(inbound.filled[..inbound.n]).value).Some? ==>
              var d := inbound.filled[..inbound.n];
              var frame := codec.splitAddr(d).value;
              && n == |d| - |frame|
              && addr == Some(Udp(codec.udpAddr(frame).value))
              && err == None
              && b[..] == ShiftDown(inbound.filled, |frame|)
              && b[..n] == d[|frame|..]
  {
    if inbound.ReadFailed? {
      return 0, None, Some(IoError(inbound.cause));
    }
    // the cipher socket's read leaves the buffer as `filled`
    var filled := inbound.filled;
    forall i | 0 <= i < b.Length {
      b[i] := filled[i];
    }
    assert b[..] == filled;
    var d := b[..inbound.n];

    var frame := codec.splitAddr(d);
    if frame.None? {
      return 0, None, Some(ParseAddrError);
    }
    var udpAddr := codec.udpAddr(frame.value);
    if udpAddr.None? {
      return 0, None, Some(ParseAddrError);
    }

    var k := |frame.value|;
    CopyDown(b, k);
    ShiftDownKeepsPayload(filled, k, |d|);
    n, addr, err := |d| - k, Some(Udp(udpAddr.value)), None;
  }

  /**
   * A datagram sent with WriteTo to a metadata destination and echoed back by
   * the server comes out of ReadFrom as the original payload, from the
   * original destination, when the codec is the SOCKS5 UDP request format
   * (three header bytes, the address, the payload) and its address decoding
   * undoes its encoding.
   */
  method EchoRoundTrip(pc: PacketConn, payload: seq<byte>, m: Metadata, codec: Codec)
    returns (received: seq<byte>, from: Option<NetAddr>)
    requires codec.encodeUdpPacket(codec.serialize(m), payload) == Success([0, 0, 0] + codec.serialize(m) + payload)
    requires codec.splitAddr(codec.serialize(m) + payload) == Some(codec.serialize(m))
    requires codec.udpAddr(codec.serialize(m)).Some?
    ensures received == payload
    ensures from == Some(Udp(codec.udpAddr(codec.serialize(m)).value))
  {
    var frame := codec.serialize(m);
    var sent := WriteTo(pc, payload, MetadataAddr(m), codec);
    assert sent.Success?;
    var packet := [0, 0, 0] + frame + payload;
    assert sent.value.payload == packet[3..] == frame + payload;
    var buf := new byte[|sent.value.payload|];
    assert sent.value.payload[..|sent.value.payload|] == frame + payload;
    var n, addr, err := ReadFrom(buf, Received(|sent.value.payload|, sent.value.payload), codec);
    received, from := buf[..n], addr;
  }
}
