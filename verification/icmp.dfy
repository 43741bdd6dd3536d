/**
  The ICMP echo codec and socket lifecycle of the Linux and macOS ping
  backends: the Echo Request of RFC 792 ("Echo or Echo Reply Message"),
  the classification of a received datagram as a matching Echo Reply, the
  initialize/shutdown state machine and one `send_ping` call.

  Sockets, name resolution, `select`, `recvfrom` and the clock are not
  modelled: each call takes their outcomes as inputs (`Io`).
*/
module Icmp {
  import opened Wrappers
  import Checksum

  /** The two backends share the checksum and lifecycle but differ in header layout and reply offset. */
  datatype Platform = Linux | MacOs

  const TypeEchoRequest: byte := 8
  const TypeEchoReply: byte := 0
  const PayloadSize: nat := 56
  const PayloadFill: byte := 0x42
  /** `sizeof(icmphdr)` on Linux. */
  const LinuxHeaderSize: nat := 8
  /** `sizeof(iphdr)`, the minimal IPv4 header. */
  const IpHeaderSize: nat := 20
  /** `sizeof(struct icmp)` on macOS: 8 header bytes and a 20-byte data union. */
  const MacHeaderSize: nat := 28
  const ChecksumOffset: nat := 2
  const RecvBufferSize: nat := 512

  function HeaderSize(p: Platform): nat {
    match p
    case Linux => LinuxHeaderSize
    case MacOs => MacHeaderSize
  }

  /** Bytes in one Echo Request: 64 on Linux, 84 on macOS. */
  function PacketSize(p: Platform): nat {
    HeaderSize(p) + PayloadSize
  }

  /** Shortest datagram that is inspected at all: 8 + 20 on Linux, `sizeof(struct icmp)` on macOS. */
  function MinReplySize(p: Platform): nat {
    match p
    case Linux => LinuxHeaderSize + IpHeaderSize
    case MacOs => MacHeaderSize
  }

  // ---------------------------------------------------------------------
  // Byte layout

  /** A 16-bit value as it lies in memory after `htons`: high byte first. */
  function NetworkOrder(v: u16): (r: seq<byte>)
    ensures |r| == 2 && FromNetworkOrder(r[0], r[1]) == v
  {
    [v / 0x100, v % 0x100]
  }

  /** The 16-bit value of two bytes in network order. */
  function FromNetworkOrder(hi: byte, lo: byte): u16 {
    hi as int * 0x100 + lo as int
  }

  lemma NetworkOrderRoundTrip(hi: byte, lo: byte)
    ensures NetworkOrder(FromNetworkOrder(hi, lo)) == [hi, lo]
  {
  }

  /** `n` copies of the byte `b` (a `memset`). */
  function Fill(n: nat, b: byte): (r: seq<byte>)
    ensures |r| == n
    ensures forall i :: 0 <= i < n ==> r[i] == b
  {
    seq(n, _ => b)
  }

  /** The request before its checksum is filled in: the checksum field is zero. */
  function Unsummed(p: Platform, id: u16, sequence: u16): (r: seq<byte>)
    ensures |r| == PacketSize(p)
  {
    [TypeEchoRequest, 0, 0, 0] + NetworkOrder(id) + NetworkOrder(sequence)
      + Fill(HeaderSize(p) - LinuxHeaderSize, 0) + Fill(PayloadSize, PayloadFill)
  }

  /**
    The Echo Request sent for identifier `id` and sequence number
    `sequence`: type 8, code 0, identifier and sequence in network order,
    the rest of the header zero, then 56 bytes of 0x42, with the RFC 1071
    checksum of the whole packet stored little-endian at offset 2.
  */
  function BuildRequest(p: Platform, id: u16, sequence: u16): (r: seq<byte>)
    ensures |r| == PacketSize(p)
    ensures r[0] == TypeEchoRequest && r[1] == 0
    ensures FromNetworkOrder(r[4], r[5]) == id && FromNetworkOrder(r[6], r[7]) == sequence
    ensures forall i :: LinuxHeaderSize <= i < HeaderSize(p) ==> r[i] == 0
    ensures forall i :: HeaderSize(p) <= i < |r| ==> r[i] == PayloadFill
    ensures Checksum.Compute(r) == 0
  {
    var u := Unsummed(p, id, sequence);
    Checksum.VerifiesToZero(u, ChecksumOffset);
    Checksum.StoreLE(u, ChecksumOffset, Checksum.Compute(u))
  }

  // ---------------------------------------------------------------------
  // Reply classification

  /**
    Where the ICMP header starts in a received datagram: after the IPv4
    header (its IHL field, the low nibble of byte 0, counts 32-bit words)
    on Linux's raw socket, at offset 0 on macOS.
  */
  function IcmpOffset(p: Platform, got: seq<byte>): nat
    requires |got| > 0
  {
    match p
    case Linux => (got[0] % 16) * 4
    case MacOs => 0
  }

  /**
    Whether the received bytes count as the Echo Reply to this backend's
    request: long enough, with a whole ICMP header at its offset, of type
    0 and code 0 and carrying identifier `id`. Neither the sequence number
    nor the reply's checksum is looked at.
  */
  function IsEchoReply(p: Platform, got: seq<byte>, id: u16): (ok: bool)
    ensures |got| < MinReplySize(p) ==> !ok
    ensures |got| >= MinReplySize(p) && IcmpOffset(p, got) + LinuxHeaderSize > |got| ==> !ok
  {
    |got| >= MinReplySize(p) &&
    var off := IcmpOffset(p, got);
    off + LinuxHeaderSize <= |got| &&
    got[off] == TypeEchoReply && got[off + 1] == 0 &&
    FromNetworkOrder(got[off + 4], got[off + 5]) == id
  }

  /** The reply an echoing host builds from a request (RFC 792): type 0 and a recomputed checksum. */
  function ReplyFor(request: seq<byte>): (r: seq<byte>)
    requires |request| >= LinuxHeaderSize && |request| <= 0x2_0000
    ensures |r| == |request| && r[0] == TypeEchoReply && r[1] == request[1]
    ensures forall i :: 4 <= i < |r| ==> r[i] == request[i]
    ensures Checksum.Compute(r) == 0
  {
    var u := request[0 := TypeEchoReply][2 := 0][3 := 0];
    Checksum.VerifiesToZero(u, ChecksumOffset);
    Checksum.StoreLE(u, ChecksumOffset, Checksum.Compute(u))
  }

  /**
    The bytes `recvfrom` delivers for an ICMP message: on Linux the IPv4
    header `ip` comes first, on macOS the message alone.  The macOS case
    takes the kernel to strip the IPv4 header from the datagram socket;
    `MacOsKeptHeaderRejected` shows what the reader does if it does not.
  */
  function Delivered(p: Platform, ip: seq<byte>, message: seq<byte>): (got: seq<byte>)
    ensures p == Linux ==> |got| == |ip| + |message| && got[..|ip|] == ip
    ensures p == MacOs ==> |got| == |message|
    ensures got[|got| - |message|..] == message
  {
    match p
    case Linux => ip + message
    case MacOs => message
  }

  /** A well-formed IPv4 header: its IHL field gives its length, at least 20 bytes. */
  predicate IpHeader(ip: seq<byte>) {
    |ip| >= IpHeaderSize && |ip| == (ip[0] % 16) * 4
  }

  lemma DeliveredLayout(p: Platform, ip: seq<byte>, message: seq<byte>)
    requires IpHeader(ip) && |message| >= LinuxHeaderSize
    ensures var got := Delivered(p, ip, message);
      |got| > 0 && IcmpOffset(p, got) + |message| == |got| &&
      got[IcmpOffset(p, got)..] == message
  {
    if p == Linux {
      var got := ip + message;
      assert got[0] == ip[0];
      assert got[|ip|..] == message;
    }
  }

  /**
    The echo of this backend's own request is accepted exactly when it
    carries this backend's identifier, whatever the sequence number.
  */
  lemma EchoOfRequestAccepted(p: Platform, ip: seq<byte>, id: u16, sequence: u16, own: u16)
    requires IpHeader(ip)
    ensures IsEchoReply(p, Delivered(p, ip, ReplyFor(BuildRequest(p, id, sequence))), own) <==> own == id
  {
    var request := BuildRequest(p, id, sequence);
    var reply := ReplyFor(request);
    assert reply[0] == TypeEchoReply && reply[1] == 0;
    assert reply[4] == request[4] && reply[5] == request[5];
    DeliveredLayout(p, ip, reply);
    ClassifiedByMessage(p, Delivered(p, ip, reply), reply, own);
  }

  /** A datagram long enough to be inspected is judged by the ICMP message at its offset alone. */
  lemma ClassifiedByMessage(p: Platform, got: seq<byte>, message: seq<byte>, own: u16)
    requires |got| >= MinReplySize(p) && |message| >= LinuxHeaderSize
    requires IcmpOffset(p, got) + |message| == |got| && got[IcmpOffset(p, got)..] == message
    ensures IsEchoReply(p, got, own) <==>
      message[0] == TypeEchoReply && message[1] == 0 && FromNetworkOrder(message[4], message[5]) == own
  {
    var off := IcmpOffset(p, got);
    assert got[off] == message[0] && got[off + 1] == message[1];
    assert got[off + 4] == message[4] && got[off + 5] == message[5];
  }

  /**
    If the macOS socket handed over the IPv4 header too, the reader,
    which looks for the ICMP header at offset 0, would find the header's
    version byte 0x45 there instead of type 0, and no echo would ever
    be accepted.
  */
  lemma MacOsKeptHeaderRejected(ip: seq<byte>, id: u16, sequence: u16, own: u16)
    requires IpHeader(ip) && ip[0] == 0x45
    ensures !IsEchoReply(MacOs, ip + ReplyFor(BuildRequest(MacOs, id, sequence)), own)
  {
    var got := ip + ReplyFor(BuildRequest(MacOs, id, sequence));
    assert got[0] == ip[0];
  }

  /** A request (type 8) looped back to the socket is never taken for a reply. */
  lemma OwnRequestRejected(p: Platform, ip: seq<byte>, id: u16, sequence: u16, own: u16)
    requires IpHeader(ip)
    ensures !IsEchoReply(p, Delivered(p, ip, BuildRequest(p, id, sequence)), own)
  {
    var request := BuildRequest(p, id, sequence);
    DeliveredLayout(p, ip, request);
    var got := Delivered(p, ip, request);
    assert got[IcmpOffset(p, got)] == request[0];
  }

  /**
    The verdict ignores the checksum and sequence fields: overwriting
    them leaves it unchanged.
  */
  lemma IgnoresChecksumAndSequence(p: Platform, got: seq<byte>, id: u16, c0: byte, c1: byte, s0: byte, s1: byte)
    requires |got| >= MinReplySize(p) && IcmpOffset(p, got) + LinuxHeaderSize <= |got|
    ensures var off := IcmpOffset(p, got);
      IsEchoReply(p, got[off + 2 := c0][off + 3 := c1][off + 6 := s0][off + 7 := s1], id) == IsEchoReply(p, got, id)
  {
    var off := IcmpOffset(p, got);
    var changed := got[off + 2 := c0][off + 3 := c1][off + 6 := s0][off + 7 := s1];
    assert changed[0] == got[0];
    assert IcmpOffset(p, changed) == off;
  }

  // ---------------------------------------------------------------------
  // Lifecycle and one send_ping call

  /**
    A backend's state. `socketOpen` stands for a non-negative socket
    descriptor.
  */
  datatype Backend = Backend(platform: Platform, initialized: bool, socketOpen: bool, identifier: u16, sequence: u16)

  datatype Error = SocketFailed | NotInitialized | ResolveFailed | SendFailed

  /** The state after a lifecycle call and whether it threw. */
  datatype Step = Step(backend: Backend, result: Result<(), Error>)

  function NewBackend(p: Platform): (b: Backend)
    ensures !b.initialized && !b.socketOpen
  {
    Backend(p, false, false, 0, 0)
  }

  /**
    `initialize`: nothing happens once initialized; otherwise a socket is
    opened (`socketOk` is its outcome, a failure throws) and the identifier
    becomes the low 16 bits of the process id with the sequence at 0.
  */
  function Initialize(b: Backend, socketOk: bool, pid: int): (r: Step)
    ensures b.initialized ==> r == Step(b, Ok(()))
    ensures !b.initialized && socketOk ==>
      r.result.Ok? && r.backend.initialized && r.backend.socketOpen &&
      r.backend.identifier == pid % 0x1_0000 && r.backend.sequence == 0
    ensures !b.initialized && !socketOk ==>
      r.result == Err(SocketFailed) && r.backend == b.(socketOpen := false)
    ensures r.backend.platform == b.platform
  {
    if b.initialized then Step(b, Ok(()))
    else if !socketOk then Step(b.(socketOpen := false), Err(SocketFailed))
    else Step(b.(socketOpen := true, identifier := pid % 0x1_0000, sequence := 0, initialized := true), Ok(()))
  }

  /** `shutdown`: closes the socket if open and leaves the backend uninitialized. */
  function Shutdown(b: Backend): (r: Backend)
    ensures !r.initialized && !r.socketOpen
    ensures r.platform == b.platform && r.identifier == b.identifier && r.sequence == b.sequence
  {
    b.(socketOpen := false, initialized := false)
  }

  /** A second `initialize` changes nothing, whatever its inputs; a second `shutdown` neither. */
  lemma LifecycleIdempotent(b: Backend, ok1: bool, pid1: int, ok2: bool, pid2: int)
    ensures var first := Initialize(b, ok1, pid1);
      first.result.Ok? ==> Initialize(first.backend, ok2, pid2) == Step(first.backend, Ok(()))
    ensures Shutdown(Shutdown(b)) == Shutdown(b)
  {
  }

  /** The state invariant: an initialized backend has an open socket. */
  predicate Valid(b: Backend) {
    b.initialized ==> b.socketOpen
  }

  datatype RecvOutcome = RecvError | Datagram(bytes: seq<byte>)

  /** Outcomes of the system calls one `send_ping` makes, and the elapsed time between send and receive. */
  datatype Io = Io(resolved: bool, sentBytes: int, ready: int, recv: RecvOutcome, elapsedMs: real)

  datatype PingResult = PingResult(success: bool, rttMs: real)

  const NoReply := PingResult(false, 0.0)

  /** The backend after the call, the request handed to `sendto` if any, and the result or the error thrown. */
  datatype PingStep = PingStep(backend: Backend, request: Option<seq<byte>>, result: Result<PingResult, Error>)

  /** What `recvfrom` stores: at most the buffer's 512 bytes of the datagram. */
  function Truncate(datagram: seq<byte>): (got: seq<byte>)
    ensures |got| <= RecvBufferSize && got <= datagram
    ensures |datagram| <= RecvBufferSize ==> got == datagram
    ensures |datagram| > RecvBufferSize ==> got == datagram[..RecvBufferSize]
  {
    if |datagram| <= RecvBufferSize then datagram else datagram[..RecvBufferSize]
  }

  /** `send_ping` once the request has gone out: wait, receive, classify. */
  function AwaitReply(p: Platform, id: u16, io: Io): (r: PingResult)
    ensures r.success ==> r.rttMs == io.elapsedMs
    ensures !r.success ==> r == NoReply
  {
    if io.ready <= 0 then NoReply
    else match io.recv
      case RecvError => NoReply
      case Datagram(d) =>
        var got := Truncate(d);
        if |got| == 0 then NoReply
        else if IsEchoReply(p, got, id) then PingResult(true, io.elapsedMs)
        else NoReply
  }

  /**
    `send_ping`: throws when uninitialized or when the host does not
    resolve; otherwise advances the 16-bit sequence number, builds the
    request and sends it, throwing when fewer bytes than the packet go
    out; a timeout, a receive error or a non-matching datagram give
    `{false, 0}`, a matching reply gives success and the elapsed time.
  */
  function SendPing(b: Backend, io: Io): (r: PingStep)
    ensures r.result.Err? <==>
      !b.initialized || !io.resolved || io.sentBytes != PacketSize(b.platform)
    ensures !b.initialized || !io.resolved ==> r.backend == b && r.request == None
    ensures b.initialized && io.resolved ==>
      r.backend == b.(sequence := (b.sequence + 1) % 0x1_0000) &&
      r.request == Some(BuildRequest(b.platform, b.identifier, r.backend.sequence))
    ensures r.result == Ok(PingResult(true, io.elapsedMs)) <==>
      b.initialized && io.resolved && io.sentBytes == PacketSize(b.platform) && io.ready > 0 &&
      io.recv.Datagram? && |io.recv.bytes| > 0 && IsEchoReply(b.platform, Truncate(io.recv.bytes), b.identifier)
    ensures r.result.Ok? && !r.result.value.success ==> r.result.value == NoReply
    ensures !b.initialized ==> r.result == Err(NotInitialized)
  {
    if !b.initialized then PingStep(b, None, Err(NotInitialized))
    else if !io.resolved then PingStep(b, None, Err(ResolveFailed))
    else
      var next := b.(sequence := (b.sequence + 1) % 0x1_0000);
      var request := BuildRequest(b.platform, b.identifier, next.sequence);
      if io.sentBytes < 0 || io.sentBytes != |request| then PingStep(next, Some(request), Err(SendFailed))
      else PingStep(next, Some(request), Ok(AwaitReply(b.platform, b.identifier, io)))
  }

  /** Every operation keeps an initialized backend's socket open. */
  lemma OperationsPreserveValid(b: Backend, socketOk: bool, pid: int, io: Io)
    requires Valid(b)
    ensures Valid(Initialize(b, socketOk, pid).backend)
    ensures Valid(Shutdown(b))
    ensures Valid(SendPing(b, io).backend)
  {
  }

  /** The backend state `send_ping` leaves behind: only a call that resolves its host on an initialized backend moves the sequence number. */
  function Advance(b: Backend, io: Io): Backend {
    if b.initialized && io.resolved then b.(sequence := (b.sequence + 1) % 0x1_0000) else b
  }

  lemma AdvanceIsSendPing(b: Backend, io: Io)
    ensures SendPing(b, io).backend == Advance(b, io)
  {
  }

  /** The state after a series of `send_ping` calls, one per element of `ios`. */
  function SendAll(b: Backend, ios: seq<Io>): Backend
    decreases |ios|
  {
    if ios == [] then b else SendAll(Advance(b, ios[0]), ios[1..])
  }

  /** The number of calls in `ios` that get as far as building a request on an initialized backend. */
  function Resolved(ios: seq<Io>): nat
    decreases |ios|
  {
    if ios == [] then 0 else (if ios[0].resolved then 1 else 0) + Resolved(ios[1..])
  }

  /**
    After a successful `initialize`, the sequence number counts the calls
    that resolved their host, modulo 2^16, so the first request carries 1.
  */
  lemma {:induction false} SequenceCountsSends(b: Backend, ios: seq<Io>)
    requires b.initialized
    ensures SendAll(b, ios).initialized && SendAll(b, ios).identifier == b.identifier
    ensures SendAll(b, ios).sequence == (b.sequence + Resolved(ios)) % 0x1_0000
    decreases |ios|
  {
    if ios != [] {
      var next := Advance(b, ios[0]);
      SequenceCountsSends(next, ios[1..]);
      assert SendAll(b, ios) == SendAll(next, ios[1..]);
      assert Resolved(ios) == (if ios[0].resolved then 1 else 0) + Resolved(ios[1..]);
      ModShift(b.sequence, if ios[0].resolved then 1 else 0, Resolved(ios[1..]));
    }
  }

  lemma ModShift(a: nat, d: nat, n: nat)
    ensures ((a + d) % 0x1_0000 + n) % 0x1_0000 == (a + (d + n)) % 0x1_0000
  {
    var q := (a + d) / 0x1_0000;
    assert a + d == 0x1_0000 * q + (a + d) % 0x1_0000;
    assert a + (d + n) == 0x1_0000 * q + ((a + d) % 0x1_0000 + n);
    ModMultiple(q, (a + d) % 0x1_0000 + n);
  }

  lemma ModMultiple(q: nat, x: nat)
    ensures (0x1_0000 * q + x) % 0x1_0000 == x % 0x1_0000
  {
    if q > 0 {
      ModMultiple(q - 1, x);
      assert 0x1_0000 * q + x == 0x1_0000 * (q - 1) + x + 0x1_0000;
    }
  }

  lemma FirstRequestCarriesOne(p: Platform, socketOk: bool, pid: int, io: Io)
    requires socketOk && io.resolved
    ensures var step := SendPing(Initialize(NewBackend(p), socketOk, pid).backend, io);
      step.backend.sequence == 1 &&
      step.request == Some(BuildRequest(p, pid % 0x1_0000, step.backend.sequence))
  {
    var b := Initialize(NewBackend(p), socketOk, pid).backend;
    FirstBackend(p, socketOk, pid);
    SendPingRequest(b, io);
  }

  lemma FirstBackend(p: Platform, socketOk: bool, pid: int)
    requires socketOk
    ensures Initialize(NewBackend(p), socketOk, pid).backend == Backend(p, true, true, pid % 0x1_0000, 0)
  {
  }

  /** A call that gets past resolution sends the request for the next sequence number. */
  lemma SendPingRequest(b: Backend, io: Io)
    requires b.initialized && io.resolved
    ensures SendPing(b, io).backend.sequence == (b.sequence + 1) % 0x1_0000
    ensures SendPing(b, io).request == Some(BuildRequest(b.platform, b.identifier, (b.sequence + 1) % 0x1_0000))
  {
  }

  // ---------------------------------------------------------------------
  // The select() timeout

  /** C++ integer division, truncating toward zero. */
  function TruncDiv(a: int, d: nat): int
    requires d > 0
  {
    if a >= 0 then a / d else -((-a) / d)
  }

  /** C++ remainder: takes the sign of the dividend. */
  function TruncMod(a: int, d: nat): int
    requires d > 0
  {
    a - d * TruncDiv(a, d)
  }

  datatype Timeval = Timeval(sec: int, usec: int)

  /** The `timeval` passed to `select` for a timeout of `ms` milliseconds. */
  function TimevalOf(ms: int): (tv: Timeval)
    ensures tv.sec * 1000 + tv.usec / 1000 == ms
    ensures tv.usec % 1000 == 0
    ensures -1_000_000 < tv.usec < 1_000_000
    ensures ms >= 0 ==> tv.sec >= 0 && 0 <= tv.usec
  {
    Timeval(TruncDiv(ms, 1000), TruncMod(ms, 1000) * 1000)
  }
}
