/** The handlers of src/modules/tp_http.c on values: one endpoint is its configuration,
    its sending half and its receiving half. */
module HttpTransport {
  import opened Wrappers
  import opened CText
  import opened Base64
  import opened HttpText

  type Packet = seq<byte>

  const MAX_DATA: nat := 16

  datatype Conf = Conf(server: bool, sideChannel: bool, remote: string)

  /** thc_send_q, thc_send_offset, thc_send_ready */
  datatype Tx = Tx(q: seq<Packet>, off: nat, ready: bool)

  /** thc_recv_q, thc_recv_pkt, thc_recv_offset */
  datatype Receiver = Receiver(q: seq<Packet>, pkt: Option<seq<byte>>, off: nat)

  // ----- Receiving -----

  /** The tail of tp_http_recv_buf_sc: hand over a packet once it is complete. */
  function Settle(r: Receiver, p: Rx): (Receiver, bool) {
    var off := p.off + p.size;
    if p.pkt.Some? && off >= |p.pkt.value| then (Receiver(r.q + [p.pkt.value], None, 0), p.size != 0)
    else (Receiver(r.q, p.pkt, off), p.size != 0)
  }

  /** tp_http_recv_buf_sc; the flag says whether the message carried data. */
  function RecvSc(r: Receiver, msg: string, junk: nat -> byte): Result<(Receiver, bool), Fault> {
    match Find(msg, BLANK)
    case None => Ok((r, false))
    case Some(body) =>
      match Scan(msg, body, r.pkt.Some?, Rx(r.pkt, r.off, 0), junk)
      case Err(f) => Err(f)
      case Ok(p) => Ok(Settle(r, p))
  }

  /** tp_http_recv_buf_normal */
  function RecvNormal(r: Receiver, msg: string): Result<(Receiver, bool), Fault> {
    match ParseNormal(msg)
    case Err(f) => Err(f)
    case Ok(None) => Ok((r, false))
    case Ok(Some(data)) => Ok((r.(q := r.q + [data]), true))
  }

  /** tp_http_recv_buf */
  function RecvBuf(c: Conf, r: Receiver, buf: string, junk: nat -> byte): Result<(Receiver, bool), Fault> {
    if c.sideChannel then RecvSc(r, CStr(buf), junk) else RecvNormal(r, CStr(buf))
  }

  // ----- Sending -----

  predicate Sendable(t: Tx) { t.q != [] ==> t.off <= |t.q[0]| }

  function Min(x: int, y: int): int { if x < y then x else y }

  /** The fragment of p at offset off. */
  function Fragment(p: Packet, off: nat): seq<byte>
    requires off <= |p|
  {
    p[off..off + Min(MAX_DATA, |p| - off)]
  }

  /** The message that carries the data at offset off of p. */
  function DataText(c: Conf, p: Packet, off: nat): string
    requires off <= |p|
  {
    if !c.sideChannel then NormalText(c.server, p)
    else
      var size := if off == 0 then Some(|p|) else None;
      if c.server then ServerText(size, Fragment(p, off)) else ClientText(c.remote, size, Fragment(p, off))
  }

  /** What is left to send once that message is written. */
  function Advance(c: Conf, t: Tx): Tx
    requires t.q != [] && t.off <= |t.q[0]|
  {
    var off := t.off + Min(MAX_DATA, |t.q[0]| - t.off);
    if !c.sideChannel then Tx(t.q[1..], t.off, false)
    else if off >= |t.q[0]| then Tx(t.q[1..], 0, false)
    else Tx(t.q, off, false)
  }

  /** tp_http_send_next: the new state and the bytes written, none if nothing waits. A message
      that outgrows the buffer of the source ends in a fault. */
  function SendNext(c: Conf, t: Tx): Result<(Tx, string), Fault>
    requires Sendable(t)
  {
    if t.q == [] then Ok((t.(ready := true), ""))
    else
      var text := DataText(c, t.q[0], t.off);
      if |text| >= BUF then Err(Overrun) else Ok((Advance(c, t), text))
  }

  /** tp_http_pkt_send */
  function PktSend(c: Conf, t: Tx, p: Packet): Result<(Tx, string), Fault>
    requires Sendable(t) && (t.q == [] ==> t.off == 0)
  {
    var t' := t.(q := t.q + [p]);
    if t.ready then SendNext(c, t') else Ok((t', ""))
  }

  /** tp_http_pkt_recv */
  function PktRecv(r: Receiver): (Receiver, Option<Packet>) {
    if r.q == [] then (r, None) else (r.(q := r.q[1..]), Some(r.q[0]))
  }

  /** The answer to a message with data: tp_http_send_resp or tp_http_send_get. */
  function Reply(c: Conf): string { if c.server then RespText() else GetText() }

  /** One message handled by tp_http_worker: everything it changes and the bytes it writes back
      on the same connection. */
  function HandleMessage(c: Conf, t: Tx, r: Receiver, buf: string,
                         junk: nat -> byte): Result<(Tx, Receiver, string), Fault>
    requires Sendable(t)
  {
    match RecvBuf(c, r, buf, junk)
    case Err(f) => Err(f)
    case Ok((r', isData)) =>
      if isData then Ok((t, r', Reply(c)))
      else
        match SendNext(c, t)
        case Err(f) => Err(f)
        case Ok((t', out)) => Ok((t', r', out))
  }

  // ----- Cursors: how far a direction has come -----

  /** Packet k at offset off has been passed on; where the next message starts. */
  function Next(sideChannel: bool, p: Packet, k: nat, off: nat): (nat, nat)
    requires off <= |p|
  {
    if !sideChannel || off + MAX_DATA >= |p| then (k + 1, 0) else (k, off + MAX_DATA)
  }

  /** The packets a direction can carry: any that fits a buffer in the plain mode, any
      non-empty one whose size is a 32-bit number in the side channel. */
  predicate Carried(sideChannel: bool, p: Packet) {
    if sideChannel then 0 < |p| < 0x1_0000_0000 else |p| <= 1503
  }

  /** http.remote is written only by the client of a side channel; there it must be part of one
      line and leave room in the buffer. */
  ghost predicate GoodConf(c: Conf) { c.sideChannel && !c.server ==> Unbroken(c.remote) && |c.remote| <= 1873 }

  /** The packet under assembly agrees with the first off bytes of packet k. */
  ghost predicate Building(sideChannel: bool, r: Receiver, sent: seq<Packet>, k: nat) {
    match r.pkt
    case None => r.off == 0
    case Some(b) => sideChannel && k < |sent| && 0 < r.off < |sent[k]| == |b| && b[..r.off] == sent[k][..r.off]
  }

  /** One direction of the tunnel. sent: the packets given to pkt_send so far; got: those
      taken from pkt_recv at the far end; wire: the bytes of data under way. Both ends stand
      at the same place of sent, or the sender is one message ahead and that message is on
      the wire. */
  ghost predicate Flow(c: Conf, t: Tx, r: Receiver, wire: string, sent: seq<Packet>, got: seq<Packet>) {
    var j, k := |sent| - |t.q|, |got| + |r.q|;
    && (forall p :: p in sent ==> Carried(c.sideChannel, p))
    && 0 <= j && t.q == sent[j..]
    && k <= |sent| && got + r.q == sent[..k]
    && Building(c.sideChannel, r, sent, k)
    && (if wire == "" then (j, t.off) == (k, r.off)
        else k < |sent| && r.off <= |sent[k]| && wire == DataText(c, sent[k], r.off)
             && (j, t.off) == Next(c.sideChannel, sent[k], k, r.off))
  }
}
