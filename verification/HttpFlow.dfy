/** What each handler does to one direction of the HTTP transport. */
module HttpFlow {
  import opened Wrappers
  import opened CText
  import opened Base64
  import opened HttpText
  import opened HttpTransport

  lemma FragmentShort(p: Packet, off: nat)
    requires off <= |p|
    ensures |Fragment(p, off)| == Min(MAX_DATA, |p| - off) <= MAX_DATA
  {}

  /** Every data message is a non-empty C string that fits the buffers. */
  lemma DataTextFits(c: Conf, p: Packet, off: nat)
    requires GoodConf(c) && Carried(c.sideChannel, p) && off <= |p|
    ensures 0 < |DataText(c, p, off)| < BUF && '\0' !in DataText(c, p, off)
  {
    hide ClientText, ServerText, NormalText, Fragment;
    FragmentShort(p, off);
    var size := if off == 0 then Some(|p|) else None;
    if !c.sideChannel {
      NormalFits(c.server, p);
      NormalNoNul(c.server, p);
      TwoLinesNonEmpty(c.server, p);
    } else if c.server {
      ServerFits(size, Fragment(p, off));
      ServerNoNul(size, Fragment(p, off));
      ServerMessage(size, Fragment(p, off), false, Rx(None, 0, 0), _ => 0);
      FoundInside(ServerText(size, Fragment(p, off)));
    } else {
      ClientFits(c.remote);
      ClientNoNul(c.remote, size, Fragment(p, off));
      ClientMessage(c.remote, size, Fragment(p, off), false, Rx(None, 0, 0), _ => 0);
      FoundInside(ClientText(c.remote, size, Fragment(p, off)));
    }
  }

  lemma FoundInside(s: string)
    requires Find(s, BLANK).Some?
    ensures s != ""
  {}

  lemma TwoLinesNonEmpty(server: bool, p: Packet)
    ensures NormalText(server, p) != ""
  {
    NormalMessage(server, p);
  }

  // ----- Sending -----

  lemma NextIsAdvance(c: Conf, t: Tx)
    requires t.q != [] && t.off <= |t.q[0]| && (!c.sideChannel ==> t.off == 0)
    ensures var a := Advance(c, t); var n := Next(c.sideChannel, t.q[0], 0, t.off);
            (|t.q| - |a.q|, a.off) == n && (a.q == t.q || a.q == t.q[1..])
  {}

  /** Writing the next message puts it on the wire, and only an empty queue writes nothing. */
  lemma FlowSend(c: Conf, t: Tx, r: Receiver, sent: seq<Packet>, got: seq<Packet>)
    requires GoodConf(c) && Flow(c, t, r, "", sent, got)
    ensures Sendable(t) && SendNext(c, t).Ok?
    ensures var (t', out) := SendNext(c, t).value;
            && Flow(c, t', r, out, sent, got)
            && t'.ready == (t.q == []) && (t'.ready ==> t'.q == [])
            && (out == "" <==> t.q == []) && |out| < BUF && '\0' !in out
  {
    hide DataText;
    var k := |got| + |r.q|;
    if t.q != [] {
      assert t.q[0] == sent[k] && sent[k] in sent;
      assert t.off <= |sent[k]|;
      DataTextFits(c, sent[k], t.off);
      NextIsAdvance(c, t);
      assert t.q[1..] == sent[k + 1..];
    }
  }

  /** Queueing a packet adds it to what the direction still owes. */
  lemma FlowEnqueue(c: Conf, t: Tx, r: Receiver, wire: string, sent: seq<Packet>, got: seq<Packet>, p: Packet)
    requires Flow(c, t, r, wire, sent, got) && Carried(c.sideChannel, p)
    ensures Flow(c, t.(q := t.q + [p]), r, wire, sent + [p], got)
  {
    hide DataText, Next;
    var j, k := |sent| - |t.q|, |got| + |r.q|;
    assert (sent + [p])[j..] == sent[j..] + [p];
    assert (sent + [p])[..k] == sent[..k];
    assert k < |sent| ==> (sent + [p])[k] == sent[k];
  }

  /** Taking a packet out removes the oldest one not yet taken. */
  lemma FlowDequeue(c: Conf, t: Tx, r: Receiver, wire: string, sent: seq<Packet>, got: seq<Packet>)
    requires Flow(c, t, r, wire, sent, got)
    ensures var (r', o) := PktRecv(r);
            && o == (if r.q == [] then None else Some(sent[|got|]))
            && Flow(c, t, r', wire, sent, if o.Some? then got + [o.value] else got)
  {
    hide DataText, Next;
    if r.q != [] {
      assert r.q[0] == (got + r.q)[|got|];
      assert got + [r.q[0]] + r.q[1..] == got + r.q;
    }
  }

  // ----- Receiving -----

  lemma SplicePrefix(b: seq<byte>, p: Packet, off: nat)
    requires |b| == |p| && off <= |p| && b[..off] == p[..off]
    ensures var f := Fragment(p, off); var b' := Splice(b, off, f);
            |b'| == |p| && b'[..off + |f|] == p[..off + |f|]
  {
    var f := Fragment(p, off);
    var b' := Splice(b, off, f);
    assert p[..off + |f|] == p[..off] + f;
    assert b'[..off + |f|] == b[..off] + f;
  }

  /** On the next message of the far end, whichever side it is, the search does what the
      message is meant to do. */
  lemma ScanIsDeliver(c: Conf, p: Packet, r: Receiver, junk: nat -> byte)
    requires GoodConf(c) && c.sideChannel && Carried(true, p) && r.off < |p|
    requires r.off == 0 <==> r.pkt.None?
    ensures var s := DataText(c, p, r.off);
            Find(s, BLANK).Some? &&
            Scan(s, Find(s, BLANK).value, r.pkt.Some?, Rx(r.pkt, r.off, 0), junk) ==
            Deliver(if r.off == 0 then Some(|p|) else None, Fragment(p, r.off), Rx(r.pkt, r.off, 0), junk)
  {
    hide Find, Scan, Deliver, Fragment;
    var size := if r.off == 0 then Some(|p|) else None;
    if c.server {
      ServerMessage(size, Fragment(p, r.off), r.pkt.Some?, Rx(r.pkt, r.off, 0), junk);
    } else {
      ClientMessage(c.remote, size, Fragment(p, r.off), r.pkt.Some?, Rx(r.pkt, r.off, 0), junk);
    }
  }

  /** A fragment extends the packet under assembly, or completes it byte for byte. */
  lemma DeliverFragment(p: Packet, r: Receiver, junk: nat -> byte)
    requires Carried(true, p) && r.off < |p|
    requires match r.pkt case None => r.off == 0 case Some(b) => r.off > 0 && |b| == |p| && b[..r.off] == p[..r.off]
    ensures var d := Deliver(if r.off == 0 then Some(|p|) else None, Fragment(p, r.off), Rx(r.pkt, r.off, 0), junk);
            var end := r.off + |Fragment(p, r.off)|;
            d.Ok? && Settle(r, d.value).1 &&
            if end == |p| then Settle(r, d.value).0 == Receiver(r.q + [p], None, 0)
            else var r' := Settle(r, d.value).0;
                 && r'.q == r.q && r'.off == end && r'.pkt.Some?
                 && |r'.pkt.value| == |p| && r'.pkt.value[..end] == p[..end]
  {
    hide Splice, Recycled;
    var b := if r.off == 0 then Recycled(|p|, junk) else r.pkt.value;
    assert |p| % 0x1_0000_0000 == |p|;
    SplicePrefix(b, p, r.off);
    var b' := Splice(b, r.off, Fragment(p, r.off));
    assert p[..|p|] == p && b'[..|p|] == b';
  }

  lemma ReceiveSc(c: Conf, t: Tx, r: Receiver, wire: string, sent: seq<Packet>, got: seq<Packet>, junk: nat -> byte)
    requires GoodConf(c) && c.sideChannel && wire != "" && Flow(c, t, r, wire, sent, got)
    ensures RecvSc(r, wire, junk).Ok? && RecvSc(r, wire, junk).value.1
    ensures Flow(c, t, RecvSc(r, wire, junk).value.0, "", sent, got)
  {
    hide DataText, Find, Scan, Deliver, Settle;
    var k := |got| + |r.q|;
    var p := sent[k];
    assert p in sent;
    ScanIsDeliver(c, p, r, junk);
    DeliverFragment(p, r, junk);
    var r' := RecvSc(r, wire, junk).value.0;
    if r.off + |Fragment(p, r.off)| == |p| {
      assert got + r'.q == sent[..k] + [p] == sent[..k + 1];
    }
  }

  lemma ReceiveNormal(c: Conf, t: Tx, r: Receiver, wire: string, sent: seq<Packet>, got: seq<Packet>)
    requires !c.sideChannel && wire != "" && Flow(c, t, r, wire, sent, got)
    ensures RecvNormal(r, wire).Ok? && RecvNormal(r, wire).value.1
    ensures Flow(c, t, RecvNormal(r, wire).value.0, "", sent, got)
  {
    hide NormalText, ParseNormal;
    var k := |got| + |r.q|;
    NormalMessage(c.server, sent[k]);
    assert got + (r.q + [sent[k]]) == sent[..k] + [sent[k]] == sent[..k + 1];
  }

  lemma WireIsText(c: Conf, t: Tx, r: Receiver, wire: string, sent: seq<Packet>, got: seq<Packet>)
    requires GoodConf(c) && Flow(c, t, r, wire, sent, got)
    ensures |wire| < BUF && CStr(wire) == wire
  {
    hide DataText, Next;
    if wire != "" {
      var k := |got| + |r.q|;
      assert sent[k] in sent;
      DataTextFits(c, sent[k], r.off);
    }
  }

  /** Reading a data message of the far end c moves the receiver up to the sender, without
      any fault, and is recognised as data. */
  lemma FlowReceive(c: Conf, here: Conf, t: Tx, r: Receiver, wire: string, sent: seq<Packet>, got: seq<Packet>,
                    junk: nat -> byte)
    requires GoodConf(c) && here.sideChannel == c.sideChannel && wire != "" && Flow(c, t, r, wire, sent, got)
    ensures var x := RecvBuf(here, r, wire, junk);
            x.Ok? && x.value.1 && Flow(c, t, x.value.0, "", sent, got)
  {
    hide RecvSc, RecvNormal, Flow;
    WireIsText(c, t, r, wire, sent, got);
    if c.sideChannel {
      ReceiveSc(c, t, r, wire, sent, got, junk);
    } else {
      ReceiveNormal(c, t, r, wire, sent, got);
    }
  }

  /** Text without a blank line is ignored by both receivers. */
  lemma NoBlankIgnored(c: Conf, r: Receiver, buf: string, junk: nat -> byte)
    requires '\0' !in buf && forall i, j :: 0 <= i < j <= |buf| && j == i + 4 ==> buf[i..j] != "\r\n\r\n"
    ensures RecvBuf(c, r, buf, junk) == Ok((r, false))
  {
    hide Find;
    forall i: nat ensures !At(buf, i, BLANK) {
      if i + 4 <= |buf| {
        assert buf[i..][..4] == buf[i..i + 4];
      }
    }
  }

  lemma ReplyIsText(c: Conf)
    ensures 0 < |Reply(c)| < BUF && CStr(Reply(c)) == Reply(c)
  {
    hide Message, CStr;
    var line := if c.server then "HTTP/1.1 200 OK" else "GET / HTTP/1.1";
    BareLength(line);
    MessageNoNul([line], "");
  }

  /** Reading a bare request or response is recognised as no data and changes nothing. */
  lemma FlowBare(c: Conf, far: Conf, here: Conf, t: Tx, r: Receiver, wire: string, sent: seq<Packet>,
                 got: seq<Packet>, junk: nat -> byte)
    requires Flow(c, t, r, wire, sent, got)
    ensures RecvBuf(here, r, Reply(far), junk) == Ok((r, false))
  {
    hide Find, Scan, ParseNormal, DataText, Next;
    ReplyIsText(far);
    var line := if far.server then "HTTP/1.1 200 OK" else "GET / HTTP/1.1";
    BareMessage(line, r.pkt.Some?, Rx(r.pkt, r.off, 0), junk);
    BareNormal(line);
  }
}
