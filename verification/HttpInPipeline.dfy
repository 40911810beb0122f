/** The HTTP transport as a module of the pipeline: tp_http_process of src/modules/tp_http.c
    keeps the module interface that Pipeline asks for, and what the pipeline makes it do are the
    events of HttpProtocol. */
module HttpInPipeline {
  import opened Wrappers
  import opened PacketKind
  import Pipeline
  import opened Base64
  import opened HttpText
  import opened HttpTransport
  import opened HttpFlow
  import opened HttpProtocol

  /** tp_http_process for a SEND packet, or polled: the new state, the response the pipeline sees,
      the packet handed to it, and the bytes written. */
  function Process(e: Endpoint, pkt: Option<Packet>)
    : Result<(Endpoint, Pipeline.Response, Option<Packet>, string), Fault>
    requires Sendable(e.tx) && (e.tx.q == [] ==> e.tx.off == 0)
  {
    if pkt.None? then
      var (r, next) := PktRecv(e.rx);
      var response :=
        if next.Some? then Pipeline.Emitted(Recv, Pipeline.PutBack) else Pipeline.Consumed(Pipeline.PutBack);
      Ok((e.(rx := r), response, next, ""))
    else
      match PktSend(e.conf, e.tx, pkt.value)
      case Err(f) => Err(f)
      case Ok((t, out)) =>
        Ok((e.(tx := t), Pipeline.Consumed(if t.q == [] then Pipeline.PutBack else Pipeline.Kept), None, out))
  }

  /** What the pipeline knows of a packet it gives to a transport. */
  function Given(pkt: Option<Packet>): Option<PacketType> { if pkt.Some? then Some(Send) else None }

  /** The packet that Process took is still in the send queue exactly if it is reported as kept. */
  lemma KeptIsQueued(c: Conf, t: Tx, p: Packet)
    requires Sendable(t) && (t.q == [] ==> t.off == 0) && (t.ready ==> t.q == []) && PktSend(c, t, p).Ok?
    ensures var q := PktSend(c, t, p).value.0.q;
            q == [] || (q[|q| - 1] == p && |q| == |t.q| + 1)
  {
    hide DataText;
  }

  /** The outcome x of Process keeps the interface of a transport: it takes SEND, emits RECV and
      only when polled, never fails, and a packet it keeps is the last of its queue. */
  ghost predicate Keeps(e: Endpoint, pkt: Option<Packet>, x: (Endpoint, Pipeline.Response, Option<Packet>, string)) {
    && Pipeline.Keeps(Pipeline.Transport, Given(pkt), x.1) && !x.1.Failed?
    && (x.1.Emitted? <==> x.2.Some?)
    && (pkt.Some? && x.1 == Pipeline.Consumed(Pipeline.Kept) ==>
          var q := x.0.tx.q; q != [] && q[|q| - 1] == pkt.value)
  }

  lemma EndpointKeeps(e: Endpoint, pkt: Option<Packet>)
    requires Sendable(e.tx) && (e.tx.q == [] ==> e.tx.off == 0) && (e.tx.ready ==> e.tx.q == [])
    requires pkt.Some? ==> PktSend(e.conf, e.tx, pkt.value).Ok?
    ensures Process(e, pkt).Ok? && Keeps(e, pkt, Process(e, pkt).value)
  {
    hide PktSend;
    if pkt.Some? {
      KeptIsQueued(e.conf, e.tx, pkt.value);
    }
  }

  /** In every state that can be reached, the client's transport keeps the module interface, and
      what the pipeline makes it do is a send or a take of the protocol. */
  lemma ClientKeepsInterface(s: Sys, pkt: Option<Packet>, junk: nat -> byte)
    requires Inv(s) && (pkt.Some? ==> Carried(s.cli.conf.sideChannel, pkt.value))
    ensures Steady(s) && Process(s.cli, pkt).Ok? && Keeps(s.cli, pkt, Process(s.cli, pkt).value)
    ensures var x := Process(s.cli, pkt).value;
            var n := Step(s, if pkt.Some? then SendC(pkt.value) else TakeC, junk);
            && n.Ok? && n.value.cli == x.0 && n.value.srv == s.srv
            && n.value.conn0.data == s.conn0.data + x.3
            && n.value.gotC == if x.2.Some? then s.gotC + [x.2.value] else s.gotC
  {
    hide Flow, PktSend, PktRecv, Token, Keeps;
    InvSteady(s);
    StepKeepsInv(s, if pkt.Some? then SendC(pkt.value) else TakeC, junk);
    ReadyIsIdle(s);
    EndpointKeeps(s.cli, pkt);
    assert s.conn0.data + "" == s.conn0.data;
  }

  /** The same for the server. */
  lemma ServerKeepsInterface(s: Sys, pkt: Option<Packet>, junk: nat -> byte)
    requires Inv(s) && (pkt.Some? ==> Carried(s.srv.conf.sideChannel, pkt.value))
    ensures Steady(s) && Process(s.srv, pkt).Ok? && Keeps(s.srv, pkt, Process(s.srv, pkt).value)
    ensures var x := Process(s.srv, pkt).value;
            var n := Step(s, if pkt.Some? then SendS(pkt.value) else TakeS, junk);
            && n.Ok? && n.value.srv == x.0 && n.value.cli == s.cli
            && n.value.conn1.data == s.conn1.data + x.3
            && n.value.gotS == if x.2.Some? then s.gotS + [x.2.value] else s.gotS
  {
    hide Flow, PktSend, PktRecv, Token, Keeps;
    InvSteady(s);
    StepKeepsInv(s, if pkt.Some? then SendS(pkt.value) else TakeS, junk);
    ReadyIsIdle(s);
    EndpointKeeps(s.srv, pkt);
    assert s.conn1.data + "" == s.conn1.data;
  }

  lemma ReadyIsIdle(s: Sys)
    requires Inv(s)
    ensures s.cli.tx.ready ==> s.cli.tx.q == []
    ensures s.srv.tx.ready ==> s.srv.tx.q == []
  {
    hide Flow;
  }
}
