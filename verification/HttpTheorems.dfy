/** What the HTTP transport guarantees over every run. */
module HttpTheorems {
  import opened Wrappers
  import opened CText
  import opened Base64
  import opened HttpText
  import opened HttpTransport
  import opened HttpFlow
  import opened HttpProtocol

  // ----- A reliable FIFO channel in each direction -----

  /** sent = taken, then queued at the receiver, then at most one packet between the two
      queues, then queued at the sender. */
  ghost predicate InOrder(sent: seq<Packet>, got: seq<Packet>, rxq: seq<Packet>, txq: seq<Packet>) {
    exists transit: seq<Packet> :: |transit| <= 1 && sent == got + rxq + transit + txq
  }

  lemma FlowInOrder(c: Conf, t: Tx, r: Receiver, wire: string, sent: seq<Packet>, got: seq<Packet>)
    requires Flow(c, t, r, wire, sent, got)
    ensures InOrder(sent, got, r.q, t.q)
  {
    hide DataText;
    var j, k := |sent| - |t.q|, |got| + |r.q|;
    assert k <= j <= k + 1;
    assert sent == sent[..k] + sent[k..j] + sent[j..];
  }

  /** No packet is lost, duplicated, reordered or altered, in either direction, whatever the
      schedule. */
  lemma Tunnel(c: Conf, s: Conf, acts: seq<Action>)
    requires Configured(c, s)
    ensures Run(Init(c, s), acts).Ok?
    ensures var x := Run(Init(c, s), acts).value;
            && InOrder(x.sentC, x.gotS, x.srv.rx.q, x.cli.tx.q)
            && InOrder(x.sentS, x.gotC, x.cli.rx.q, x.srv.tx.q)
  {
    hide Run, Flow, InOrder;
    EveryRunIsSafe(c, s, acts);
    var x := Run(Init(c, s), acts).value;
    FlowInOrder(x.cli.conf, x.cli.tx, x.srv.rx, x.conn0.data, x.sentC, x.gotS);
    FlowInOrder(x.srv.conf, x.srv.tx, x.cli.rx, x.conn1.data, x.sentS, x.gotC);
  }

  /** Each direction seen from outside: what went in and what came out. */
  datatype Channel = Channel(sent: seq<Packet>, got: seq<Packet>)

  ghost predicate Put(a: Channel, b: Channel, p: Packet) { b == Channel(a.sent + [p], a.got) }

  /** Either nothing is ready yet, or exactly the oldest packet not yet taken comes out. */
  ghost predicate Got(a: Channel, b: Channel, o: Option<Packet>) {
    match o
    case None => b == a
    case Some(p) => |a.got| < |a.sent| && p == a.sent[|a.got|] && b == Channel(a.sent, a.got + [p])
  }

  function ToServer(s: Sys): Channel { Channel(s.sentC, s.gotS) }

  function ToClient(s: Sys): Channel { Channel(s.sentS, s.gotC) }

  lemma TakeGets(c: Conf, t: Tx, r: Receiver, wire: string, sent: seq<Packet>, got: seq<Packet>)
    requires Flow(c, t, r, wire, sent, got)
    ensures var o := PktRecv(r).1;
            Got(Channel(sent, got), Channel(sent, if o.Some? then got + [o.value] else got), o)
  {
    hide DataText, Next;
    FlowDequeue(c, t, r, wire, sent, got);
    assert r.q != [] ==> |got| < |sent|;
  }

  /** Every step of the transport is a step of two FIFO channels, or changes neither. */
  lemma RefinesFifo(s: Sys, ev: Event, junk: nat -> byte)
    requires Inv(s) && Enabled(s, ev)
    ensures Steady(s) && Step(s, ev, junk).Ok?
    ensures var n := Step(s, ev, junk).value;
            && (match ev
                case SendC(p) => Put(ToServer(s), ToServer(n), p)
                case TakeS => Got(ToServer(s), ToServer(n), PktRecv(s.srv.rx).1)
                case _ => ToServer(n) == ToServer(s))
            && (match ev
                case SendS(p) => Put(ToClient(s), ToClient(n), p)
                case TakeC => Got(ToClient(s), ToClient(n), PktRecv(s.cli.rx).1)
                case _ => ToClient(n) == ToClient(s))
  {
    hide Flow, PktSend, PktRecv, Token, HandleMessage;
    StepKeepsInv(s, ev, junk);
    TakeGets(s.cli.conf, s.cli.tx, s.srv.rx, s.conn0.data, s.sentC, s.gotS);
    TakeGets(s.srv.conf, s.srv.tx, s.cli.rx, s.conn1.data, s.sentS, s.gotC);
  }

  // ----- Tokens -----

  function Count(b: bool): nat { if b then 1 else 0 }

  /** Nothing, or exactly one whole message that carries the data of some packet. */
  ghost predicate OneMessage(c: Conf, data: string, sent: seq<Packet>) {
    data == "" || exists k: nat, off: nat :: k < |sent| && off <= |sent[k]| && data == DataText(c, sent[k], off)
  }

  ghost predicate Tokens(s: Sys) {
    && Count(s.cli.tx.ready) + Count(s.conn0.data != "") + Count(s.conn0.back != "") == 1
    && Count(s.srv.tx.ready) + Count(s.conn1.data != "") + Count(s.conn1.back != "") == Count(s.started)
    && (s.cli.tx.ready ==> s.cli.tx.q == []) && (s.srv.tx.ready ==> s.srv.tx.q == [])
    && OneMessage(s.cli.conf, s.conn0.data, s.sentC) && OneMessage(s.srv.conf, s.conn1.data, s.sentS)
    && s.conn0.back in {"", "HTTP/1.1 200 OK\r\n\r\n"} && s.conn1.back in {"", "GET / HTTP/1.1\r\n\r\n"}
  }

  lemma FlowOneMessage(c: Conf, t: Tx, r: Receiver, wire: string, sent: seq<Packet>, got: seq<Packet>)
    requires Flow(c, t, r, wire, sent, got)
    ensures OneMessage(c, wire, sent)
  {
    hide DataText, Next;
  }

  /** Under every schedule there is exactly one token on each open connection: parked at the
      sender, data, or reply. A parked sender has nothing left to send, and no two messages are
      ever under way together, so one read never returns parts of two. */
  lemma OneToken(c: Conf, s: Conf, acts: seq<Action>)
    requires Configured(c, s)
    ensures Run(Init(c, s), acts).Ok? && Tokens(Run(Init(c, s), acts).value)
  {
    hide Run, Flow, OneMessage, RespText, GetText;
    EveryRunIsSafe(c, s, acts);
    var x := Run(Init(c, s), acts).value;
    BareTexts();
    ReplyIsText(x.cli.conf);
    ReplyIsText(x.srv.conf);
    FlowOneMessage(x.cli.conf, x.cli.tx, x.srv.rx, x.conn0.data, x.sentC, x.gotS);
    FlowOneMessage(x.srv.conf, x.srv.tx, x.cli.rx, x.conn1.data, x.sentS, x.gotC);
  }

  /** Data is only ever written by the endpoint whose packets the connection carries: a worker
      that reads data answers with a bare status or a bare request, without touching what it has
      to send; the client opens the server's connection with a bare request. */
  lemma OwnConnectionOnly(s: Sys, ev: Event, junk: nat -> byte)
    requires Inv(s) && Enabled(s, ev)
    ensures Steady(s) && Step(s, ev, junk).Ok?
    ensures var n := Step(s, ev, junk).value;
            && (ev.ReadS0? ==>
                  n.srv.tx == s.srv.tx && n.conn0 == Link("", "HTTP/1.1 200 OK\r\n\r\n") && n.conn1 == s.conn1)
            && (ev.ReadC1? ==>
                  n.cli.tx == s.cli.tx && n.conn1 == Link("", "GET / HTTP/1.1\r\n\r\n") && n.conn0 == s.conn0)
            && (ev.Start? ==> n.cli == s.cli && n.conn1 == Link("", "GET / HTTP/1.1\r\n\r\n") && n.conn0 == s.conn0)
            && (ev.ReadC0? ==> n.cli.rx == s.cli.rx && n.conn1 == s.conn1)
            && (ev.ReadS1? ==> n.srv.rx == s.srv.rx && n.conn0 == s.conn0)
  {
    hide Flow, HandleMessage, ReadBytes, PktSend, PktRecv, RespText, GetText;
    var c, v := s.cli, s.srv;
    InvSteady(s);
    BareTexts();
    StepKeepsInv(s, ev, junk);
    match ev {
    case ReadC0 => LinkReadBack(c.conf, v.conf, c.tx, v.rx, s.conn0, true, s.sentC, s.gotS, v.tx, c.rx, s.conn1.data,
        s.sentS, s.gotC, junk);
    case ReadC1 => LinkReadData(v.conf, c.conf, v.tx, c.rx, s.conn1, s.started, s.sentS, s.gotC, c.tx, junk);
    case ReadS0 => LinkReadData(c.conf, v.conf, c.tx, v.rx, s.conn0, true, s.sentC, s.gotS, v.tx, junk);
    case ReadS1 => LinkReadBack(v.conf, c.conf, v.tx, c.rx, s.conn1, s.started, s.sentS, s.gotC, c.tx, v.rx,
        s.conn0.data, s.sentC, s.gotS, junk);
    case _ =>
    }
  }

  // ----- Reassembly -----

  /** The receiver stands where the sender stands, and holds exactly that prefix of the packet
      at the head of the send queue. */
  ghost predicate InStep(t: Tx, r: Receiver) {
    && r.off == t.off && (r.pkt.None? <==> r.off == 0)
    && (r.pkt.Some? ==>
          && t.q != [] && |r.pkt.value| == |t.q[0]| && r.off < |t.q[0]|
          && r.pkt.value[..r.off] == t.q[0][..r.off])
  }

  lemma FlowInStep(c: Conf, t: Tx, r: Receiver, sent: seq<Packet>, got: seq<Packet>)
    requires Flow(c, t, r, "", sent, got)
    ensures InStep(t, r)
  {
    hide DataText, Next;
    var j := |sent| - |t.q|;
    assert r.pkt.Some? ==> t.q[0] == sent[j];
  }

  /** Under every schedule, whenever a direction has no data under way its receiver is in step
      with its sender. */
  lemma Reassembly(c: Conf, s: Conf, acts: seq<Action>)
    requires Configured(c, s)
    ensures Run(Init(c, s), acts).Ok?
    ensures var x := Run(Init(c, s), acts).value;
            && (x.conn0.data == "" ==> InStep(x.cli.tx, x.srv.rx))
            && (x.conn1.data == "" ==> InStep(x.srv.tx, x.cli.rx))
  {
    hide Run, Flow, InStep;
    EveryRunIsSafe(c, s, acts);
    var x := Run(Init(c, s), acts).value;
    if x.conn0.data == "" {
      FlowInStep(x.cli.conf, x.cli.tx, x.srv.rx, x.sentC, x.gotS);
    }
    if x.conn1.data == "" {
      FlowInStep(x.srv.conf, x.srv.tx, x.cli.rx, x.sentS, x.gotC);
    }
  }

  // ----- Progress -----

  /** How many messages n bytes of a packet take. */
  function Cost(sideChannel: bool, n: int): int { if sideChannel then (n + 15) / 16 else 1 }

  /** How many messages a send queue takes from its current offset. */
  function Left(sideChannel: bool, q: seq<Packet>, off: nat): int
    decreases |q|
  {
    if q == [] then 0 else Cost(sideChannel, |q[0]| - off) + Left(sideChannel, q[1..], 0)
  }

  /** How many reads a connection needs until nothing is left to do on it. */
  function LinkWork(c: Conf, t: Tx, l: Link, open: bool): int {
    2 * Left(c.sideChannel, t.q, t.off)
    + (if l.data != "" then 2 else if l.back != "" then 1 else if open then 0 else 2)
  }

  function Work(s: Sys): int {
    LinkWork(s.cli.conf, s.cli.tx, s.conn0, true) + LinkWork(s.srv.conf, s.srv.tx, s.conn1, s.started)
  }

  /** The steps the transport takes by itself, without anyone handing over packets. */
  predicate Internal(ev: Event) { ev.Start? || ev.ReadC0? || ev.ReadC1? || ev.ReadS0? || ev.ReadS1? }

  lemma {:induction false} LeftNonNegative(sideChannel: bool, q: seq<Packet>, off: nat)
    requires q != [] ==> off <= |q[0]|
    requires sideChannel ==> forall i :: 0 <= i < |q| ==> q[i] != []
    ensures Left(sideChannel, q, off) >= 0
    ensures q != [] && (sideChannel ==> off < |q[0]|) ==> Left(sideChannel, q, off) > 0
    decreases |q|
  {
    if q != [] {
      assert |q| > 1 ==> q[1..][0] == q[1];
      LeftNonNegative(sideChannel, q[1..], 0);
    }
  }

  lemma AdvanceLeft(c: Conf, t: Tx)
    requires t.q != [] && (if c.sideChannel then t.off < |t.q[0]| else t.off == 0)
    ensures var a := Advance(c, t); Left(c.sideChannel, a.q, a.off) == Left(c.sideChannel, t.q, t.off) - 1
  {}

  /** The sender never stands at the end of a packet. */
  lemma MoreToSend(c: Conf, t: Tx, r: Receiver, wire: string, sent: seq<Packet>, got: seq<Packet>)
    requires Flow(c, t, r, wire, sent, got) && t.q != []
    ensures if c.sideChannel then t.off < |t.q[0]| else t.off == 0
  {
    hide DataText;
    var j := |sent| - |t.q|;
    assert t.q[0] == sent[j] && sent[j] in sent;
  }

  lemma LinkWorkNonNegative(c: Conf, far: Conf, t: Tx, r: Receiver, l: Link, open: bool, sent: seq<Packet>,
                            got: seq<Packet>)
    requires LinkInv(c, far, t, r, l, open, sent, got)
    ensures LinkWork(c, t, l, open) >= 0
    ensures LinkWork(c, t, l, open) == 0 ==> open && t.q == [] && l == Link("", "")
    ensures open && l == Link("", "") ==> LinkWork(c, t, l, open) == 0
  {
    hide DataText, Next;
    FlowSteady(c, t, r, l.data, sent, got);
    forall i | 0 <= i < |t.q| ensures Carried(c.sideChannel, t.q[i]) {
      assert t.q[i] == sent[|sent| - |t.q| + i];
      assert t.q[i] in sent;
    }
    LeftNonNegative(c.sideChannel, t.q, t.off);
    if t.q != [] {
      MoreToSend(c, t, r, l.data, sent, got);
    }
  }

  lemma ReadBackWork(c: Conf, far: Conf, t: Tx, r: Receiver, l: Link, open: bool, sent: seq<Packet>, got: seq<Packet>)
    requires GoodConf(c) && LinkInv(c, far, t, r, l, open, sent, got) && l.back != ""
    requires Sendable(t) && SendNext(c, t).Ok?
    ensures var (t', out) := SendNext(c, t).value;
            LinkWork(c, t', Link(out, ""), open) == LinkWork(c, t, l, open) - 1
  {
    hide DataText, Flow, Left;
    FlowSend(c, t, r, sent, got);
    if t.q != [] {
      MoreToSend(c, t, r, l.data, sent, got);
      AdvanceLeft(c, t);
    }
  }

  lemma ReadDataWork(c: Conf, far: Conf, t: Tx, l: Link, open: bool)
    requires l.data != ""
    ensures LinkWork(c, t, Link("", Reply(far)), open) == LinkWork(c, t, l, open) - 1
  {
    hide Left, Reply;
    ReplyIsText(far);
  }

  lemma StartWork(c: Conf, far: Conf, t: Tx, l: Link)
    requires l == Link("", "")
    ensures LinkWork(c, t, Link("", Reply(far)), true) == LinkWork(c, t, l, false) - 1
  {
    hide Left, Reply;
    ReplyIsText(far);
  }

  lemma ReadDataStepWorks(s: Sys, ev: Event, junk: nat -> byte)
    requires Inv(s) && Enabled(s, ev) && (ev.ReadC1? || ev.ReadS0?)
    ensures Steady(s) && Step(s, ev, junk).Ok?
    ensures Work(Step(s, ev, junk).value) == Work(s) - 1
  {
    hide Flow, HandleMessage, ReadBytes, LinkWork, Reply, Token;
    var c, v := s.cli, s.srv;
    InvSteady(s);
    if ev.ReadC1? {
      LinkReadData(v.conf, c.conf, v.tx, c.rx, s.conn1, s.started, s.sentS, s.gotC, c.tx, junk);
      ReadDataWork(v.conf, c.conf, v.tx, s.conn1, s.started);
    } else {
      LinkReadData(c.conf, v.conf, c.tx, v.rx, s.conn0, true, s.sentC, s.gotS, v.tx, junk);
      ReadDataWork(c.conf, v.conf, c.tx, s.conn0, true);
    }
  }

  lemma ReadBackStepWorks(s: Sys, ev: Event, junk: nat -> byte)
    requires Inv(s) && Enabled(s, ev) && (ev.ReadC0? || ev.ReadS1?)
    ensures Steady(s) && Step(s, ev, junk).Ok?
    ensures Work(Step(s, ev, junk).value) == Work(s) - 1
  {
    hide Flow, HandleMessage, ReadBytes, LinkWork, SendNext, Token;
    var c, v := s.cli, s.srv;
    InvSteady(s);
    if ev.ReadC0? {
      LinkReadBack(c.conf, v.conf, c.tx, v.rx, s.conn0, true, s.sentC, s.gotS, v.tx, c.rx, s.conn1.data, s.sentS,
                   s.gotC, junk);
      ReadBackWork(c.conf, v.conf, c.tx, v.rx, s.conn0, true, s.sentC, s.gotS);
    } else {
      LinkReadBack(v.conf, c.conf, v.tx, c.rx, s.conn1, s.started, s.sentS, s.gotC, c.tx, v.rx, s.conn0.data,
                   s.sentC, s.gotS, junk);
      ReadBackWork(v.conf, c.conf, v.tx, c.rx, s.conn1, s.started, s.sentS, s.gotC);
    }
  }

  /** Before the client opens it, nothing is under way on the server's connection. */
  lemma ClosedIsSilent(s: Sys)
    requires Inv(s) && !s.started
    ensures s.conn1 == Link("", "")
  {
    hide Flow;
  }

  /** Every step the transport takes by itself brings it exactly one step closer to the end. */
  lemma InternalStepWorks(s: Sys, ev: Event, junk: nat -> byte)
    requires Inv(s) && Enabled(s, ev) && Internal(ev)
    ensures Steady(s) && Step(s, ev, junk).Ok?
    ensures Work(Step(s, ev, junk).value) == Work(s) - 1
  {
    hide Inv, Work, Step;
    match ev {
    case ReadC0 => ReadBackStepWorks(s, ev, junk);
    case ReadS1 => ReadBackStepWorks(s, ev, junk);
    case ReadC1 => ReadDataStepWorks(s, ev, junk);
    case ReadS0 => ReadDataStepWorks(s, ev, junk);
    case Start => StartStepWorks(s, junk);
    }
  }

  lemma StartStepWorks(s: Sys, junk: nat -> byte)
    requires Inv(s) && !s.started
    ensures Steady(s) && Step(s, Start, junk).Ok? && Work(Step(s, Start, junk).value) == Work(s) - 1
  {
    hide Inv, LinkWork, GetText;
    InvSteady(s);
    InvConf(s);
    ClosedIsSilent(s);
    StartWork(s.srv.conf, s.cli.conf, s.srv.tx, s.conn1);
    assert s.conn1.back + GetText() == GetText();
  }

  lemma InvConf(s: Sys)
    requires Inv(s)
    ensures !s.cli.conf.server && s.srv.conf.server
  {}

  /** Every packet handed over has reached the far receive queue; both senders are ready. */
  ghost predicate Drained(s: Sys) {
    && s.started && s.cli.tx.ready && s.srv.tx.ready && s.conn0 == Link("", "") && s.conn1 == Link("", "")
    && s.gotS + s.srv.rx.q == s.sentC && s.gotC + s.cli.rx.q == s.sentS
    && s.srv.rx.pkt.None? && s.cli.rx.pkt.None?
  }

  lemma FlowDrained(c: Conf, t: Tx, r: Receiver, sent: seq<Packet>, got: seq<Packet>)
    requires Flow(c, t, r, "", sent, got) && t.q == []
    ensures got + r.q == sent && r.pkt.None?
  {
    assert sent[..|sent|] == sent;
  }

  /** Both connections are open and silent. */
  predicate Silent(s: Sys) { s.started && s.conn0 == Link("", "") && s.conn1 == Link("", "") }

  lemma WorkIsNothing(s: Sys)
    requires Inv(s)
    ensures Work(s) >= 0 && (Work(s) == 0 <==> Silent(s))
  {
    hide Flow, Left, LinkWork, Token;
    var c, v := s.cli, s.srv;
    LinkWorkNonNegative(c.conf, v.conf, c.tx, v.rx, s.conn0, true, s.sentC, s.gotS);
    LinkWorkNonNegative(v.conf, c.conf, v.tx, c.rx, s.conn1, s.started, s.sentS, s.gotC);
  }

  lemma SilentIsDrained(s: Sys)
    requires Inv(s)
    ensures Silent(s) <==> Drained(s)
  {
    hide Flow;
    if Silent(s) {
      FlowDrained(s.cli.conf, s.cli.tx, s.srv.rx, s.sentC, s.gotS);
      FlowDrained(s.srv.conf, s.srv.tx, s.cli.rx, s.sentS, s.gotC);
    }
  }

  /** Nothing is stranded: unless everything has arrived, some step is enabled; and nothing is
      left to do exactly when the work is zero. */
  lemma NothingStranded(s: Sys)
    requires Inv(s)
    ensures Work(s) >= 0
    ensures Work(s) == 0 <==> Drained(s)
    ensures Work(s) == 0 <==> forall ev :: Internal(ev) ==> !Enabled(s, ev)
  {
    hide Inv, Work, Drained;
    WorkIsNothing(s);
    SilentIsDrained(s);
    if !s.started {
      assert Enabled(s, Start);
    } else if !Silent(s) {
      assert Enabled(s, ReadC0) || Enabled(s, ReadC1) || Enabled(s, ReadS0) || Enabled(s, ReadS1);
    }
  }

  /** Every action is an enabled step of the transport itself. */
  ghost predicate OwnSteps(s: Sys, acts: seq<Action>)
    decreases |acts|
  {
    acts == [] ||
    (Internal(acts[0].ev) && Enabled(s, acts[0].ev) && Steady(s) && Step(s, acts[0].ev, acts[0].junk).Ok?
     && OwnSteps(Step(s, acts[0].ev, acts[0].junk).value, acts[1..]))
  }

  /** Left alone in any reachable state, the transport takes at most Work(s) steps, in whatever
      order, and after exactly that many everything handed over has arrived. */
  lemma {:induction false} Drains(s: Sys, acts: seq<Action>)
    requires Inv(s) && OwnSteps(s, acts)
    ensures |acts| <= Work(s) && Run(s, acts).Ok?
    ensures Drained(Run(s, acts).value) <==> |acts| == Work(s)
    decreases |acts|
  {
    hide Inv, Step, Enabled, Steady, Work, Drained;
    if acts == [] {
      NothingStranded(s);
    } else {
      StepKeepsInv(s, acts[0].ev, acts[0].junk);
      InternalStepWorks(s, acts[0].ev, acts[0].junk);
      Drains(Step(s, acts[0].ev, acts[0].junk).value, acts[1..]);
    }
  }

  lemma {:induction false} LeftAppend(sideChannel: bool, q: seq<Packet>, off: nat, p: Packet)
    requires q == [] ==> off == 0
    ensures Left(sideChannel, q + [p], off) == Left(sideChannel, q, off) + Cost(sideChannel, |p|)
    decreases |q|
  {
    if q != [] {
      assert (q + [p])[1..] == q[1..] + [p];
      LeftAppend(sideChannel, q[1..], 0, p);
    }
  }

  lemma SendWork(c: Conf, far: Conf, t: Tx, r: Receiver, l: Link, open: bool, sent: seq<Packet>, got: seq<Packet>,
                 p: Packet)
    requires GoodConf(c) && Carried(c.sideChannel, p) && LinkInv(c, far, t, r, l, open, sent, got)
    requires Sendable(t) && (t.q == [] ==> t.off == 0) && PktSend(c, t, p).Ok?
    ensures var (t', out) := PktSend(c, t, p).value;
            LinkWork(c, t', l.(data := l.data + out), open) == LinkWork(c, t, l, open) + 2 * Cost(c.sideChannel, |p|)
  {
    hide DataText, Flow, Left;
    var t1 := t.(q := t.q + [p]);
    LeftAppend(c.sideChannel, t.q, t.off, p);
    FlowEnqueue(c, t, r, l.data, sent, got, p);
    if t.ready {
      FlowSend(c, t1, r, sent + [p], got);
      MoreToSend(c, t1, r, "", sent + [p], got);
      AdvanceLeft(c, t1);
    } else {
      assert l.data + "" == l.data;
    }
  }

  /** A packet of n bytes costs exactly one message each way per 16 bytes begun, in whatever
      state it is handed over. */
  lemma PacketCost(s: Sys, p: Packet, junk: nat -> byte)
    requires Inv(s) && Carried(s.cli.conf.sideChannel, p)
    ensures Steady(s) && Step(s, SendC(p), junk).Ok? && Step(s, SendS(p), junk).Ok?
    ensures var more := if s.cli.conf.sideChannel then 2 * ((|p| + 15) / 16) else 2;
            && Work(Step(s, SendC(p), junk).value) == Work(s) + more
            && Work(Step(s, SendS(p), junk).value) == Work(s) + more
  {
    hide Flow, PktSend, Left, LinkWork;
    var c, v := s.cli, s.srv;
    InvSteady(s);
    StepKeepsInv(s, SendC(p), junk);
    StepKeepsInv(s, SendS(p), junk);
    SendWork(c.conf, v.conf, c.tx, v.rx, s.conn0, true, s.sentC, s.gotS, p);
    SendWork(v.conf, c.conf, v.tx, c.rx, s.conn1, s.started, s.sentS, s.gotC, p);
  }

  // ----- Why empty packets are excluded from the side channel -----

  /** No data message is mistaken for the reply of its sender. */
  lemma NeverSendsReply(c: Conf, t: Tx)
    requires Sendable(t) && SendNext(c, t).Ok? && c.sideChannel
    ensures SendNext(c, t).value.1 != Reply(c)
  {
    hide ClientText, ServerText, Message, Fragment;
    BareLength("HTTP/1.1 200 OK");
    BareLength("GET / HTTP/1.1");
    if t.q != [] {
      var size := if t.off == 0 then Some(|t.q[0]|) else None;
      FragmentShort(t.q[0], t.off);
      ServerFits(size, Fragment(t.q[0], t.off));
      ClientLength(c.remote, size, Fragment(t.q[0], t.off));
    }
  }

  lemma EmptySend(c: Conf)
    requires GoodConf(c) && c.sideChannel
    ensures 0 < |DataText(c, [], 0)| < BUF
    ensures PktSend(c, Tx([], 0, true), []) == Ok((Tx([], 0, false), DataText(c, [], 0)))
  {
    hide ClientText, ServerText;
    var q: seq<Packet> := [[]];
    assert [] + q == q && q[1..] == [] && Fragment([], 0) == [];
    ServerFits(Some(0), []);
    ClientLength(c.remote, Some(0), []);
  }

  lemma EmptyReceive(c: Conf, here: Conf, r: Receiver, junk: nat -> byte)
    requires GoodConf(c) && c.sideChannel && here.sideChannel && r.pkt.None? && r.off == 0
    ensures RecvBuf(here, r, DataText(c, [], 0), junk) == Ok((Receiver(r.q + [[]], None, 0), false))
  {
    hide ClientText, ServerText, Scan, Find;
    assert Fragment([], 0) == [];
    if c.server {
      ServerNoNul(Some(0), []);
      ServerMessage(Some(0), [], false, Rx(r.pkt, r.off, 0), junk);
    } else {
      ClientNoNul(c.remote, Some(0), []);
      ClientMessage(c.remote, Some(0), [], false, Rx(r.pkt, r.off, 0), junk);
    }
    assert Splice(Recycled(0, junk), 0, []) == [];
  }

  /** The message of an empty packet delivers it, but is not taken for data: in whatever state
      the far side is, it sends on what it has itself, if anything, instead of replying. */
  lemma EmptyUnanswered(c: Conf, far: Conf, t: Tx, r: Receiver, junk: nat -> byte)
    requires GoodConf(c) && c.sideChannel && far.sideChannel && r.pkt.None? && r.off == 0
    requires Sendable(t) && SendNext(far, t).Ok?
    ensures var (t', out) := SendNext(far, t).value;
            && HandleMessage(far, t, r, DataText(c, [], 0), junk) == Ok((t', Receiver(r.q + [[]], None, 0), out))
            && out != Reply(far)
  {
    hide RecvBuf, SendNext, DataText, Reply;
    EmptyReceive(c, far, r, junk);
    NeverSendsReply(far, t);
  }

  /** Whatever an endpoint has to send next fits its buffer. */
  lemma FlowCanSend(c: Conf, t: Tx, r: Receiver, wire: string, sent: seq<Packet>, got: seq<Packet>)
    requires GoodConf(c) && Flow(c, t, r, wire, sent, got)
    ensures Sendable(t) && SendNext(c, t).Ok?
  {
    hide DataText, Next, Advance;
    FlowSteady(c, t, r, wire, sent, got);
    if t.q != [] {
      var j := |sent| - |t.q|;
      assert t.q[0] == sent[j] && sent[j] in sent;
      DataTextFits(c, t.q[0], t.off);
    }
  }

  /** The token of a connection: at the sender, under way as data, or as the reply of far. */
  predicate HasToken(far: Conf, t: Tx, l: Link) { t.ready || l.data != "" || l.back == Reply(far) }

  /** An empty packet handed over on one idle connection and read at the far end. */
  lemma EmptyOnLink(c: Conf, far: Conf, t: Tx, r: Receiver, l: Link, open: bool, sent: seq<Packet>, got: seq<Packet>,
                    t2: Tx, r2: Receiver, wire2: string, sent2: seq<Packet>, got2: seq<Packet>, junk: nat -> byte)
    requires GoodConf(c) && GoodConf(far) && c.sideChannel && far.sideChannel && t.ready
    requires LinkInv(c, far, t, r, l, open, sent, got) && Flow(far, t2, r2, wire2, sent2, got2)
    ensures Sendable(t) && (t.q == [] ==> t.off == 0) && Sendable(t2)
    ensures var text := DataText(c, [], 0);
            && PktSend(c, t, []) == Ok((Tx([], 0, false), text)) && l.data + text != ""
            && ReadBytes(l.data + text) == (text, "")
            && var x := HandleMessage(far, t2, r, text, junk);
               x.Ok? && !HasToken(far, Tx([], 0, false), Link("", l.back + x.value.2))
  {
    hide Flow, DataText, PktSend, HandleMessage, ReadBytes, Reply;
    FlowSteady(c, t, r, l.data, sent, got);
    FlowInStep(c, t, r, sent, got);
    FlowCanSend(far, t2, r2, wire2, sent2, got2);
    EmptySend(c);
    EmptyUnanswered(c, far, t2, r, junk);
    var text := DataText(c, [], 0);
    assert t == Tx([], 0, true);
    assert l.data + text == text;
    WholeRead(text);
    var out := SendNext(far, t2).value.1;
    assert l.back + out == out;
  }

  lemma LinkSendReady(c: Conf, far: Conf, t: Tx, r: Receiver, l: Link, open: bool, sent: seq<Packet>,
                      got: seq<Packet>, p: Packet)
    requires GoodConf(c) && Carried(c.sideChannel, p) && LinkInv(c, far, t, r, l, open, sent, got) && t.ready
    ensures Sendable(t) && (t.q == [] ==> t.off == 0)
    ensures PktSend(c, t, p).Ok? && l.data + PktSend(c, t, p).value.1 != ""
  {
    hide Flow, DataText, SendNext;
    FlowSteady(c, t, r, l.data, sent, got);
    FlowEnqueue(c, t, r, l.data, sent, got, p);
    FlowSend(c, t.(q := t.q + [p]), r, sent + [p], got);
  }

  /** A packet on an idle connection of a side channel is answered with the empty message that
      hands the token back, if and only if it is not empty; after an empty one the connection
      has no token left. */
  lemma AnsweredIffNonEmpty(s: Sys, p: Packet, junk: nat -> byte)
    requires Inv(s) && s.cli.conf.sideChannel && s.cli.tx.ready && |p| < 0x1_0000_0000
    ensures Steady(s) && Step(s, SendC(p), junk).Ok?
    ensures var s1 := Step(s, SendC(p), junk).value;
            && Steady(s1) && Enabled(s1, ReadS0) && Step(s1, ReadS0, junk).Ok?
            && var n := Step(s1, ReadS0, junk).value;
               && (n.conn0 == Link("", "HTTP/1.1 200 OK\r\n\r\n") <==> p != [])
               && (HasToken(n.srv.conf, n.cli.tx, n.conn0) <==> p != [])
  {
    hide Flow, PktSend, HandleMessage, Token, ReadBytes, DataText, RespText, GetText;
    var c, v := s.cli, s.srv;
    InvSteady(s);
    BareTexts();
    if p != [] {
      StepKeepsInv(s, SendC(p), junk);
      var s1 := Step(s, SendC(p), junk).value;
      InvSteady(s1);
      LinkSendReady(c.conf, v.conf, c.tx, v.rx, s.conn0, true, s.sentC, s.gotS, p);
      OwnConnectionOnly(s1, ReadS0, junk);
    } else {
      EmptyOnLink(c.conf, v.conf, c.tx, v.rx, s.conn0, true, s.sentC, s.gotS, v.tx, c.rx, s.conn1.data, s.sentS,
          s.gotC, junk);
    }
  }

  lemma ReadyIsOpen(c: Conf, far: Conf, t: Tx, r: Receiver, l: Link, open: bool, sent: seq<Packet>, got: seq<Packet>)
    requires LinkInv(c, far, t, r, l, open, sent, got) && t.ready
    ensures open
  {}

  /** The same for a packet of the server. */
  lemma ServerAnsweredIffNonEmpty(s: Sys, p: Packet, junk: nat -> byte)
    requires Inv(s) && s.srv.conf.sideChannel && s.srv.tx.ready && |p| < 0x1_0000_0000
    ensures Steady(s) && Step(s, SendS(p), junk).Ok?
    ensures var s1 := Step(s, SendS(p), junk).value;
            && Steady(s1) && Enabled(s1, ReadC1) && Step(s1, ReadC1, junk).Ok?
            && var n := Step(s1, ReadC1, junk).value;
               && (n.conn1 == Link("", "GET / HTTP/1.1\r\n\r\n") <==> p != [])
               && (HasToken(n.cli.conf, n.srv.tx, n.conn1) <==> p != [])
  {
    hide Flow, PktSend, HandleMessage, Token, ReadBytes, DataText, RespText, GetText;
    var c, v := s.cli, s.srv;
    InvSteady(s);
    BareTexts();
    ReadyIsOpen(v.conf, c.conf, v.tx, c.rx, s.conn1, s.started, s.sentS, s.gotC);
    if p != [] {
      StepKeepsInv(s, SendS(p), junk);
      var s1 := Step(s, SendS(p), junk).value;
      InvSteady(s1);
      LinkSendReady(v.conf, c.conf, v.tx, c.rx, s.conn1, s.started, s.sentS, s.gotC, p);
      OwnConnectionOnly(s1, ReadC1, junk);
    } else {
      EmptyOnLink(v.conf, c.conf, v.tx, c.rx, s.conn1, s.started, s.sentS, s.gotC, c.tx, v.rx, s.conn0.data, s.sentC,
          s.gotS, junk);
    }
  }
}
