/** Client and server joined by their two connections, as a state machine whose steps are
    the handlers of src/modules/tp_http.c, each taken as one atomic step. A connection is a
    byte stream in each direction; one read returns everything under way, up to the size of
    the buffer. */
module HttpProtocol {
  import opened Wrappers
  import opened CText
  import opened Base64
  import opened HttpText
  import opened HttpTransport
  import opened HttpFlow

  datatype Endpoint = Endpoint(conf: Conf, tx: Tx, rx: Receiver)

  /** The bytes under way on one connection. data: from the side that sends packets on it;
      back: towards that side. */
  datatype Link = Link(data: string, back: string)

  /** conn[0] carries the packets of the client, conn[1] those of the server. The last four
      fields record what was given to pkt_send and taken from pkt_recv at each side. */
  datatype Sys = Sys(cli: Endpoint, srv: Endpoint, conn0: Link, conn1: Link, started: bool,
                     sentC: seq<Packet>, sentS: seq<Packet>, gotC: seq<Packet>, gotS: seq<Packet>)

  datatype Event =
    | SendC(p: Packet) | SendS(p: Packet)  // tp_http_pkt_send
    | TakeC | TakeS                        // tp_http_pkt_recv
    | Start                                // the client's worker writes its first GET
    | ReadC0 | ReadC1 | ReadS0 | ReadS1    // a worker reads a connection

  function Fresh(c: Conf): Endpoint { Endpoint(c, Tx([], 0, !c.server), Receiver([], None, 0)) }

  function Init(c: Conf, s: Conf): Sys {
    Sys(Fresh(c), Fresh(s), Link("", ""), Link("", ""), false, [], [], [], [])
  }

  predicate Enabled(s: Sys, ev: Event) {
    match ev
    case SendC(p) => Carried(s.cli.conf.sideChannel, p)
    case SendS(p) => Carried(s.srv.conf.sideChannel, p)
    case TakeC => true
    case TakeS => true
    case Start => !s.started
    case ReadC0 => s.started && s.conn0.back != ""
    case ReadC1 => s.started && s.conn1.data != ""
    case ReadS0 => s.conn0.data != ""
    case ReadS1 => s.conn1.back != ""
  }

  /** read() of at most BUF bytes: what is returned and what stays. */
  function ReadBytes(wire: string): (string, string) {
    var n := Min(|wire|, BUF);
    (wire[..n], wire[n..])
  }

  function Handle(e: Endpoint, buf: string, junk: nat -> byte): Result<(Endpoint, string), Fault>
    requires Sendable(e.tx)
  {
    match HandleMessage(e.conf, e.tx, e.rx, buf, junk)
    case Err(f) => Err(f)
    case Ok((t, r, out)) => Ok((Endpoint(e.conf, t, r), out))
  }

  predicate Steady(s: Sys) {
    && Sendable(s.cli.tx) && (s.cli.tx.q == [] ==> s.cli.tx.off == 0)
    && Sendable(s.srv.tx) && (s.srv.tx.q == [] ==> s.srv.tx.off == 0)
  }

  function Step(s: Sys, ev: Event, junk: nat -> byte): Result<Sys, Fault>
    requires Steady(s)
  {
    match ev
    case SendC(p) => (
      match PktSend(s.cli.conf, s.cli.tx, p)
      case Err(f) => Err(f)
      case Ok((t, out)) =>
        Ok(s.(cli := s.cli.(tx := t), conn0 := s.conn0.(data := s.conn0.data + out), sentC := s.sentC + [p])))
    case SendS(p) => (
      match PktSend(s.srv.conf, s.srv.tx, p)
      case Err(f) => Err(f)
      case Ok((t, out)) =>
        Ok(s.(srv := s.srv.(tx := t), conn1 := s.conn1.(data := s.conn1.data + out), sentS := s.sentS + [p])))
    case TakeC =>
      var (r, o) := PktRecv(s.cli.rx);
      Ok(s.(cli := s.cli.(rx := r), gotC := if o.Some? then s.gotC + [o.value] else s.gotC))
    case TakeS =>
      var (r, o) := PktRecv(s.srv.rx);
      Ok(s.(srv := s.srv.(rx := r), gotS := if o.Some? then s.gotS + [o.value] else s.gotS))
    case Start =>
      Ok(s.(started := true, conn1 := s.conn1.(back := s.conn1.back + GetText())))
    case ReadC0 => (
      var (buf, rest) := ReadBytes(s.conn0.back);
      match Handle(s.cli, buf, junk)
      case Err(f) => Err(f)
      case Ok((e, out)) => Ok(s.(cli := e, conn0 := Link(s.conn0.data + out, rest))))
    case ReadC1 => (
      var (buf, rest) := ReadBytes(s.conn1.data);
      match Handle(s.cli, buf, junk)
      case Err(f) => Err(f)
      case Ok((e, out)) => Ok(s.(cli := e, conn1 := Link(rest, s.conn1.back + out))))
    case ReadS0 => (
      var (buf, rest) := ReadBytes(s.conn0.data);
      match Handle(s.srv, buf, junk)
      case Err(f) => Err(f)
      case Ok((e, out)) => Ok(s.(srv := e, conn0 := Link(rest, s.conn0.back + out))))
    case ReadS1 => (
      var (buf, rest) := ReadBytes(s.conn1.back);
      match Handle(s.srv, buf, junk)
      case Err(f) => Err(f)
      case Ok((e, out)) => Ok(s.(srv := e, conn1 := Link(s.conn1.data + out, rest))))
  }

  // ----- The invariant of one connection -----

  /** Who may write next on a connection whose packets come from an endpoint with
      configuration c: it is parked at the sender (thc_send_ready), under way as data, or
      under way as the reply of the far side; before the connection is opened, nobody. */
  ghost predicate Token(far: Conf, t: Tx, l: Link, open: bool) {
    && (l.data != "" ==> open && l.back == "" && !t.ready)
    && (l.back != "" ==> open && l.back == Reply(far) && !t.ready)
    && (l.data == "" && l.back == "" ==> t.ready == open)
    && (t.ready ==> t.q == [])
  }

  ghost predicate LinkInv(c: Conf, far: Conf, t: Tx, r: Receiver, l: Link, open: bool, sent: seq<Packet>,
                          got: seq<Packet>) {
    Token(far, t, l, open) && Flow(c, t, r, l.data, sent, got)
  }

  lemma FlowSteady(c: Conf, t: Tx, r: Receiver, wire: string, sent: seq<Packet>, got: seq<Packet>)
    requires Flow(c, t, r, wire, sent, got)
    ensures Sendable(t) && (t.q == [] ==> t.off == 0)
  {
    hide DataText;
    var j := |sent| - |t.q|;
    assert t.q != [] ==> t.q[0] == sent[j];
  }

  lemma WholeRead(wire: string)
    requires |wire| < BUF
    ensures ReadBytes(wire) == (wire, "")
  {
    assert wire[..|wire|] == wire && wire[|wire|..] == "";
  }

  lemma LinkSend(c: Conf, far: Conf, t: Tx, r: Receiver, l: Link, open: bool, sent: seq<Packet>, got: seq<Packet>,
                 p: Packet)
    requires GoodConf(c) && Carried(c.sideChannel, p) && LinkInv(c, far, t, r, l, open, sent, got)
    ensures Sendable(t) && (t.q == [] ==> t.off == 0) && PktSend(c, t, p).Ok?
    ensures var (t', out) := PktSend(c, t, p).value;
            LinkInv(c, far, t', r, l.(data := l.data + out), open, sent + [p], got)
  {
    hide DataText, SendNext, Flow;
    FlowSteady(c, t, r, l.data, sent, got);
    FlowEnqueue(c, t, r, l.data, sent, got, p);
    if t.ready {
      FlowSend(c, t.(q := t.q + [p]), r, sent + [p], got);
      var (t', out) := SendNext(c, t.(q := t.q + [p])).value;
      assert l.data + out == out;
    } else {
      assert l.data + "" == l.data;
    }
  }

  lemma LinkTake(c: Conf, far: Conf, t: Tx, r: Receiver, l: Link, open: bool, sent: seq<Packet>, got: seq<Packet>)
    requires LinkInv(c, far, t, r, l, open, sent, got)
    ensures var (r', o) := PktRecv(r);
            LinkInv(c, far, t, r', l, open, sent, if o.Some? then got + [o.value] else got)
  {
    hide Flow;
    FlowDequeue(c, t, r, l.data, sent, got);
  }

  lemma LinkOpen(c: Conf, far: Conf, t: Tx, r: Receiver, l: Link, sent: seq<Packet>, got: seq<Packet>)
    requires LinkInv(c, far, t, r, l, false, sent, got)
    ensures LinkInv(c, far, t, r, l.(back := l.back + Reply(far)), true, sent, got)
  {
    hide Flow;
    ReplyIsText(far);
    assert l.back + Reply(far) == Reply(far);
  }

  /** The far side reads data: its receiver moves on, its sender is untouched, it replies. */
  lemma LinkReadData(c: Conf, far: Conf, t: Tx, r: Receiver, l: Link, open: bool, sent: seq<Packet>, got: seq<Packet>,
                     t2: Tx, junk: nat -> byte)
    requires GoodConf(c) && far.sideChannel == c.sideChannel && LinkInv(c, far, t, r, l, open, sent, got)
    requires l.data != "" && Sendable(t2)
    ensures var (buf, rest) := ReadBytes(l.data);
            var x := HandleMessage(far, t2, r, buf, junk);
            x.Ok? && var (t2', r', out) := x.value;
            && t2' == t2 && Link(rest, l.back + out) == Link("", Reply(far))
            && LinkInv(c, far, t, r', Link(rest, l.back + out), open, sent, got)
  {
    hide Flow, RecvBuf, Reply, ReadBytes, CStr;
    WireIsText(c, t, r, l.data, sent, got);
    WholeRead(l.data);
    FlowReceive(c, far, t, r, l.data, sent, got, junk);
    ReplyIsText(far);
    assert l.back + Reply(far) == Reply(far);
  }

  /** The sender reads the reply: it writes the next message or parks; its own receiver, which
      belongs to the other connection, is untouched. */
  lemma LinkReadBack(c: Conf, far: Conf, t: Tx, r: Receiver, l: Link, open: bool, sent: seq<Packet>, got: seq<Packet>,
                     t2: Tx, r2: Receiver, wire2: string, sent2: seq<Packet>, got2: seq<Packet>, junk: nat -> byte)
    requires GoodConf(c) && LinkInv(c, far, t, r, l, open, sent, got)
    requires l.back != "" && Flow(far, t2, r2, wire2, sent2, got2)
    ensures Sendable(t)
    ensures var (buf, rest) := ReadBytes(l.back);
            var x := HandleMessage(c, t, r2, buf, junk);
            x.Ok? && var (t', r2', out) := x.value;
            && r2' == r2 && SendNext(c, t) == Ok((t', out)) && Link(l.data + out, rest) == Link(out, "")
            && LinkInv(c, far, t', r, Link(l.data + out, rest), open, sent, got)
  {
    hide Flow, RecvBuf, SendNext, Reply, ReadBytes, CStr;
    FlowSteady(c, t, r, l.data, sent, got);
    ReplyIsText(far);
    WholeRead(l.back);
    FlowBare(far, far, c, t2, r2, wire2, sent2, got2, junk);
    FlowSend(c, t, r, sent, got);
    var (t', out) := SendNext(c, t).value;
    assert l.data + out == out;
  }

  // ----- The invariant of the whole system -----

  ghost predicate Configured(c: Conf, s: Conf) {
    GoodConf(c) && GoodConf(s) && !c.server && s.server && c.sideChannel == s.sideChannel
  }

  ghost predicate Inv(s: Sys) {
    && Configured(s.cli.conf, s.srv.conf)
    && LinkInv(s.cli.conf, s.srv.conf, s.cli.tx, s.srv.rx, s.conn0, true, s.sentC, s.gotS)
    && LinkInv(s.srv.conf, s.cli.conf, s.srv.tx, s.cli.rx, s.conn1, s.started, s.sentS, s.gotC)
  }

  lemma InvInit(c: Conf, s: Conf)
    requires Configured(c, s)
    ensures Inv(Init(c, s))
  {}

  lemma InvSteady(s: Sys)
    requires Inv(s)
    ensures Steady(s)
  {
    hide Flow;
    FlowSteady(s.cli.conf, s.cli.tx, s.srv.rx, s.conn0.data, s.sentC, s.gotS);
    FlowSteady(s.srv.conf, s.srv.tx, s.cli.rx, s.conn1.data, s.sentS, s.gotC);
  }

  lemma StepRead(s: Sys, ev: Event, junk: nat -> byte)
    requires Inv(s) && Enabled(s, ev) && (ev.ReadC0? || ev.ReadC1? || ev.ReadS0? || ev.ReadS1?)
    ensures Steady(s) && Step(s, ev, junk).Ok? && Inv(Step(s, ev, junk).value)
  {
    hide Flow, ReadBytes, HandleMessage, Token;
    InvSteady(s);
    var c, v := s.cli, s.srv;
    match ev
    case ReadC0 => LinkReadBack(c.conf, v.conf, c.tx, v.rx, s.conn0, true, s.sentC, s.gotS, v.tx, c.rx, s.conn1.data,
        s.sentS, s.gotC, junk);
    case ReadC1 => LinkReadData(v.conf, c.conf, v.tx, c.rx, s.conn1, s.started, s.sentS, s.gotC, c.tx, junk);
    case ReadS0 => LinkReadData(c.conf, v.conf, c.tx, v.rx, s.conn0, true, s.sentC, s.gotS, v.tx, junk);
    case ReadS1 => LinkReadBack(v.conf, c.conf, v.tx, c.rx, s.conn1, s.started, s.sentS, s.gotC, c.tx, v.rx,
        s.conn0.data, s.sentC, s.gotS, junk);
  }

  /** Every handler keeps the invariant and ends without a fault. */
  lemma StepKeepsInv(s: Sys, ev: Event, junk: nat -> byte)
    requires Inv(s) && Enabled(s, ev)
    ensures Steady(s) && Step(s, ev, junk).Ok? && Inv(Step(s, ev, junk).value)
  {
    hide Flow, PktSend, PktRecv, Token;
    InvSteady(s);
    var c, v := s.cli, s.srv;
    match ev
    case SendC(p) => LinkSend(c.conf, v.conf, c.tx, v.rx, s.conn0, true, s.sentC, s.gotS, p);
    case SendS(p) => LinkSend(v.conf, c.conf, v.tx, c.rx, s.conn1, s.started, s.sentS, s.gotC, p);
    case TakeC => LinkTake(v.conf, c.conf, v.tx, c.rx, s.conn1, s.started, s.sentS, s.gotC);
    case TakeS => LinkTake(c.conf, v.conf, c.tx, v.rx, s.conn0, true, s.sentC, s.gotS);
    case Start => LinkOpen(v.conf, c.conf, v.tx, c.rx, s.conn1, s.sentS, s.gotC);
    case _ => StepRead(s, ev, junk);
  }

  // ----- Runs -----

  datatype Action = Action(ev: Event, junk: nat -> byte)

  /** A run under any schedule; an action that is not enabled when its turn comes is skipped. */
  function Run(s: Sys, acts: seq<Action>): Result<Sys, Fault>
    decreases |acts|
  {
    if acts == [] then Ok(s)
    else if !Enabled(s, acts[0].ev) then Run(s, acts[1..])
    else if !Steady(s) then Err(Malformed)
    else
      match Step(s, acts[0].ev, acts[0].junk)
      case Err(f) => Err(f)
      case Ok(s') => Run(s', acts[1..])
  }

  lemma {:induction false} RunKeepsInv(s: Sys, acts: seq<Action>)
    requires Inv(s)
    ensures Run(s, acts).Ok? && Inv(Run(s, acts).value)
    decreases |acts|
  {
    hide Inv, Step, Enabled, Steady;
    if acts != [] {
      if Enabled(s, acts[0].ev) {
        StepKeepsInv(s, acts[0].ev, acts[0].junk);
        RunKeepsInv(Step(s, acts[0].ev, acts[0].junk).value, acts[1..]);
      } else {
        RunKeepsInv(s, acts[1..]);
      }
    }
  }

  /** From the start, under every schedule, no assertion of the source fails, no search comes
      back empty-handed and no copy leaves its buffer. */
  lemma EveryRunIsSafe(c: Conf, s: Conf, acts: seq<Action>)
    requires Configured(c, s)
    ensures Run(Init(c, s), acts).Ok? && Inv(Run(Init(c, s), acts).value)
  {
    InvInit(c, s);
    RunKeepsInv(Init(c, s), acts);
  }
}
