/** The module pipeline of src/pipeline.c and the direction handling of src/module.c. A packet
    is a value here: a name and its pkt_type. */
module Pipeline {
  import opened PacketKind
  import opened Wrappers

  datatype ModuleType = Unknown | Interface | Transport | Plugin

  /** module_pkt_invert */
  function Invert(k: PacketType): PacketType { if k == Send then Recv else Send }

  function InvertIf(invert: bool, k: PacketType): PacketType { if invert then Invert(k) else k }

  // ----- Building -----

  /** The first module is no plugin and every module between the first and the last is one. */
  predicate ListInvariant(kinds: seq<ModuleType>) {
    kinds == [] || (kinds[0] != Plugin && forall i :: 1 <= i < |kinds| - 1 ==> kinds[i] == Plugin)
  }

  predicate Edge(k: ModuleType) { k == Interface || k == Transport }

  /** An edge module, plugins, an edge module. */
  predicate Complete(kinds: seq<ModuleType>) {
    |kinds| > 1 && Edge(kinds[0]) && Edge(kinds[|kinds| - 1]) && forall i :: 1 <= i < |kinds| - 1 ==> kinds[i] == Plugin
  }

  /** Which modules of a pipeline see directions inverted: a transport at the head (gateway) and
      an interface behind it (loopback). */
  function Inverts(kinds: seq<ModuleType>): (inv: seq<bool>)
    ensures |inv| == |kinds|
  {
    seq(|kinds|, i requires 0 <= i < |kinds| => if i == 0 then kinds[i] == Transport else kinds[i] == Interface)
  }

  /** The pipelines the source accepts that also end in an interface or a transport. */
  lemma CompleteIff(kinds: seq<ModuleType>)
    requires |kinds| > 1
    ensures Complete(kinds) <==> ListInvariant(kinds) && Edge(kinds[0]) && Edge(kinds[|kinds| - 1])
    ensures Complete(kinds) ==> forall n :: 0 <= n <= |kinds| ==> ListInvariant(kinds[..n])
  {}

  class Module {
    const kind: ModuleType
    var invert: bool

    /** pppoat_module_init */
    constructor (kind: ModuleType)
      ensures this.kind == kind && !invert
    {
      this.kind := kind;
      invert := false;
    }
  }

  class Pipeline {
    var modules: seq<Module>
    var modulesNr: nat

    ghost function Kinds(): (kinds: seq<ModuleType>)
      reads this
      ensures |kinds| == |modules|
    {
      seq(|modules|, i requires 0 <= i < |modules| reads this => modules[i].kind)
    }

    /** Modules are distinct and carry the inversion their place calls for. */
    ghost predicate Valid()
      reads this, modules
    {
      && modulesNr == |modules|
      && (forall i, j :: 0 <= i < j < |modules| ==> modules[i] != modules[j])
      && (forall i :: 0 <= i < |modules| ==> modules[i].invert == Inverts(Kinds())[i])
    }

    constructor ()
      ensures Valid() && modules == []
    {
      modules, modulesNr := [], 0;
    }

    /** pipeline_modules_list_invariant */
    method CheckInvariant() returns (result: bool)
      ensures result <==> ListInvariant(Kinds())
      ensures result <==> modules == [] || (modules[0].kind != Plugin &&
                            forall i :: 1 <= i < |modules| - 1 ==> modules[i].kind == Plugin)
    {
      if |modules| == 0 {
        return true;
      }
      if modules[0].kind == Plugin {
        return false;
      }
      var i := 1;
      while i < |modules|
        invariant 1 <= i <= |modules|
        invariant forall j :: 1 <= j < i && j < |modules| - 1 ==> modules[j].kind == Plugin
      {
        var isPlugin := modules[i].kind == Plugin;
        i := i + 1;
        if !isPlugin && i < |modules| {
          assert Kinds()[i - 1] != Plugin;
          return false;
        }
      }
      return true;
    }

    /** pppoat_pipeline_add_module */
    method AddModule(mod: Module)
      requires Valid() && ListInvariant(Kinds()) && mod !in modules && !mod.invert
      modifies this, mod
      ensures Valid() && modules == old(modules) + [mod]
      ensures Kinds() == old(Kinds()) + [mod.kind]
      ensures mod.invert <==> if old(modules) == [] then mod.kind == Transport else mod.kind == Interface
    {
      if (modules == [] && mod.kind == Transport) || (modules != [] && mod.kind == Interface) {
        mod.invert := true;
      }
      modules := modules + [mod];
      modulesNr := modulesNr + 1;
      assert Kinds() == old(Kinds()) + [mod.kind];
    }
  }

  // ----- One packet on its way -----

  /** pkt: its name, unique in one call of pipeline_module_process, and its pkt_type. */
  datatype Packet = Packet(id: nat, kind: PacketType)

  /** What happened to a packet given to a module: put back to the pool, or kept in a queue. */
  datatype Fate = PutBack | Kept

  /** What mop_process does with a packet, or with NULL when it is polled: fail and leave the
      packet alone; consume it; hand the same packet on; or consume it and emit a new one. */
  datatype Response =
    | Failed(rc: int)
    | Consumed(fate: Fate)
    | Passed(kind: PacketType)
    | Emitted(kind: PacketType, fate: Fate)

  /** The modules seen from the pipeline: the response of module pos at time t to a packet whose
      pkt_type is given, or to a poll. */
  type Behaviour = (nat, nat, Option<PacketType>) -> Response

  /** The module interface: an interface emits SEND and takes RECV, a transport the reverse, and
      both consume; a plugin keeps the direction of a packet. Errors are not zero. */
  ghost predicate Honest(kinds: seq<ModuleType>, beh: Behaviour) {
    forall t: nat, pos: nat, pkt {:trigger beh(t, pos, pkt)} :: pos < |kinds| ==>
        Keeps(kinds[pos], pkt, beh(t, pos, pkt))
  }

  predicate Keeps(k: ModuleType, pkt: Option<PacketType>, r: Response) {
    match r
    case Failed(rc) => rc != 0
    case Consumed(_) => true
    case Passed(out) => k == Plugin && pkt == Some(out)
    case Emitted(out, _) =>
      if k == Plugin then out != PacketType.Unknown && (pkt.Some? ==> out == pkt.value)
      else pkt.None? && out == (if k == Interface then Send else Recv)
  }

  /** How a packet left the pipeline. */
  datatype Exit = ByModule(id: nat, fate: Fate) | ByPipeline(id: nat)

  /** A call of pipeline_module_process: its result, the modules it visited in order, the
      packets that entered, and those that left. */
  datatype Trip = Trip(rc: int, visits: seq<nat>, entered: seq<nat>, exits: seq<Exit>)

  function Ahead(pos: nat, kind: PacketType): int { if kind == Send then pos + 1 else pos - 1 }

  /** How many modules lie ahead of a packet. */
  function Distance(kinds: seq<ModuleType>, pos: nat, kind: PacketType): int {
    if kind == Send then |kinds| - 1 - pos else pos
  }

  /** The pipeline invariant on the packet under way: it has a direction and a module ahead. */
  predicate OnTrack(kinds: seq<ModuleType>, pos: nat, kind: PacketType) {
    pos < |kinds| && kind != PacketType.Unknown && Distance(kinds, pos, kind) > 0
  }

  /** The loop of pipeline_module_process: p has just left module pos. */
  ghost function Walk(kinds: seq<ModuleType>, beh: Behaviour, pos: nat, p: Packet, t: nat): Trip
    requires Complete(kinds) && Honest(kinds, beh) && OnTrack(kinds, pos, p.kind)
    decreases Distance(kinds, pos, p.kind)
  {
    var q, inv := Ahead(pos, p.kind), Inverts(kinds);
    EdgesFace(kinds, beh, pos, p.kind, t);
    match beh(t, q, Some(InvertIf(inv[q], p.kind)))
    case Failed(rc) => Trip(rc, [q], [], [ByPipeline(p.id)])
    case Consumed(fate) => Trip(0, [q], [], [ByModule(p.id, fate)])
    case Passed(out) =>
      var rest := Walk(kinds, beh, q, Packet(p.id, InvertIf(inv[q], out)), t + 1);
      Trip(rest.rc, [q] + rest.visits, rest.entered, rest.exits)
    case Emitted(out, fate) =>
      var rest := Walk(kinds, beh, q, Packet(t, InvertIf(inv[q], out)), t + 1);
      Trip(rest.rc, [q] + rest.visits, [t] + rest.entered, [ByModule(p.id, fate)] + rest.exits)
  }

  /** Ahead of a packet on track there is a module (mod != NULL). If it is an edge it is given
      the direction it takes, whatever it is and whichever end it stands at, and the packet ends
      there; a plugin lets the packet or its successor go on in the same direction. */
  lemma EdgesFace(kinds: seq<ModuleType>, beh: Behaviour, pos: nat, kind: PacketType, t: nat)
    requires Complete(kinds) && Honest(kinds, beh) && OnTrack(kinds, pos, kind)
    ensures var q := Ahead(pos, kind);
            && 0 <= q < |kinds|
            && var given := InvertIf(Inverts(kinds)[q], kind);
               var r := beh(t, q, Some(given));
            && (kinds[q] == Interface ==> given == Recv)
            && (kinds[q] == Transport ==> given == Send)
            && (kinds[q] == Plugin ==> given == kind)
            && (Edge(kinds[q]) ==> Distance(kinds, q, kind) == 0 && (r.Failed? || r.Consumed?))
            && (r.Passed? ==> InvertIf(Inverts(kinds)[q], r.kind) == kind && OnTrack(kinds, q, kind))
            && (r.Emitted? ==> InvertIf(Inverts(kinds)[q], r.kind) == kind && OnTrack(kinds, q, kind))
  {
    var q := Ahead(pos, kind);
    var given := InvertIf(Inverts(kinds)[q], kind);
    assert Keeps(kinds[q], Some(given), beh(t, q, Some(given)));
  }

  /** pipeline_module_process: module pos is polled, and what it emits is carried on. */
  ghost function Poll(kinds: seq<ModuleType>, beh: Behaviour, pos: nat, t: nat): Trip
    requires Complete(kinds) && Honest(kinds, beh) && pos < |kinds|
  {
    PollFaces(kinds, beh, pos, t);
    match beh(t, pos, None)
    case Failed(rc) => Trip(rc, [], [], [])
    case Consumed(_) => Trip(0, [], [], [])
    case Emitted(out, _) =>
      var rest := Walk(kinds, beh, pos, Packet(t, InvertIf(Inverts(kinds)[pos], out)), t + 1);
      Trip(rest.rc, rest.visits, [t] + rest.entered, rest.exits)
  }

  /** What a polled module emits has a module ahead: an edge emits away from its end. */
  lemma PollFaces(kinds: seq<ModuleType>, beh: Behaviour, pos: nat, t: nat)
    requires Complete(kinds) && Honest(kinds, beh) && pos < |kinds|
    ensures var r := beh(t, pos, None);
            && !r.Passed?
            && (r.Emitted? ==> OnTrack(kinds, pos, InvertIf(Inverts(kinds)[pos], r.kind)))
  {
    assert Keeps(kinds[pos], None, beh(t, pos, None));
  }

  // ----- Routing -----

  /** The modules ahead of a packet, nearest first. */
  function Route(pos: nat, kind: PacketType, n: nat): (r: seq<int>)
    ensures |r| == n
    ensures forall i :: 0 <= i < n ==> r[i] == if kind == Send then pos + 1 + i else pos - 1 - i
  {
    seq(n, i requires 0 <= i < n => if kind == Send then pos + 1 + i else pos - 1 - i)
  }

  /** The response of the module that a packet meets at visit i, if it gets that far. */
  ghost function Met(kinds: seq<ModuleType>, beh: Behaviour, pos: nat, kind: PacketType, t: nat, i: nat): Response
    requires OnTrack(kinds, pos, kind) && i < Distance(kinds, pos, kind)
  {
    var q := Route(pos, kind, i + 1)[i];
    beh(t + i, q, Some(InvertIf(Inverts(kinds)[q], kind)))
  }

  predicate GoesOn(r: Response) { r.Passed? || r.Emitted? }

  /** The first n modules ahead of a packet pass it or its successor on. */
  ghost predicate AllGoOn(kinds: seq<ModuleType>, beh: Behaviour, pos: nat, kind: PacketType, t: nat, n: nat)
    requires OnTrack(kinds, pos, kind) && n <= Distance(kinds, pos, kind)
  {
    forall i :: 0 <= i < n ==> GoesOn(Met(kinds, beh, pos, kind, t, i))
  }

  /** Seen from the next module. */
  lemma MetStep(kinds: seq<ModuleType>, beh: Behaviour, pos: nat, kind: PacketType, t: nat, i: nat)
    requires OnTrack(kinds, pos, kind) && i + 1 < Distance(kinds, pos, kind)
    ensures Ahead(pos, kind) >= 0 && OnTrack(kinds, Ahead(pos, kind), kind)
    ensures i < Distance(kinds, Ahead(pos, kind), kind)
    ensures Met(kinds, beh, pos, kind, t, i + 1) == Met(kinds, beh, Ahead(pos, kind), kind, t + 1, i)
  {
    RouteStep(pos, kind, i + 1);
  }

  lemma AllGoOnStep(kinds: seq<ModuleType>, beh: Behaviour, pos: nat, kind: PacketType, t: nat, n: nat)
    requires OnTrack(kinds, pos, kind) && n < Distance(kinds, pos, kind) && Ahead(pos, kind) >= 0
    requires GoesOn(Met(kinds, beh, pos, kind, t, 0)) && OnTrack(kinds, Ahead(pos, kind), kind)
    requires AllGoOn(kinds, beh, Ahead(pos, kind), kind, t + 1, n)
    ensures AllGoOn(kinds, beh, pos, kind, t, n + 1)
  {
    hide Met;
    forall i | 0 <= i < n + 1 ensures GoesOn(Met(kinds, beh, pos, kind, t, i)) {
      if i > 0 {
        MetStep(kinds, beh, pos, kind, t, i - 1);
      }
    }
  }

  lemma RouteStep(pos: nat, kind: PacketType, n: nat)
    requires Ahead(pos, kind) >= 0
    ensures [Ahead(pos, kind)] + Route(Ahead(pos, kind), kind, n) == Route(pos, kind, n + 1)
  {}

  /** The first module on the way. */
  lemma FirstMet(kinds: seq<ModuleType>, beh: Behaviour, pos: nat, kind: PacketType, t: nat)
    requires Complete(kinds) && Honest(kinds, beh) && OnTrack(kinds, pos, kind)
    ensures 0 <= Ahead(pos, kind) < |kinds|
    ensures var q := Ahead(pos, kind);
            Met(kinds, beh, pos, kind, t, 0) == beh(t, q, Some(InvertIf(Inverts(kinds)[q], kind)))
    ensures Route(pos, kind, 1) == [Ahead(pos, kind)]
  {
    EdgesFace(kinds, beh, pos, kind, t);
  }

  /** A packet visits the modules ahead of it once each, in order, up to the first that fails or
      consumes it, which at the latest is the far edge; the result is that module's. */
  lemma {:induction false} Routing(kinds: seq<ModuleType>, beh: Behaviour, pos: nat, p: Packet, t: nat)
    requires Complete(kinds) && Honest(kinds, beh) && OnTrack(kinds, pos, p.kind)
    ensures var trip := Walk(kinds, beh, pos, p, t);
            var n := |trip.visits|;
            && 1 <= n <= Distance(kinds, pos, p.kind)
            && trip.visits == Route(pos, p.kind, n)
            && AllGoOn(kinds, beh, pos, p.kind, t, n - 1)
            && var last := Met(kinds, beh, pos, p.kind, t, n - 1);
               !GoesOn(last) && trip.rc == if last.Failed? then last.rc else 0
    decreases Distance(kinds, pos, p.kind)
  {
    hide Honest, Met, AllGoOn, Complete, Route, Inverts;
    EdgesFace(kinds, beh, pos, p.kind, t);
    FirstMet(kinds, beh, pos, p.kind, t);
    var q := Ahead(pos, p.kind);
    var r := beh(t, q, Some(InvertIf(Inverts(kinds)[q], p.kind)));
    if GoesOn(r) {
      var next := Packet(if r.Passed? then p.id else t, InvertIf(Inverts(kinds)[q], r.kind));
      Routing(kinds, beh, q, next, t + 1);
      var rest := Walk(kinds, beh, q, next, t + 1);
      RouteStep(pos, p.kind, |rest.visits|);
      AllGoOnStep(kinds, beh, pos, p.kind, t, |rest.visits| - 1);
      MetStep(kinds, beh, pos, p.kind, t, |rest.visits| - 1);
    } else {
      NoneGoOn(kinds, beh, pos, p.kind, t);
    }
  }

  lemma NoneGoOn(kinds: seq<ModuleType>, beh: Behaviour, pos: nat, kind: PacketType, t: nat)
    requires OnTrack(kinds, pos, kind)
    ensures AllGoOn(kinds, beh, pos, kind, t, 0)
  {}

  // ----- Ownership -----

  function Names(exits: seq<Exit>): (r: seq<nat>)
    ensures |r| == |exits|
  {
    seq(|exits|, i requires 0 <= i < |exits| => exits[i].id)
  }

  ghost predicate Increasing(s: seq<nat>, from: nat) {
    (forall i :: 0 <= i < |s| ==> s[i] >= from) && forall i, j :: 0 <= i < j < |s| ==> s[i] < s[j]
  }

  lemma {:induction false} WalkOwnership(kinds: seq<ModuleType>, beh: Behaviour, pos: nat, p: Packet, t: nat)
    requires Complete(kinds) && Honest(kinds, beh) && OnTrack(kinds, pos, p.kind)
    ensures var trip := Walk(kinds, beh, pos, p, t);
            && Names(trip.exits) == [p.id] + trip.entered && Increasing(trip.entered, t)
            && (forall i :: 0 <= i < |trip.exits| ==> trip.exits[i].ByPipeline? ==>
                  i == |trip.exits| - 1 && trip.rc != 0)
            && (trip.rc != 0 ==> trip.exits[|trip.exits| - 1].ByPipeline?)
    decreases Distance(kinds, pos, p.kind)
  {
    EdgesFace(kinds, beh, pos, p.kind, t);
    var q := Ahead(pos, p.kind);
    var given := Some(InvertIf(Inverts(kinds)[q], p.kind));
    var r := beh(t, q, given);
    assert Keeps(kinds[q], given, r);
    if r.Passed? || r.Emitted? {
      var next := Packet(if r.Passed? then p.id else t, InvertIf(Inverts(kinds)[q], r.kind));
      WalkOwnership(kinds, beh, q, next, t + 1);
    }
  }

  /** On every path out of pipeline_module_process, each packet that entered it has left it
      exactly once, in the order of entry: put back or kept by a module, or, for the one a
      module failed on and only for that one, put back by the pipeline. */
  lemma Ownership(kinds: seq<ModuleType>, beh: Behaviour, pos: nat, t: nat)
    requires Complete(kinds) && Honest(kinds, beh) && pos < |kinds|
    ensures var trip := Poll(kinds, beh, pos, t);
            && Names(trip.exits) == trip.entered && Increasing(trip.entered, t)
            && (forall i :: 0 <= i < |trip.exits| ==> trip.exits[i].ByPipeline? ==>
                  i == |trip.exits| - 1 && trip.rc != 0)
            && (trip.rc != 0 && trip.exits != [] ==> trip.exits[|trip.exits| - 1].ByPipeline?)
    ensures var r, trip := beh(t, pos, None), Poll(kinds, beh, pos, t);
            && (r.Failed? ==> trip.rc == r.rc && trip.visits == [] && trip.entered == [])
            && (r.Consumed? ==> trip.rc == 0 && trip.visits == [] && trip.entered == [])
            && (r.Emitted? ==> trip.visits != [] && trip.entered != [] && trip.entered[0] == t)
  {
    PollFaces(kinds, beh, pos, t);
    var r := beh(t, pos, None);
    if r.Emitted? {
      WalkOwnership(kinds, beh, pos, Packet(t, InvertIf(Inverts(kinds)[pos], r.kind)), t + 1);
      Routing(kinds, beh, pos, Packet(t, InvertIf(Inverts(kinds)[pos], r.kind)), t + 1);
    }
  }

  lemma GoesOnAt(kinds: seq<ModuleType>, beh: Behaviour, pos: nat, kind: PacketType, t: nat, n: nat, i: nat)
    requires OnTrack(kinds, pos, kind) && n <= Distance(kinds, pos, kind) && i < n
             && AllGoOn(kinds, beh, pos, kind, t, n)
    ensures GoesOn(Met(kinds, beh, pos, kind, t, i))
  {
    hide Met;
  }

  /** What modules do with the packets they take, in order. */
  ghost function Fates(exits: seq<Exit>): seq<Fate> {
    if exits == [] then []
    else (if exits[0].ByModule? then [exits[0].fate] else []) + Fates(exits[1..])
  }

  /** What the modules met at visits i to n answered about the packets they took, in order. */
  ghost function Answers(kinds: seq<ModuleType>, beh: Behaviour, pos: nat, kind: PacketType, t: nat, i: nat,
                         n: nat): seq<Fate>
    requires OnTrack(kinds, pos, kind) && i <= n <= Distance(kinds, pos, kind)
    decreases n - i
  {
    if i == n then []
    else
      var r := Met(kinds, beh, pos, kind, t, i);
      (if r.Consumed? || r.Emitted? then [r.fate] else []) + Answers(kinds, beh, pos, kind, t, i + 1, n)
  }

  lemma {:induction false} AnswersShift(kinds: seq<ModuleType>, beh: Behaviour, pos: nat, kind: PacketType, t: nat,
                                        i: nat, n: nat)
    requires OnTrack(kinds, pos, kind) && i <= n && n + 1 <= Distance(kinds, pos, kind)
    requires Ahead(pos, kind) >= 0 && OnTrack(kinds, Ahead(pos, kind), kind)
             && n <= Distance(kinds, Ahead(pos, kind), kind)
    ensures Answers(kinds, beh, pos, kind, t, i + 1, n + 1) == Answers(kinds, beh, Ahead(pos, kind), kind, t + 1, i, n)
    decreases n - i
  {
    hide Met;
    if i < n {
      MetStep(kinds, beh, pos, kind, t, i);
      AnswersShift(kinds, beh, pos, kind, t, i + 1, n);
    }
  }

  /** A trip records exactly what the modules answered: put back where they said put back, kept
      where they said kept. */
  lemma {:induction false} FatesAreAnswers(kinds: seq<ModuleType>, beh: Behaviour, pos: nat, p: Packet, t: nat)
    requires Complete(kinds) && Honest(kinds, beh) && OnTrack(kinds, pos, p.kind)
    ensures var trip := Walk(kinds, beh, pos, p, t);
            && |trip.visits| <= Distance(kinds, pos, p.kind)
            && Fates(trip.exits) == Answers(kinds, beh, pos, p.kind, t, 0, |trip.visits|)
    decreases Distance(kinds, pos, p.kind)
  {
    hide Honest, Met, Complete, Inverts, AllGoOn, Route;
    EdgesFace(kinds, beh, pos, p.kind, t);
    FirstMet(kinds, beh, pos, p.kind, t);
    Routing(kinds, beh, pos, p, t);
    var q := Ahead(pos, p.kind);
    var r := beh(t, q, Some(InvertIf(Inverts(kinds)[q], p.kind)));
    if GoesOn(r) {
      var next := Packet(if r.Passed? then p.id else t, InvertIf(Inverts(kinds)[q], r.kind));
      FatesAreAnswers(kinds, beh, q, next, t + 1);
      var rest := Walk(kinds, beh, q, next, t + 1);
      AnswersShift(kinds, beh, pos, p.kind, t, 0, |rest.visits|);
      assert forall e: Exit {:trigger [e] + rest.exits} :: ([e] + rest.exits)[1..] == rest.exits;
    } else {
      assert Answers(kinds, beh, pos, p.kind, t, 1, 1) == [];
    }
  }

  /** Polled at one edge, in each of the four combinations of edges, a packet crosses all modules
      to the other edge if and only if every plugin passes it or its successor on; the other edge
      then consumes it, or fails and the pipeline puts it back. */
  lemma EdgeToEdge(kinds: seq<ModuleType>, beh: Behaviour, pos: nat, t: nat)
    requires Complete(kinds) && Honest(kinds, beh) && (pos == 0 || pos == |kinds| - 1)
    requires beh(t, pos, None).Emitted?
    ensures var trip := Poll(kinds, beh, pos, t);
            var kind := if pos == 0 then Send else Recv;
            var far := Met(kinds, beh, pos, kind, t + 1, |kinds| - 2);
            && (trip.visits == Route(pos, kind, |kinds| - 1) <==> AllGoOn(kinds, beh, pos, kind, t + 1, |kinds| - 2))
            && (trip.visits == Route(pos, kind, |kinds| - 1) ==>
                && trip.rc == (if far.Failed? then far.rc else 0)
                && trip.exits != []
                && (trip.exits[|trip.exits| - 1].ByPipeline? <==> far.Failed?))
  {
    hide Honest, Met, AllGoOn, Walk, Complete;
    var kind := if pos == 0 then Send else Recv;
    PollEdge(kinds, beh, pos, t);
    var p := Packet(t, kind);
    var trip := Walk(kinds, beh, pos, p, t + 1);
    Routing(kinds, beh, pos, p, t + 1);
    WalkOwnership(kinds, beh, pos, p, t + 1);
    var n := |trip.visits|;
    if n < |kinds| - 1 && AllGoOn(kinds, beh, pos, kind, t + 1, |kinds| - 2) {
      GoesOnAt(kinds, beh, pos, kind, t + 1, |kinds| - 2, n - 1);
      assert false;
    }
    FailedIsNotZero(kinds, beh, pos, kind, t + 1, n - 1);
  }

  /** What an edge emits sets out towards the other edge. */
  lemma PollEdge(kinds: seq<ModuleType>, beh: Behaviour, pos: nat, t: nat)
    requires Complete(kinds) && Honest(kinds, beh) && (pos == 0 || pos == |kinds| - 1) && beh(t, pos, None).Emitted?
    ensures var kind := if pos == 0 then Send else Recv;
            && OnTrack(kinds, pos, kind) && Distance(kinds, pos, kind) == |kinds| - 1
            && var rest := Walk(kinds, beh, pos, Packet(t, kind), t + 1);
               Poll(kinds, beh, pos, t) == Trip(rest.rc, rest.visits, [t] + rest.entered, rest.exits)
  {
    hide Walk;
    PollFaces(kinds, beh, pos, t);
    assert Keeps(kinds[pos], None, beh(t, pos, None));
  }

  lemma FailedIsNotZero(kinds: seq<ModuleType>, beh: Behaviour, pos: nat, kind: PacketType, t: nat, i: nat)
    requires Honest(kinds, beh) && OnTrack(kinds, pos, kind) && i < Distance(kinds, pos, kind)
    ensures var r := Met(kinds, beh, pos, kind, t, i); r.Failed? ==> r.rc != 0
  {
    var q := Route(pos, kind, i + 1)[i];
    var given := Some(InvertIf(Inverts(kinds)[q], kind));
    assert Keeps(kinds[q], given, beh(t + i, q, given));
  }

  // ----- The loop of the source -----

  /** pppoat_module_process: directions are turned around on the way in and out of a module that
      inverts. */
  method ModuleProcess(mod: Module, pos: nat, pkt: Option<PacketType>, beh: Behaviour, t: nat) returns (r: Response)
    ensures r == Seen(mod.invert, beh(t, pos, if pkt.Some? then Some(InvertIf(mod.invert, pkt.value)) else None))
    ensures !mod.invert ==> r == beh(t, pos, pkt)
    ensures mod.invert ==>
              var x := beh(t, pos, if pkt.None? then None else if pkt.value == Send then Some(Recv) else Some(Send));
              if x.Passed? then r == Passed(if x.kind == Send then Recv else Send)
              else if x.Emitted? then r == Emitted(if x.kind == Send then Recv else Send, x.fate)
              else r == x
  {
    var kind := pkt;
    if mod.invert && pkt.Some? {
      kind := Some(Invert(pkt.value));
    }
    r := beh(t, pos, kind);
    match r {
    case Passed(out) =>
      if mod.invert {
        r := Passed(Invert(out));
      }
    case Emitted(out, fate) =>
      if mod.invert {
        r := Emitted(Invert(out), fate);
      }
    case _ =>
    }
  }

  function Seen(invert: bool, r: Response): Response {
    match r
    case Passed(out) => Passed(InvertIf(invert, out))
    case Emitted(out, fate) => Emitted(InvertIf(invert, out), fate)
    case _ => r
  }

  ghost function After(done: Trip, rest: Trip): Trip {
    Trip(rest.rc, done.visits + rest.visits, done.entered + rest.entered, done.exits + rest.exits)
  }

  /** What is recorded of the response s of a module that was given packet id at time t. */
  function Record(done: Trip, id: nat, s: Response, t: nat): Trip {
    match s
    case Failed(rc) => done.(rc := rc, exits := done.exits + [ByPipeline(id)])
    case Consumed(fate) => done.(exits := done.exits + [ByModule(id, fate)])
    case Passed(_) => done
    case Emitted(_, fate) => done.(exits := done.exits + [ByModule(id, fate)], entered := done.entered + [t])
  }

  /** The packet under way after response s. */
  function Carried(id: nat, s: Response, t: nat): Option<Packet> {
    match s
    case Passed(out) => Some(Packet(id, out))
    case Emitted(out, _) => Some(Packet(t, out))
    case _ => None
  }

  /** The whole trip, given what has been done and the packet under way. */
  ghost function Total(kinds: seq<ModuleType>, beh: Behaviour, done: Trip, pos: nat, pkt: Option<Packet>, t: nat): Trip
    requires Complete(kinds) && Honest(kinds, beh) && (pkt.Some? ==> OnTrack(kinds, pos, pkt.value.kind))
  {
    if pkt.None? then done else After(done, Walk(kinds, beh, pos, pkt.value, t))
  }

  lemma WalkStep(kinds: seq<ModuleType>, beh: Behaviour, done: Trip, pos: nat, p: Packet, t: nat)
    requires Complete(kinds) && Honest(kinds, beh) && OnTrack(kinds, pos, p.kind) && done.rc == 0
    ensures var q := Ahead(pos, p.kind);
            && 0 <= q < |kinds|
            && var s := Seen(Inverts(kinds)[q], beh(t, q, Some(InvertIf(Inverts(kinds)[q], p.kind))));
               var next := Carried(p.id, s, t);
            && (s.Failed? ==> s.rc != 0)
            && (next.Some? ==>
                  && OnTrack(kinds, q, next.value.kind)
                  && Distance(kinds, q, next.value.kind) < Distance(kinds, pos, p.kind))
            && Total(kinds, beh, done, pos, Some(p), t) ==
               Total(kinds, beh, Record(done.(visits := done.visits + [q]), p.id, s, t), q, next, t + 1)
  {
    EdgesFace(kinds, beh, pos, p.kind, t);
    var q := Ahead(pos, p.kind);
    var given := Some(InvertIf(Inverts(kinds)[q], p.kind));
    assert Keeps(kinds[q], given, beh(t, q, given));
  }

  lemma PollStep(kinds: seq<ModuleType>, beh: Behaviour, pos: nat, t: nat)
    requires Complete(kinds) && Honest(kinds, beh) && pos < |kinds|
    ensures var s := Seen(Inverts(kinds)[pos], beh(t, pos, None));
            !s.Passed? && (s.Emitted? ==> OnTrack(kinds, pos, s.kind)) && (s.Failed? ==> s.rc != 0)
            && Poll(kinds, beh, pos, t) ==
               match s
               case Failed(rc) => Trip(rc, [], [], [])
               case Emitted(out, _) => Total(kinds, beh, Trip(0, [], [t], []), pos, Some(Packet(t, out)), t + 1)
               case _ => Trip(0, [], [], [])
  {
    PollFaces(kinds, beh, pos, t);
    assert Keeps(kinds[pos], None, beh(t, pos, None));
  }

  /** pipeline_module_process. The asserts in the loop are those of the source; that the module
      exists is the bound of the index. */
  method Process(p: Pipeline, start: nat, beh: Behaviour, t0: nat) returns (trip: Trip)
    requires p.Valid() && Complete(p.Kinds()) && Honest(p.Kinds(), beh) && start < |p.modules|
    ensures trip == Poll(p.Kinds(), beh, start, t0)
  {
    hide Walk, Poll, Honest, Complete;
    ghost var kinds := p.Kinds();
    var pos, t := start, t0;
    PollStep(kinds, beh, pos, t);
    var r := ModuleProcess(p.modules[pos], pos, None, beh, t);
    if r.Failed? {
      return Trip(r.rc, [], [], []);
    }
    var pkt: Option<Packet> := None;
    trip := Trip(0, [], [], []);
    if r.Emitted? {
      pkt := Some(Packet(t, r.kind));
      trip := Trip(0, [], [t], []);
    }
    t := t + 1;
    while trip.rc == 0 && pkt.Some?
      invariant pos < |kinds| && (pkt.Some? ==> trip.rc == 0 && OnTrack(kinds, pos, pkt.value.kind))
      invariant Poll(kinds, beh, start, t0) == Total(kinds, beh, trip, pos, pkt, t)
      decreases if pkt.Some? then 1 + Distance(kinds, pos, pkt.value.kind) else 0
    {
      WalkStep(kinds, beh, trip, pos, pkt.value, t);
      pos := if pkt.value.kind == Send then pos + 1 else pos - 1;
      assert pkt.value.kind == Send || pkt.value.kind == Recv;
      assert pos < |p.modules|;
      r := ModuleProcess(p.modules[pos], pos, Some(pkt.value.kind), beh, t);
      trip := Record(trip.(visits := trip.visits + [pos]), pkt.value.id, r, t);
      pkt := Carried(pkt.value.id, r, t);
      t := t + 1;
    }
  }
}
