/** The packet pool of src/packet.c as a ledger: where every packet ever created is, and which
    data buffers have been freed. P names packets, B names buffers. */
module Pool {
  import opened Wrappers

  /** cache, empty: the two free lists, most recently returned first. out: packets handed out.
      buffer, cap: the data buffer a sized packet was created with, and its size.
      released: the buffers freed by the standard ops, in order. */
  datatype Ledger<!P(==), !B(==)> = Ledger(cache: seq<P>, empty: seq<P>, out: set<P>, freed: set<P>,
                                           buffer: map<P, B>, cap: map<P, nat>, released: seq<B>)
  {
    ghost function Cached(): set<P> { (set p | p in cache) + (set p | p in empty) }

    /** Every packet ever created. */
    ghost function All(): set<P> { Cached() + out + freed }
  }

  ghost predicate Distinct<P>(s: seq<P>) { forall i, j :: 0 <= i < j < |s| ==> s[i] != s[j] }

  /** Each packet is in exactly one of the four places, sized ones in the one cache, the others
      in the other. */
  ghost predicate Partition<P, B>(l: Ledger<P, B>) {
    && Distinct(l.cache) && Distinct(l.empty)
    && (forall p :: p in l.cache ==> p in l.buffer && p !in l.out && p !in l.freed)
    && (forall p :: p in l.empty ==> p !in l.buffer && p !in l.out && p !in l.freed)
    && l.out !! l.freed
  }

  /** The buffers of sized packets are different, and have been freed once if their packet has
      been freed, otherwise never. */
  ghost predicate Released<P, B>(l: Ledger<P, B>) {
    && l.buffer.Keys <= l.All() && l.cap.Keys == l.buffer.Keys
    && (forall p, q :: p in l.buffer && q in l.buffer && p != q ==> l.buffer[p] != l.buffer[q])
    && (forall p :: p in l.buffer ==>
          l.cap[p] > 0 && multiset(l.released)[l.buffer[p]] == if p in l.freed then 1 else 0)
  }

  /** No buffer, whoever it came from, is freed twice. */
  ghost predicate FreedOnce<P, B>(l: Ledger<P, B>) { Distinct(l.released) }

  ghost predicate Inv<P, B>(l: Ledger<P, B>) { Partition(l) && Released(l) && FreedOnce(l) }

  // ----- First fit -----

  /** The position of the first packet of s whose capacity is at least n, or the length. */
  function FirstFit<P>(s: seq<P>, cap: map<P, nat>, n: nat): (k: nat)
    requires forall p :: p in s ==> p in cap
    ensures k <= |s|
    ensures forall i :: 0 <= i < k ==> cap[s[i]] < n
    ensures k < |s| ==> cap[s[k]] >= n
  {
    if s == [] || cap[s[0]] >= n then 0 else 1 + FirstFit(s[1..], cap, n)
  }

  lemma FirstFitIs<P>(s: seq<P>, cap: map<P, nat>, n: nat, k: nat)
    requires forall p :: p in s ==> p in cap
    requires k <= |s| && (forall i :: 0 <= i < k ==> cap[s[i]] < n) && (k < |s| ==> cap[s[k]] >= n)
    ensures FirstFit(s, cap, n) == k
  {
    var f := FirstFit(s, cap, n);
    assert !(f < k) && !(k < f);
  }

  // ----- The operations -----

  datatype Op<P, B> =
    | Get(size: nat, new_p: P, new_b: B)  // new_p, new_b: what the allocator would return
    | GetEmpty(new_p: P)
    | Put(p: P, attached: Option<B>)      // attached: a buffer with standard ops, on an unsized packet
    | Flush

  /** What the allocator and the users of packets guarantee. */
  predicate Allowed<P, B>(l: Ledger<P, B>, op: Op<P, B>) {
    match op
    case Get(_, p, b) => NewPacket(l, p) && NewBuffer(l, b)
    case GetEmpty(p) => NewPacket(l, p)
    case Put(p, attached) => p in l.out && (attached.Some? ==> p !in l.buffer && NewBuffer(l, attached.value))
    case Flush => true
  }

  predicate NewPacket<P, B>(l: Ledger<P, B>, p: P) { p !in l.cache && p !in l.empty && p !in l.out && p !in l.freed }

  predicate NewBuffer<P, B>(l: Ledger<P, B>, b: B) { b !in l.buffer.Values && b !in l.released }

  /** packet_create */
  function Create<P, B>(l: Ledger<P, B>, p: P, size: nat, b: B): Ledger<P, B> {
    if size == 0 then l.(out := l.out + {p})
    else l.(out := l.out + {p}, buffer := l.buffer[p := b], cap := l.cap[p := size])
  }

  /** Every packet of s is freed, and its buffer with it. */
  function Buffers<P, B>(s: seq<P>, buffer: map<P, B>): (r: seq<B>)
    requires forall p :: p in s ==> p in buffer
    ensures |r| == |s| && forall i :: 0 <= i < |s| ==> r[i] == buffer[s[i]]
  {
    seq(|s|, i requires 0 <= i < |s| => buffer[s[i]])
  }

  /** The operation of the source and the packet it returns, if any. */
  function Apply<P, B>(l: Ledger<P, B>, op: Op<P, B>): (r: (Ledger<P, B>, Option<P>))
    requires forall p :: p in l.cache ==> p in l.cap && p in l.buffer
  {
    match op
    case Get(size, p, b) =>
      var k := FirstFit(l.cache, l.cap, size);
      if k < |l.cache| then
        (l.(cache := l.cache[..k] + l.cache[k + 1..], out := l.out + {l.cache[k]}), Some(l.cache[k]))
      else (Create(l, p, size, b), Some(p))
    case GetEmpty(p) =>
      if l.empty != [] then (l.(empty := l.empty[1..], out := l.out + {l.empty[0]}), Some(l.empty[0]))
      else (l.(out := l.out + {p}), Some(p))
    case Put(p, attached) =>
      if p in l.buffer then (l.(out := l.out - {p}, cache := [p] + l.cache), None)
      else (l.(out := l.out - {p}, empty := [p] + l.empty,
               released := l.released + if attached.Some? then [attached.value] else []), None)
    case Flush =>
      (l.(cache := [], empty := [], freed := l.freed + (set p | p in l.cache) + (set p | p in l.empty),
          released := l.released + Buffers(l.cache, l.buffer)), None)
  }

  function Init<P, B>(): Ledger<P, B> { Ledger([], [], {}, {}, map[], map[], []) }

  // ----- Conservation -----

  lemma SplitCache<P>(s: seq<P>, k: nat)
    requires k < |s| && Distinct(s)
    ensures var r := s[..k] + s[k + 1..];
            Distinct(r) && s[k] !in r && forall p :: p in s <==> p in r || p == s[k]
  {
    var r := s[..k] + s[k + 1..];
    forall p | p in s ensures p in r || p == s[k] {
      var i :| 0 <= i < |s| && s[i] == p;
      if i < k {
        assert r[i] == p;
      } else if i > k {
        assert r[i - 1] == p;
      }
    }
  }

  lemma KeepMove<P, B>(l: Ledger<P, B>, r: seq<P>, p: P)
    requires Inv(l) && Distinct(r) && p !in r && p in l.cache
    requires forall q :: q in l.cache <==> q in r || q == p
    ensures var n := l.(cache := r, out := l.out + {p});
            Inv(n) && n.All() == l.All()
  {}

  lemma KeepGet<P, B>(l: Ledger<P, B>, size: nat)
    requires Inv(l) && FirstFit(l.cache, l.cap, size) < |l.cache|
    ensures var k := FirstFit(l.cache, l.cap, size);
            var n := l.(cache := l.cache[..k] + l.cache[k + 1..], out := l.out + {l.cache[k]});
            Inv(n) && n.All() == l.All()
  {
    hide Inv, Distinct;
    InvIsPartition(l);
    var k := FirstFit(l.cache, l.cap, size);
    SplitCache(l.cache, k);
    KeepMove(l, l.cache[..k] + l.cache[k + 1..], l.cache[k]);
  }

  lemma KeepCreate<P, B>(l: Ledger<P, B>, p: P, size: nat, b: B)
    requires Inv(l) && NewPacket(l, p) && NewBuffer(l, b)
    ensures var n := Create(l, p, size, b);
            Inv(n) && n.All() == l.All() + {p}
  {
    var n := Create(l, p, size, b);
    assert p !in l.buffer;
    assert multiset(l.released)[b] == 0;
  }

  lemma KeepPut<P, B>(l: Ledger<P, B>, p: P, attached: Option<B>)
    requires Inv(l) && Allowed(l, Put(p, attached))
    ensures var n := Apply(l, Put(p, attached)).0;
            Inv(n) && n.All() == l.All()
  {
    var n := Apply(l, Put(p, attached)).0;
    assert n.cache == [p] + l.cache || n.cache == l.cache;
    if attached.Some? && p !in l.buffer {
      assert forall q :: q in l.buffer ==> l.buffer[q] != attached.value;
    }
  }

  lemma KeepGetEmpty<P, B>(l: Ledger<P, B>, p: P)
    requires Inv(l) && NewPacket(l, p)
    ensures var n := Apply(l, GetEmpty(p)).0;
            Inv(n) && n.All() == l.All() + if l.empty == [] then {p} else {}
  {
    if l.empty != [] {
      SplitCache(l.empty, 0);
    } else {
      assert p !in l.buffer;
    }
  }

  lemma BuffersCons<P, B>(s: seq<P>, buffer: map<P, B>)
    requires s != [] && forall q :: q in s ==> q in buffer
    ensures Buffers(s, buffer) == [buffer[s[0]]] + Buffers(s[1..], buffer)
  {}

  lemma {:induction false} CountBuffers<P, B>(s: seq<P>, buffer: map<P, B>, p: P)
    requires Distinct(s) && (forall q :: q in s ==> q in buffer) && p in buffer
    requires forall q :: q in s && q != p ==> buffer[q] != buffer[p]
    ensures multiset(Buffers(s, buffer))[buffer[p]] == if p in s then 1 else 0
  {
    hide Buffers;
    if s != [] {
      BuffersCons(s, buffer);
      CountBuffers(s[1..], buffer, p);
      assert s[0] !in s[1..];
    }
  }

  lemma KeepFlush<P, B>(l: Ledger<P, B>)
    requires Inv(l)
    ensures var n := Apply(l, Flush).0;
            Inv(n) && n.All() == l.All() && n.Cached() == {}
  {
    var n := Apply(l, Flush).0;
    forall p | p in l.buffer ensures multiset(n.released)[l.buffer[p]] == if p in n.freed then 1 else 0 {
      CountBuffers(l.cache, l.buffer, p);
      assert multiset(n.released) == multiset(l.released) + multiset(Buffers(l.cache, l.buffer));
    }
  }

  /** Every operation keeps each packet in exactly one place, creates at most the packet it
      returns, and frees no buffer twice. */
  lemma KeepsInv<P, B>(l: Ledger<P, B>, op: Op<P, B>)
    requires Inv(l) && Allowed(l, op)
    ensures var (n, o) := Apply(l, op);
            && Inv(n) && l.All() <= n.All() <= l.All() + (if o.Some? then {o.value} else {})
            && (o.Some? ==> n.out == l.out + {o.value} && o.value !in l.out)
            && (op.Put? ==> n.out == l.out - {op.p})
            && (op.Flush? ==> n.out == l.out && n.Cached() == {})
  {
    hide Inv, Released, NewBuffer;
    InvIsPartition(l);
    match op {
    case Get(size, p, b) =>
      if FirstFit(l.cache, l.cap, size) < |l.cache| {
        KeepGet(l, size);
      } else {
        KeepCreate(l, p, size, b);
      }
    case GetEmpty(p) => KeepGetEmpty(l, p);
    case Put(p, attached) => KeepPut(l, p, attached);
    case Flush => KeepFlush(l);
    }
  }

  lemma InvIsPartition<P, B>(l: Ledger<P, B>)
    requires Inv(l)
    ensures Partition(l) && l.cap.Keys == l.buffer.Keys
    ensures forall p :: p in l.cache ==> p in l.cap && p in l.buffer
  {}

  /** Every operation of the run is allowed when its turn comes. */
  ghost predicate AllAllowed<P, B>(l: Ledger<P, B>, ops: seq<Op<P, B>>)
    requires Inv(l)
    decreases |ops|
  {
    ops == [] || (Allowed(l, ops[0]) && (KeepsInv(l, ops[0]); AllAllowed(Apply(l, ops[0]).0, ops[1..])))
  }

  ghost function Run<P, B>(l: Ledger<P, B>, ops: seq<Op<P, B>>): Ledger<P, B>
    requires Inv(l) && AllAllowed(l, ops)
    decreases |ops|
  {
    if ops == [] then l
    else
      KeepsInv(l, ops[0]);
      Run(Apply(l, ops[0]).0, ops[1..])
  }

  lemma {:induction false} RunKeepsInv<P, B>(l: Ledger<P, B>, ops: seq<Op<P, B>>)
    requires Inv(l) && AllAllowed(l, ops)
    ensures Inv(Run(l, ops)) && l.All() <= Run(l, ops).All()
    decreases |ops|
  {
    hide Inv, Apply, Allowed;
    if ops != [] {
      InvIsPartition(l);
      KeepsInv(l, ops[0]);
      RunKeepsInv(Apply(l, ops[0]).0, ops[1..]);
    }
  }

  // ----- Which buffers have been freed -----

  function AttachedBy<P, B(==)>(op: Op<P, B>): set<B> {
    if op.Put? && op.attached.Some? then {op.attached.value} else {}
  }

  function AttachedIn<P, B(==)>(ops: seq<Op<P, B>>): set<B> {
    if ops == [] then {} else AttachedBy(ops[0]) + AttachedIn(ops[1..])
  }

  /** The buffers freed are exactly the attached ones, given by attached, and those of the
      packets freed. */
  ghost predicate Accounted<P, B>(l: Ledger<P, B>, attached: set<B>) {
    && (forall b :: b in attached ==> b in l.released)
    && (forall p :: p in l.freed && p in l.buffer ==> l.buffer[p] in l.released)
    && (forall b :: b in l.released ==> b in attached || exists p :: p in l.freed && p in l.buffer && l.buffer[p] == b)
  }

  lemma FlushAccount<P, B>(l: Ledger<P, B>, attached: set<B>)
    requires Inv(l) && Accounted(l, attached)
    ensures Accounted(Apply(l, Flush).0, attached)
  {
    hide Released, FreedOnce, Distinct;
    InvIsPartition(l);
    var n := Apply(l, Flush).0;
    var bs := Buffers(l.cache, l.buffer);
    forall p | p in l.cache ensures l.buffer[p] in n.released {
      var i :| 0 <= i < |l.cache| && l.cache[i] == p;
      assert bs[i] == l.buffer[p];
    }
    forall b | b in bs ensures exists p :: p in n.freed && p in n.buffer && n.buffer[p] == b {
      var i :| 0 <= i < |bs| && bs[i] == b;
      assert l.cache[i] in n.freed;
    }
  }

  lemma KeepsAccount<P, B>(l: Ledger<P, B>, op: Op<P, B>, attached: set<B>)
    requires Inv(l) && Allowed(l, op) && Accounted(l, attached)
    ensures Accounted(Apply(l, op).0, attached + AttachedBy(op))
  {
    hide Released, FreedOnce, Distinct;
    InvIsPartition(l);
    if op.Flush? {
      FlushAccount(l, attached);
    }
  }

  lemma {:induction false} RunAccounts<P, B>(l: Ledger<P, B>, ops: seq<Op<P, B>>, attached: set<B>)
    requires Inv(l) && AllAllowed(l, ops) && Accounted(l, attached)
    ensures Accounted(Run(l, ops), attached + AttachedIn(ops))
    decreases |ops|
  {
    hide Inv, Apply, Allowed, Accounted, AttachedBy;
    if ops == [] {
      assert attached + {} == attached;
    } else {
      InvIsPartition(l);
      KeepsInv(l, ops[0]);
      KeepsAccount(l, ops[0], attached);
      RunAccounts(Apply(l, ops[0]).0, ops[1..], attached + AttachedBy(ops[0]));
      assert attached + AttachedBy(ops[0]) + AttachedIn(ops[1..]) == attached + AttachedIn(ops);
    }
  }

  lemma InitAccount<P, B>()
    ensures Inv(Init<P, B>()) && Accounted(Init<P, B>(), {})
  {}

  /** A buffer that has been freed has been freed once, and which ones have is accounted for. */
  lemma CountsOnce<P, B>(n: Ledger<P, B>, attached: set<B>, b: B)
    requires Inv(n) && Accounted(n, attached) && n.buffer.Keys <= n.freed
    ensures multiset(n.released)[b] == if b in n.buffer.Values || b in attached then 1 else 0
  {
    DistinctCount(n.released, b);
  }

  lemma {:induction false} DistinctCount<B>(s: seq<B>, b: B)
    requires Distinct(s)
    ensures multiset(s)[b] == if b in s then 1 else 0
  {
    if s != [] {
      assert s == [s[0]] + s[1..];
      DistinctCount(s[1..], b);
    }
  }

  lemma FlushFreesAll<P, B>(l: Ledger<P, B>, attached: set<B>)
    requires Inv(l) && l.out == {} && Accounted(l, {} + attached)
    ensures forall p :: p in l.cache ==> p in l.cap && p in l.buffer
    ensures var n := Apply(l, Flush).0;
            && n.freed == l.All() == n.All()
            && forall b :: multiset(n.released)[b] == if b in n.buffer.Values || b in attached then 1 else 0
  {
    hide Accounted, Distinct;
    InvIsPartition(l);
    KeepFlush(l);
    assert {} + attached == attached;
    FlushAccount(l, attached);
    var n := Apply(l, Flush).0;
    forall b ensures multiset(n.released)[b] == if b in n.buffer.Values || b in attached then 1 else 0 {
      CountsOnce(n, attached, b);
    }
  }

  /** After any use of the pool and a final flush, once everything handed out has come back,
      every packet ever created has been freed, and every buffer, created by the pool or
      attached by a user, has been freed exactly once; nothing else has been freed. */
  lemma NothingLeaks<P, B>(ops: seq<Op<P, B>>)
    requires AllAllowed(Init<P, B>(), ops) && Run(Init<P, B>(), ops).out == {}
    ensures var l := Run(Init<P, B>(), ops);
            && Inv(l)
            && (forall p :: p in l.cache ==> p in l.cap && p in l.buffer)
            && var n := Apply(l, Flush).0;
               && n.freed == l.All() == n.All()
               && forall b :: multiset(n.released)[b] == if b in n.buffer.Values || b in AttachedIn(ops) then 1 else 0
  {
    hide Apply, Accounted, Inv, AllAllowed, Run;
    InitAccount<P, B>();
    RunKeepsInv(Init<P, B>(), ops);
    RunAccounts(Init<P, B>(), ops, {});
    FlushFreesAll(Run(Init<P, B>(), ops), AttachedIn(ops));
  }

  /** A packet that has just come back is the first choice for any request it can hold. */
  lemma ReusesLatest<P, B>(l: Ledger<P, B>, p: P, size: nat, new_p: P, new_b: B)
    requires Inv(l) && p in l.out && p in l.buffer && size <= l.cap[p]
    ensures (forall q :: q in l.cache ==> q in l.cap && q in l.buffer)
    ensures var n := Apply(l, Put(p, None)).0;
            && (forall q :: q in n.cache ==> q in n.cap && q in n.buffer)
            && Apply(n, Get(size, new_p, new_b)) == (l, Some(p))
  {
    var n := Apply(l, Put(p, None)).0;
    InvIsPartition(l);
    assert n.cache[0] == p && FirstFit(n.cache, n.cap, size) == 0;
    assert n.cache[..0] + n.cache[1..] == l.cache;
    assert n.out + {p} == l.out;
  }

  /** An unsized packet that has just come back is what the next request for an empty one gets;
      all that remains of the two is the buffer that was freed. */
  lemma ReusesLatestEmpty<P, B>(l: Ledger<P, B>, p: P, attached: Option<B>, new_p: P)
    requires Inv(l) && p in l.out && p !in l.buffer
    ensures (forall q :: q in l.cache ==> q in l.cap && q in l.buffer)
    ensures var n := Apply(l, Put(p, attached)).0;
            && (forall q :: q in n.cache ==> q in n.cap && q in n.buffer)
            && var freed := l.released + if attached.Some? then [attached.value] else [];
               Apply(n, GetEmpty(new_p)) == (l.(released := freed), Some(p))
  {
    hide Inv;
    InvIsPartition(l);
    var n := Apply(l, Put(p, attached)).0;
    assert n.empty[0] == p && n.empty[1..] == l.empty;
    assert n.out + {p} == l.out;
  }
}
