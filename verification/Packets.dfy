/** The packet pool of src/packet.c on real packets, proved against the ledger of Pool.
    Allocation is taken to succeed. */
module Packets {
  import opened Wrappers
  import opened Base64
  import opened PacketKind
  import opened Pool

  /** pkt_ops: none, the standard ops, or ops that a module supplied. */
  datatype Ops = NoOps | Std | Custom

  class Packet {
    var kind: PacketType
    var data: array?<byte>
    var size: nat
    var sizeActual: nat
    var ops: Ops

    constructor ()
      ensures IsReset()
    {
      kind, data, size, sizeActual, ops := Unknown, null, 0, 0, NoOps;
    }

    constructor Sized(n: nat)
      requires n > 0
      ensures kind == Unknown && data != null && fresh(data) && data.Length == size == sizeActual == n && ops == Std
    {
      kind, data, size, sizeActual, ops := Unknown, new byte[n], n, n, Std;
    }

    ghost predicate IsReset()
      reads this
    {
      kind == Unknown && data == null && size == 0 && sizeActual == 0 && ops == NoOps
    }

    /** packet_init */
    method Reset()
      modifies this
      ensures IsReset()
    {
      kind, data, size, sizeActual, ops := Unknown, null, 0, 0, NoOps;
    }
  }

  class Packets {
    var cache: seq<Packet>
    var cacheEmpty: seq<Packet>
    ghost var ledger: Ledger<Packet, array<byte>>

    /** The buffer of a sized packet is the one it was created with. */
    ghost predicate OwnBuffer(p: Packet)
      reads this, p
    {
      && p in ledger.buffer && p in ledger.cap
      && p.data == ledger.buffer[p] && p.ops == Std && p.data.Length == p.sizeActual == ledger.cap[p]
    }

    /** The caches are those of the ledger; cached sized packets are whole, cached empty ones
        hold nothing. */
    ghost predicate Valid()
      reads this, cache, cacheEmpty
    {
      && Inv(ledger) && ledger.cache == cache && ledger.empty == cacheEmpty
      && (forall p :: p in cache ==> OwnBuffer(p) && p.kind == Unknown && p.size == p.sizeActual)
      && (forall p :: p in cacheEmpty ==> p.IsReset())
    }

    /** What the user of a packet leaves alone: the buffer of a sized packet. To any other packet
        data and ops may have been attached; standard ops come with a buffer of their own. */
    ghost predicate Returnable(p: Packet)
      reads this, p
    {
      if p in ledger.buffer then OwnBuffer(p)
      else
        && p.sizeActual == 0
        && (p.ops == Std ==> p.data != null && p.data !in ledger.buffer.Values && p.data !in ledger.released)
    }

    constructor ()
      ensures Valid() && ledger == Pool.Init() && cache == [] && cacheEmpty == []
    {
      cache, cacheEmpty := [], [];
      ledger := Pool.Init();
    }

    /** packet_create */
    method Create(size: nat) returns (pkt: Packet)
      requires Valid()
      modifies this`ledger
      ensures Valid() && fresh(pkt) && NewPacket(old(ledger), pkt)
      ensures size == 0 ==> pkt.IsReset() && ledger == old(ledger).(out := old(ledger).out + {pkt})
      ensures size > 0 ==> pkt.data != null && fresh(pkt.data) && NewBuffer(old(ledger), pkt.data)
                           && ledger == Pool.Create(old(ledger), pkt, size, pkt.data)
      ensures pkt.size == pkt.sizeActual == size && Returnable(pkt)
      ensures size > 0 ==> pkt.data != null && pkt.data.Length == size
    {
      hide Inv;
      if size != 0 {
        pkt := new Packet.Sized(size);
        assert NewBuffer(ledger, pkt.data);
        KeepCreate(ledger, pkt, size, pkt.data);
        ledger := Pool.Create(ledger, pkt, size, pkt.data);
      } else {
        pkt := new Packet();
        KeepNew(ledger, pkt);
        ledger := ledger.(out := ledger.out + {pkt});
      }
    }

    /** The walk of pppoat_packet_get over the cache. */
    method Search(size: nat) returns (i: nat)
      requires Valid()
      ensures forall p :: p in ledger.cache ==> p in ledger.cap
      ensures i == FirstFit(ledger.cache, ledger.cap, size)
    {
      hide Inv;
      InvIsPartition(ledger);
      i := 0;
      while i < |cache| && cache[i].sizeActual < size
        invariant i <= |cache| && forall j :: 0 <= j < i ==> ledger.cap[cache[j]] < size
      {
        i := i + 1;
      }
      FirstFitIs(cache, ledger.cap, size, i);
    }

    /** pppoat_packet_get: the most recently returned packet that is large enough, or a new one
        when there is none. */
    method Get(size: nat) returns (pkt: Packet)
      requires Valid()
      modifies this`cache, this`ledger, cache
      ensures forall p :: p in old(ledger).cache ==> p in old(ledger).cap
      ensures var l := old(ledger); var k := FirstFit(l.cache, l.cap, size);
              if k < |l.cache| then
                pkt == l.cache[k] && ledger == l.(cache := l.cache[..k] + l.cache[k + 1..], out := l.out + {pkt})
              else fresh(pkt) && (if size == 0 then ledger == l.(out := l.out + {pkt})
                                  else pkt.data != null && fresh(pkt.data)
                                       && ledger == Pool.Create(l, pkt, size, pkt.data))
      ensures Valid() && pkt.size == size <= pkt.sizeActual && Returnable(pkt)
      ensures size > 0 ==> pkt.data != null && pkt.data.Length >= size
    {
      hide Inv;
      var i := Search(size);
      if i < |cache| {
        pkt := Cut(i, size);
      } else {
        pkt := Create(size);
      }
    }

    /** Takes the packet at position i out of the cache. */
    method Cut(i: nat, size: nat) returns (pkt: Packet)
      requires Valid() && i < |cache| && cache[i].sizeActual >= size
      modifies this`cache, this`ledger, cache
      ensures pkt == old(cache)[i]
      ensures ledger == old(ledger).(cache := old(cache)[..i] + old(cache)[i + 1..], out := old(ledger).out + {pkt})
      ensures Valid() && pkt.size == size <= pkt.sizeActual && Returnable(pkt)
      ensures pkt.data != null && pkt.data.Length >= size
    {
      hide Inv, Distinct;
      pkt := cache[i];
      InvIsPartition(ledger);
      SplitCache(cache, i);
      KeepMove(ledger, cache[..i] + cache[i + 1..], pkt);
      cache := cache[..i] + cache[i + 1..];
      ledger := ledger.(cache := cache, out := ledger.out + {pkt});
      pkt.size := size;
    }

    /** pppoat_packet_get_empty */
    method GetEmpty() returns (pkt: Packet)
      requires Valid()
      modifies this`cacheEmpty, this`ledger
      ensures Valid() && pkt.IsReset() && Returnable(pkt)
      ensures if old(cacheEmpty) == [] then fresh(pkt) else pkt == old(cacheEmpty)[0]
      ensures forall p :: p in old(ledger).cache ==> p in old(ledger).cap && p in old(ledger).buffer
      ensures ledger == Apply(old(ledger), Pool.GetEmpty(pkt)).0
    {
      hide Inv;
      InvIsPartition(ledger);
      if cacheEmpty != [] {
        pkt := cacheEmpty[0];
        KeepTakeEmpty(ledger);
        cacheEmpty := cacheEmpty[1..];
        ledger := ledger.(empty := cacheEmpty, out := ledger.out + {pkt});
      } else {
        pkt := Create(0);
      }
    }

    /** pppoat_packet_put: a sized packet keeps its buffer and goes to the front of the cache;
        any other is stripped, its attached standard buffer freed, and kept as an empty one. */
    method Put(pkt: Packet)
      requires Valid() && pkt in ledger.out && Returnable(pkt)
      modifies this`cache, this`cacheEmpty, this`ledger, pkt
      ensures Valid()
      ensures forall p :: p in old(ledger).cache ==> p in old(ledger).cap && p in old(ledger).buffer
      ensures ledger == Apply(old(ledger), Pool.Put(pkt, old(Attached(pkt)))).0
      ensures pkt in ledger.buffer ==> pkt.data == old(pkt.data) && pkt.sizeActual == old(pkt.sizeActual)
    {
      hide Inv;
      InvIsPartition(ledger);
      ghost var attached := Attached(pkt);
      CapPositive(ledger);
      KeepPut(ledger, pkt, attached);
      ledger := Apply(ledger, Pool.Put(pkt, attached)).0;
      if pkt.sizeActual == 0 {
        pkt.Reset();
        cacheEmpty := [pkt] + cacheEmpty;
      } else {
        pkt.kind := Unknown;
        pkt.size := pkt.sizeActual;
        cache := [pkt] + cache;
      }
      assert pkt.sizeActual == 0 ==> pkt.data == null;
    }

    /** A buffer that putting the packet back frees. */
    ghost function Attached(p: Packet): Option<array<byte>>
      reads this, p
    {
      if p !in ledger.buffer && p.ops == Std && p.data != null then Some(p.data) else None
    }

    /** packets_flush: every cached packet is freed, and with it each cached buffer, once. */
    method Flush()
      requires Valid()
      modifies this`cache, this`cacheEmpty, this`ledger
      ensures Valid()
      ensures forall p :: p in old(ledger).cache ==> p in old(ledger).cap && p in old(ledger).buffer
      ensures ledger == Apply(old(ledger), Pool.Flush).0
    {
      hide Inv;
      InvIsPartition(ledger);
      KeepFlush(ledger);
      ghost var l := ledger;
      ghost var frees: seq<array<byte>> := [];
      while cacheEmpty != []
        invariant cache == l.cache && ledger == l
        decreases |cacheEmpty|
      {
        cacheEmpty := cacheEmpty[1..];
      }
      while cache != []
        invariant cacheEmpty == [] && ledger == l
        invariant |frees| + |cache| == |l.cache| && cache == l.cache[|frees|..]
        invariant frees == Buffers(l.cache, l.buffer)[..|frees|]
        decreases |cache|
      {
        var pkt := cache[0];
        cache := cache[1..];
        assert pkt in l.cache;
        frees := frees + [pkt.data];
      }
      ledger := Apply(l, Pool.Flush).0;
      assert l.released + frees == ledger.released;
    }
  }

  lemma KeepNew<P, B>(l: Ledger<P, B>, p: P)
    requires Inv(l) && NewPacket(l, p)
    ensures Inv(l.(out := l.out + {p})) && p !in l.buffer
  {
    assert p !in l.buffer;
  }

  lemma KeepTakeEmpty<P, B>(l: Ledger<P, B>)
    requires Inv(l) && l.empty != []
    ensures Inv(l.(empty := l.empty[1..], out := l.out + {l.empty[0]})) && l.empty[0] !in l.buffer
    ensures forall p :: p in l.cache ==> p !in l.empty
  {
    InvIsPartition(l);
    SplitCache(l.empty, 0);
    assert l.empty[..0] + l.empty[1..] == l.empty[1..];
  }

  lemma CapPositive<P, B>(l: Ledger<P, B>)
    requires Inv(l)
    ensures forall p :: p in l.buffer ==> p in l.cap && l.cap[p] > 0
    ensures forall p :: p in l.out ==> p !in l.cache && p !in l.empty
  {}
}
