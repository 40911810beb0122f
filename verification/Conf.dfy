/** The configuration of src/conf.c on real, reference-counted records, proved against
    ConfStore. Each public method is one section under c_lock; allocation is taken to succeed. */
module Conf {
  import opened Wrappers
  import opened ConfStore

  const ENOENT: int := -2
  const ERANGE: int := -34

  /** struct pppoat_conf_record */
  class Record {
    const key: string
    const val: string
    var ref: int

    constructor (key: string, val: string)
      ensures this.key == key && this.val == val && ref == 1
    {
      this.key, this.val, ref := key, val, 1;
    }
  }

  class Conf {
    var store: seq<Record>
    var gen: nat
    ghost var s: State<Record>

    /** The list and the records are those of the model. */
    ghost predicate Linked()
      reads this, s.key.Keys
    {
      && Known(s) && s.store == store && s.gen == gen
      && forall r :: r in s.key ==> r.key == s.key[r] && r.val == s.val[r] && r.ref == s.ref[r]
    }

    ghost predicate Valid()
      reads this, s.key.Keys
    {
      Linked() && Inv(s)
    }

    /** What a key means: its value, if it has one. */
    ghost function Meaning(k: string): Option<string>
      requires Linked()
      reads this, s.key.Keys
    {
      Meant(s, k)
    }

    constructor ()
      ensures Valid() && s == ConfStore.Init() && store == [] && gen == 0
    {
      store, gen := [], 0;
      s := ConfStore.Init();
    }

    /** conf_record_get_locked */
    method GetLocked(r: Record)
      requires Linked() && r in s.key && r.ref > 0
      modifies this`s, r
      ensures Linked() && s == Get(old(s), r)
    {
      r.ref := r.ref + 1;
      s := Get(s, r);
    }

    /** conf_record_put_locked; a record whose last reference goes is destroyed. */
    method PutLocked(r: Record)
      requires Linked() && r in s.key && r.ref > 0
      modifies this`s, r
      ensures Linked() && s == Put(old(s), r)
    {
      r.ref := r.ref - 1;
      s := Put(s, r);
    }

    /** The search loop of conf_lookup_locked. */
    method SearchLocked(key: string) returns (i: nat)
      requires Linked()
      ensures i == Search(s.store, s.key, key)
    {
      i := 0;
      while i < |store| && store[i].key != key
        invariant i <= |store| && forall j :: 0 <= j < i ==> s.key[store[j]] != key
      {
        i := i + 1;
      }
      SearchIs(s.store, s.key, key, i);
    }

    /** conf_lookup_locked; i is the position of the record in the store. */
    method LookupLocked(key: string) returns (r: Record?, i: nat)
      requires Valid()
      modifies this`s, s.key.Keys
      ensures Linked() && i == Search(old(s).store, old(s).key, key) && store == old(store)
      ensures i == |store| ==> r == null && s == old(s)
      ensures i < |store| ==> r == store[i] && r in s.key && r.ref >= 2 && s == Get(old(s), r)
    {
      i := SearchLocked(key);
      if i == |store| {
        return null, i;
      }
      r := store[i];
      HeldIsAlive(s, r);
      GetLocked(r);
    }

    /** conf_drop_locked */
    method DropLocked(key: string)
      requires Valid()
      modifies this`s, this`store, s.key.Keys
      ensures Valid() && s == ConfStore.DropLocked(old(s), key)
    {
      hide UniqueKeys, Counted, Value, FlushAll;
      ghost var before := s;
      DropKeepsInv(s, key);
      var r, i := LookupLocked(key);
      if r != null {
        store := Without(store, i);
        s := s.(store := store);
        WithoutKnown(before, i);
        PutLocked(r);
        PutLocked(r);
      }
    }

    /** Inserts a new record whose key is absent. */
    method AddLocked(n: Record)
      requires Valid() && n !in s.key && n.ref == 1 && Meaning(n.key) == None
      modifies this`store, this`s
      ensures Valid() && s == NewRecord(old(s), n.key, n.val, n).(store := [n] + old(store))
    {
      hide Inv, Value, UniqueKeys, Counted;
      ghost var after := NewRecord(s, n.key, n.val, n).(store := [n] + store);
      AddKeepsInv(s, n.key, n.val, n);
      InvIsKnown(after);
      store := [n] + store;
      s := after;
    }

    /** ++c_gen */
    method NextGen()
      requires Valid()
      modifies this`gen, this`s
      ensures Valid() && gen == old(gen) + 1 && s == old(s).(gen := gen)
    {
      hide Inv;
      InvGen(s, gen + 1);
      gen := gen + 1;
      s := s.(gen := gen);
    }

    /** pppoat_conf_store; r is the record it allocates. */
    method Store(key: string, val: string) returns (ghost r: Record)
      requires Valid()
      modifies this, s.key.Keys
      ensures Valid() && fresh(r) && r !in old(s).key && s == Apply(old(s), ConfStore.Store(key, val, r)).0
      ensures s.key.Keys == old(s).key.Keys + {r} && gen == old(gen) + 1
      ensures store != [] && store[0] == r && r.key == key && r.val == val && r.ref == 1
      ensures forall k :: Meaning(k) == if k == key then Some(val) else old(Meaning(k))
    {
      hide Inv, Value, ConfStore.DropLocked, NewRecord, UniqueKeys, Counted, Apply;
      var n := new Record(key, val);
      assert n !in s.key;
      StoreUpdates(s, key, val, n);
      StoreIs(s, key, val, n);
      DropKeepsInv(s, key);
      DropLocked(key);
      AddLocked(n);
      NextGen();
      r := n;
    }

    /** pppoat_conf_drop: the generation grows even if the key is absent. */
    method Drop(key: string)
      requires Valid()
      modifies this, s.key.Keys
      ensures Valid() && s == Apply(old(s), ConfStore.Drop(key)).0 && gen == old(gen) + 1
      ensures forall k :: Meaning(k) == if k == key then None else old(Meaning(k))
    {
      hide Inv, Value, ConfStore.DropLocked, UniqueKeys, Counted;
      DropKeepsInv(s, key);
      DropLocked(key);
      NextGen();
    }

    /** One round of the loop of pppoat_conf_flush. */
    method PopRelease()
      requires Valid() && store != []
      modifies this`store, this`s, s.key.Keys
      ensures Valid() && s == Put(old(s).(store := old(store)[1..]), old(store)[0]) && s.key == old(s).key
      ensures store == old(store)[1..]
    {
      hide UniqueKeys, Counted, Value;
      var r := store[0];
      HeldIsAlive(s, r);
      LeaveKeepsInv(s, 0);
      assert Without(s.store, 0) == s.store[1..];
      store := store[1..];
      s := s.(store := store);
      PutLocked(r);
    }

    /** The loop of pppoat_conf_flush. */
    method ReleaseAll()
      requires Valid()
      modifies this`store, this`s, s.key.Keys
      ensures Valid() && s == FlushAll(old(s))
    {
      hide Inv, Value, Put, Counted, UniqueKeys;
      ghost var before := s;
      while store != []
        invariant Valid() && s.key == before.key && FlushAll(s) == FlushAll(before)
        decreases |store|
      {
        PopRelease();
      }
    }

    /** pppoat_conf_flush */
    method Flush()
      requires Valid()
      modifies this, s.key.Keys
      ensures Valid() && store == [] && s == Apply(old(s), ConfStore.Flush).0 && gen == old(gen) + 1
      ensures forall k :: Meaning(k) == None
    {
      hide Inv, Value, FlushAll, Counted, UniqueKeys;
      FlushEmpties(s);
      ReleaseAll();
      NextGen();
      EmptyMeansNothing(s.key, s.val);
    }

    /** pppoat_conf_lookup: the record, and with it a reference of the caller. */
    method Lookup(key: string) returns (r: Record?)
      requires Valid()
      modifies this`s, s.key.Keys
      ensures Valid() && (s, if r == null then None else Some(r)) == Apply(old(s), ConfStore.Lookup(key))
      ensures old(Meaning(key)) == if r == null then None else Some(r.val)
      ensures r != null ==> r.key == key && r in s.held && r in old(s).key && r.ref == old(s).ref[r] + 1
      ensures r == null ==> s == old(s)
    {
      hide UniqueKeys, Counted, Value, FlushAll, ConfStore.DropLocked, Put;
      LookupFinds(s, key);
      ghost var i;
      r, i := LookupLocked(key);
      if r != null {
        s := s.(held := s.held + multiset{r});
      }
    }

    /** pppoat_conf_record_get */
    method RecordGet(r: Record)
      requires Valid() && r in s.held
      modifies this`s, r
      ensures Valid() && s == Apply(old(s), ConfStore.RecordGet(r)).0 && r.ref == old(r.ref) + 1
    {
      hide UniqueKeys, Counted, Value, FlushAll, ConfStore.DropLocked, Put, Search;
      GetKeepsInv(s, r);
      HeldIsAlive(s, r);
      GetLocked(r);
      s := s.(held := s.held + multiset{r});
    }

    /** pppoat_conf_record_put */
    method RecordPut(r: Record)
      requires Valid() && r in s.held
      modifies this`s, r
      ensures Valid() && s == Apply(old(s), ConfStore.RecordPut(r)).0 && r.ref == old(r.ref) - 1
    {
      hide UniqueKeys, Counted, Value, FlushAll, ConfStore.DropLocked, Get, Search;
      PutKeepsInv(s, r);
      HeldIsAlive(s, r);
      PutLocked(r);
      s := s.(held := s.held - multiset{r});
    }

    /** pppoat_conf_find_string, for a buffer of outlen characters: no reference is left behind. */
    method FindString(key: string, outlen: nat) returns (rc: int, out: string)
      requires Valid()
      modifies this`s, s.key.Keys
      ensures Valid() && s == old(s)
      ensures match old(Meaning(key))
              case None => rc == -2
              case Some(v) => if |v| < outlen then rc == 0 && out == v else rc == -34
    {
      hide Inv, Counted, UniqueKeys, Value, Search, FlushAll, ConfStore.DropLocked, Put, Get, Apply;
      ghost var before := s;
      out := "";
      var r := Lookup(key);
      rc := if r == null then ENOENT else 0;
      if r != null {
        if |r.val| >= outlen {
          rc := ERANGE;
        } else {
          out := r.val;
        }
        LookupThenPut(before, key);
        RecordPut(r);
      }
    }

    /** pppoat_conf_find_string_alloc, whose allocation succeeds. */
    method FindStringAlloc(key: string) returns (rc: int, out: string)
      requires Valid()
      modifies this`s, s.key.Keys
      ensures Valid() && s == old(s)
      ensures old(Meaning(key)) == if rc == 0 then Some(out) else None
      ensures rc == 0 || rc == -2
    {
      hide Inv, Counted, UniqueKeys, Value, Search, FlushAll, ConfStore.DropLocked, Put, Get, Apply;
      ghost var before := s;
      out := "";
      var r := Lookup(key);
      rc := if r == null then ENOENT else 0;
      if r != null {
        out := r.val;
        LookupThenPut(before, key);
        RecordPut(r);
      }
    }

    /** pppoat_conf_find_bool */
    method FindBool(key: string) returns (out: bool)
      requires Valid()
      modifies this`s, s.key.Keys
      ensures Valid() && s == old(s)
      ensures out <==> old(Meaning(key)).Some? && old(Meaning(key)).value !in {"0", "false", "False", "FALSE"}
    {
      hide Inv, Counted, UniqueKeys, Value, Search, FlushAll, ConfStore.DropLocked, Put, Get, Apply;
      ghost var before := s;
      var r := Lookup(key);
      out := !(r == null || r.val == "0" || r.val == "false" || r.val == "False" || r.val == "FALSE");
      if r != null {
        LookupThenPut(before, key);
        RecordPut(r);
      }
    }
  }

  /** A store is a drop, a new record and an insertion. */
  lemma StoreIs<R>(s: State<R>, k: string, v: string, r: R)
    requires Inv(s) && r !in s.key
    ensures var d := ConfStore.DropLocked(s, k);
            var n := NewRecord(d, k, v, r);
            && Apply(s, ConfStore.Store(k, v, r)).0 == n.(store := [r] + d.store, gen := d.gen + 1)
            && n.gen == d.gen && n.key.Keys == s.key.Keys + {r}
  {
    hide Inv, ConfStore.DropLocked;
    DropKeepsInv(s, k);
  }

  lemma EmptyMeansNothing<R>(key: map<R, string>, val: map<R, string>)
    ensures forall k :: Value([], key, val, k) == None
  {}

  lemma WithoutKnown<R>(s: State<R>, i: nat)
    requires Known(s) && i < |s.store|
    ensures Known(s.(store := Without(s.store, i)))
  {}

  lemma GetThenPut<R>(s: State<R>, r: R)
    requires r in s.ref && s.ref[r] > 0
    ensures var n := Get(s, r).(held := s.held + multiset{r});
            r in n.ref && Put(n, r).(held := n.held - multiset{r}) == s
  {
    assert Get(s, r).ref[r := s.ref[r]] == s.ref;
    assert s.held + multiset{r} - multiset{r} == s.held;
  }

  /** A lookup whose reference is given back leaves everything as it was. */
  lemma LookupThenPut<R>(s: State<R>, k: string)
    requires Inv(s)
    ensures var (n, o) := Apply(s, ConfStore.Lookup(k));
            o.Some? ==> Inv(n) && o.value in n.held && Apply(n, ConfStore.RecordPut(o.value)).0 == s
  {
    hide Inv, Value, FlushAll, ConfStore.DropLocked, Get, Put;
    LookupFinds(s, k);
    InvIsKnown(s);
    var i := Search(s.store, s.key, k);
    if i < |s.store| {
      HeldIsAlive(s, s.store[i]);
      GetThenPut(s, s.store[i]);
    }
  }

  lemma SearchIs<R>(store: seq<R>, key: map<R, string>, k: string, i: nat)
    requires forall r :: r in store ==> r in key
    requires i <= |store| && (forall j :: 0 <= j < i ==> key[store[j]] != k) && (i < |store| ==> key[store[i]] == k)
    ensures Search(store, key, k) == i
  {
    var n := Search(store, key, k);
    assert !(n < i) && !(i < n);
  }
}
