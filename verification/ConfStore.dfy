/** The reference-counted configuration store of src/conf.c on values. R names records. */
module ConfStore {
  import opened Wrappers

  /** c_store, most recently stored record first; for every record created so far its key,
      value and cr_ref; the records destroyed; the references users hold; c_gen. */
  datatype State<!R(==)> = State(store: seq<R>, key: map<R, string>, val: map<R, string>, ref: map<R, int>,
                                 destroyed: set<R>, held: multiset<R>, gen: nat)

  function Init<R>(): State<R> { State([], map[], map[], map[], {}, multiset{}, 0) }

  // ----- What the store means -----

  /** The value a store gives to a key: that of the first record with it. */
  function Value<R>(store: seq<R>, key: map<R, string>, val: map<R, string>, k: string): Option<string>
    requires forall r :: r in store ==> r in key && r in val
  {
    if store == [] then None
    else if key[store[0]] == k then Some(val[store[0]])
    else Value(store[1..], key, val, k)
  }

  ghost predicate Known<R>(s: State<R>) {
    && s.key.Keys == s.val.Keys == s.ref.Keys
    && (forall r :: r in s.store ==> r in s.key)
    && (forall r :: r in s.held ==> r in s.key)
    && s.destroyed <= s.key.Keys
  }

  ghost predicate UniqueKeys<R>(s: State<R>)
    requires Known(s)
  {
    forall i, j :: 0 <= i < j < |s.store| ==> s.key[s.store[i]] != s.key[s.store[j]]
  }

  function One(b: bool): int { if b then 1 else 0 }

  /** cr_ref counts the store and the users, and a record is destroyed exactly when nobody is
      left. */
  ghost predicate Counted<R>(s: State<R>)
    requires Known(s)
  {
    forall r :: r in s.key ==> s.ref[r] == One(r in s.store) + s.held[r] && (r in s.destroyed <==> s.ref[r] == 0)
  }

  ghost predicate Inv<R>(s: State<R>) { Known(s) && UniqueKeys(s) && Counted(s) }

  // ----- Primitive operations, as the source composes them -----

  /** The search loop of conf_lookup_locked: the position of the key, or the length. */
  function Search<R>(store: seq<R>, key: map<R, string>, k: string): (i: nat)
    requires forall r :: r in store ==> r in key
    ensures i <= |store|
    ensures forall j :: 0 <= j < i ==> key[store[j]] != k
    ensures i < |store| ==> key[store[i]] == k
  {
    if store == [] || key[store[0]] == k then 0 else 1 + Search(store[1..], key, k)
  }

  /** conf_record_get_locked */
  function Get<R>(s: State<R>, r: R): State<R>
    requires r in s.ref
  {
    s.(ref := s.ref[r := s.ref[r] + 1])
  }

  /** conf_record_put_locked */
  function Put<R>(s: State<R>, r: R): State<R>
    requires r in s.ref
  {
    s.(ref := s.ref[r := s.ref[r] - 1], destroyed := if s.ref[r] == 1 then s.destroyed + {r} else s.destroyed)
  }

  function Without<R>(store: seq<R>, i: nat): seq<R>
    requires i < |store|
  {
    store[..i] + store[i + 1..]
  }

  /** conf_drop_locked: a lookup, the removal, and two releases. */
  function DropLocked<R>(s: State<R>, k: string): State<R>
    requires Known(s)
  {
    var i := Search(s.store, s.key, k);
    if i == |s.store| then s
    else
      var r := s.store[i];
      Put(Put(Get(s, r).(store := Without(s.store, i)), r), r)
  }

  // ----- The interface -----

  datatype Op<R> =
    | Store(k: string, v: string, new_r: R)  // new_r: what the allocator returns
    | Drop(k: string)
    | Flush
    | Lookup(k: string)
    | RecordGet(r: R)
    | RecordPut(r: R)

  /** A new record is none seen before; users only pass records they hold. */
  predicate Allowed<R>(s: State<R>, op: Op<R>) {
    match op
    case Store(_, _, r) => r !in s.key
    case RecordGet(r) => r in s.held
    case RecordPut(r) => r in s.held
    case _ => true
  }

  /** The pops and releases of pppoat_conf_flush. */
  function FlushAll<R>(s: State<R>): State<R>
    requires Known(s)
    decreases |s.store|
  {
    if s.store == [] then s else FlushAll(Put(s.(store := s.store[1..]), s.store[0]))
  }

  function NewRecord<R>(s: State<R>, k: string, v: string, r: R): State<R> {
    s.(key := s.key[r := k], val := s.val[r := v], ref := s.ref[r := 1])
  }

  /** The operation and the record it returns, if any. */
  ghost function Apply<R>(s: State<R>, op: Op<R>): (State<R>, Option<R>)
    requires Inv(s) && Allowed(s, op)
  {
    match op
    case Store(k, v, r) =>
      var d := DropLocked(s, k);
      var n := NewRecord(d, k, v, r);
      (n.(store := [r] + n.store, gen := n.gen + 1), None)
    case Drop(k) =>
      var d := DropLocked(s, k);
      (d.(gen := d.gen + 1), None)
    case Flush =>
      var f := FlushAll(s);
      (f.(gen := f.gen + 1), None)
    case Lookup(k) =>
      var i := Search(s.store, s.key, k);
      if i == |s.store| then (s, None)
      else (Get(s, s.store[i]).(held := s.held + multiset{s.store[i]}), Some(s.store[i]))
    case RecordGet(r) => (Get(s, r).(held := s.held + multiset{r}), None)
    case RecordPut(r) => (Put(s, r).(held := s.held - multiset{r}), None)
  }

  // ----- Every operation keeps the counts and acts on the meaning as on a map -----

  /** Two stores that agree on the keys and values of their records. */
  lemma {:induction false} ValueFrame<R>(store: seq<R>, key: map<R, string>, val: map<R, string>,
                                         key': map<R, string>, val': map<R, string>, k: string)
    requires forall r :: r in store ==> r in key && r in val && r in key' && r in val'
    requires forall r :: r in store ==> key[r] == key'[r] && val[r] == val'[r]
    ensures Value(store, key, val, k) == Value(store, key', val', k)
  {
    if store != [] {
      ValueFrame(store[1..], key, val, key', val', k);
    }
  }

  lemma {:induction false} ValueAtSearch<R>(store: seq<R>, key: map<R, string>, val: map<R, string>, k: string)
    requires forall r :: r in store ==> r in key && r in val
    ensures var i := Search(store, key, k);
            Value(store, key, val, k) == if i == |store| then None else Some(val[store[i]])
  {
    if store != [] && key[store[0]] != k {
      ValueAtSearch(store[1..], key, val, k);
    }
  }

  /** Cutting out the only record with key k removes k and nothing else. */
  lemma {:induction false} ValueWithout<R>(store: seq<R>, key: map<R, string>, val: map<R, string>, i: nat, k: string)
    requires forall r :: r in store ==> r in key && r in val
    requires i < |store| && forall j :: 0 <= j < |store| && j != i ==> key[store[j]] != key[store[i]]
    ensures forall r :: r in Without(store, i) ==> r in key && r in val
    ensures Value(Without(store, i), key, val, k) == if k == key[store[i]] then None else Value(store, key, val, k)
  {
    var w := Without(store, i);
    forall r | r in w ensures r in store {}
    if i == 0 {
      assert w == store[1..];
      if k == key[store[0]] {
        assert forall j :: 0 <= j < |w| ==> w[j] == store[j + 1];
        ValueAtSearch(w, key, val, k);
      }
    } else {
      assert w[0] == store[0] && w[1..] == Without(store[1..], i - 1);
      ValueWithout(store[1..], key, val, i - 1, k);
    }
  }

  /** What conf_drop_locked amounts to on a found record. */
  lemma DropIs<R>(s: State<R>, k: string)
    requires Inv(s) && Search(s.store, s.key, k) < |s.store|
    ensures var i := Search(s.store, s.key, k);
            var r := s.store[i];
            DropLocked(s, k) == Put(s.(store := Without(s.store, i)), r)
  {
    var i := Search(s.store, s.key, k);
    var r := s.store[i];
    assert s.ref[r] >= 1;
    assert Get(s, r).ref[r := s.ref[r]] == s.ref;
  }

  lemma WithoutMembers<R>(store: seq<R>, i: nat)
    requires i < |store| && forall j :: 0 <= j < |store| && j != i ==> store[j] != store[i]
    ensures forall p :: p in Without(store, i) <==> p in store && p != store[i]
    ensures |Without(store, i)| == |store| - 1
    ensures forall j {:trigger Without(store, i)[j]} :: 0 <= j < |Without(store, i)| ==>
            Without(store, i)[j] == store[if j < i then j else j + 1]
  {
    var w := Without(store, i);
    forall p | p in store && p != store[i] ensures p in w {
      var j :| 0 <= j < |store| && store[j] == p;
      assert w[if j < i then j else j - 1] == p;
    }
  }

  /** A record leaves the store and its reference with it. */
  lemma LeaveKeepsInv<R>(s: State<R>, i: nat)
    requires Inv(s) && i < |s.store|
    ensures Inv(Put(s.(store := Without(s.store, i)), s.store[i]))
    ensures forall j :: 0 <= j < |s.store| && j != i ==> s.key[s.store[j]] != s.key[s.store[i]]
  {
    hide Without;
    WithoutMembers(s.store, i);
  }

  lemma DropKeepsInv<R>(s: State<R>, k: string)
    requires Inv(s)
    ensures var d := DropLocked(s, k);
            && Inv(d) && d.key == s.key && d.val == s.val && d.held == s.held && d.gen == s.gen
            && forall k' :: Value(d.store, d.key, d.val, k') ==
                            if k' == k then None else Value(s.store, s.key, s.val, k')
  {
    hide Inv;
    InvIsKnown(s);
    var i := Search(s.store, s.key, k);
    if i < |s.store| {
      DropIs(s, k);
      LeaveKeepsInv(s, i);
      InvIsKnown(DropLocked(s, k));
      forall k'
        ensures Value(Without(s.store, i), s.key, s.val, k') ==
                if k' == k then None else Value(s.store, s.key, s.val, k')
      {
        ValueWithout(s.store, s.key, s.val, i, k');
      }
    } else {
      ValueAtSearch(s.store, s.key, s.val, k);
    }
  }

  lemma InvIsKnown<R>(s: State<R>)
    requires Inv(s)
    ensures Known(s) && forall r :: r in s.store ==> r in s.key && r in s.val
  {}

  lemma AddUnique<R>(d: State<R>, k: string, v: string, r: R)
    requires Known(d) && UniqueKeys(d) && r !in d.key && forall q :: q in d.store ==> d.key[q] != k
    ensures var n := NewRecord(d, k, v, r).(store := [r] + d.store); Known(n) && UniqueKeys(n)
  {
    var n := NewRecord(d, k, v, r).(store := [r] + d.store);
    assert n.store[0] == r && forall j :: 1 <= j < |n.store| ==> n.store[j] == d.store[j - 1];
  }

  lemma AddCounted<R>(d: State<R>, k: string, v: string, r: R)
    requires Known(d) && Counted(d) && r !in d.key
    ensures var n := NewRecord(d, k, v, r).(store := [r] + d.store); Known(n) && Counted(n)
  {
    var n := NewRecord(d, k, v, r).(store := [r] + d.store);
    forall q | q in n.key ensures q in n.store <==> q == r || q in d.store {}
  }

  lemma AddKeepsInv<R>(d: State<R>, k: string, v: string, r: R)
    requires Inv(d) && r !in d.key && Value(d.store, d.key, d.val, k) == None
    ensures var n := NewRecord(d, k, v, r); Inv(n.(store := [r] + n.store))
  {
    hide Value, UniqueKeys, Counted;
    NewKeyUnique(d, k);
    AddUnique(d, k, v, r);
    AddCounted(d, k, v, r);
  }

  lemma AddValue<R>(d: State<R>, k: string, v: string, r: R, k': string)
    requires Known(d) && r !in d.key
    ensures var n := NewRecord(d, k, v, r);
            && (forall p :: p in [r] + d.store ==> p in n.key && p in n.val)
            && Value([r] + d.store, n.key, n.val, k') == if k' == k then Some(v) else Value(d.store, d.key, d.val, k')
  {
    var n := NewRecord(d, k, v, r);
    assert ([r] + d.store)[1..] == d.store;
    ValueFrame(d.store, d.key, d.val, n.key, n.val, k');
  }

  /** pppoat_conf_store is the update of a map. */
  lemma {:induction false} StoreUpdates<R>(s: State<R>, k: string, v: string, r: R)
    requires Inv(s) && r !in s.key
    ensures var n := Apply(s, Store(k, v, r)).0;
            && Inv(n) && n.gen == s.gen + 1
            && forall k' :: Value(n.store, n.key, n.val, k') ==
                            if k' == k then Some(v) else Value(s.store, s.key, s.val, k')
  {
    hide Counted, UniqueKeys, DropLocked, Value;
    DropKeepsInv(s, k);
    var d := DropLocked(s, k);
    var n := NewRecord(d, k, v, r);
    AddKeepsInv(d, k, v, r);
    InvGen(n.(store := [r] + n.store), n.gen + 1);
    forall k'
      ensures Value([r] + n.store, n.key, n.val, k') == if k' == k then Some(v) else Value(d.store, d.key, d.val, k')
    {
      AddValue(d, k, v, r, k');
    }
  }

  lemma InvGen<R>(s: State<R>, gen: nat)
    requires Inv(s)
    ensures Inv(s.(gen := gen))
  {}

  lemma NewKeyUnique<R>(d: State<R>, k: string)
    requires Inv(d) && Value(d.store, d.key, d.val, k) == None
    ensures forall r :: r in d.store ==> d.key[r] != k
  {
    ValueAtSearch(d.store, d.key, d.val, k);
  }

  lemma {:induction false} FlushEmpties<R>(s: State<R>)
    requires Inv(s)
    ensures var f := FlushAll(s);
            Inv(f) && f.store == [] && f.key == s.key && f.val == s.val && f.held == s.held && f.gen == s.gen
    decreases |s.store|
  {
    hide Inv;
    InvIsKnown(s);
    if s.store != [] {
      LeaveKeepsInv(s, 0);
      assert Without(s.store, 0) == s.store[1..];
      FlushEmpties(Put(s.(store := s.store[1..]), s.store[0]));
    }
  }

  lemma LookupFinds<R>(s: State<R>, k: string)
    requires Inv(s)
    ensures var (n, o) := Apply(s, Lookup(k));
            && Inv(n) && n.store == s.store && n.key == s.key && n.val == s.val
            && (match o
                case None => n == s && Value(s.store, s.key, s.val, k) == None
                case Some(r) => r in n.key && s.key[r] == k && Value(s.store, s.key, s.val, k) == Some(s.val[r])
                                && n.held == s.held + multiset{r} && n.destroyed == s.destroyed)
  {
    ValueAtSearch(s.store, s.key, s.val, k);
  }

  /** A record is destroyed only by the last reference, and never while somebody holds it or it
      is in the store. */
  lemma HeldIsAlive<R>(s: State<R>, r: R)
    requires Inv(s) && (r in s.held || r in s.store)
    ensures r in s.ref && s.ref[r] > 0 && r !in s.destroyed
  {}

  /** What a key means after an operation. */
  function Meaning(op: Op<()>, before: Option<string>, k: string): Option<string> {
    match op
    case Store(k', v, _) => if k' == k then Some(v) else before
    case Drop(k') => if k' == k then None else before
    case Flush => None
    case _ => before
  }

  function Erase<R>(op: Op<R>): Op<()> {
    match op
    case Store(k, v, _) => Store(k, v, ())
    case Drop(k) => Drop(k)
    case Flush => Flush
    case Lookup(k) => Lookup(k)
    case RecordGet(_) => RecordGet(())
    case RecordPut(_) => RecordPut(())
  }

  function Meant<R>(s: State<R>, k: string): Option<string>
    requires forall r :: r in s.store ==> r in s.key && r in s.val
  {
    Value(s.store, s.key, s.val, k)
  }

  /** Every operation keeps keys unique and references counted, counts one generation per store,
      drop or flush, and leaves the key and value of every record alone. */
  lemma {:induction false} KeepsInv<R>(s: State<R>, op: Op<R>)
    requires Inv(s) && Allowed(s, op)
    ensures var n := Apply(s, op).0;
            && Inv(n)
            && n.gen == s.gen + One(op.Store? || op.Drop? || op.Flush?)
            && (forall r :: r in s.key ==> r in n.key && n.key[r] == s.key[r] && n.val[r] == s.val[r])
  {
    hide Counted, UniqueKeys, DropLocked, Value, FlushAll, Search;
    match op {
    case Store(k, v, r) =>
      StoreUpdates(s, k, v, r);
      DropKeepsInv(s, k);
    case Drop(k) =>
      DropKeepsInv(s, k);
      InvGen(DropLocked(s, k), s.gen + 1);
    case Flush =>
      FlushEmpties(s);
      InvGen(FlushAll(s), s.gen + 1);
    case Lookup(k) => LookupFinds(s, k);
    case RecordGet(r) => GetKeepsInv(s, r);
    case RecordPut(r) => PutKeepsInv(s, r);
    }
  }

  /** Every operation acts on what the store means as the same operation on a map. */
  lemma ActsAsMap<R>(s: State<R>, op: Op<R>, k: string)
    requires Inv(s) && Allowed(s, op)
    ensures var n := Apply(s, op).0;
            && (forall r :: r in s.store ==> r in s.key && r in s.val)
            && (forall r :: r in n.store ==> r in n.key && r in n.val)
            && Meant(n, k) == Meaning(Erase(op), Meant(s, k), k)
  {
    hide Counted, UniqueKeys, DropLocked, FlushAll, Search;
    KeepsInv(s, op);
    InvIsKnown(s);
    InvIsKnown(Apply(s, op).0);
    match op {
    case Store(k', v, r) => StoreUpdates(s, k', v, r);
    case Drop(k') => DropKeepsInv(s, k');
    case Flush => FlushEmpties(s);
    case Lookup(k') => LookupFinds(s, k');
    case RecordGet(r) =>
    case RecordPut(r) => PutKeepsInv(s, r);
    }
  }

  lemma GetKeepsInv<R>(s: State<R>, r: R)
    requires Inv(s) && r in s.held
    ensures Inv(Apply(s, RecordGet(r)).0)
  {}

  /** The last user of a record that is no longer stored destroys it; any other release does
      not. */
  lemma PutKeepsInv<R>(s: State<R>, r: R)
    requires Inv(s) && r in s.held
    ensures var n := Apply(s, RecordPut(r)).0;
            && Inv(n) && n.store == s.store && n.key == s.key && n.val == s.val && n.gen == s.gen
            && n.destroyed == if r !in s.store && s.held[r] == 1 then s.destroyed + {r} else s.destroyed
  {}

  // ----- Runs -----

  /** Every operation of the run is allowed when its turn comes. */
  ghost predicate AllAllowed<R>(s: State<R>, ops: seq<Op<R>>)
    requires Inv(s)
    decreases |ops|
  {
    ops == [] || (Allowed(s, ops[0]) && (KeepsInv(s, ops[0]); AllAllowed(Apply(s, ops[0]).0, ops[1..])))
  }

  ghost function Run<R>(s: State<R>, ops: seq<Op<R>>): State<R>
    requires Inv(s) && AllAllowed(s, ops)
    decreases |ops|
  {
    if ops == [] then s
    else
      KeepsInv(s, ops[0]);
      Run(Apply(s, ops[0]).0, ops[1..])
  }

  /** What a key means after operations on a map. */
  function MeaningAfter<R>(ops: seq<Op<R>>, before: Option<string>, k: string): Option<string>
    decreases |ops|
  {
    if ops == [] then before else MeaningAfter(ops[1..], Meaning(Erase(ops[0]), before, k), k)
  }

  /** Over every run the store is the map that the stores, drops and flushes describe; every
      record somebody holds is alive and has the key and value it was created with. */
  lemma {:induction false} RunRefinesMap<R>(s: State<R>, ops: seq<Op<R>>, k: string)
    requires Inv(s) && AllAllowed(s, ops)
    ensures var n := Run(s, ops);
            && Inv(n)
            && (forall r :: r in s.store ==> r in s.key && r in s.val)
            && (forall r :: r in n.store ==> r in n.key && r in n.val)
            && Meant(n, k) == MeaningAfter(ops, Meant(s, k), k)
            && (forall r :: r in s.key ==> r in n.key && n.key[r] == s.key[r] && n.val[r] == s.val[r])
            && (forall r :: r in n.held ==> r !in n.destroyed)
    decreases |ops|
  {
    hide Inv, Apply, Allowed, Meant, Meaning;
    InvIsKnown(s);
    if ops != [] {
      KeepsInv(s, ops[0]);
      ActsAsMap(s, ops[0], k);
      RunRefinesMap(Apply(s, ops[0]).0, ops[1..], k);
    } else {
      forall r | r in s.held ensures r !in s.destroyed { HeldIsAlive(s, r); }
    }
  }
}
