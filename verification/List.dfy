/** The circular, intrusive, doubly-linked list of src/list.c on real heap links. */
module List {
  /** An object as the list sees it: its embedded link and its magic. A link that belongs to no
      list may hold anything. */
  class Link {
    var prev: Link?
    var next: Link?
    var magic: int

    constructor ()
      ensures prev == null && next == null
    {
      prev, next := null, null;
    }
  }

  /** s with x at position k. */
  function Insert<T>(s: seq<T>, k: nat, x: T): (r: seq<T>)
    requires k <= |s|
    ensures |r| == |s| + 1
    ensures forall i {:trigger r[i]} :: 0 <= i < |r| ==> r[i] == if i < k then s[i] else if i == k then x else s[i - 1]
  {
    s[..k] + [x] + s[k..]
  }

  /** s without position k. */
  function Remove<T>(s: seq<T>, k: nat): (r: seq<T>)
    requires k < |s|
    ensures |r| == |s| - 1
    ensures forall i {:trigger r[i]} :: 0 <= i < |r| ==> r[i] == if i < k then s[i] else s[i + 1]
  {
    s[..k] + s[k + 1..]
  }

  /** The members differ from the head and from each other. */
  ghost predicate Apart(s: seq<Link>, head: Link) {
    && (forall i :: 0 <= i < |s| ==> s[i] != head)
    && (forall i, j :: 0 <= i < j < |s| ==> s[i] != s[j])
  }

  /** next and prev are inverse to each other all around the ring of the head and the members
      s, which are distinct, and each member carries the magic of the list. */
  ghost predicate Ring(s: seq<Link>, head: Link, magic: int)
    reads head, s
  {
    && Apart(s, head)
    && head.next == (if s == [] then head else s[0])
    && head.prev == (if s == [] then head else s[|s| - 1])
    && (forall i {:trigger s[i].next} :: 0 <= i < |s| - 1 ==> s[i].next == s[i + 1])
    && (forall i {:trigger s[i].prev} :: 1 <= i < |s| ==> s[i].prev == s[i - 1])
    && (s != [] ==> s[0].prev == head && s[|s| - 1].next == head)
    && (forall i {:trigger s[i].magic} :: 0 <= i < |s| ==> s[i].magic == magic)
  }

  /** The member before position k of the ring, and the one at it. */
  function Before(s: seq<Link>, head: Link, k: nat): Link
    requires k <= |s|
  {
    if k == 0 then head else s[k - 1]
  }

  function Here(s: seq<Link>, head: Link, k: nat): Link
    requires k <= |s|
  {
    if k == |s| then head else s[k]
  }

  /** A ring open at position k, with x linked in there. */
  ghost predicate Linked(s: seq<Link>, head: Link, magic: int, k: nat, x: Link)
    requires k <= |s|
    reads head, s, x
  {
    && Apart(s, head) && x !in s && x != head
    && x.prev == Before(s, head, k) && x.next == Here(s, head, k) && x.magic == magic
    && Before(s, head, k).next == x && Here(s, head, k).prev == x
    && (k > 0 ==> head.next == s[0])
    && (k < |s| ==> head.prev == s[|s| - 1])
    && (forall i {:trigger s[i].next} :: 0 <= i < |s| && i != k - 1 ==> s[i].next == Here(s, head, i + 1))
    && (forall i {:trigger s[i].prev} :: 0 <= i < |s| && i != k ==> s[i].prev == Before(s, head, i))
    && (forall i {:trigger s[i].magic} :: 0 <= i < |s| ==> s[i].magic == magic)
  }

  lemma LinkedIsRing(s: seq<Link>, head: Link, magic: int, k: nat, x: Link)
    requires k <= |s| && Linked(s, head, magic, k, x)
    ensures Ring(Insert(s, k, x), head, magic)
  {
    hide Insert, Apart;
    InsertApart(s, head, k, x);
    var r := Insert(s, k, x);
    forall i | 0 <= i < |r| - 1 ensures r[i].next == r[i + 1] {
      assert i < k ==> r[i] == s[i];
      assert i > k ==> r[i] == s[i - 1];
    }
    forall i | 1 <= i < |r| ensures r[i].prev == r[i - 1] {
      assert i < k ==> r[i] == s[i];
      assert i > k ==> r[i] == s[i - 1];
    }
  }

  lemma InsertApart(s: seq<Link>, head: Link, k: nat, x: Link)
    requires Apart(s, head) && k <= |s| && x !in s && x != head
    ensures Apart(Insert(s, k, x), head)
  {
    hide Insert;
  }

  class List {
    const head: Link
    const magic: int
    ghost var items: seq<Link>

    /** The items are the ring. */
    ghost predicate Valid()
      reads this, head, items
    {
      Ring(items, head, magic)
    }

    /** A link as pppoat_list_del leaves it: no member, linked to itself. */
    ghost predicate Removed(x: Link)
      reads this, x
    {
      x !in items && x != head && x.next == x && x.prev == x && x.magic == magic
    }

    constructor (magic: int)
      ensures Valid() && items == [] && fresh(head) && this.magic == magic
    {
      var h := new Link();
      head := h;
      this.magic := magic;
      items := [];
      new;
      head.next := head;
      head.prev := head;
    }

    /** list_insert_before_link */
    method InsertBeforeLink(x: Link, before: Link, ghost k: nat)
      requires Valid() && x !in items && x != head
      requires k <= |items| && before == Here(items, head, k)
      modifies this, head, items, x
      ensures Valid() && items == Insert(old(items), k, x)
    {
      hide Insert;
      assert before.prev == Before(items, head, k);
      x.next := before;
      x.prev := before.prev;
      x.prev.next := x;
      before.prev := x;
      x.magic := magic;
      LinkedIsRing(items, head, magic, k, x);
      items := Insert(items, k, x);
    }

    /** list_insert_after_link */
    method InsertAfterLink(x: Link, after: Link, ghost k: nat)
      requires Valid() && x !in items && x != head
      requires k <= |items| && after == Before(items, head, k)
      modifies this, head, items, x
      ensures Valid() && items == Insert(old(items), k, x)
    {
      hide Insert;
      assert after.next == Here(items, head, k);
      x.next := after.next;
      x.prev := after;
      x.next.prev := x;
      after.next := x;
      x.magic := magic;
      LinkedIsRing(items, head, magic, k, x);
      items := Insert(items, k, x);
    }

    /** pppoat_list_del: cuts a member out; on a link that was cut out before it does nothing. */
    method Del(x: Link)
      requires Valid() && (x in items || Removed(x))
      modifies this, head, items, x
      ensures Valid() && Removed(x)
      ensures x !in old(items) ==> items == old(items)
      ensures forall k :: 0 <= k < |old(items)| && old(items)[k] == x ==> items == Remove(old(items), k)
    {
      hide Remove;
      assert x.magic == magic;
      assert x.prev.next == x;
      assert x.next.prev == x;
      x.prev.next := x.next;
      x.next.prev := x.prev;
      x.next := x;
      x.prev := x;
      if x in items {
        ghost var k :| 0 <= k < |items| && items[k] == x;
        items := Remove(items, k);
      }
    }

    /** pppoat_list_insert_head, pppoat_list_insert, pppoat_list_push */
    method InsertHead(x: Link)
      requires Valid() && x !in items && x != head
      modifies this, head, items, x
      ensures Valid() && items == [x] + old(items)
    {
      InsertAfterLink(x, head, 0);
    }

    /** pppoat_list_insert_tail, pppoat_list_enqueue */
    method InsertTail(x: Link)
      requires Valid() && x !in items && x != head
      modifies this, head, items, x
      ensures Valid() && items == old(items) + [x]
    {
      InsertBeforeLink(x, head, |items|);
    }

    /** pppoat_list_insert_before */
    method InsertBefore(x: Link, before: Link)
      requires Valid() && x !in items && x != head && before in items
      modifies this, head, items, x
      ensures Valid()
      ensures forall k :: 0 <= k < |old(items)| && old(items)[k] == before ==> items == Insert(old(items), k, x)
    {
      ghost var k :| 0 <= k < |items| && items[k] == before;
      InsertBeforeLink(x, before, k);
    }

    /** pppoat_list_insert_after */
    method InsertAfter(x: Link, after: Link)
      requires Valid() && x !in items && x != head && after in items
      modifies this, head, items, x
      ensures Valid()
      ensures forall k :: 0 <= k < |old(items)| && old(items)[k] == after ==> items == Insert(old(items), k + 1, x)
    {
      ghost var k :| 0 <= k < |items| && items[k] == after;
      InsertAfterLink(x, after, k + 1);
    }

    /** pppoat_list_is_empty */
    method IsEmpty() returns (empty: bool)
      requires Valid()
      ensures empty <==> items == []
    {
      empty := head.next == head && head.prev == head;
    }

    /** pppoat_list_head */
    method Head() returns (x: Link?)
      requires Valid()
      ensures x == if items == [] then null else items[0]
    {
      var empty := IsEmpty();
      x := if empty then null else head.next;
    }

    /** pppoat_list_tail */
    method Tail() returns (x: Link?)
      requires Valid()
      ensures x == if items == [] then null else items[|items| - 1]
    {
      var empty := IsEmpty();
      x := if empty then null else head.prev;
    }

    /** pppoat_list_next, at the member with position k */
    method Next(x: Link, ghost k: nat) returns (y: Link?)
      requires Valid() && k < |items| && items[k] == x
      ensures y == if k + 1 < |items| then items[k + 1] else null
    {
      y := if x.next == head then null else x.next;
    }

    /** pppoat_list_prev, at the member with position k */
    method Prev(x: Link, ghost k: nat) returns (y: Link?)
      requires Valid() && k < |items| && items[k] == x
      ensures y == if k > 0 then items[k - 1] else null
    {
      y := if x.prev == head then null else x.prev;
    }

    /** pppoat_list_pop, pppoat_list_dequeue */
    method Dequeue() returns (x: Link?)
      requires Valid()
      modifies this, head, items
      ensures Valid()
      ensures old(items) == [] ==> x == null && items == []
      ensures old(items) != [] ==> x == old(items)[0] && items == old(items)[1..] && Removed(x)
    {
      x := Head();
      if x != null {
        Del(x);
        assert items == Remove(old(items), 0);
      }
    }

    /** pppoat_list_dequeue_last */
    method DequeueLast() returns (x: Link?)
      requires Valid()
      modifies this, head, items
      ensures Valid()
      ensures old(items) == [] ==> x == null && items == []
      ensures old(items) != [] ==>
                && x == old(items)[|old(items)| - 1]
                && items == old(items)[..|old(items)| - 1] && Removed(x)
    {
      x := Tail();
      if x != null {
        Del(x);
        assert items == Remove(old(items), |old(items)| - 1);
      }
    }

    /** pppoat_list_count */
    method Count() returns (count: int)
      requires Valid()
      ensures count == |items|
    {
      var link := head;
      count := 0;
      while link.next != head
        invariant 0 <= count <= |items| && link == Before(items, head, count)
        decreases |items| - count
      {
        link := link.next;
        count := count + 1;
      }
    }

    /** The walk from the head by pppoat_list_next that the users of the list perform. */
    method Forward() returns (s: seq<Link>)
      requires Valid()
      ensures s == items
    {
      s := [];
      var x := Head();
      while x != null
        invariant |s| <= |items| && s == items[..|s|]
        invariant x == if |s| < |items| then items[|s|] else null
        decreases |items| - |s|
      {
        ghost var k := |s|;
        s := s + [x];
        x := Next(x, k);
      }
    }

    /** The walk from the tail by pppoat_list_prev. */
    method Backward() returns (s: seq<Link>)
      requires Valid()
      ensures |s| == |items| && forall i :: 0 <= i < |s| ==> s[i] == items[|items| - 1 - i]
    {
      s := [];
      var x := Tail();
      while x != null
        invariant |s| <= |items| && forall i :: 0 <= i < |s| ==> s[i] == items[|items| - 1 - i]
        invariant x == if |s| < |items| then items[|items| - 1 - |s|] else null
        decreases |items| - |s|
      {
        ghost var k := |items| - 1 - |s|;
        s := s + [x];
        x := Prev(x, k);
      }
    }
  }

  lemma RemoveInsert<T>(s: seq<T>, k: nat)
    requires k < |s|
    ensures Insert(Remove(s, k), k, s[k]) == s
  {}

  lemma InsertRemove<T>(s: seq<T>, k: nat, x: T)
    requires k <= |s|
    ensures Remove(Insert(s, k, x), k) == s
  {
    assert Insert(s, k, x)[..k] == s[..k] && Insert(s, k, x)[k + 1..] == s[k..];
  }

  /** pppoat_list_del undone by pppoat_list_insert_before: a member cut out and put back before
      the one that followed it restores the ring. */
  method DelThenInsert(l: List, x: Link, before: Link, ghost k: nat)
    requires l.Valid() && k + 1 < |l.items| && l.items[k] == x && l.items[k + 1] == before
    modifies l, l.head, l.items
    ensures l.Valid() && l.items == old(l.items)
  {
    hide List.Valid, Insert, Remove;
    l.Del(x);
    assert l.items[k] == before;
    RemoveInsert(old(l.items), k);
    l.InsertBefore(x, before);
  }

  /** pppoat_list_insert_before undone by pppoat_list_del; x ends as a link that was cut out. */
  method InsertThenDel(l: List, x: Link, before: Link, ghost k: nat)
    requires l.Valid() && k < |l.items| && l.items[k] == before && x !in l.items && x != l.head
    modifies l, l.head, l.items, x
    ensures l.Valid() && l.items == old(l.items) && l.Removed(x)
  {
    hide List.Valid, Insert, Remove;
    l.InsertBefore(x, before);
    assert l.items[k] == x;
    InsertRemove(old(l.items), k, x);
    l.Del(x);
  }
}
