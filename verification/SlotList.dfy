/**
 * The bounded recency list behind the client cache: a key index over slots that
 * are threaded, most recently used first, on a doubly linked list.
 */
module SlotList {
  import opened Basics
  import opened Clients
  import opened ClientCache

  // ----- Links and index as values -----

  /** The links follow the chain c in both directions. */
  ghost predicate Links(c: seq<nat>, pv: seq<nat>, nx: seq<nat>)
  {
    && |pv| == |nx|
    && Distinct(c)
    && (forall i :: 0 <= i < |c| ==> c[i] < |pv|)
    && (forall i :: 0 <= i < |c| - 1 ==> nx[c[i]] == c[i + 1])
    && (forall i :: 1 <= i < |c| ==> pv[c[i]] == c[i - 1])
  }

  lemma Unlink(c: seq<nat>, pv: seq<nat>, nx: seq<nat>, p: nat)
    requires Links(c, pv, nx) && 0 < p < |c| - 1
    ensures Links(c[..p] + c[p + 1..], pv[c[p + 1] := c[p - 1]], nx[c[p - 1] := c[p + 1]])
    ensures c[p] !in c[..p] + c[p + 1..]
  {
    var d := c[..p] + c[p + 1..];
    forall i | 0 <= i < |d|
      ensures d[i] == c[if i < p then i else i + 1] && d[i] != c[p]
    {
    }
  }

  lemma LinkFront(c: seq<nat>, pv: seq<nat>, nx: seq<nat>, x: nat)
    requires Links(c, pv, nx) && |c| >= 2 && x < |pv| && x !in c
    ensures Links([c[0], x] + c[1..], pv[x := c[0]][c[1] := x], nx[x := c[1]][c[0] := x])
  {
    var d := [c[0], x] + c[1..];
    forall i | 2 <= i < |d|
      ensures d[i] == c[i - 1]
    {
    }
  }

  /** The index finds, for exactly the keys held by the listed slots, their slots. */
  ghost predicate Indexed(order: seq<nat>, index: map<Key, nat>, ks: seq<Key>)
  {
    && Distinct(order)
    && (forall i :: 0 <= i < |order| ==> order[i] < |ks|)
    && (forall x :: x in index ==> index[x] in order && ks[index[x]] == x)
    && (forall i :: 0 <= i < |order| ==> ks[order[i]] in index && index[ks[order[i]]] == order[i])
  }

  lemma IndexAdd(order: seq<nat>, index: map<Key, nat>, ks: seq<Key>, slot: nat, x: Key)
    requires Indexed(order, index, ks) && slot !in order && slot < |ks| && x !in index
    ensures Indexed([slot] + order, index[x := slot], ks[slot := x])
  {
    var d, ks' := [slot] + order, ks[slot := x];
    forall i | 0 <= i < |order|
      ensures ks'[order[i]] == ks[order[i]]
    {
      assert order[i] in order;
    }
    forall y | y in index
      ensures index[y] in d && ks'[index[y]] == y
    {
      assert index[y] in order;
    }
  }

  lemma IndexDropLast(order: seq<nat>, index: map<Key, nat>, ks: seq<Key>)
    requires Indexed(order, index, ks) && order != []
    ensures var n := |order| - 1;
            Indexed(order[..n], index - {ks[order[n]]}, ks) && order[n] !in order[..n]
  {
    var n := |order| - 1;
    forall y | y in index && y != ks[order[n]]
      ensures index[y] in order[..n]
    {
      var i :| 0 <= i < |order| && order[i] == index[y];
      assert order[..n][i] == index[y];
    }
  }

  function SlotToFront(order: seq<nat>, p: nat): seq<nat>
    requires p < |order|
  {
    [order[p]] + (order[..p] + order[p + 1..])
  }

  lemma SlotToFrontAt(order: seq<nat>, p: nat, i: nat)
    requires p < |order| && i < |order|
    ensures |SlotToFront(order, p)| == |order|
    ensures SlotToFront(order, p)[i] == order[if i == 0 then p else if i <= p then i - 1 else i]
    ensures order[i] == SlotToFront(order, p)[if i == p then 0 else if i < p then i + 1 else i]
  {
  }

  lemma SameSlots(order: seq<nat>, p: nat)
    requires Distinct(order) && p < |order|
    ensures Distinct(SlotToFront(order, p))
    ensures |SlotToFront(order, p)| == |order|
    ensures forall i :: 0 <= i < |order| ==> SlotToFront(order, p)[i] in order
  {
    forall i | 0 <= i < |order|
      ensures SlotToFront(order, p)[i] == order[if i == 0 then p else if i <= p then i - 1 else i]
    {
      SlotToFrontAt(order, p, i);
    }
  }

  lemma IndexOfListed(order: seq<nat>, index: map<Key, nat>, ks: seq<Key>, slot: nat)
    requires Indexed(order, index, ks) && slot in order
    ensures slot < |ks| && ks[slot] in index && index[ks[slot]] == slot
  {
    var i :| 0 <= i < |order| && order[i] == slot;
  }

  lemma StillListed(order: seq<nat>, p: nat, slot: nat)
    requires p < |order| && slot in order
    ensures slot in SlotToFront(order, p)
  {
    var i :| 0 <= i < |order| && order[i] == slot;
    SlotToFrontAt(order, p, i);
  }

  lemma IndexPromote(order: seq<nat>, index: map<Key, nat>, ks: seq<Key>, p: nat)
    requires Indexed(order, index, ks) && p < |order|
    ensures Indexed(SlotToFront(order, p), index, ks)
  {
    SameSlots(order, p);
    forall i | 0 <= i < |order|
      ensures var slot := SlotToFront(order, p)[i]; slot < |ks| && ks[slot] in index && index[ks[slot]] == slot
    {
      IndexOfListed(order, index, ks, SlotToFront(order, p)[i]);
    }
    forall x | x in index
      ensures index[x] in SlotToFront(order, p)
    {
      StillListed(order, p, index[x]);
    }
  }

  lemma SlotsBelow(order: seq<nat>, p: nat, n: nat)
    requires p < |order| && forall i :: 0 <= i < |order| ==> order[i] < n
    ensures |SlotToFront(order, p)| == |order|
    ensures forall i :: 0 <= i < |order| ==> SlotToFront(order, p)[i] < n
  {
  }

  /** The entries stored in the given slots, in that order. */
  ghost function Entries(order: seq<nat>, ks: seq<Key>, cs: seq<Client>): (s: seq<Entry>)
    requires |ks| == |cs| && forall i :: 0 <= i < |order| ==> order[i] < |ks|
    ensures |s| == |order|
    ensures forall i :: 0 <= i < |s| ==> s[i] == Entry(ks[order[i]], cs[order[i]])
  {
    seq(|order|, i requires 0 <= i < |order| => Entry(ks[order[i]], cs[order[i]]))
  }

  lemma EntriesPromote(order: seq<nat>, ks: seq<Key>, cs: seq<Client>, p: nat)
    requires |ks| == |cs| && (forall i :: 0 <= i < |order| ==> order[i] < |ks|) && p < |order|
    requires forall i :: 0 <= i < |order| ==> SlotToFront(order, p)[i] < |ks|
    ensures Entries(SlotToFront(order, p), ks, cs) == Promote(Entries(order, ks, cs), p)
  {
  }

  lemma EntriesAdd(order: seq<nat>, ks: seq<Key>, cs: seq<Client>, slot: nat, e: Entry)
    requires |ks| == |cs| && (forall i :: 0 <= i < |order| ==> order[i] < |ks|)
    requires slot < |ks| && slot !in order
    ensures Entries([slot] + order, ks[slot := e.key], cs[slot := e.client]) == [e] + Entries(order, ks, cs)
  {
    forall i | 0 <= i < |order|
      ensures order[i] != slot
    {
      assert order[i] in order;
    }
  }

  class LruSlots {
    const cap: nat
    const keys: array<Key>
    const clients: array<Client>
    /** Links of the slots; the two extra places are the head and tail sentinels. */
    const prev: array<nat>
    const next: array<nat>
    var index: map<Key, nat>
    var used: nat
    ghost var order: seq<nat>

    ghost function Chain(): seq<nat>
      reads this
    {
      [cap] + order + [cap + 1]
    }

    ghost predicate Linked()
      reads this, prev, next
    {
      && keys.Length == clients.Length == cap
      && prev.Length == next.Length == cap + 2
      && prev != next
      && (forall i :: 0 <= i < |order| ==> order[i] < cap)
      && Links(Chain(), prev[..], next[..])
    }

    ghost predicate Valid()
      reads this, keys, prev, next
    {
      && 0 < cap
      && Linked()
      && Indexed(order, index, keys[..])
      && used == |order| <= cap
      && forall i :: 0 <= i < |order| ==> order[i] < used
    }

    ghost function Contents(): seq<Entry>
      requires Valid()
      reads this, keys, clients, prev, next
    {
      Entries(order, keys[..], clients[..])
    }

    ghost function Parts(): set<object>
    {
      {this, keys, clients, prev, next}
    }

    constructor (capacity: nat)
      requires 0 < capacity
      ensures Valid() && Contents() == [] && cap == capacity && fresh(Parts())
    {
      cap := capacity;
      keys := new Key[capacity];
      clients := new Client[capacity];
      prev := new nat[capacity + 2];
      next := new nat[capacity + 2];
      index, used, order := map[], 0, [];
      new;
      next[cap], prev[cap + 1] := cap + 1, cap;
    }

    method Detach(slot: nat, ghost p: nat)
      requires Linked() && p < |order| && order[p] == slot
      modifies prev, next, `order
      ensures Linked() && order == old(order[..p] + order[p + 1..]) && slot !in order
    {
      ghost var c := Chain();
      Unlink(c, prev[..], next[..], p + 1);
      assert c[p + 1] == slot;
      var before, after := prev[slot], next[slot];
      next[before] := after;
      prev[after] := before;
      order := order[..p] + order[p + 1..];
      assert Chain() == c[..p + 1] + c[p + 2..];
      assert forall i :: 0 <= i < |order| ==> order[i] == Chain()[i + 1];
    }

    method AttachFront(slot: nat)
      requires Linked() && slot < cap && slot !in order
      modifies prev, next, `order
      ensures Linked() && order == [slot] + old(order)
    {
      ghost var c := Chain();
      LinkFront(c, prev[..], next[..], slot);
      assert c[0] == cap;
      var first := next[cap];
      next[slot], prev[slot] := first, cap;
      next[cap], prev[first] := slot, slot;
      order := [slot] + order;
      assert Chain() == [c[0], slot] + c[1..];
    }

    method Relink(slot: nat, ghost p: nat)
      requires Linked() && p < |order| && order[p] == slot
      modifies prev, next, `order
      ensures Linked() && order == SlotToFront(old(order), p)
    {
      Detach(slot, p);
      AttachFront(slot);
    }

    /** Moves the entry in a slot to the front. */
    method MoveToFront(slot: nat, ghost p: nat)
      requires Valid() && p < |order| && order[p] == slot
      modifies prev, next, `order
      ensures Valid() && Contents() == Promote(old(Contents()), p)
    {
      IndexPromote(order, index, keys[..], p);
      SlotsBelow(order, p, used);
      EntriesPromote(order, keys[..], clients[..], p);
      Relink(slot, p);
    }

    /** Looks a key up; a hit becomes the most recently used entry. */
    method Get(x: Key) returns (r: Option<Client>)
      requires Valid()
      modifies prev, next, `order
      ensures Valid()
      ensures var s := old(Contents());
              var p := IndexOf(s, x);
              if p < |s| then r == Some(s[p].client) && Contents() == Promote(s, p)
              else r == None && Contents() == s
    {
      ghost var p := FindSlot(x);
      if x in index {
        var slot := index[x];
        r := Some(clients[slot]);
        MoveToFront(slot, p);
      } else {
        r := None;
      }
    }

    /** Where the indexed slot of a key stands in the recency order. */
    lemma FindSlot(x: Key) returns (p: nat)
      requires Valid()
      ensures p == IndexOf(Contents(), x) <= |order|
      ensures p < |order| <==> x in index
      ensures p < |order| ==> order[p] == index[x]
    {
      var s := Contents();
      p := IndexOf(s, x);
      assert x in Keys(s) <==> exists i :: 0 <= i < |s| && s[i].key == x;
      if x in index {
        var i :| 0 <= i < |order| && order[i] == index[x];
        assert s[i].key == x;
      }
    }

    /** The number of entries. */
    function Len(): (n: nat)
      requires Valid()
      reads this, keys, clients, prev, next
      ensures n == |Contents()|
    {
      used
    }

    /** The key of the least recently used entry, which stays where it is. */
    method PeekLru() returns (r: Option<Key>)
      requires Valid()
      ensures var s := Contents();
              r == if s == [] then None else Some(s[|s| - 1].key)
    {
      var last := prev[cap + 1];
      ghost var c := Chain();
      assert c[|c| - 1] == cap + 1 && last == c[|c| - 2];
      if last == cap {
        assert c[0] == cap;
        r := None;
      } else {
        r := Some(keys[last]);
      }
    }

    /** Stores an entry in front, replacing one under the same key or else the oldest of a full list. */
    method Put(x: Key, client: Client)
      requires Valid()
      modifies this, keys, clients, prev, next
      ensures Valid()
      ensures var s := old(Contents());
              var p := IndexOf(s, x);
              Contents() == if p < |s| then Promote(s[p := Entry(x, client)], p)
                            else Insert(cap, s, Entry(x, client))
    {
      ghost var p := FindSlot(x);
      if x in index {
        SetClient(index[x], p, client);
        MoveToFront(index[x], p);
      } else if used == cap {
        ReplaceOldest(x, client);
      } else {
        UseNewSlot(x, client);
      }
    }

    method SetClient(slot: nat, ghost p: nat, client: Client)
      requires Valid() && p < |order| && order[p] == slot
      modifies clients
      ensures Valid()
      ensures var s := old(Contents()); Contents() == s[p := Entry(s[p].key, client)]
    {
      clients[slot] := client;
    }

    /** Fills a slot that is on no list and puts it in front. */
    method Fill(slot: nat, x: Key, client: Client)
      requires 0 < cap && Linked() && Indexed(order, index, keys[..])
      requires slot < cap && slot !in order && x !in index
      modifies keys, clients, prev, next, `index, `order
      ensures Linked() && Indexed(order, index, keys[..])
      ensures order == [slot] + old(order)
      ensures Entries(order, keys[..], clients[..]) ==
              [Entry(x, client)] + old(Entries(order, keys[..], clients[..]))
    {
      IndexAdd(order, index, keys[..], slot, x);
      EntriesAdd(order, keys[..], clients[..], slot, Entry(x, client));
      keys[slot], clients[slot] := x, client;
      index := index[x := slot];
      AttachFront(slot);
    }

    /** Takes the least recently used slot off the list and out of the index. */
    method TakeOldest() returns (slot: nat)
      requires Valid() && order != []
      modifies prev, next, `index, `order
      ensures 0 < cap && Linked() && Indexed(order, index, keys[..])
      ensures order == old(order[..|order| - 1]) && slot == old(order[|order| - 1]) && slot !in order
      ensures slot < used && forall x :: x in index ==> x in old(index)
    {
      ghost var c, n := Chain(), |order| - 1;
      assert c[|c| - 1] == cap + 1 && c[n + 1] == order[n];
      IndexDropLast(order, index, keys[..]);
      slot := prev[cap + 1];
      index := index - {keys[slot]};
      Detach(slot, n);
      assert order == old(order[..|order| - 1]);
    }

    method ReplaceOldest(x: Key, client: Client)
      requires Valid() && x !in index && used == cap
      modifies keys, clients, prev, next, `index, `order
      ensures Valid()
      ensures Contents() == [Entry(x, client)] + old(Contents())[..cap - 1]
    {
      ghost var was, s := order, Contents();
      var slot := TakeOldest();
      assert Entries(order, keys[..], clients[..]) == s[..cap - 1];
      Fill(slot, x, client);
      assert order == [was[cap - 1]] + was[..cap - 1];
    }

    method UseNewSlot(x: Key, client: Client)
      requires Valid() && x !in index && used < cap
      modifies keys, clients, prev, next, `index, `order, `used
      ensures Valid()
      ensures Contents() == [Entry(x, client)] + old(Contents())
    {
      var slot := used;
      used := used + 1;
      Fill(slot, x, client);
    }
  }
}
