/**
 * The blinking characters of fish/blink.S and the slot pool of fish/fish.c: an intrusive linked
 * list inside a pool of 2000 structures, where location 0 marks a free slot.
 *
 * `Board` is the driver on values: the sequence of live blinks and the video memory. `Driver` is
 * the code with its pool and links.
 */
module Blink {
  import opened Bytes

  const SLOTS := 80 * 25
  const VIDEO_BYTES := 2 * SLOTS

  type Word = x: int | 0 <= x < 0x1_0000

  /** The payload of a `struct mp1_blink_struct`: everything but its `next` pointer. */
  datatype Blink = Blink(
    location: Word, onChar: Byte, offChar: Byte, onLength: Word, offLength: Word, countdown: Word, status: Word)

  datatype Link = Null | Slot(i: nat)

  datatype Node = Node(b: Blink, next: Link)

  const FREE := Node(Blink(0, 0, 0, 0, 0, 0, 0), Null)

  datatype Board = Board(list: seq<Blink>, video: seq<Byte>)

  // ---------------------------------------------------------------- the driver on values

  /** `mp1_poke`: the character byte of a screen cell. */
  function Poke(video: seq<Byte>, location: Word, c: Byte): (v: seq<Byte>)
    ensures |v| == |video|
  {
    if 2 * location < |video| then video[2 * location := c] else video
  }

  /** Index of the first blink with this location, or the length of the list. */
  function Find(list: seq<Blink>, location: Word): (n: nat)
    ensures n <= |list|
    ensures n < |list| ==> list[n].location == location
    ensures forall k :: 0 <= k < n ==> list[k].location != location
  {
    if list == [] || list[0].location == location then 0 else 1 + Find(list[1..], location)
  }

  lemma {:induction false} FindIs(list: seq<Blink>, location: Word, n: nat)
    requires n <= |list| && (forall k :: 0 <= k < n ==> list[k].location != location)
    requires n < |list| ==> list[n].location == location
    ensures Find(list, location) == n
  {
  }

  lemma FoundWhenThere(list: seq<Blink>, location: Word)
    ensures Find(list, location) < |list| <==> exists b :: b in list && b.location == location
  {
    var n := Find(list, location);
    if n < |list| {
      assert list[n] in list;
    }
  }

  function Started(b: Blink): Blink {
    b.(status := 1, countdown := b.onLength)
  }

  predicate CanAdd(d: Board, b: Blink) {
    b.location < SLOTS && |d.list| < SLOTS
  }

  function Added(d: Board, b: Blink): Board {
    if CanAdd(d, b) then Board([Started(b)] + d.list, Poke(d.video, b.location, b.onChar)) else d
  }

  function Without<T>(s: seq<T>, n: nat): (r: seq<T>)
    requires n < |s|
    ensures |r| == |s| - 1
    ensures forall k :: 0 <= k < |r| ==> r[k] == if k < n then s[k] else s[k + 1]
  {
    s[..n] + s[n + 1..]
  }

  function Removed(d: Board, location: Word): Board {
    var n := Find(d.list, location);
    if n < |d.list| then d.(list := Without(d.list, n)) else d
  }

  /** `b` with the lengths and the state of another blink. */
  function InStep(b: Blink, source: Blink): Blink {
    b.(
      onLength := source.onLength, offLength := source.offLength,
      countdown := source.countdown, status := source.status)
  }

  /**
   * A sync of the blink at `to` with the one at `from`. The character shown does not depend on the
   * status: the conditional move of the code looks at the sign, which its test always clears.
   */
  function Synced(d: Board, from: Word, to: Word): Board {
    var m, n := Find(d.list, from), Find(d.list, to);
    if m < |d.list| && n < |d.list|
    then Board(d.list[n := InStep(d.list[n], d.list[m])], Poke(d.video, to, d.list[n].offChar))
    else d
  }

  function SyncFrom(arg: nat): Word {
    arg / 0x1_0000 % 0x1_0000
  }

  function SyncTo(arg: nat): Word {
    arg % 0x1_0000
  }

  /** The two words of the argument of a sync. */
  lemma SyncWords(from: Word, to: Word)
    ensures SyncFrom(from * 0x1_0000 + to) == from && SyncTo(from * 0x1_0000 + to) == to
  {
  }

  function Decremented(b: Blink): Word {
    (b.countdown - 1) % 0x1_0000
  }

  /** The signed 16-bit comparison after the decrement. */
  predicate Expired(b: Blink) {
    Decremented(b) == 0 || Decremented(b) >= 0x8000
  }

  function IsOn(b: Blink): bool {
    b.status % 2 == 1
  }

  function TickBlink(b: Blink): Blink {
    if !Expired(b) then b.(countdown := Decremented(b))
    else if IsOn(b) then b.(countdown := b.offLength, status := b.status - 1)
    else b.(countdown := b.onLength, status := b.status + 1)
  }

  function Shown(b: Blink): Byte {
    if IsOn(b) then b.onChar else b.offChar
  }

  function TickList(list: seq<Blink>): (r: seq<Blink>)
    ensures |r| == |list|
    ensures forall k :: 0 <= k < |r| ==> r[k] == TickBlink(list[k])
  {
    seq(|list|, k requires 0 <= k < |list| => TickBlink(list[k]))
  }

  /** The pokes of one tick, in list order. */
  function TickVideo(video: seq<Byte>, list: seq<Blink>): (v: seq<Byte>)
    ensures |v| == |video|
  {
    if list == [] then video
    else
      var v := TickVideo(video, list[..|list| - 1]);
      var b := list[|list| - 1];
      if Expired(b) then Poke(v, b.location, Shown(TickBlink(b))) else v
  }

  lemma TickVideoNext(video: seq<Byte>, list: seq<Blink>, k: nat)
    requires k < |list|
    ensures var v, b := TickVideo(video, list[..k]), list[k];
      TickVideo(video, list[..k + 1]) == if Expired(b) then Poke(v, b.location, Shown(TickBlink(b))) else v
  {
    assert list[..k + 1][..k] == list[..k];
  }

  function Ticked(d: Board): Board {
    Board(TickList(d.list), TickVideo(d.video, d.list))
  }

  ghost function Below(n: nat): (r: set<nat>)
    ensures |r| == n && forall i :: i in r <==> 0 <= i < n
  {
    if n == 0 then {} else Below(n - 1) + {n - 1}
  }

  ghost predicate Distinct(s: seq<nat>) {
    forall j, k :: 0 <= j < k < |s| ==> s[j] != s[k]
  }

  /** The slots in use and the free ones make up the pool. */
  lemma SlotsAddUp(used: set<nat>, n: nat)
    requires used <= Below(n)
    ensures |used| + |Below(n) - used| == n
    ensures |used| == n <==> used == Below(n)
  {
  }

  /** As many distinct numbers as the set has members are all of its members. */
  lemma {:induction false} AllListed(s: seq<nat>, members: set<nat>)
    requires Distinct(s) && |s| == |members|
    requires forall k :: 0 <= k < |s| ==> s[k] in members
    ensures forall i :: i in members ==> i in s
  {
    if s != [] {
      AllListed(s[1..], members - {s[0]});
      assert forall i :: i in s[1..] ==> i in s;
    }
  }

  // ---------------------------------------------------------------- the list in the pool

  /** The link that leads to position `k` of a list that visits the slots of `order`. */
  ghost function LinkTo(order: seq<nat>, k: nat): Link {
    if k < |order| then Slot(order[k]) else Null
  }

  lemma {:induction false} DistinctFit(s: seq<nat>, members: set<nat>)
    requires Distinct(s) && forall k :: 0 <= k < |s| ==> s[k] in members
    ensures |s| <= |members|
  {
    if s != [] {
      DistinctFit(s[1..], members - {s[0]});
    }
  }

  /** The links from `head` follow `order`, which visits no slot twice: the list is acyclic. */
  ghost predicate Chain(nodes: seq<Node>, head: Link, order: seq<nat>) {
    && head == LinkTo(order, 0)
    && (forall k :: 0 <= k < |order| ==> order[k] < |nodes|)
    && (forall k {:trigger nodes[order[k]]} :: 0 <= k < |order| ==> nodes[order[k]].next == LinkTo(order, k + 1))
    && Distinct(order)
  }

  ghost function ListOf(nodes: seq<Node>, order: seq<nat>): (list: seq<Blink>)
    requires forall k :: 0 <= k < |order| ==> order[k] < |nodes|
    ensures |list| == |order| && forall k {:trigger list[k]} :: 0 <= k < |order| ==> list[k] == nodes[order[k]].b
  {
    seq(|order|, k requires 0 <= k < |order| => nodes[order[k]].b)
  }

  /** The listed slots are exactly those in use, and their locations are on the screen. */
  ghost predicate InUse(nodes: seq<Node>, order: seq<nat>, slots: set<nat>) {
    && slots <= Below(|nodes|) && |slots| == |order|
    && (forall k :: 0 <= k < |order| ==> order[k] in slots)
    && (forall i :: 0 <= i < |nodes| ==> (nodes[i].b.location != 0 <==> i in slots) && nodes[i].b.location < SLOTS)
  }

  lemma EmptyPool(nodes: seq<Node>)
    requires forall i :: 0 <= i < |nodes| ==> nodes[i] == FREE
    ensures Chain(nodes, Null, []) && InUse(nodes, [], {})
  {
  }

  lemma PushChain(nodes: seq<Node>, head: Link, order: seq<nat>, i: nat, b: Blink)
    requires Chain(nodes, head, order) && i < |nodes|
    requires forall k :: 0 <= k < |order| ==> order[k] != i
    ensures Chain(nodes[i := Node(b, head)], Slot(i), [i] + order)
  {
  }

  lemma PushList(nodes: seq<Node>, head: Link, order: seq<nat>, i: nat, b: Blink)
    requires i < |nodes| && forall k :: 0 <= k < |order| ==> order[k] < |nodes| && order[k] != i
    ensures ListOf(nodes[i := Node(b, head)], [i] + order) == [b] + ListOf(nodes, order)
  {
  }

  /** Linking a free slot in front is `Added`, and keeps the pool consistent unless the slot still looks free. */
  lemma PushKeepsPool(nodes: seq<Node>, head: Link, order: seq<nat>, slots: set<nat>, i: nat, b: Blink)
    requires Chain(nodes, head, order) && InUse(nodes, order, slots)
    requires i < |nodes| && nodes[i].b.location == 0 && b.location < SLOTS
    ensures var after := nodes[i := Node(b, head)];
      && Chain(after, Slot(i), [i] + order)
      && ListOf(after, [i] + order) == [b] + ListOf(nodes, order)
      && (InUse(after, [i] + order, slots + {i}) <==> b.location != 0)
  {
    PushChain(nodes, head, order, i, b);
    PushList(nodes, head, order, i, b);
    var after, order' := nodes[i := Node(b, head)], [i] + order;
    assert |slots + {i}| == |slots| + 1;
    if b.location == 0 {
      assert i in slots + {i} && after[i].b.location == 0;
    } else {
      assert forall k :: 0 <= k < |order'| ==> order'[k] in slots + {i};
    }
  }

  lemma FullWhenAllUsed(nodes: seq<Node>, order: seq<nat>, slots: set<nat>)
    requires InUse(nodes, order, slots)
    ensures |order| <= |nodes|
    ensures |order| == |nodes| <==> forall i :: 0 <= i < |nodes| ==> nodes[i].b.location != 0
  {
    SlotsAddUp(slots, |nodes|);
  }

  /** An add succeeds exactly when there is a free slot for a place on the screen. */
  lemma CanAddWhenFree(nodes: seq<Node>, order: seq<nat>, slots: set<nat>, d: Board, b: Blink)
    requires InUse(nodes, order, slots) && |nodes| == SLOTS && |d.list| == |order|
    ensures CanAdd(d, b) <==> b.location < SLOTS && exists i :: 0 <= i < SLOTS && nodes[i].b.location == 0
  {
    FullWhenAllUsed(nodes, order, slots);
  }

  lemma FreeSlots(nodes: seq<Node>, order: seq<nat>, slots: set<nat>)
    requires InUse(nodes, order, slots)
    ensures (set i | i in Below(|nodes|) && nodes[i].b.location == 0) == Below(|nodes|) - slots
  {
  }

  /** The list holds exactly the slots whose location is not 0, and with the free ones they are the whole pool. */
  lemma ListAndFreeSlots(nodes: seq<Node>, head: Link, order: seq<nat>, slots: set<nat>)
    requires Chain(nodes, head, order) && InUse(nodes, order, slots)
    ensures forall i {:trigger nodes[i]} :: 0 <= i < |nodes| ==> (nodes[i].b.location != 0 <==> i in order)
    ensures |order| + |set i | i in Below(|nodes|) && nodes[i].b.location == 0| == |nodes|
  {
    AllListed(order, slots);
    SlotsAddUp(slots, |nodes|);
    FreeSlots(nodes, order, slots);
  }

  /** The slots after position `n` of the list is unlinked and freed. */
  ghost function Unlinked(nodes: seq<Node>, order: seq<nat>, n: nat): (after: seq<Node>)
    requires n < |order| && forall k :: 0 <= k < |order| ==> order[k] < |nodes|
    ensures |after| == |nodes|
  {
    Relinked(nodes, order, n)[order[n] := FREE]
  }

  ghost function Relinked(nodes: seq<Node>, order: seq<nat>, n: nat): (after: seq<Node>)
    requires n < |order| && forall k :: 0 <= k < |order| ==> order[k] < |nodes|
    ensures |after| == |nodes|
  {
    if n == 0 then nodes else nodes[order[n - 1] := nodes[order[n - 1]].(next := LinkTo(order, n + 1))]
  }

  lemma UnlinkedAt(nodes: seq<Node>, head: Link, order: seq<nat>, n: nat, k: nat)
    requires Chain(nodes, head, order) && n < |order| && k < |order| && k != n
    ensures var node := Unlinked(nodes, order, n)[order[k]];
      && node.b == nodes[order[k]].b
      && node.next == LinkTo(order, if k + 1 == n then n + 1 else k + 1)
  {
  }

  lemma UnlinkLinks(nodes: seq<Node>, head: Link, order: seq<nat>, n: nat)
    requires Chain(nodes, head, order) && n < |order|
    ensures var order' := Without(order, n); Chain(Unlinked(nodes, order, n), LinkTo(order', 0), order')
  {
    var after, order' := Unlinked(nodes, order, n), Without(order, n);
    assert Distinct(order');
    forall k | 0 <= k < |order'| ensures after[order'[k]].next == LinkTo(order', k + 1) {
      UnlinkedAt(nodes, head, order, n, if k < n then k else k + 1);
    }
  }

  lemma UnlinkList(nodes: seq<Node>, order: seq<nat>, n: nat)
    requires Distinct(order) && n < |order| && forall k :: 0 <= k < |order| ==> order[k] < |nodes|
    ensures ListOf(Unlinked(nodes, order, n), Without(order, n)) == Without(ListOf(nodes, order), n)
  {
  }

  lemma UnlinkInUse(nodes: seq<Node>, order: seq<nat>, slots: set<nat>, n: nat)
    requires Distinct(order) && InUse(nodes, order, slots) && n < |order|
    requires forall k :: 0 <= k < |order| ==> order[k] < |nodes|
    ensures InUse(Unlinked(nodes, order, n), Without(order, n), slots - {order[n]})
  {
    var after, order' := Unlinked(nodes, order, n), Without(order, n);
    assert forall k :: 0 <= k < |order'| ==> order'[k] in slots && order'[k] != order[n];
    assert forall i :: 0 <= i < |nodes| ==> after[i].b == if i == order[n] then FREE.b else nodes[i].b;
  }

  /** Unlinking and freeing position `n` is `Removed`, and keeps the pool consistent. */
  lemma UnlinkKeepsPool(nodes: seq<Node>, head: Link, order: seq<nat>, slots: set<nat>, n: nat)
    requires Chain(nodes, head, order) && InUse(nodes, order, slots) && n < |order|
    ensures var after, order' := Unlinked(nodes, order, n), Without(order, n);
      && Chain(after, LinkTo(order', 0), order')
      && ListOf(after, order') == Without(ListOf(nodes, order), n)
      && InUse(after, order', slots - {order[n]})
  {
    UnlinkLinks(nodes, head, order, n);
    UnlinkList(nodes, order, n);
    UnlinkInUse(nodes, order, slots, n);
  }

  /** Storing other contents with the same location at position `n` changes that position of the list only. */
  lemma ReplaceKeepsPool(nodes: seq<Node>, head: Link, order: seq<nat>, slots: set<nat>, n: nat, b: Blink)
    requires Chain(nodes, head, order) && InUse(nodes, order, slots) && n < |order|
    requires b.location == nodes[order[n]].b.location
    ensures var after := nodes[order[n] := nodes[order[n]].(b := b)];
      && Chain(after, head, order)
      && InUse(after, order, slots)
      && ListOf(after, order) == ListOf(nodes, order)[n := b]
  {
  }

  /** The first `k` nodes of the list have been ticked, and nothing else has changed. */
  ghost predicate TickedSoFar(nodes: seq<Node>, now: seq<Node>, order: seq<nat>, k: nat)
    requires k <= |order| && forall j :: 0 <= j < |order| ==> order[j] < |nodes|
  {
    && |now| == |nodes|
    && (forall i :: 0 <= i < |nodes| ==> now[i].next == nodes[i].next && now[i].b.location == nodes[i].b.location)
    && (forall j {:trigger now[order[j]]} :: 0 <= j < k ==> now[order[j]].b == TickBlink(nodes[order[j]].b))
    && (forall j {:trigger now[order[j]]} :: k <= j < |order| ==> now[order[j]].b == nodes[order[j]].b)
  }

  lemma TickOneMore(nodes: seq<Node>, now: seq<Node>, after: seq<Node>, order: seq<nat>, k: nat)
    requires Distinct(order) && k < |order| && forall j :: 0 <= j < |order| ==> order[j] < |nodes|
    requires TickedSoFar(nodes, now, order, k)
    requires |after| == |now| && after[order[k]] == now[order[k]].(b := TickBlink(now[order[k]].b))
    requires forall i :: 0 <= i < |now| && i != order[k] ==> after[i] == now[i]
    ensures TickedSoFar(nodes, after, order, k + 1)
  {
  }

  lemma AllTicked(nodes: seq<Node>, now: seq<Node>, head: Link, order: seq<nat>, slots: set<nat>)
    requires Chain(nodes, head, order) && InUse(nodes, order, slots)
    requires TickedSoFar(nodes, now, order, |order|)
    ensures Chain(now, head, order) && InUse(now, order, slots)
    ensures ListOf(now, order) == TickList(ListOf(nodes, order))
  {
  }

  // ---------------------------------------------------------------- the code

  class Driver {
    var head: Link
    const pool: array<Node>
    const video: array<Byte>

    /** The slots of the list, front to back, and as a set. */
    ghost var order: seq<nat>
    ghost var slots: set<nat>

    ghost predicate Sized() {
      pool.Length == SLOTS && video.Length == VIDEO_BYTES && pool as object != video
    }

    ghost predicate Linked()
      reads this, pool
    {
      Sized() && Chain(pool[..], head, order)
    }

    ghost predicate Valid()
      reads this, pool
    {
      Linked() && InUse(pool[..], order, slots)
    }

    ghost function Current(): Board
      requires Linked()
      reads this, pool, video
    {
      Board(ListOf(pool[..], order), video[..])
    }

    constructor (memory: array<Node>, vmem: array<Byte>)
      requires memory.Length == SLOTS && vmem.Length == VIDEO_BYTES && memory as object != vmem
      requires forall i :: 0 <= i < SLOTS ==> memory[i] == FREE
      ensures Valid() && pool == memory && video == vmem && order == []
    {
      pool, video := memory, vmem;
      head, order, slots := Null, [], {};
      new;
      EmptyPool(pool[..]);
    }

    method Malloc() returns (p: Link)
      requires Sized()
      ensures p.Slot? ==> p.i < SLOTS && pool[p.i].b.location == 0
      ensures p.Slot? ==> forall k :: 0 <= k < p.i ==> pool[k].b.location != 0
      ensures p.Null? ==> forall i :: 0 <= i < SLOTS ==> pool[i].b.location != 0
    {
      for i := 0 to SLOTS
        invariant forall k :: 0 <= k < i ==> pool[k].b.location != 0
      {
        if pool[i].b.location == 0 {
          return Slot(i);
        }
      }
      return Null;
    }

    /** `mp1_ioctl_add`, in any state of the pool. */
    method Add(user: Blink) returns (rc: int, ghost slot: nat)
      requires Sized()
      modifies this, pool, video
      ensures rc == 0 || rc == -1
      ensures rc == 0 <==> user.location < 2000 && exists i :: 0 <= i < 2000 && old(pool[..])[i].b.location == 0
      ensures rc == -1 ==> pool[..] == old(pool[..]) && video[..] == old(video[..])
      ensures rc == -1 ==> head == old(head) && order == old(order) && slots == old(slots)
      ensures rc == 0 ==> slot < SLOTS && old(pool[..])[slot].b.location == 0
      ensures rc == 0 ==> forall j :: 0 <= j < slot ==> old(pool[..])[j].b.location != 0
      ensures rc == 0 ==> pool[..] == old(pool[..])[slot := Node(Started(user), old(head))] && head == Slot(slot)
      ensures rc == 0 ==> order == [slot] + old(order) && slots == old(slots) + {slot}
      ensures rc == 0 ==> video[..] == Poke(old(video[..]), user.location, user.onChar)
    {
      slot := 0;
      if user.location >= SLOTS {
        return -1, slot;
      }
      var p := Malloc();
      if p == Null {
        return -1, slot;
      }
      slot := p.i;
      pool[p.i] := Node(Started(user), Null);
      pool[p.i] := pool[p.i].(next := head);
      head := p;
      order, slots := [slot] + order, slots + {slot};
      video[2 * user.location] := user.onChar;
      return 0, slot;
    }

    /**
     * Adding to a consistent pool. The code accepts location 0, although a node with it looks free:
     * the pool stays consistent exactly when the add fails or the location is another one.
     */
    method AddToList(user: Blink) returns (rc: int)
      requires Valid()
      modifies this, pool, video
      ensures rc == if CanAdd(old(Current()), user) then 0 else -1
      ensures Linked() && Current() == Added(old(Current()), user)
      ensures Valid() <==> !CanAdd(old(Current()), user) || user.location != 0
    {
      ghost var nodes, d := pool[..], Current();
      CanAddWhenFree(nodes, order, slots, d, user);
      ghost var slot;
      rc, slot := Add(user);
      if rc == 0 {
        PushKeepsPool(nodes, old(head), old(order), old(slots), slot, Started(user));
      }
    }

    /** After an add at location 0, an add at any place on the screen takes the same slot and links it to itself. */
    method AddAfterZero(first: Blink, second: Blink) returns (rc: int)
      requires Valid() && CanAdd(Current(), first) && first.location == 0 && second.location < SLOTS
      modifies this, pool, video
      ensures rc == 0 && head.Slot? && head.i < SLOTS && pool[head.i] == Node(Started(second), head)
    {
      CanAddWhenFree(pool[..], order, slots, Current(), first);
      ghost var slot, again;
      rc, slot := Add(first);
      assert pool[..][slot].b.location == 0;
      rc, again := Add(second);
      assert again == slot;
      assert pool[..][slot] == Node(Started(second), Slot(slot));
    }

    /** `mp1_find_helper`: the first node of the list with this location. */
    method FindHelper(location: Word) returns (p: Link)
      requires Linked()
      ensures p == LinkTo(order, Find(Current().list, location))
    {
      p := head;
      ghost var k := 0;
      while p != Null && pool[p.i].b.location != location
        invariant 0 <= k <= |order| && p == LinkTo(order, k)
        invariant forall j :: 0 <= j < k ==> pool[order[j]].b.location != location
        decreases |order| - k
      {
        assert pool[..][order[k]].next == LinkTo(order, k + 1);
        p := pool[p.i].next;
        k := k + 1;
      }
      FindIs(Current().list, location, k);
    }

    /** The word that `%edx` points at: the head, or the `next` field of a slot. */
    function Cell(at: Link): Link
      requires at.Slot? ==> at.i < pool.Length
      reads this, pool
    {
      if at == Null then head else pool[at.i].next
    }

    /** The loop `remove_find_prev`: the link cell that holds `p`, which is at position `n` of the list. */
    method FindCell(p: Link, ghost n: nat) returns (at: Link)
      requires Linked() && n < |order| && p == Slot(order[n])
      ensures at == if n == 0 then Null else Slot(order[n - 1])
    {
      at := Null;
      ghost var k := 0;
      while Cell(at) != p
        invariant 0 <= k <= n && at == (if k == 0 then Null else Slot(order[k - 1]))
        invariant Cell(at) == LinkTo(order, k)
        decreases n - k
      {
        assert pool[..][order[k]].next == LinkTo(order, k + 1);
        at := Cell(at);
        k := k + 1;
      }
    }

    /** The removal itself, at `found_prev`, and `mp1_free`. */
    method Unlink(p: Link, at: Link, ghost n: nat)
      requires Linked() && n < |order| && p == Slot(order[n])
      requires at == if n == 0 then Null else Slot(order[n - 1])
      modifies `head, pool
      ensures pool[..] == Unlinked(old(pool[..]), order, n) && head == LinkTo(Without(order, n), 0)
    {
      assert pool[..][order[n]].next == LinkTo(order, n + 1);
      if at == Null {
        head := pool[p.i].next;
      } else {
        pool[at.i] := pool[at.i].(next := pool[p.i].next);
      }
      assert pool[..] == Relinked(old(pool[..]), order, n);
      pool[p.i] := FREE;
    }

    /** Unlinks and frees the node at position `n`; what is left, `rest`, is still a consistent pool. */
    method UnlinkNode(p: Link, ghost n: nat) returns (ghost rest: seq<nat>, ghost left: set<nat>)
      requires Valid() && n < |order| && p == Slot(order[n])
      modifies `head, pool
      ensures Chain(pool[..], head, rest) && InUse(pool[..], rest, left)
      ensures ListOf(pool[..], rest) == Without(ListOf(old(pool[..]), order), n)
      ensures rest == Without(order, n) && pool[order[n]] == FREE
    {
      UnlinkKeepsPool(pool[..], head, order, slots, n);
      rest, left := Without(order, n), slots - {order[n]};
      var at := FindCell(p, n);
      Unlink(p, at, n);
      assert pool[..][order[n]] == FREE;
    }

    method RemoveNode(p: Link, ghost n: nat)
      requires Valid() && n < |order| && p == Slot(order[n])
      modifies this, pool
      ensures Valid() && ListOf(pool[..], order) == Without(ListOf(old(pool[..]), old(order)), n)
      ensures order == Without(old(order), n) && p.i < pool.Length && pool[p.i] == FREE
    {
      ghost var rest, left := UnlinkNode(p, n);
      order, slots := rest, left;
    }

    /**
     * `mp1_ioctl_remove`; only the low word of the argument is looked at. The first node with that
     * location leaves the list, the others keep their order, and its slot is free again.
     */
    method Remove(arg: nat) returns (rc: int)
      requires Valid()
      modifies this, pool
      ensures Valid() && Current() == Removed(old(Current()), arg % 0x1_0000)
      ensures rc == if Find(old(Current()).list, arg % 0x1_0000) < |old(Current()).list| then 0 else -1
      ensures rc == 0 ==>
        var n := Find(old(Current()).list, arg % 0x1_0000);
        && n < |old(order)| && order == Without(old(order), n)
        && old(order)[n] < pool.Length && pool[old(order)[n]] == FREE
    {
      var location: Word := arg % 0x1_0000;
      ghost var n := Find(Current().list, location);
      var p := FindHelper(location);
      if p == Null {
        return -1;
      }
      RemoveNode(p, n);
      return 0;
    }

    /** The copy of `mp1_ioctl_sync`, between the nodes at positions `m` and `n`. */
    method CopyState(p: Link, q: Link, ghost m: nat, ghost n: nat)
      requires Valid() && m < |order| && n < |order| && p == Slot(order[m]) && q == Slot(order[n])
      modifies pool, video
      ensures Valid()
      ensures var d := old(Current());
        var b := d.list[n];
        Current() == Board(d.list[n := InStep(b, d.list[m])], Poke(d.video, b.location, b.offChar))
    {
      ghost var nodes := pool[..];
      var source, target := pool[p.i].b, pool[q.i].b;
      target := target.(onLength := source.onLength);
      target := target.(offLength := source.offLength);
      target := target.(countdown := source.countdown);
      target := target.(status := source.status);
      ReplaceKeepsPool(nodes, head, order, slots, n, target);
      pool[q.i] := pool[q.i].(b := target);
      assert pool[..] == nodes[order[n] := nodes[order[n]].(b := target)];
      video[2 * target.location] := target.offChar;
    }

    /** `mp1_ioctl_sync`: the source's location is in the high word, the target's in the low one. */
    method Sync(arg: nat) returns (rc: int)
      requires Valid()
      modifies pool, video
      ensures Valid() && Current() == Synced(old(Current()), SyncFrom(arg), SyncTo(arg))
      ensures var list := old(Current()).list;
        rc == if Find(list, SyncFrom(arg)) < |list| && Find(list, SyncTo(arg)) < |list| then 0 else -1
    {
      var p := FindHelper(arg / 0x1_0000 % 0x1_0000);
      if p == Null {
        return -1;
      }
      var q := FindHelper(arg % 0x1_0000);
      if q == Null {
        return -1;
      }
      CopyState(p, q, Find(Current().list, SyncFrom(arg)), Find(Current().list, SyncTo(arg)));
      return 0;
    }

    /** One pass of `mp1_rtc_tasklet` over one node. */
    method TickNode(i: nat)
      requires Sized() && i < SLOTS && pool[i].b.location < SLOTS
      modifies pool, video
      ensures pool[i] == old(pool[i]).(b := TickBlink(old(pool[i].b)))
      ensures forall j :: 0 <= j < SLOTS && j != i ==> pool[j] == old(pool[j])
      ensures video[..] == if Expired(old(pool[i].b))
        then Poke(old(video[..]), old(pool[i].b.location), Shown(TickBlink(old(pool[i].b))))
        else old(video[..])
    {
      var b := pool[i].b;
      b := b.(countdown := (b.countdown - 1) % 0x1_0000);
      if 0 < b.countdown < 0x8000 {
        pool[i] := pool[i].(b := b);
        return;
      }
      var length;
      if b.status % 2 == 0 {
        video[2 * b.location] := b.onChar;
        length := b.onLength;
      } else {
        video[2 * b.location] := b.offChar;
        length := b.offLength;
      }
      b := b.(countdown := length, status := if b.status % 2 == 0 then b.status + 1 else b.status - 1);
      pool[i] := pool[i].(b := b);
    }

    /** During a tick that began with the pool at `nodes` and the board at `before`, `k` nodes are done. */
    ghost predicate Midway(nodes: seq<Node>, before: Board, k: nat)
      reads this, pool, video
    {
      && Sized() && Chain(nodes, head, order) && InUse(nodes, order, slots)
      && before.list == ListOf(nodes, order)
      && k <= |order| && TickedSoFar(nodes, pool[..], order, k)
      && video[..] == TickVideo(before.video, before.list[..k])
    }

    /** The body of the tasklet's loop. */
    method TickPosition(p: Link, ghost nodes: seq<Node>, ghost before: Board, ghost k: nat) returns (next: Link)
      requires Midway(nodes, before, k) && k < |order| && p == LinkTo(order, k)
      modifies pool, video
      ensures Midway(nodes, before, k + 1) && next == LinkTo(order, k + 1)
    {
      assert nodes[order[k]].next == LinkTo(order, k + 1);
      ghost var now := pool[..];
      assert now[order[k]].b == before.list[k];
      TickNode(p.i);
      TickOneMore(nodes, now, pool[..], order, k);
      TickVideoNext(before.video, before.list, k);
      next := pool[p.i].next;
    }

    /** The loop of `mp1_rtc_tasklet`. */
    method TickLoop(ghost nodes: seq<Node>, ghost before: Board)
      requires Midway(nodes, before, 0)
      modifies pool, video
      ensures Midway(nodes, before, |order|)
    {
      var p := head;
      ghost var k := 0;
      while p != Null
        invariant Midway(nodes, before, k) && p == LinkTo(order, k)
        decreases |order| - k
      {
        p := TickPosition(p, nodes, before, k);
        k := k + 1;
      }
    }

    /** `mp1_rtc_tasklet`. */
    method Tick()
      requires Valid()
      modifies pool, video
      ensures Valid() && Current() == Ticked(old(Current()))
    {
      ghost var nodes, before := pool[..], Current();
      TickLoop(nodes, before);
      assert before.list[..|order|] == before.list;
      AllTicked(nodes, pool[..], head, order, slots);
    }

    method Perform(op: Op)
      requires Valid() && KeepsPool(Current(), op)
      modifies this, pool, video
      ensures Valid() && Current() == Step(old(Current()), op)
    {
      match op {
        case Add(b) => var _ := AddToList(b);
        case Remove(arg) => var _ := Remove(arg);
        case Sync(arg) => var _ := Sync(arg);
        case Tick => Tick();
      }
    }

    /** Any run of operations in which no add at location 0 succeeds keeps the pool consistent. */
    method Run(ops: seq<Op>)
      requires Valid() && AllKeepPool(Current(), ops)
      modifies this, pool, video
      ensures Valid() && Current() == Steps(old(Current()), ops)
    {
      for i := 0 to |ops|
        invariant Valid() && AllKeepPool(Current(), ops[i..])
        invariant Steps(Current(), ops[i..]) == Steps(old(Current()), ops)
      {
        assert ops[i..][1..] == ops[i + 1..];
        Perform(ops[i]);
      }
    }
  }

  // ---------------------------------------------------------------- runs

  datatype Op = Add(b: Blink) | Remove(arg: nat) | Sync(arg: nat) | Tick

  function Step(d: Board, op: Op): (r: Board)
    ensures |r.video| == |d.video|
  {
    match op
    case Add(b) => Added(d, b)
    case Remove(arg) => Removed(d, arg % 0x1_0000)
    case Sync(arg) => Synced(d, SyncFrom(arg), SyncTo(arg))
    case Tick => Ticked(d)
  }

  /** Not an add at location 0 that succeeds. */
  predicate KeepsPool(d: Board, op: Op) {
    op.Add? && op.b.location == 0 ==> !CanAdd(d, op.b)
  }

  predicate AllKeepPool(d: Board, ops: seq<Op>)
    decreases |ops|
  {
    ops == [] || (KeepsPool(d, ops[0]) && AllKeepPool(Step(d, ops[0]), ops[1..]))
  }

  function Steps(d: Board, ops: seq<Op>): (r: Board)
    ensures |r.video| == |d.video|
    decreases |ops|
  {
    if ops == [] then d else Steps(Step(d, ops[0]), ops[1..])
  }

  function Ticks(ops: seq<Op>): nat {
    if ops == [] then 0 else (if ops[0].Tick? then 1 else 0) + Ticks(ops[1..])
  }

  predicate Spares(op: Op, location: Word) {
    match op
    case Add(b) => b.location != location
    case Remove(arg) => arg % 0x1_0000 != location
    case Sync(arg) => SyncTo(arg) != location
    case Tick => true
  }

  // ---------------------------------------------------------------- the blinking law

  function TickTimes(b: Blink, t: nat): Blink {
    if t == 0 then b else TickBlink(TickTimes(b, t - 1))
  }

  /** How many ticks a length lasts; the signed 16-bit countdown gives 0 and lengths over 0x8000 one tick. */
  function Span(length: Word): (n: nat)
    ensures 0 < n <= 0x8000
  {
    if length == 0 || length > 0x8000 then 1 else length
  }

  /** `elapsed` ticks into the on or the off period. */
  function Elapsed(b: Blink, on: bool, elapsed: nat): Blink {
    if on then b.(status := 1, countdown := (b.onLength - elapsed) % 0x1_0000)
    else b.(status := 0, countdown := (b.offLength - elapsed) % 0x1_0000)
  }

  lemma TickElapsed(b: Blink, on: bool, elapsed: nat)
    requires elapsed < Span(if on then b.onLength else b.offLength)
    ensures TickBlink(Elapsed(b, on, elapsed)) ==
      if elapsed + 1 < Span(if on then b.onLength else b.offLength) then Elapsed(b, on, elapsed + 1)
      else Elapsed(b, !on, 0)
  {
  }

  function Period(b: Blink): (n: nat)
    ensures n > 0
  {
    Span(b.onLength) + Span(b.offLength)
  }

  lemma ModStep(t: nat, n: nat)
    requires n > 0
    ensures (t + 1) % n == if t % n + 1 < n then t % n + 1 else 0
  {
    var q, r := t / n, t % n;
    assert t + 1 == q * n + (r + 1);
    if r + 1 < n {
      DivModUnique(q, r + 1, n);
    } else {
      assert t + 1 == (q + 1) * n + 0;
      DivModUnique(q + 1, 0, n);
    }
  }

  /** The state of a blink `p` ticks into its period. */
  function AtPhase(b: Blink, p: nat): Blink {
    if p < Span(b.onLength) then Elapsed(b, true, p) else Elapsed(b, false, p - Span(b.onLength))
  }

  lemma PhaseStep(b: Blink, p: nat)
    requires p < Period(b)
    ensures TickBlink(AtPhase(b, p)) == AtPhase(b, if p + 1 < Period(b) then p + 1 else 0)
  {
    if p < Span(b.onLength) {
      TickElapsed(b, true, p);
    } else {
      TickElapsed(b, false, p - Span(b.onLength));
    }
  }

  /** `t` modulo `n`, counted up. */
  function Phase(t: nat, n: nat): (p: nat)
    requires n > 0
    ensures p < n
  {
    if t == 0 || Phase(t - 1, n) + 1 == n then 0 else Phase(t - 1, n) + 1
  }

  lemma {:induction false} PhaseIsMod(t: nat, n: nat)
    requires n > 0
    ensures Phase(t, n) == t % n
  {
    if t > 0 {
      PhaseIsMod(t - 1, n);
      ModStep(t - 1, n);
    } else {
      DivModUnique(0, 0, n);
    }
  }

  lemma {:induction false} BlinkPhase(b: Blink, t: nat)
    ensures TickTimes(Started(b), t) == AtPhase(b, Phase(t, Period(b)))
  {
    if t > 0 {
      BlinkPhase(b, t - 1);
      PhaseStep(b, Phase(t - 1, Period(b)));
    }
  }

  /** A blink is on exactly in the first part of each period, for all 16-bit lengths. */
  lemma BlinkLaw(b: Blink, t: nat)
    ensures IsOn(TickTimes(Started(b), t)) <==> t % Period(b) < Span(b.onLength)
  {
    BlinkPhase(b, t);
    PhaseIsMod(t, Period(b));
  }

  // ---------------------------------------------------------------- what the screen shows

  predicate DistinctLocations(list: seq<Blink>) {
    forall i, j :: 0 <= i < j < |list| ==> list[i].location != list[j].location
  }

  /** Every live node's character is on the screen. */
  predicate Agrees(d: Board) {
    && |d.video| == VIDEO_BYTES && |d.list| <= SLOTS
    && DistinctLocations(d.list)
    && forall i :: 0 <= i < |d.list| ==>
      d.list[i].location < SLOTS && d.video[2 * d.list[i].location] == Shown(d.list[i])
  }

  lemma {:induction false} TickVideoAt(video: seq<Byte>, list: seq<Blink>, i: nat)
    requires i < |list| && |video| == VIDEO_BYTES && DistinctLocations(list)
    requires forall k :: 0 <= k < |list| ==> list[k].location < SLOTS
    ensures TickVideo(video, list)[2 * list[i].location] ==
      if Expired(list[i]) then Shown(TickBlink(list[i])) else video[2 * list[i].location]
  {
    var init := list[..|list| - 1];
    if i < |init| {
      TickVideoAt(video, init, i);
    } else {
      TickVideoElsewhere(video, init, 2 * list[i].location);
    }
  }

  lemma {:induction false} TickVideoElsewhere(video: seq<Byte>, list: seq<Blink>, i: nat)
    requires i < |video| && forall k :: 0 <= k < |list| ==> 2 * list[k].location != i
    ensures TickVideo(video, list)[i] == video[i]
  {
    if list != [] {
      TickVideoElsewhere(video, list[..|list| - 1], i);
    }
  }

  /** The character that a sync of two live blinks shows is the one for the copied status. */
  predicate SyncShows(d: Board, from: Word, to: Word) {
    var m, n := Find(d.list, from), Find(d.list, to);
    m < |d.list| && n < |d.list| ==> !IsOn(d.list[m]) || d.list[n].onChar == d.list[n].offChar
  }

  /** An add to a place that is not already blinking, or a sync that shows the right character. */
  predicate KeepsAgreement(d: Board, op: Op) {
    match op
    case Add(b) => Find(d.list, b.location) == |d.list|
    case Sync(arg) => SyncShows(d, SyncFrom(arg), SyncTo(arg))
    case _ => true
  }

  predicate AllKeepAgreement(d: Board, ops: seq<Op>)
    decreases |ops|
  {
    ops == [] || (KeepsAgreement(d, ops[0]) && AllKeepAgreement(Step(d, ops[0]), ops[1..]))
  }

  /** A remove deletes the first blink at the place, and no other, and leaves the screen as it is. */
  lemma RemovesFirst(d: Board, arg: nat)
    requires exists b :: b in d.list && b.location == arg % 0x1_0000
    ensures var r, n := Step(d, Op.Remove(arg)), Find(d.list, arg % 0x1_0000);
      n < |d.list| && r.list == d.list[..n] + d.list[n + 1..] && r.video == d.video
  {
    FoundWhenThere(d.list, arg % 0x1_0000);
  }

  /** With distinct places no blink is left there, and every other one is. */
  lemma RemovesPlace(d: Board, l: Word, b: Blink)
    requires DistinctLocations(d.list)
    ensures b in Step(d, Op.Remove(l)).list <==> b in d.list && b.location != l
  {
    var n := Find(d.list, l);
    if n < |d.list| {
      InWithout(d.list, n, b);
    }
  }

  lemma InWithout<T>(s: seq<T>, n: nat, x: T)
    requires n < |s|
    ensures x in Without(s, n) <==> exists k :: 0 <= k < |s| && k != n && s[k] == x
  {
    var r := Without(s, n);
    assert forall k :: 0 <= k < |s| && k != n ==> s[k] == r[if k < n then k else k - 1];
  }

  lemma TickAgrees(d: Board)
    requires Agrees(d)
    ensures Agrees(Ticked(d))
  {
    forall i | 0 <= i < |d.list| ensures Ticked(d).video[2 * d.list[i].location] == Shown(TickBlink(d.list[i])) {
      TickVideoAt(d.video, d.list, i);
    }
  }

  lemma AddAgrees(d: Board, b: Blink)
    requires Agrees(d) && CanAdd(d, b) && Find(d.list, b.location) == |d.list|
    ensures Agrees(Added(d, b))
  {
  }

  lemma SyncedAgrees(d: Board, from: Word, to: Word)
    requires Agrees(d) && Find(d.list, from) < |d.list| && Find(d.list, to) < |d.list|
    ensures Agrees(Synced(d, from, to)) <==> SyncShows(d, from, to)
  {
    var n, e := Find(d.list, to), Synced(d, from, to);
    assert e.list[n].location == to && e.video[2 * to] == e.list[n].offChar;
    assert Agrees(e) ==> e.video[2 * e.list[n].location] == Shown(e.list[n]);
  }

  lemma SyncStep(d: Board, from: Word, to: Word)
    ensures Step(d, Op.Sync(from * 0x1_0000 + to)) == Synced(d, from, to)
  {
    SyncWords(from, to);
  }

  /** After a sync the target's cell agrees exactly when the copied status is off or its characters are the same. */
  lemma SyncAgrees(d: Board, from: Word, to: Word)
    requires Agrees(d) && Find(d.list, from) < |d.list| && Find(d.list, to) < |d.list|
    ensures Agrees(Step(d, Op.Sync(from * 0x1_0000 + to))) <==> SyncShows(d, from, to)
  {
    SyncStep(d, from, to);
    SyncedAgrees(d, from, to);
  }

  /** A sync of two blinks that are on: the target shows its off character, although it is on. */
  lemma SyncExample()
    ensures var a, b := Started(Blink(1, 120, 121, 15, 15, 0, 0)), Started(Blink(2, 120, 121, 7, 6, 0, 0));
      var d := Board([a, b], seq(VIDEO_BYTES, _ => 120));
      Agrees(d) && !SyncShows(d, 1, 2) && !Agrees(Step(d, Op.Sync(0x1_0002)))
  {
    var a, b := Started(Blink(1, 120, 121, 15, 15, 0, 0)), Started(Blink(2, 120, 121, 7, 6, 0, 0));
    var d := Board([a, b], seq(VIDEO_BYTES, _ => 120));
    FindIs(d.list, 1, 0);
    FindIs(d.list, 2, 1);
    SyncAgrees(d, 1, 2);
  }

  lemma StepAgrees(d: Board, op: Op)
    requires Agrees(d) && KeepsAgreement(d, op)
    ensures Agrees(Step(d, op))
  {
    match op
    case Add(b) => if CanAdd(d, b) { AddAgrees(d, b); }
    case Remove(arg) =>
    case Sync(arg) =>
      if Find(d.list, SyncFrom(arg)) < |d.list| && Find(d.list, SyncTo(arg)) < |d.list| {
        SyncedAgrees(d, SyncFrom(arg), SyncTo(arg));
      }
    case Tick => TickAgrees(d);
  }

  /** In every reachable state each live node's character matches its status. */
  lemma {:induction false} RunAgrees(d: Board, ops: seq<Op>)
    requires Agrees(d) && AllKeepAgreement(d, ops)
    ensures Agrees(Steps(d, ops))
    decreases |ops|
  {
    if ops != [] {
      StepAgrees(d, ops[0]);
      RunAgrees(Step(d, ops[0]), ops[1..]);
    }
  }

  ghost predicate Holds(d: Board, b: Blink) {
    var n := Find(d.list, b.location);
    n < |d.list| && d.list[n] == b
  }

  lemma {:induction false} TickTimesKeeps(b: Blink, t: nat)
    ensures TickTimes(TickBlink(b), t) == TickTimes(b, t + 1)
    ensures var c := TickTimes(b, t); c.location == b.location && c.onChar == b.onChar && c.offChar == b.offChar
  {
    if t > 0 {
      TickTimesKeeps(b, t - 1);
    }
  }

  lemma AddHolds(d: Board, a: Blink, b: Blink)
    requires Holds(d, b) && a.location != b.location
    ensures Holds(Added(d, a), b)
  {
  }

  lemma RemoveHolds(d: Board, location: Word, b: Blink)
    requires Holds(d, b) && location != b.location
    ensures Holds(Removed(d, location), b)
  {
    var m, n := Find(d.list, location), Find(d.list, b.location);
    if m < |d.list| {
      FindIs(Without(d.list, m), b.location, if m < n then n - 1 else n);
    }
  }

  lemma SyncHolds(d: Board, from: Word, to: Word, b: Blink)
    requires Holds(d, b) && to != b.location
    ensures Holds(Synced(d, from, to), b)
  {
    FindIs(Synced(d, from, to).list, b.location, Find(d.list, b.location));
  }

  lemma StepHolds(d: Board, op: Op, b: Blink)
    requires Holds(d, b) && Spares(op, b.location)
    ensures Holds(Step(d, op), if op.Tick? then TickBlink(b) else b)
  {
    match op
    case Add(a) => AddHolds(d, a, b);
    case Remove(arg) => RemoveHolds(d, arg % 0x1_0000, b);
    case Sync(arg) => SyncHolds(d, SyncFrom(arg), SyncTo(arg), b);
    case Tick => FindIs(TickList(d.list), b.location, Find(d.list, b.location));
  }

  /** A blink that a run neither removes nor covers is ticked once per tick of the run, whatever else happens. */
  lemma {:induction false} RunHolds(d: Board, ops: seq<Op>, b: Blink)
    requires Holds(d, b) && forall k :: 0 <= k < |ops| ==> Spares(ops[k], b.location)
    ensures Holds(Steps(d, ops), TickTimes(b, Ticks(ops)))
    decreases |ops|
  {
    if ops != [] {
      StepHolds(d, ops[0], b);
      var b' := if ops[0].Tick? then TickBlink(b) else b;
      TickTimesKeeps(b, Ticks(ops[1..]));
      RunHolds(Step(d, ops[0]), ops[1..], b');
    }
  }

  /** After a successful add and any such run, the screen shows the character of the blink's phase. */
  lemma ShowsPhase(d: Board, b: Blink, ops: seq<Op>)
    requires Agrees(d) && CanAdd(d, b) && AllKeepAgreement(d, [Op.Add(b)] + ops)
    requires forall k :: 0 <= k < |ops| ==> Spares(ops[k], b.location)
    ensures b.location < SLOTS && Steps(d, [Op.Add(b)] + ops).video[2 * b.location] ==
      if Ticks(ops) % Period(b) < Span(b.onLength) then b.onChar else b.offChar
  {
    var all := [Op.Add(b)] + ops;
    assert all[1..] == ops;
    RunAgrees(d, all);
    var t := Ticks(ops);
    RunHolds(Added(d, b), ops, Started(b));
    BlinkLaw(b, t);
    TickTimesKeeps(Started(b), t);
    var end := Steps(d, all);
    assert end.list[Find(end.list, b.location)] == TickTimes(Started(b), t);
  }

  /** The same lengths, and the same place in the period. */
  predicate InPhase(a: Blink, b: Blink) {
    InStep(a, b) == a
  }

  lemma {:induction false} PhaseTicks(a: Blink, b: Blink, t: nat)
    requires InPhase(a, b)
    ensures InPhase(TickTimes(a, t), TickTimes(b, t))
  {
    if t > 0 {
      PhaseTicks(a, b, t - 1);
    }
  }

  /** A synced blink ticks in phase with its source from then on, through any run that leaves both alone. */
  lemma SyncedInPhase(d: Board, from: Word, to: Word, ops: seq<Op>)
    requires Find(d.list, from) < |d.list| && Find(d.list, to) < |d.list|
    requires forall k :: 0 <= k < |ops| ==> Spares(ops[k], from) && Spares(ops[k], to)
    ensures var end := Steps(d, [Op.Sync(from * 0x1_0000 + to)] + ops).list;
      Find(end, from) < |end| && Find(end, to) < |end| && InPhase(end[Find(end, to)], end[Find(end, from)])
  {
    var m, n, e := Find(d.list, from), Find(d.list, to), Synced(d, from, to);
    SyncStep(d, from, to);
    assert ([Op.Sync(from * 0x1_0000 + to)] + ops)[1..] == ops;
    FindIs(e.list, from, m);
    FindIs(e.list, to, n);
    RunHolds(e, ops, e.list[m]);
    RunHolds(e, ops, e.list[n]);
    PhaseTicks(e.list[n], e.list[m], Ticks(ops));
    TickTimesKeeps(e.list[m], Ticks(ops));
    TickTimesKeeps(e.list[n], Ticks(ops));
  }

  /** A run writes only the character bytes of the blinks it is about. */
  lemma {:induction false} RunElsewhere(d: Board, ops: seq<Op>, i: nat)
    requires i < |d.video| && forall k :: 0 <= k < |d.list| ==> 2 * d.list[k].location != i
    requires forall k :: 0 <= k < |ops| ==> ops[k].Add? ==> 2 * ops[k].b.location != i
    ensures Steps(d, ops).video[i] == d.video[i]
    decreases |ops|
  {
    if ops != [] {
      if ops[0].Tick? {
        TickVideoElsewhere(d.video, d.list, i);
      }
      RunElsewhere(Step(d, ops[0]), ops[1..], i);
    }
  }
}
