/** The duplicate-request cache of libsrc/svc_dg.c: `svc_dg_enablecache`, `cache_set` and `cache_get`. */
module ReplyCache {
  import opened Basics
  import opened Xdr

  const SPARSENESS := 4

  /** What identifies a call. */
  datatype Key = Key(xid: U32, prog: U32, vers: U32, proc: U32, addr: seq<Byte>)

  /** A reply that has been cached. */
  datatype Entry = Entry(key: Key, bytes: seq<Byte>)

  function Loc(size: nat, k: Key): (r: nat)
    requires size > 0
    ensures r < SPARSENESS * size
  {
    k.xid % (SPARSENESS * size)
  }

  // ----- the history of cached replies

  /** The start of the last `size` entries. */
  function Window(h: seq<Entry>, size: nat): (lo: nat)
    ensures lo <= |h| && |h| <= lo + size
  {
    if |h| <= size then 0 else |h| - size
  }

  /** The latest entry from lo up to i in this hash chain, or -1. */
  function Prev(h: seq<Entry>, lo: nat, i: nat, size: nat, loc: nat): (r: int)
    requires lo <= i <= |h| && size > 0
    ensures r == -1 || (lo <= r < i && Loc(size, h[r].key) == loc)
    ensures forall j :: lo <= j < i && j > r ==> Loc(size, h[j].key) != loc
    decreases i
  {
    if i == lo then -1 else if Loc(size, h[i - 1].key) == loc then i - 1 else Prev(h, lo, i - 1, size, loc)
  }

  /** The latest entry from lo up to i with this key, or -1. */
  function Newest(h: seq<Entry>, lo: nat, i: nat, k: Key): (r: int)
    requires lo <= i <= |h|
    ensures r == -1 || (lo <= r < i && h[r].key == k)
    ensures forall j :: lo <= j < i && j > r ==> h[j].key != k
    decreases i
  {
    if i == lo then -1 else if h[i - 1].key == k then i - 1 else Newest(h, lo, i - 1, k)
  }

  lemma {:induction false} PrevExtends(h: seq<Entry>, e: Entry, lo: nat, i: nat, size: nat, loc: nat)
    requires lo <= i <= |h| && size > 0
    ensures Prev(h + [e], lo, i, size, loc) == Prev(h, lo, i, size, loc)
    decreases i
  {
    if i > lo { PrevExtends(h, e, lo, i - 1, size, loc); }
  }

  /** Dropping the oldest entry. */
  lemma PrevDrops(h: seq<Entry>, lo: nat, i: nat, size: nat, loc: nat)
    requires lo < i <= |h| && size > 0
    ensures var p := Prev(h, lo, i, size, loc);
      Prev(h, lo + 1, i, size, loc) == if p == lo then -1 else p
  {}

  /** Entry i of the chain loc, or its head if i == |h|. */
  predicate InChain(h: seq<Entry>, lo: nat, i: nat, size: nat, loc: nat)
    requires size > 0
  {
    lo < i <= |h| && (i < |h| ==> Loc(size, h[i].key) == loc)
  }

  /** Between an entry and the one before it in its chain there is no other one with the key. */
  lemma NewestFollows(h: seq<Entry>, lo: nat, i: nat, size: nat, k: Key)
    requires lo <= i <= |h| && size > 0
    ensures var p := Prev(h, lo, i, size, Loc(size, k));
      Newest(h, lo, i, k) == if p == -1 || h[p].key == k then p else Newest(h, lo, p, k)
    decreases i
  {}

  // ----- the cache

  class CacheNode {
    var key: Key
    var reply: array<Byte>
    var replylen: nat
    var next: CacheNode?

    constructor (key: Key, reply: array<Byte>)
      ensures this.key == key && this.reply == reply && replylen == 0 && next == null
    {
      this.key, this.reply, replylen, next := key, reply, 0, null;
    }

    ghost predicate Holds(e: Entry)
      reads `key, `reply, `replylen, reply
    {
      key == e.key && replylen == |e.bytes| <= reply.Length && reply[..replylen] == e.bytes
    }
  }

  // ----- what the heap looks like when h has been cached in these nodes

  ghost function Link(nodes: seq<CacheNode>, i: int): CacheNode?
    requires -1 <= i < |nodes|
  {
    if i == -1 then null else nodes[i]
  }

  /** The ring holds the nodes of the last replies; `lap` is the index of the reply in slot 0, or of the one to come. */
  ghost predicate Ring(nodes: seq<CacheNode>, size: nat, lap: nat, nextvictim: nat, fifo: array<CacheNode?>)
    reads fifo
  {
    && fifo.Length == size && |nodes| == lap + nextvictim && nextvictim < size && (lap == 0 || lap >= size)
    && (forall k :: 0 <= k < nextvictim ==> fifo[k] == nodes[lap + k])
    && (forall k :: nextvictim <= k < size ==> fifo[k] == if lap == 0 then null else nodes[lap - size + k])
  }

  /** From lo on, no two replies share a node or a buffer. */
  ghost predicate Apart(nodes: seq<CacheNode>, lo: nat)
    reads nodes`reply
  {
    forall i, j :: lo <= i < j < |nodes| ==> nodes[i] != nodes[j] && nodes[i].reply != nodes[j].reply
  }

  /** From lo on, every node holds its reply. */
  ghost predicate Holding(h: seq<Entry>, nodes: seq<CacheNode>, lo: nat)
    reads nodes`key, nodes`reply, nodes`replylen, set n | n in nodes :: n.reply
  {
    |nodes| == |h| && forall i :: lo <= i < |h| ==> nodes[i].Holds(h[i])
  }

  /** The nodes from lo on are each in exactly the chain of their hash value, newest first. */
  ghost predicate Chained(h: seq<Entry>, nodes: seq<CacheNode>, lo: nat, size: nat, entries: array<CacheNode?>)
    reads nodes`next, entries
  {
    && size > 0 && entries.Length == SPARSENESS * size && |nodes| == |h| && lo <= |h|
    && (forall i {:trigger nodes[i].next} :: lo <= i < |h| ==>
          nodes[i].next == Link(nodes, Prev(h, lo, i, size, Loc(size, h[i].key))))
    && (forall l :: 0 <= l < entries.Length ==> entries[l] == Link(nodes, Prev(h, lo, |h|, size, l)))
  }

  lemma NodeHolds(h: seq<Entry>, nodes: seq<CacheNode>, lo: nat, i: nat)
    requires Holding(h, nodes, lo) && lo <= i < |h|
    ensures nodes[i].Holds(h[i])
  {}

  lemma NextInChain(h: seq<Entry>, nodes: seq<CacheNode>, lo: nat, size: nat, entries: array<CacheNode?>, i: nat)
    requires Chained(h, nodes, lo, size, entries) && lo <= i < |h|
    ensures nodes[i].next == Link(nodes, Prev(h, lo, i, size, Loc(size, h[i].key)))
  {}

  lemma HeadOfChain(h: seq<Entry>, nodes: seq<CacheNode>, lo: nat, size: nat, entries: array<CacheNode?>, loc: nat)
    requires Chained(h, nodes, lo, size, entries) && loc < SPARSENESS * size
    ensures entries.Length == SPARSENESS * size && entries[loc] == Link(nodes, Prev(h, lo, |h|, size, loc))
  {}

  lemma NodeApart(nodes: seq<CacheNode>, lo: nat, i: nat)
    requires Apart(nodes, lo) && lo <= i < |nodes|
    ensures forall k :: lo <= k < |nodes| && nodes[k] == nodes[i] ==> k == i
  {}

  /** The indices of one chain, newest first, below i. */
  function ChainOf(h: seq<Entry>, lo: nat, i: nat, size: nat, loc: nat): seq<int>
    requires lo <= i <= |h| && size > 0
    decreases i
  {
    var p := Prev(h, lo, i, size, loc);
    if p == -1 then [] else [p] + ChainOf(h, lo, p, size, loc)
  }

  /** A chain has exactly the replies of its hash value. */
  lemma {:induction false} ChainHas(h: seq<Entry>, lo: nat, i: nat, size: nat, loc: nat, j: int)
    requires lo <= i <= |h| && size > 0
    ensures j in ChainOf(h, lo, i, size, loc) <==> lo <= j < i && Loc(size, h[j].key) == loc
    decreases i
  {
    var p := Prev(h, lo, i, size, loc);
    if p != -1 { ChainHas(h, lo, p, size, loc, j); }
  }

  /** Following the links from start meets the nodes of these indices, and then null. */
  ghost predicate Walks(nodes: seq<CacheNode>, start: CacheNode?, idx: seq<int>)
    requires forall k :: 0 <= k < |idx| ==> 0 <= idx[k] < |nodes|
    reads nodes`next
    decreases |idx|
  {
    if idx == [] then start == null else start == nodes[idx[0]] && Walks(nodes, nodes[idx[0]].next, idx[1..])
  }

  lemma {:induction false} ChainWalks(h: seq<Entry>, nodes: seq<CacheNode>, lo: nat, size: nat,
          entries: array<CacheNode?>, i: nat, loc: nat)
    requires Chained(h, nodes, lo, size, entries) && lo <= i <= |h|
    ensures forall k :: 0 <= k < |ChainOf(h, lo, i, size, loc)| ==> 0 <= ChainOf(h, lo, i, size, loc)[k] < |nodes|
    ensures Walks(nodes, Link(nodes, Prev(h, lo, i, size, loc)), ChainOf(h, lo, i, size, loc))
    decreases i
  {
    var p := Prev(h, lo, i, size, loc);
    if p != -1 {
      ChainWalks(h, nodes, lo, size, entries, p, loc);
      NextInChain(h, nodes, lo, size, entries, p);
      var c := ChainOf(h, lo, i, size, loc);
      assert c[1..] == ChainOf(h, lo, p, size, loc);
    }
  }

  /** Every node of the window is in the chain of its own hash value, and in no other. */
  lemma InExactlyOneChain(h: seq<Entry>, nodes: seq<CacheNode>, lo: nat, size: nat, entries: array<CacheNode?>,
          loc: nat, j: nat)
    requires Chained(h, nodes, lo, size, entries) && loc < entries.Length && lo <= j < |h|
    ensures forall k :: 0 <= k < |ChainOf(h, lo, |h|, size, loc)| ==> 0 <= ChainOf(h, lo, |h|, size, loc)[k] < |nodes|
    ensures Walks(nodes, entries[loc], ChainOf(h, lo, |h|, size, loc))
    ensures j in ChainOf(h, lo, |h|, size, loc) <==> Loc(size, h[j].key) == loc
  {
    ChainWalks(h, nodes, lo, size, entries, |h|, loc);
    ChainHas(h, lo, |h|, size, loc, j);
    HeadOfChain(h, nodes, lo, size, entries, loc);
  }

  // ----- taking out the oldest node

  /** The chains from lo on, with the link from i to the oldest node taken out. */
  ghost predicate Cut(h: seq<Entry>, nodes: seq<CacheNode>, lo: nat, size: nat, entries: array<CacheNode?>,
          i: nat, loc: nat)
    reads nodes`next, entries
  {
    && size > 0 && entries.Length == SPARSENESS * size && |nodes| == |h| && lo < |h|
    && (forall k {:trigger nodes[k].next} :: lo < k < |h| ==>
          nodes[k].next == if k == i then null else Link(nodes, Prev(h, lo, k, size, Loc(size, h[k].key))))
    && (forall l :: 0 <= l < entries.Length ==>
          entries[l] == if i == |h| && l == loc then null else Link(nodes, Prev(h, lo, |h|, size, l)))
  }

  lemma CutIsChained(h: seq<Entry>, nodes: seq<CacheNode>, lo: nat, size: nat, entries: array<CacheNode?>,
          i: nat, loc: nat)
    requires Cut(h, nodes, lo, size, entries, i, loc)
    requires InChain(h, lo, i, size, loc) && Prev(h, lo, i, size, loc) == lo
    ensures Chained(h, nodes, lo + 1, size, entries)
  {
    hide Prev;
    forall k | lo + 1 <= k < |h|
      ensures nodes[k].next == Link(nodes, Prev(h, lo + 1, k, size, Loc(size, h[k].key)))
    {
      PrevDrops(h, lo, k, size, Loc(size, h[k].key));
    }
    forall l | 0 <= l < entries.Length
      ensures entries[l] == Link(nodes, Prev(h, lo + 1, |h|, size, l))
    {
      PrevDrops(h, lo, |h|, size, l);
    }
  }

  // ----- putting in a new one

  /** A node that is not in use from lo on, and holds e. */
  ghost predicate Newcomer(nodes: seq<CacheNode>, lo: nat, node: CacheNode, e: Entry)
    reads nodes`reply, node`key, node`reply, node`replylen, node.reply
  {
    node.Holds(e) && forall i :: lo <= i < |nodes| ==> nodes[i] != node && nodes[i].reply != node.reply
  }

  /** The newcomer heads its chain; the rest is as before. */
  ghost predicate Pushed(h: seq<Entry>, nodes: seq<CacheNode>, lo: nat, size: nat, entries: array<CacheNode?>,
          node: CacheNode, loc: nat)
    reads nodes`next, node`next, entries
  {
    && size > 0 && entries.Length == SPARSENESS * size && |nodes| == |h| && lo <= |h| && loc < entries.Length
    && (forall k {:trigger nodes[k].next} :: lo <= k < |h| ==>
          nodes[k].next == Link(nodes, Prev(h, lo, k, size, Loc(size, h[k].key))))
    && node.next == Link(nodes, Prev(h, lo, |h|, size, loc))
    && (forall l :: 0 <= l < entries.Length ==>
          entries[l] == if l == loc then node else Link(nodes, Prev(h, lo, |h|, size, l)))
  }

  lemma PrevOfAll(h: seq<Entry>, e: Entry, lo: nat, size: nat, loc: nat)
    requires size > 0 && lo <= |h|
    ensures Prev(h + [e], lo, |h| + 1, size, loc) == if Loc(size, e.key) == loc then |h| else Prev(h, lo, |h|, size, loc)
  {
    PrevExtends(h, e, lo, |h|, size, loc);
  }

  lemma PushedIsChained(h: seq<Entry>, nodes: seq<CacheNode>, lo: nat, size: nat, entries: array<CacheNode?>,
          node: CacheNode, e: Entry)
    requires size > 0 && Pushed(h, nodes, lo, size, entries, node, Loc(size, e.key))
    ensures Chained(h + [e], nodes + [node], lo, size, entries)
  {
    hide Loc, Prev;
    var h', nodes' := h + [e], nodes + [node];
    forall k | lo <= k < |h'|
      ensures nodes'[k].next == Link(nodes', Prev(h', lo, k, size, Loc(size, h'[k].key)))
    {
      PrevExtends(h, e, lo, k, size, Loc(size, h'[k].key));
      if k < |h| { assert nodes'[k] == nodes[k] && h'[k] == h[k]; }
    }
    forall l | 0 <= l < entries.Length
      ensures entries[l] == Link(nodes', Prev(h', lo, |h'|, size, l))
    {
      PrevOfAll(h, e, lo, size, l);
    }
  }

  lemma NewcomerApart(h: seq<Entry>, nodes: seq<CacheNode>, lo: nat, node: CacheNode, e: Entry)
    requires Apart(nodes, lo) && Holding(h, nodes, lo) && Newcomer(nodes, lo, node, e)
    ensures Apart(nodes + [node], lo) && Holding(h + [e], nodes + [node], lo)
  {}

  lemma RingTurns(k: nat, size: nat)
    requires k < size
    ensures (k + 1) % size == if k + 1 == size then 0 else k + 1
  {}

  /** The slot at k is taken by a newcomer. */
  lemma RingTakes(nodes: seq<CacheNode>, size: nat, lap: nat, k: nat, fifo: array<CacheNode?>, before: seq<CacheNode?>,
          node: CacheNode, lap': nat, k': nat)
    requires fifo.Length == size == |before| && |nodes| == lap + k && k < size && (lap == 0 || lap >= size)
    requires forall j :: 0 <= j < k ==> before[j] == nodes[lap + j]
    requires forall j :: k <= j < size ==> before[j] == if lap == 0 then null else nodes[lap - size + j]
    requires fifo[..] == before[k := node]
    requires if k + 1 == size then lap' == lap + size && k' == 0 else lap' == lap && k' == k + 1
    ensures Ring(nodes + [node], size, lap', k', fifo)
  {
    forall j | 0 <= j < size ensures fifo[j] == if j == k then node else before[j] {
      assert fifo[j] == fifo[..][j];
    }
  }

  // ----- the cache

  class Cache {
    const size: nat
    const entries: array<CacheNode?>
    const fifo: array<CacheNode?>
    var nextvictim: nat
    var prog: U32
    var vers: U32
    var proc: U32
    /** Every reply cached so far, and the node each was put into. */
    ghost var h: seq<Entry>
    ghost var nodes: seq<CacheNode>
    ghost var lap: nat
    /** All that the cache has ever referred to. */
    ghost var repr: set<object>

    ghost predicate Owned()
      reads `repr, `nodes, nodes`reply
    {
      entries in repr && fifo in repr && forall n :: n in nodes ==> n in repr && n.reply in repr
    }

    ghost function Lo(): nat
      reads `h
    {
      Window(h, size)
    }

    ghost predicate Valid()
      reads `h, `nodes, `lap, `nextvictim, `repr, entries, fifo, nodes, set n | n in nodes :: n.reply
    {
      && Owned() && size > 0 && entries != fifo && |nodes| == |h| && entries.Length == SPARSENESS * size
      && Ring(nodes, size, lap, nextvictim, fifo) && Apart(nodes, Lo()) && Holding(h, nodes, Lo())
      && Chained(h, nodes, Lo(), size, entries)
    }

    constructor (size: nat)
      requires size > 0
      ensures Valid() && this.size == size && h == [] && nodes == [] && fresh(repr)
      ensures prog == vers == proc == 0
    {
      this.size := size;
      entries := new CacheNode?[SPARSENESS * size](_ => null);
      fifo := new CacheNode?[size](_ => null);
      nextvictim, prog, vers, proc := 0, 0, 0, 0;
      h, nodes, lap, repr := [], [], 0, {entries, fifo};
    }

    /** A newest-first walk through one chain finds what a newest-first scan of the last `size` replies finds. */
    method Walk(k: Key) returns (ent: CacheNode?)
      requires Valid()
      ensures ent == Link(nodes, Newest(h, Lo(), |h|, k))
    {
      hide Ring, Holding, Apart, Chained, Prev, Newest, Loc;
      var loc := Loc(size, k);
      ghost var lo, i := Lo(), |h|;
      HeadOfChain(h, nodes, lo, size, entries, loc);
      ent := entries[loc];
      ghost var j := Prev(h, lo, i, size, loc);
      if j != -1 { NodeHolds(h, nodes, lo, j); }
      while ent != null && ent.key != k
        invariant lo <= i <= |h| && j == Prev(h, lo, i, size, loc) && ent == Link(nodes, j)
        invariant j != -1 ==> ent.key == h[j].key
        invariant Newest(h, lo, |h|, k) == Newest(h, lo, i, k)
        decreases i
      {
        NewestFollows(h, lo, i, size, k);
        NextInChain(h, nodes, lo, size, entries, j);
        i := j;
        ent := ent.next;
        j := Prev(h, lo, i, size, loc);
        if j != -1 { NodeHolds(h, nodes, lo, j); }
      }
      NewestFollows(h, lo, i, size, k);
    }

    /** cache_get: on a miss the call is remembered for cache_set. */
    method Get(xid: U32, prog: U32, vers: U32, proc: U32, addr: seq<Byte>) returns (ent: CacheNode?)
      requires Valid()
      modifies this`prog, this`vers, this`proc
      ensures Valid() && ent == Link(nodes, Newest(h, Lo(), |h|, Key(xid, prog, vers, proc, addr)))
      ensures if ent == null then this.prog == prog && this.vers == vers && this.proc == proc
              else this.prog == old(this.prog) && this.vers == old(this.vers) && this.proc == old(this.proc)
    {
      hide Newest;
      ent := Walk(Key(xid, prog, vers, proc, addr));
      hide Valid;
      if ent == null {
        this.prog, this.vers, this.proc := prog, vers, proc;
      }
    }

    /** The walk to the pointer that leads to the victim: it is in `pred`, or in the table if `pred` is null. */
    method FindLink(victim: CacheNode, loc: nat, ghost lo: nat)
      returns (pred: CacheNode?, cur: CacheNode?, ghost i: nat)
      requires Apart(nodes, lo) && Chained(h, nodes, lo, size, entries) && lo < |h|
      requires victim == nodes[lo] && loc == Loc(size, h[lo].key)
      ensures cur == victim && InChain(h, lo, i, size, loc) && Prev(h, lo, i, size, loc) == lo
      ensures if i == |h| then pred == null else pred == nodes[i]
    {
      assert |nodes| == |h| && entries.Length == SPARSENESS * size;
      hide Apart, Chained, Prev, Loc;
      HeadOfChain(h, nodes, lo, size, entries, loc);
      pred, cur, i := null, entries[loc], |h|;
      ghost var j := Prev(h, lo, i, size, loc);
      while cur != null && cur != victim
        invariant InChain(h, lo, i, size, loc) && j == Prev(h, lo, i, size, loc) && j >= lo && cur == nodes[j]
        invariant if i == |h| then pred == null else pred == nodes[i]
        decreases i
      {
        NextInChain(h, nodes, lo, size, entries, j);
        pred, cur, i := cur, cur.next, j;
        j := Prev(h, lo, i, size, loc);
      }
      NodeApart(nodes, lo, lo);
    }

    /** The part of cache_set that takes the oldest node out of its chain. It is always found. */
    method Unlink(victim: CacheNode, ghost lo: nat) returns (found: bool)
      requires Apart(nodes, lo) && Holding(h, nodes, lo) && Chained(h, nodes, lo, size, entries)
      requires lo < |h| && victim == nodes[lo]
      modifies entries, nodes`next
      ensures found && Chained(h, nodes, lo + 1, size, entries)
    {
      assert |nodes| == |h| && entries.Length == SPARSENESS * size;
      NodeHolds(h, nodes, lo, lo);
      NextInChain(h, nodes, lo, size, entries, lo);
      var loc := Loc(size, victim.key);
      var pred, cur;
      ghost var i;
      pred, cur, i := FindLink(victim, loc, lo);
      hide Prev, Loc, Apart, Holding;
      found := cur != null;
      if found {
        if pred == null {
          entries[loc] := victim.next;
        } else {
          NodeApart(nodes, lo, i);
          pred.next := victim.next;
        }
        CutIsChained(h, nodes, lo, size, entries, i, loc);
      }
    }

    method Push(node: CacheNode, ghost lo: nat, ghost e: Entry)
      requires Chained(h, nodes, lo, size, entries) && Newcomer(nodes, lo, node, e)
      modifies node`next, entries
      ensures size > 0 && Pushed(h, nodes, lo, size, entries, node, Loc(size, e.key))
    {
      hide Prev, Loc;
      var loc := Loc(size, node.key);
      HeadOfChain(h, nodes, lo, size, entries, loc);
      node.next := entries[loc];
      entries[loc] := node;
    }

    /** The newcomer takes the victim's slot of the ring. */
    method Advance(node: CacheNode) returns (ghost lap': nat)
      requires Ring(nodes, size, lap, nextvictim, fifo)
      modifies this`nextvictim, fifo
      ensures Ring(nodes + [node], size, lap', nextvictim, fifo)
    {
      ghost var k, before := nextvictim, fifo[..];
      RingTurns(k, size);
      fifo[nextvictim] := node;
      nextvictim := nextvictim + 1;
      nextvictim := nextvictim % size;
      lap' := if nextvictim == 0 then lap + size else lap;
      RingTakes(nodes, size, lap, k, fifo, before, node, lap', nextvictim);
    }

    /** The newcomer goes to the head of its chain and into the ring. */
    method Insert(node: CacheNode, ghost lo: nat, ghost e: Entry) returns (ghost lap': nat)
      requires entries != fifo && Ring(nodes, size, lap, nextvictim, fifo)
      requires Apart(nodes, lo) && Holding(h, nodes, lo) && Chained(h, nodes, lo, size, entries)
      requires Newcomer(nodes, lo, node, e)
      modifies this`nextvictim, node`next, entries, fifo
      ensures Ring(nodes + [node], size, lap', nextvictim, fifo)
      ensures Apart(nodes + [node], lo) && Holding(h + [e], nodes + [node], lo)
      ensures Chained(h + [e], nodes + [node], lo, size, entries)
    {
      hide Ring, Apart, Holding, Chained, Newcomer, Pushed;
      NewcomerApart(h, nodes, lo, node, e);
      Push(node, lo, e);
      PushedIsChained(h, nodes, lo, size, entries, node, e);
      lap' := Advance(node);
    }

    /** cache_set's last lines. */
    method Append(node: CacheNode, ghost lo: nat, ghost e: Entry)
      requires size > 0 && entries != fifo && Ring(nodes, size, lap, nextvictim, fifo)
      requires Apart(nodes, lo) && Holding(h, nodes, lo) && Chained(h, nodes, lo, size, entries)
      requires Newcomer(nodes, lo, node, e) && lo == Window(h + [e], size)
      requires Owned() && node in repr && node.reply in repr
      modifies this`nextvictim, this`h, this`nodes, this`lap, node`next, entries, fifo
      ensures Valid() && h == old(h) + [e] && nodes == old(nodes) + [node]
    {
      assert |nodes| == |h| && entries.Length == SPARSENESS * size;
      hide Ring, Apart, Holding, Chained, Newcomer, Window;
      ghost var lap' := Insert(node, lo, e);
      h, nodes, lap := h + [e], nodes + [node], lap';
    }

    /** The first part of cache_set: the oldest node, taken out of its chain, or a new one. Its buffer is free. */
    method Vacate(iosz: nat) returns (victim: CacheNode, ghost lo: nat)
      requires Valid()
      modifies entries, nodes`next
      ensures entries != fifo && Ring(nodes, size, lap, nextvictim, fifo)
      ensures Apart(nodes, lo) && Holding(h, nodes, lo) && Chained(h, nodes, lo, size, entries)
      ensures lo == if |h| < size then 0 else |h| + 1 - size
      ensures forall i :: lo <= i < |nodes| ==> nodes[i] != victim && nodes[i].reply != victim.reply
      ensures if |h| < size then fresh(victim) && fresh(victim.reply) && victim.reply.Length == iosz
              else victim == nodes[|h| - size]
      ensures fresh({victim, victim.reply} - repr)
    {
      hide Chained, Holding;
      lo := Lo();
      var slot := fifo[nextvictim];
      if slot != null {
        victim := slot;
        assert lap >= size && victim == nodes[lo];
        var found := Unlink(victim, lo);
        NodeApart(nodes, lo, lo);
        HoldingFrom(h, nodes, lo, lo + 1);
        lo := lo + 1;
      } else {
        var newbuf := new Byte[iosz];
        victim := new CacheNode(Key(0, 0, 0, 0, []), newbuf);
      }
    }

    /** The middle of cache_set: the victim takes the reply in `buf`, and its key. */
    method Fill(victim: CacheNode, key: Key, buf: array<Byte>, replylen: nat, ghost lo: nat)
      requires Apart(nodes, lo) && Holding(h, nodes, lo) && Chained(h, nodes, lo, size, entries)
      requires Owned() && replylen <= buf.Length
      requires forall i :: lo <= i < |nodes| ==> nodes[i] != victim && nodes[i].reply != buf
      modifies victim`key, victim`reply, victim`replylen, this`repr
      ensures Owned() && repr == old(repr) + {victim, buf}
      ensures Apart(nodes, lo) && Holding(h, nodes, lo) && Chained(h, nodes, lo, size, entries)
      ensures Newcomer(nodes, lo, victim, Entry(key, buf[..replylen])) && victim.reply == buf
    {
      victim.replylen, victim.reply, victim.key := replylen, buf, key;
      repr := repr + {victim, buf};
    }

    /** The buffers of the last replies are of one size, and none of them is `buf`. */
    ghost predicate Owns(buf: array<Byte>, iosz: nat, lo: nat)
      reads `nodes, nodes`reply
    {
      forall i :: lo <= i < |nodes| ==> nodes[i].reply != buf && nodes[i].reply.Length == iosz
    }

    /** cache_set: the cache takes the buffer with the reply, and gives a free one for it. */
    method Set(key: Key, buf: array<Byte>, replylen: nat) returns (newbuf: array<Byte>)
      requires Valid() && Owns(buf, buf.Length, Lo()) && replylen <= buf.Length
      modifies this`nextvictim, this`h, this`nodes, this`lap, this`repr, entries, fifo, nodes
      ensures Valid() && h == old(h) + [Entry(key, buf[..replylen])]
      ensures Owns(newbuf, buf.Length, Lo()) && newbuf.Length == buf.Length && newbuf != buf
      ensures |nodes| == old(|nodes|) + 1 && nodes[|nodes| - 1].reply == buf
      ensures fresh(repr + {newbuf} - old(repr) - {buf})
    {
      hide Ring, Apart, Holding, Chained, Owned, Newcomer;
      var victim;
      ghost var lo;
      victim, lo := Vacate(buf.Length);
      newbuf := victim.reply;
      Fill(victim, key, buf, replylen, lo);
      Append(victim, lo, Entry(key, buf[..replylen]));
    }
  }

  lemma HoldingFrom(h: seq<Entry>, nodes: seq<CacheNode>, lo: nat, lo': nat)
    requires Holding(h, nodes, lo) && lo <= lo'
    ensures Holding(h, nodes, lo')
  {}
}
