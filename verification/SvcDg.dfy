/** The datagram transport of libsrc/svc_dg.c with its duplicate-request cache. */
module SvcDg {
  import opened Basics
  import opened Xdr
  import opened Calls = CallMsg
  import opened Replies = ReplyMsg
  import opened ReplyCache

  // ----- execute at most once (section 5 of RFC 5531)

  /** All replies cached so far, and the call that has been handed to a service but not answered. */
  datatype State = State(h: seq<Entry>, pending: Option<Key>)

  datatype Event = Dropped | Resent(key: Key, bytes: seq<Byte>) | Dispatched(key: Key) | Replied(bytes: seq<Byte>) | Unanswered

  /** The last `size` replies hold an answer to k. */
  ghost predicate Remembered(h: seq<Entry>, size: nat, k: Key) {
    exists i :: Window(h, size) <= i < |h| && h[i].key == k
  }

  ghost predicate Next(size: nat, s: State, ev: Event, s': State) {
    match ev
    case Dropped => s'.h == s.h && s'.pending == None
    case Resent(k, b) =>
      s'.h == s.h && s'.pending == None && exists i :: Window(s.h, size) <= i < |s.h| && s.h[i] == Entry(k, b)
    case Dispatched(k) => s'.h == s.h && s'.pending == Some(k) && !Remembered(s.h, size, k)
    case Replied(b) => s.pending.Some? && s'.h == s.h + [Entry(s.pending.value, b)] && s'.pending == None
    case Unanswered => s.pending.Some? && s'.h == s.h && s'.pending == None
  }

  ghost predicate Steps(size: nat, ss: seq<State>, evs: seq<Event>) {
    && |ss| == |evs| + 1
    && forall i, j :: 0 <= i < |evs| && j == i + 1 ==> Next(size, ss[i], evs[i], ss[j])
  }

  /** A run from an empty cache. */
  ghost predicate Run(size: nat, ss: seq<State>, evs: seq<Event>) {
    Steps(size, ss, evs) && ss[0].h == []
  }

  /** Entries with the same key are more than `size` apart, and the pending call is not among the last `size`. */
  ghost predicate Spaced(size: nat, s: State) {
    && (forall i, j :: 0 <= i < j < |s.h| && j <= i + size ==> s.h[i].key != s.h[j].key)
    && (s.pending.Some? ==> !Remembered(s.h, size, s.pending.value))
  }

  lemma {:induction false} StaysSpaced(size: nat, ss: seq<State>, evs: seq<Event>, t: nat)
    requires Run(size, ss, evs) && t < |ss|
    ensures Spaced(size, ss[t])
  {
    if t > 0 {
      StaysSpaced(size, ss, evs, t - 1);
      assert Next(size, ss[t - 1], evs[t - 1], ss[t]);
    }
  }

  lemma {:induction false} HistoryGrows(size: nat, ss: seq<State>, evs: seq<Event>, t: nat, u: nat)
    requires Run(size, ss, evs) && t <= u < |ss|
    ensures |ss[t].h| <= |ss[u].h| && ss[u].h[..|ss[t].h|] == ss[t].h
  {
    if t < u {
      HistoryGrows(size, ss, evs, t, u - 1);
      assert Next(size, ss[u - 1], evs[u - 1], ss[u]);
    }
  }

  /** After the reply to a call has been cached, the same call is answered with the same bytes, and not dispatched,
      as long as fewer than `size` other replies have been cached. */
  lemma AnsweredTheSame(size: nat, ss: seq<State>, evs: seq<Event>, t: nat, u: nat)
    requires Run(size, ss, evs) && t < u < |evs| && evs[t].Replied? && ss[t].pending.Some?
    requires |ss[u].h| <= |ss[t].h| + size
    ensures evs[u].Dispatched? ==> evs[u].key != ss[t].pending.value
    ensures evs[u].Resent? && evs[u].key == ss[t].pending.value ==> evs[u].bytes == evs[t].bytes
  {
    var k, i, h := ss[t].pending.value, |ss[t].h|, ss[u].h;
    assert Next(size, ss[t], evs[t], ss[t + 1]);
    HistoryGrows(size, ss, evs, t + 1, u);
    assert h[i] == h[..i + 1][i] == Entry(k, evs[t].bytes);
    assert Window(h, size) <= i < |h|;
    StaysSpaced(size, ss, evs, u);
    assert Next(size, ss[u], evs[u], ss[u + 1]);
  }

  /** Between two dispatches of the same call, the first of them answered, at least `size` other replies are cached. */
  lemma AtMostOnce(size: nat, ss: seq<State>, evs: seq<Event>, r: nat, u: nat)
    requires Run(size, ss, evs) && r < u < |evs| && evs[r].Replied? && evs[u].Dispatched?
    requires ss[r].pending == Some(evs[u].key)
    ensures |ss[u].h| - |ss[r].h| - 1 >= size
  {
    if |ss[u].h| <= |ss[r].h| + size { AnsweredTheSame(size, ss, evs, r, u); }
  }

  /** Steps that start where a run ends. */
  lemma RunGoesOn(size: nat, ss: seq<State>, evs: seq<Event>, ss': seq<State>, evs': seq<Event>)
    requires Run(size, ss, evs) && Steps(size, ss', evs') && ss'[0] == ss[|evs|]
    ensures |ss| == |evs| + 1 && |ss'| == |evs'| + 1 && Run(size, ss + ss'[1..], evs + evs')
  {
    hide Next;
    var tt, fs := ss + ss'[1..], evs + evs';
    forall i, j | 0 <= i < |fs| && j == i + 1 ensures Next(size, tt[i], fs[i], tt[j]) {
      if i < |evs| {
        assert Next(size, ss[i], evs[i], ss[j]);
      } else {
        assert Next(size, ss'[i - |evs|], evs'[i - |evs|], ss'[j - |evs|]);
      }
    }
  }

  // ----- datagrams

  /** A datagram with the address it came from or goes to. */
  datatype Datagram = Datagram(bytes: seq<Byte>, addr: seq<Byte>)

  /** rtaddr after a datagram from `addr`: it never gets shorter. */
  function Remote(rtaddr: seq<Byte>, addr: seq<Byte>): (r: seq<Byte>)
    ensures |rtaddr| <= |addr| ==> r == addr
  {
    if |rtaddr| <= |addr| then addr else addr + rtaddr[|addr|..]
  }

  /** The key of a call from `addr`. */
  function KeyOf(m: CallMsg, addr: seq<Byte>): Key {
    Key(m.xid, m.prog, m.vers, m.proc, addr)
  }

  // ----- what an outsider sees

  /** What recvfrom gives, whether the buffer is decoded in place, what the service that a call is handed to answers, and
      whether its reply can be sent completely. */
  datatype Turn = Turn(d: Option<Datagram>, grants: seq<bool>, reply: Option<Reply>, whole: bool)

  /** What is seen from outside: a call is handed to a service, or a datagram is sent completely. */
  datatype Action = Handed(key: Key) | Sent(datagram: Datagram)

  predicate Answerable(r: Reply) {
    Proper(r) && (r.body.MsgAccepted? ==> |r.body.verf.body| < 0x1_0000_0000)
  }

  predicate Fits(t: Turn, iosz: nat) {
    (t.d.Some? ==> |t.d.value.bytes| <= iosz) && (t.reply.Some? ==> Answerable(t.reply.value))
  }

  /** rtaddr after a turn; a datagram of less than four words leaves it alone. */
  function After(rtaddr: seq<Byte>, d: Option<Datagram>): seq<Byte> {
    if d.Some? && |d.value.bytes| >= 16 then Remote(rtaddr, d.value.addr) else rtaddr
  }

  /** k is the key of the call in d: words 0, 3, 4 and 5 of the datagram, and the address that rtaddr holds then. Words
      that a short datagram does not have come from the buffer. */
  predicate Spells(d: Datagram, rtaddr: seq<Byte>, k: Key) {
    && |d.bytes| >= 16 && k.addr == Remote(rtaddr, d.addr)
    && k.xid == WordAt(d.bytes, 0) && k.prog == WordAt(d.bytes, 12)
    && (|d.bytes| >= 20 ==> k.vers == WordAt(d.bytes, 16)) && (|d.bytes| >= 24 ==> k.proc == WordAt(d.bytes, 20))
  }

  predicate Received(d: Option<Datagram>, rtaddr: seq<Byte>, ev: Event) {
    match ev
    case Dropped => d.Some? && |d.value.bytes| >= 16 ==> ParseCall(d.value.bytes, 0).Malformed?
    case Resent(k, _) => d.Some? && Spells(d.value, rtaddr, k)
    case Dispatched(k) => d.Some? && Spells(d.value, rtaddr, k)
    case _ => false
  }

  /** The reply to the call k is sent with its transaction identifier, if it can be. */
  predicate Answered(r: Reply, whole: bool, iosz: nat, k: Key, ev: Event) {
    var r' := r.(xid := k.xid);
    ev == if whole && Sendable(r') && |Replies.Layout(r')| <= iosz then Replied(Replies.Layout(r')) else Unanswered
  }

  /** What is seen of a datagram, and of a reply. A stored reply goes where the datagram came from, a new one to rtaddr. */
  function OfDatagram(d: Option<Datagram>, ev: Event): seq<Action> {
    match ev
    case Resent(_, b) => if d.Some? then [Sent(Datagram(b, d.value.addr))] else []
    case Dispatched(k) => [Handed(k)]
    case _ => []
  }

  function OfReply(k: Key, ev: Event): seq<Action> {
    if ev.Replied? then [Sent(Datagram(ev.bytes, k.addr))] else []
  }

  /** The events and the actions of one turn. */
  predicate Took(t: Turn, rtaddr: seq<Byte>, iosz: nat, es: seq<Event>, acts: seq<Action>) {
    && es != [] && Received(t.d, rtaddr, es[0])
    && if es[0].Dispatched? && t.reply.Some? then
         && |es| == 2 && Answered(t.reply.value, t.whole, iosz, es[0].key, es[1])
         && acts == OfDatagram(t.d, es[0]) + OfReply(es[0].key, es[1])
       else |es| == 1 && acts == OfDatagram(t.d, es[0])
  }

  /** A datagram that is a whole call message is not affected by what is behind it in the buffer. */
  lemma CallExtends(before: seq<Byte>, s: seq<Byte>)
    requires |s| <= |before|
    ensures ParseCall(s, 0).Parsed? ==> ParseCall(Splice(before, 0, s), 0) == ParseCall(s, 0)
  {
    hide Value, ParseAuth;
    if ParseCall(s, 0).Parsed? {
      var t := Splice(before, 0, s);
      assert t[..|s|] == s;
      SliceExtends(s, t, 0, 4); SliceExtends(s, t, 4, 8); SliceExtends(s, t, 8, 12);
      SliceExtends(s, t, 12, 16); SliceExtends(s, t, 16, 20); SliceExtends(s, t, 20, 24);
      AuthExtends(s, t, 24);
      AuthExtends(s, t, ParseAuth(s, 24).next);
    }
  }

  /** The key of a call in the buffer has the datagram's own words. */
  lemma KeyInDatagram(before: seq<Byte>, d: Datagram, rtaddr: seq<Byte>)
    requires 16 <= |d.bytes| <= |before| && ParseCall(Splice(before, 0, d.bytes), 0).Parsed?
    ensures Spells(d, rtaddr, KeyOf(ParseCall(Splice(before, 0, d.bytes), 0).value, Remote(rtaddr, d.addr)))
  {
    hide Value, ParseAuth, Remote;
    var s, t := d.bytes, Splice(before, 0, d.bytes);
    assert t[..|s|] == s;
    SliceExtends(s, t, 0, 4);
    SliceExtends(s, t, 12, 16);
    if |s| >= 20 { SliceExtends(s, t, 16, 20); }
    if |s| >= 24 { SliceExtends(s, t, 20, 24); }
  }

  lemma SliceExtends(s: seq<Byte>, t: seq<Byte>, p: nat, q: nat)
    requires |s| <= |t| && t[..|s|] == s && p <= q <= |s|
    ensures t[p..q] == s[p..q]
  {
    forall k | 0 <= k < |s| ensures t[k] == s[k] { assert t[..|s|][k] == t[k]; }
  }

  lemma AuthExtends(s: seq<Byte>, t: seq<Byte>, p: nat)
    requires |s| <= |t| && t[..|s|] == s && ParseAuth(s, p).Parsed?
    ensures ParseAuth(t, p) == ParseAuth(s, p)
  {
    hide Value;
    SliceExtends(s, t, p, p + 4);
    SliceExtends(s, t, p + 4, p + 8);
    SliceExtends(s, t, p + 8, p + 8 + WordAt(s, p + 4));
  }

  // ----- the transport

  class Transport {
    const iosz: nat
    var buffer: array<Byte>
    var rtaddr: seq<Byte>
    var xid: U32
    var cache: Cache?
    ghost var pending: Option<Key>
    /** All that the transport has ever referred to. */
    ghost var repr: set<object>

    constructor (iosz: nat)
      ensures Valid() && this.iosz == iosz && cache == null && pending == None && rtaddr == [] && fresh(repr)
    {
      this.iosz := iosz;
      buffer := new Byte[iosz];
      rtaddr, xid, cache, pending, repr := [], 0, null, None, {this, buffer};
    }

    /** What cache_set is going to store is the call in progress. */
    ghost predicate Remembers(c: Cache)
      reads `pending, `xid, `rtaddr, c`h, c`prog, c`vers, c`proc
    {
      pending.Some? ==>
        pending.value == Key(xid, c.prog, c.vers, c.proc, rtaddr) && !Remembered(c.h, c.size, pending.value)
    }

    ghost function Footprint(): set<object>
      reads `cache, if cache == null then {} else {cache}
    {
      if cache == null then {} else ({cache, cache.entries, cache.fifo} + (set n | n in cache.nodes))
    }

    ghost predicate Valid()
      reads this, Footprint(), if cache == null then {} else set n | n in cache.nodes :: n.reply
    {
      && buffer.Length == iosz && this in repr && buffer in repr
      && (cache != null ==>
            cache in repr && cache.repr <= repr && cache.Valid() && cache.Owns(buffer, iosz, cache.Lo()) && Remembers(cache))
    }

    lemma FootprintOwned()
      requires Valid()
      ensures this in repr && buffer in repr && Footprint() <= repr && this !in Footprint()
      ensures cache != null ==> cache in repr
    {}

    ghost function Abs(): State
      reads this, if cache == null then {} else {cache}
    {
      State(if cache == null then [] else cache.h, pending)
    }

    /** The transport's buffer and the buffers of the last replies are pairwise distinct, and each reply still has its
        bytes. */
    lemma BuffersApart(i: nat, j: nat)
      requires Valid() && cache != null && cache.Lo() <= i < |cache.h| && cache.Lo() <= j < |cache.h|
      ensures |cache.nodes| == |cache.h| && cache.nodes[i].reply != buffer
      ensures i != j ==> cache.nodes[i].reply != cache.nodes[j].reply
      ensures cache.nodes[i].replylen == |cache.h[i].bytes| <= cache.nodes[i].reply.Length
      ensures cache.nodes[i].reply[..cache.nodes[i].replylen] == cache.h[i].bytes
    {}

    /** svc_dg_enablecache. The cache has not been asked for a call that is in progress, and would store its reply under
        a program, version and procedure of 0. */
    method EnableCache(size: nat) returns (ok: bool)
      requires Valid() && size > 0
      modifies this`cache, this`pending, this`repr
      ensures Valid() && ok == (old(cache) == null) && fresh(repr - old(repr))
      ensures ok ==> cache != null && cache.size == size
      ensures ok ==> Abs() == State([], if old(pending) == None then None else Some(Key(xid, 0, 0, 0, rtaddr)))
      ensures !ok ==> cache == old(cache) && pending == old(pending)
    {
      if cache != null { return false; }
      cache := new Cache(size);
      repr := repr + {cache} + cache.repr;
      if pending.Some? { pending := Some(Key(xid, 0, 0, 0, rtaddr)); }
      ok := true;
    }

    /** cache_set: the transport's buffer goes to the cache, and a free one takes its place. */
    method CacheSet(replylen: nat)
      requires Valid() && cache != null && pending.Some? && replylen <= iosz
      modifies this`buffer, this`pending, this`repr, cache, cache.entries, cache.fifo, cache.nodes
      ensures Valid() && cache == old(cache)
      ensures Next(cache.size, old(Abs()), Replied(old(buffer[..replylen])), Abs())
      ensures buffer != old(buffer) && cache.nodes[|cache.nodes| - 1].reply == old(buffer)
      ensures fresh(repr - old(repr))
    {
      hide Remembered, Cache.Owned, Ring, Apart, Holding, Chained;
      buffer := cache.Set(Key(xid, cache.prog, cache.vers, cache.proc, rtaddr), buffer, replylen);
      pending, repr := None, repr + {buffer} + cache.repr;
    }

    /** recvfrom: the datagram is put over the start of the buffer. */
    method Receive(bytes: seq<Byte>)
      requires Valid() && |bytes| <= iosz
      modifies buffer
      ensures Valid() && buffer[..] == Splice(old(buffer[..]), 0, bytes)
    {
      hide Ring, Apart, Chained, Remembered;
      forall i | 0 <= i < |bytes| { buffer[i] := bytes[i]; }
    }

    method Decode(grants: seq<bool>) returns (ok: bool, m: CallMsg)
      ensures ok == ParseCall(buffer[..], 0).Parsed? && (ok ==> ParseCall(buffer[..], 0).value == m)
    {
      hide ParseCall;
      var xdrs := new Stream(buffer, grants);
      ok, m := GetCall(xdrs);
    }

    /** The reply with the call's transaction identifier, encoded into the buffer. */
    method Encode(r: Reply) returns (ok: bool, slen: nat)
      requires Valid() && Answerable(r)
      modifies buffer
      ensures Valid() && ok == (Sendable(r) && |Replies.Layout(r)| <= iosz)
      ensures slen <= iosz && (ok ==> buffer[..slen] == Replies.Layout(r))
    {
      hide Ring, Apart, Chained, Remembered, Sendable, Proper, Replies.Layout;
      var xdrs := new Stream(buffer, []);
      ok := PutReply(xdrs, r);
      slen := if ok then xdrs.pos else 0;
    }

    /** The cache is asked for a call that has just been decoded. */
    method Lookup(m: CallMsg) returns (reply: Option<seq<Byte>>, ghost ev: Event)
      requires Valid() && cache != null && pending == None && xid == m.xid
      modifies this`pending, cache`prog, cache`vers, cache`proc
      ensures Valid() && Next(cache.size, old(Abs()), ev, Abs())
      ensures ev == if reply.Some? then Resent(KeyOf(m, rtaddr), reply.value) else Dispatched(KeyOf(m, rtaddr))
    {
      hide Ring, Apart, Chained, Holding;
      ghost var k := KeyOf(m, rtaddr);
      var ent := cache.Get(m.xid, m.prog, m.vers, m.proc, rtaddr);
      ghost var i := Newest(cache.h, cache.Lo(), |cache.h|, k);
      if ent != null {
        NodeHolds(cache.h, cache.nodes, cache.Lo(), i);
        assert cache.h[i] == Entry(k, ent.reply[..ent.replylen]);
        return Some(ent.reply[..ent.replylen]), Resent(k, cache.h[i].bytes);
      }
      pending := Some(k);
      reply, ev := None, Dispatched(k);
    }

    /** A datagram that holds a call. */
    ghost predicate Call(before: seq<Byte>, d: Option<Datagram>)
      requires d.Some? ==> |d.value.bytes| <= |before|
    {
      d.Some? && |d.value.bytes| >= 16 && ParseCall(Splice(before, 0, d.value.bytes), 0).Parsed?
    }

    /** A datagram is received and decoded. */
    method TakeCall(d: Datagram, grants: seq<bool>) returns (ok: bool, m: CallMsg)
      requires Valid() && |d.bytes| <= iosz && pending == None
      modifies this`rtaddr, this`xid, buffer
      ensures Valid() && ok == Call(old(buffer[..]), Some(d))
      ensures ok ==> ParseCall(Splice(old(buffer[..]), 0, d.bytes), 0).value == m
      ensures rtaddr == After(old(rtaddr), Some(d)) && (ok ==> xid == m.xid)
    {
      hide Remembered, ParseCall, Splice, Cache.Valid;
      m := NO_MESSAGE;
      Receive(d.bytes);
      if |d.bytes| < 16 { return false, m; }
      rtaddr := Remote(rtaddr, d.addr);
      ok, m := Decode(grants);
      if ok { xid := m.xid; }
    }

    /** svc_dg_recv on what recvfrom gives: a call to dispatch, or nothing; a cached reply may have been sent. */
    method Recv(d: Option<Datagram>, grants: seq<bool>) returns (ok: bool, m: CallMsg, sent: Option<Datagram>,
            ghost ev: Event)
      requires Valid() && (d.Some? ==> |d.value.bytes| <= iosz)
      modifies this`rtaddr, this`xid, this`pending, buffer, if cache == null then {} else {cache}
      ensures Valid() && (cache != null ==> Next(cache.size, old(Abs()), ev, Abs()))
      ensures cache == null ==> (ok <==> Call(old(buffer[..]), d)) && sent == None && (!ok ==> pending == None)
      ensures ok || sent.Some? ==>
        Call(old(buffer[..]), d) && ParseCall(Splice(old(buffer[..]), 0, d.value.bytes), 0).value == m
      ensures rtaddr == After(old(rtaddr), d) && (ok ==> pending == Some(KeyOf(m, rtaddr)))
      ensures ok && cache != null ==> sent == None && ev == Dispatched(pending.value)
      ensures sent.Some? ==>
        sent.value.addr == d.value.addr && ev == Resent(KeyOf(m, rtaddr), sent.value.bytes)
      ensures !ok && sent.None? ==> ev == Dropped && !Call(old(buffer[..]), d)
    {
      hide Remembered, Window, ParseCall, Splice, Remote;
      ok, m, sent, ev := false, NO_MESSAGE, None, Dropped;
      pending := None;
      if d.None? { return; }
      ok, m := TakeCall(d.value, grants);
      if !ok { return; }
      if cache == null {
        pending := Some(KeyOf(m, rtaddr));
        return;
      }
      var reply;
      reply, ev := Lookup(m);
      if reply.Some? {
        ok, sent := false, Some(Datagram(reply.value, d.value.addr));
      }
    }

    /** The end of svc_dg_reply: a reply that has been sent is cached. */
    method Conclude(slen: nat, stat: bool) returns (ghost ev: Event)
      requires Valid() && slen <= iosz && (cache != null ==> pending.Some?)
      modifies this`buffer, this`pending, this`repr, Footprint()
      ensures Valid() && cache == old(cache) && fresh(repr - old(repr))
      ensures cache != null ==> Next(cache.size, old(Abs()), ev, Abs())
      ensures ev == if stat then Replied(old(buffer[..slen])) else Unanswered
    {
      hide Remembered, Window;
      ev := if stat then Replied(buffer[..slen]) else Unanswered;
      if stat && cache != null {
        CacheSet(slen);
      }
      pending := None;
    }

    /** svc_dg_reply: `whole` says whether the reply can be sent completely. */
    method Reply(r: Reply, whole: bool) returns (stat: bool, sent: Option<Datagram>, ghost ev: Event)
      requires Valid() && Answerable(r)
      requires cache != null ==> pending.Some?
      modifies this`buffer, this`pending, this`repr, buffer, Footprint()
      ensures Valid() && cache == old(cache) && fresh(repr - old(repr))
      ensures sent.Some? <==> Sendable(r) && |Replies.Layout(r.(xid := xid))| <= iosz
      ensures sent.Some? ==> sent.value == Datagram(Replies.Layout(r.(xid := xid)), rtaddr)
      ensures stat == (sent.Some? && whole)
      ensures cache != null ==> Next(cache.size, old(Abs()), ev, Abs())
      ensures ev == if stat then Replied(sent.value.bytes) else Unanswered
    {
      hide Remembered, Window, Replies.Layout, Next;
      var ok, slen := Encode(r.(xid := xid));
      sent := if ok then Some(Datagram(buffer[..slen], rtaddr)) else None;
      stat := ok && whole;
      ev := Conclude(slen, stat);
    }

    /** svc_dg_recv with a cache, as an outsider sees it. */
    method Take(d: Option<Datagram>, grants: seq<bool>) returns (ok: bool, log: seq<Action>, ghost ev: Event)
      requires Valid() && cache != null && (d.Some? ==> |d.value.bytes| <= iosz)
      modifies this`rtaddr, this`xid, this`pending, buffer, cache
      ensures Valid() && Next(cache.size, old(Abs()), ev, Abs())
      ensures rtaddr == After(old(rtaddr), d) && Received(d, old(rtaddr), ev) && log == OfDatagram(d, ev)
      ensures ok == ev.Dispatched? && (ok ==> pending == Some(ev.key))
    {
      hide Next, ParseCall, Splice, Cache.Valid, Remembers;
      ghost var before := buffer[..];
      var m, sent;
      ok, m, sent, ev := Recv(d, grants);
      if d.Some? {
        CallExtends(before, d.value.bytes);
        if ok || sent.Some? { KeyInDatagram(before, d.value, old(rtaddr)); }
      }
      log := if ok then [Handed(KeyOf(m, rtaddr))] else if sent.Some? then [Sent(sent.value)] else [];
    }

    /** svc_dg_reply with a cache, as an outsider sees it. */
    method Respond(r: Reply, whole: bool) returns (log: seq<Action>, ghost ev: Event)
      requires Valid() && cache != null && pending.Some? && Answerable(r)
      modifies this`buffer, this`pending, this`repr, buffer, Footprint()
      ensures Valid() && cache == old(cache) && fresh(repr - old(repr))
      ensures Next(cache.size, old(Abs()), ev, Abs())
      ensures Answered(r, whole, iosz, old(pending.value), ev) && log == OfReply(old(pending.value), ev)
    {
      hide Next, Replies.Layout, Remembered, Cache.Valid;
      var stat, sent;
      stat, sent, ev := Reply(r, whole);
      log := if stat then [Sent(sent.value)] else [];
    }

    /** One turn of a server. */
    method Serve(t: Turn) returns (log: seq<Action>, ghost evs: seq<Event>, ghost ss: seq<State>)
      requires Valid() && cache != null && Fits(t, iosz)
      modifies repr
      ensures Valid() && cache == old(cache) && fresh(repr - old(repr)) && rtaddr == After(old(rtaddr), t.d)
      ensures Took(t, old(rtaddr), iosz, evs, log)
      ensures Steps(cache.size, ss, evs) && ss[0] == old(Abs()) && ss[|evs|] == Abs()
    {
      hide Next, Received, Answered, Answerable, OfDatagram, OfReply, After, Valid, Footprint;
      var ok;
      ghost var ev;
      FootprintOwned();
      ok, log, ev := Take(t.d, t.grants);
      ss, evs := [old(Abs()), Abs()], [ev];
      if ok && t.reply.Some? {
        var more;
        FootprintOwned();
        more, ev := Respond(t.reply.value, t.whole);
        log, ss, evs := log + more, ss + [Abs()], evs + [ev];
      }
    }
  }

  // ----- a server

  /** rtaddr after the first n turns. */
  function RtAddr(turns: seq<Turn>, n: nat): seq<Byte>
    requires n <= |turns|
  {
    if n == 0 then [] else After(RtAddr(turns, n - 1), turns[n - 1].d)
  }

  /** Turn i has the events from at[i] up to at[i + 1]. */
  predicate TurnAt(turns: seq<Turn>, iosz: nat, evs: seq<Event>, at: seq<nat>, log: seq<seq<Action>>, i: nat)
    requires i < |turns| && i < |log| && i + 1 < |at|
  {
    at[i] <= at[i + 1] <= |evs| && Took(turns[i], RtAddr(turns, i), iosz, evs[at[i]..at[i + 1]], log[i])
  }

  /** The first n turns have the events evs and the actions log. */
  predicate Explains(turns: seq<Turn>, n: nat, iosz: nat, evs: seq<Event>, at: seq<nat>, log: seq<seq<Action>>) {
    && |log| == n <= |turns| && |at| == n + 1 && at[0] == 0 && at[n] == |evs|
    && forall i :: 0 <= i < n ==> TurnAt(turns, iosz, evs, at, log, i)
  }

  /** The actions, turn by turn, of a run in which these turns happen. */
  ghost predicate Served(size: nat, iosz: nat, turns: seq<Turn>, log: seq<seq<Action>>) {
    exists ss, evs, at :: Run(size, ss, evs) && Explains(turns, |turns|, iosz, evs, at, log)
  }

  lemma TurnAdds(turns: seq<Turn>, n: nat, iosz: nat, evs: seq<Event>, at: seq<nat>, log: seq<seq<Action>>,
          es: seq<Event>, acts: seq<Action>)
    requires Explains(turns, n, iosz, evs, at, log) && n < |turns|
    requires Took(turns[n], RtAddr(turns, n), iosz, es, acts)
    ensures Explains(turns, n + 1, iosz, evs + es, at + [|evs + es|], log + [acts])
  {
    hide Took, RtAddr;
    var evs', at', log' := evs + es, at + [|evs + es|], log + [acts];
    forall i | 0 <= i < n + 1 ensures TurnAt(turns, iosz, evs', at', log', i) {
      if i < n {
        assert TurnAt(turns, iosz, evs, at, log, i);
        assert evs'[at[i]..at[i + 1]] == evs[at[i]..at[i + 1]];
      } else {
        assert evs'[|evs|..|evs'|] == es;
      }
    }
  }

  lemma Nothing(size: nat, turns: seq<Turn>, iosz: nat, s: State)
    requires s.h == []
    ensures Run(size, [s], []) && Explains(turns, 0, iosz, [], [0], [])
  {
    var at: seq<nat> := [0];
    assert at[0] == 0;
  }

  /** A server with a cache for its last `size` replies: what it does is a run, and the run of these turns. */
  method ServeAll(iosz: nat, size: nat, turns: seq<Turn>) returns (log: seq<seq<Action>>)
    requires size > 0 && forall i :: 0 <= i < |turns| ==> Fits(turns[i], iosz)
    ensures Served(size, iosz, turns, log)
  {
    hide Next, Run, Steps, Transport.Valid, Took, Fits, Explains;
    var server := new Transport(iosz);
    label Made:
    var ok := server.EnableCache(size);
    forall o | o in server.repr ensures fresh(o) {
      assert o in old@Made(server.repr) || fresh@Made(o);
    }
    log := [];
    ghost var ss, evs := [server.Abs()], [];
    ghost var at: seq<nat> := [0];
    Nothing(size, turns, iosz, server.Abs());
    for i := 0 to |turns|
      invariant server.Valid() && server.cache != null && server.cache.size == size && server.iosz == iosz
      invariant fresh(server.repr) && server.rtaddr == RtAddr(turns, i)
      invariant Run(size, ss, evs) && |ss| == |evs| + 1 && ss[|evs|] == server.Abs()
      invariant Explains(turns, i, iosz, evs, at, log)
    {
      label Turn:
      var acts;
      ghost var es, ss';
      acts, es, ss' := server.Serve(turns[i]);
      forall o | o in server.repr ensures fresh(o) {
        assert o in old@Turn(server.repr) || fresh@Turn(o);
      }
      TurnAdds(turns, i, iosz, evs, at, log, es, acts);
      RunGoesOn(size, ss, evs, ss', es);
      log, ss, evs, at := log + [acts], ss + ss'[1..], evs + es, at + [|evs + es|];
    }
  }

  lemma Trace(size: nat, iosz: nat, turns: seq<Turn>, log: seq<seq<Action>>)
    returns (ss: seq<State>, evs: seq<Event>, at: seq<nat>)
    requires Served(size, iosz, turns, log)
    ensures Run(size, ss, evs) && Explains(turns, |turns|, iosz, evs, at, log)
  {
    ss, evs, at :| Run(size, ss, evs) && Explains(turns, |turns|, iosz, evs, at, log);
  }

  // ----- a repeated call

  /** The key that the datagram of turn i spells, if it is a whole call message. */
  function KeyAt(turns: seq<Turn>, i: nat): Option<Key>
    requires i < |turns|
  {
    var d := turns[i].d;
    if d.None? || ParseCall(d.value.bytes, 0).Malformed? then None
    else
      var b := d.value.bytes;
      Some(Key(WordAt(b, 0), WordAt(b, 12), WordAt(b, 16), WordAt(b, 20), Remote(RtAddr(turns, i), d.value.addr)))
  }

  /** The turns from i up to j in which a call was handed to a service and its reply sent. */
  function Answers(log: seq<seq<Action>>, i: nat, j: nat): nat
    requires i <= j <= |log|
  {
    if i == j then 0 else Answers(log, i, j - 1) + if |log[j - 1]| == 2 then 1 else 0
  }

  /** A whole call message is handed to a service, or its stored reply is sent. */
  lemma FirstEvent(turns: seq<Turn>, n: nat, iosz: nat, evs: seq<Event>, at: seq<nat>, log: seq<seq<Action>>, i: nat)
    requires Explains(turns, n, iosz, evs, at, log) && i < n && KeyAt(turns, i).Some?
    ensures at[i] < |evs| && log[i] != []
    ensures var ev, k := evs[at[i]], KeyAt(turns, i).value;
      if ev.Resent? then ev.key == k && log[i] == [Sent(Datagram(ev.bytes, turns[i].d.value.addr))]
      else ev == Dispatched(k) && log[i][0] == Handed(k)
  {
    hide ParseCall, Answered, RtAddr;
    assert TurnAt(turns, iosz, evs, at, log, i);
    assert evs[at[i]..at[i + 1]][0] == evs[at[i]];
  }

  /** A turn with two actions: a call and its reply. */
  lemma SecondEvent(turns: seq<Turn>, n: nat, iosz: nat, evs: seq<Event>, at: seq<nat>, log: seq<seq<Action>>, i: nat)
    requires Explains(turns, n, iosz, evs, at, log) && i < n && |log[i]| == 2
    ensures at[i + 1] == at[i] + 2 <= |evs| && evs[at[i]].Dispatched? && evs[at[i] + 1].Replied?
    ensures log[i] == [Handed(evs[at[i]].key), Sent(Datagram(evs[at[i] + 1].bytes, evs[at[i]].key.addr))]
  {
    hide ParseCall, Answered, RtAddr, Received;
    assert TurnAt(turns, iosz, evs, at, log, i);
    var es := evs[at[i]..at[i + 1]];
    assert es[0] == evs[at[i]] && (|es| == 2 ==> es[1] == evs[at[i] + 1]);
  }

  /** Every sent reply to a call handed over adds one entry, and nothing else does. */
  lemma {:induction false} Growth(size: nat, turns: seq<Turn>, iosz: nat, ss: seq<State>, evs: seq<Event>, at: seq<nat>,
          log: seq<seq<Action>>, i: nat, j: nat)
    requires Run(size, ss, evs) && Explains(turns, |turns|, iosz, evs, at, log) && i <= j <= |turns|
    ensures at[i] <= at[j] <= |evs| && |ss[at[j]].h| == |ss[at[i]].h| + Answers(log, i, j)
    decreases j
  {
    if i < j {
      Growth(size, turns, iosz, ss, evs, at, log, i, j - 1);
      OneTurn(size, turns, iosz, ss, evs, at, log, j - 1);
    } else {
      assert i < |turns| ==> TurnAt(turns, iosz, evs, at, log, i);
    }
  }

  /** A turn with two actions adds the entry of its call and its reply; any other leaves the history alone. */
  lemma OneTurn(size: nat, turns: seq<Turn>, iosz: nat, ss: seq<State>, evs: seq<Event>, at: seq<nat>,
          log: seq<seq<Action>>, i: nat)
    requires Run(size, ss, evs) && Explains(turns, |turns|, iosz, evs, at, log) && i < |turns|
    ensures at[i] < at[i + 1] <= |evs|
    ensures if |log[i]| == 2 then
              && at[i + 1] == at[i] + 2 && evs[at[i]].Dispatched? && evs[at[i] + 1].Replied?
              && ss[at[i] + 1].h == ss[at[i]].h && ss[at[i] + 1].pending == Some(evs[at[i]].key)
              && ss[at[i + 1]].h == ss[at[i]].h + [Entry(evs[at[i]].key, evs[at[i] + 1].bytes)]
            else ss[at[i + 1]].h == ss[at[i]].h
  {
    hide Remembered, Answered, Received, RtAddr;
    var k := at[i];
    assert TurnAt(turns, iosz, evs, at, log, i);
    var es := evs[k..at[i + 1]];
    assert es[0] == evs[k] && Next(size, ss[k], evs[k], ss[k + 1]);
    assert !es[0].Replied? by { IsReceived(turns[i].d, RtAddr(turns, i), es[0]); }
    if |es| == 2 { assert es[1] == evs[k + 1] && Next(size, ss[k + 1], evs[k + 1], ss[k + 2]); }
  }

  lemma IsReceived(d: Option<Datagram>, rtaddr: seq<Byte>, ev: Event)
    requires Received(d, rtaddr, ev)
    ensures !ev.Replied? && !ev.Unanswered?
  {}

  /** The same call again, with fewer than `size` replies to other calls in between: the bytes that answered it are sent
      again, to where the datagram came from, and the call is not handed to a service. */
  lemma RepeatedCall(size: nat, iosz: nat, turns: seq<Turn>, log: seq<seq<Action>>, i: nat, j: nat)
    requires Served(size, iosz, turns, log) && i < j < |turns| == |log|
    requires KeyAt(turns, i).Some? && KeyAt(turns, j) == KeyAt(turns, i)
    requires |log[i]| == 2 && Answers(log, i + 1, j) < size
    ensures log[i][0] == Handed(KeyAt(turns, i).value) && log[i][1].Sent?
    ensures log[j] == [Sent(Datagram(log[i][1].datagram.bytes, turns[j].d.value.addr))]
  {
    hide ParseCall, RtAddr, Remembered, KeyAt;
    var ss, evs, at := Trace(size, iosz, turns, log);
    FirstEvent(turns, |turns|, iosz, evs, at, log, i);
    SecondEvent(turns, |turns|, iosz, evs, at, log, i);
    OneTurn(size, turns, iosz, ss, evs, at, log, i);
    Growth(size, turns, iosz, ss, evs, at, log, i + 1, j);
    FirstEvent(turns, |turns|, iosz, evs, at, log, j);
    AnsweredTheSame(size, ss, evs, at[i] + 1, at[j]);
  }

  // ----- the address in a key

  /** The address in a turn's key is the datagram's own if and only if no datagram before it came from a longer one. */
  lemma {:induction false} OwnAddress(turns: seq<Turn>, i: nat)
    requires i < |turns| && KeyAt(turns, i).Some?
    ensures KeyAt(turns, i).value.addr == turns[i].d.value.addr <==>
            forall j :: 0 <= j < i && turns[j].d.Some? && |turns[j].d.value.bytes| >= 16 ==>
              |turns[j].d.value.addr| <= |turns[i].d.value.addr|
  {
    LongestSoFar(turns, i, |turns[i].d.value.addr|);
  }

  lemma {:induction false} LongestSoFar(turns: seq<Turn>, i: nat, n: nat)
    requires i <= |turns|
    ensures |RtAddr(turns, i)| <= n <==>
            forall j :: 0 <= j < i && turns[j].d.Some? && |turns[j].d.value.bytes| >= 16 ==> |turns[j].d.value.addr| <= n
  {
    if i > 0 { LongestSoFar(turns, i - 1, n); }
  }

  /** The identical datagram again, when none has come from a longer address: the identical reply goes back. */
  lemma RepeatedDatagram(size: nat, iosz: nat, turns: seq<Turn>, log: seq<seq<Action>>, i: nat, j: nat)
    requires Served(size, iosz, turns, log) && i < j < |turns| == |log|
    requires KeyAt(turns, i).Some? && turns[j].d == turns[i].d
    requires forall m :: 0 <= m < j && turns[m].d.Some? && |turns[m].d.value.bytes| >= 16 ==>
               |turns[m].d.value.addr| <= |turns[j].d.value.addr|
    requires |log[i]| == 2 && Answers(log, i + 1, j) < size
    ensures log[j] == [log[i][1]]
  {
    OwnAddress(turns, i);
    OwnAddress(turns, j);
    hide ParseCall, RtAddr;
    RepeatedCall(size, iosz, turns, log, i, j);
    var ss, evs, at := Trace(size, iosz, turns, log);
    SecondEvent(turns, |turns|, iosz, evs, at, log, i);
  }

  // ----- a new call

  /** The datagram of turn m spells k. */
  predicate SpelledAt(turns: seq<Turn>, m: nat, k: Key)
    requires m < |turns|
  {
    turns[m].d.Some? && Spells(turns[m].d.value, RtAddr(turns, m), k)
  }

  /** The key of every cached reply has been spelled by some datagram. */
  lemma {:induction false} CachedKey(size: nat, turns: seq<Turn>, iosz: nat, ss: seq<State>, evs: seq<Event>,
          at: seq<nat>, log: seq<seq<Action>>, n: nat, e: nat)
    requires Run(size, ss, evs) && Explains(turns, |turns|, iosz, evs, at, log) && n <= |turns|
    requires at[n] < |ss| && e < |ss[at[n]].h|
    ensures exists m :: 0 <= m < n && SpelledAt(turns, m, ss[at[n]].h[e].key)
    decreases n
  {
    hide Spells, RtAddr;
    if n > 0 {
      OneTurn(size, turns, iosz, ss, evs, at, log, n - 1);
      if e < |ss[at[n - 1]].h| {
        CachedKey(size, turns, iosz, ss, evs, at, log, n - 1, e);
        var m :| 0 <= m < n - 1 && SpelledAt(turns, m, ss[at[n - 1]].h[e].key);
        assert SpelledAt(turns, m, ss[at[n]].h[e].key);
      } else {
        DispatchedIsSpelled(turns, |turns|, iosz, evs, at, log, n - 1);
        assert SpelledAt(turns, n - 1, ss[at[n]].h[e].key);
      }
    }
  }

  lemma DispatchedIsSpelled(turns: seq<Turn>, n: nat, iosz: nat, evs: seq<Event>, at: seq<nat>, log: seq<seq<Action>>,
          i: nat)
    requires Explains(turns, n, iosz, evs, at, log) && i < n && at[i] < |evs| && evs[at[i]].Dispatched?
    ensures SpelledAt(turns, i, evs[at[i]].key)
  {
    hide Spells, Answered, RtAddr;
    assert TurnAt(turns, iosz, evs, at, log, i);
    assert evs[at[i]..at[i + 1]][0] == evs[at[i]];
  }

  /** What arrives in turn i is a whole call message. */
  predicate IsCall(turns: seq<Turn>, i: nat): (r: bool)
    requires i < |turns|
    ensures r ==> turns[i].d.Some? && |turns[i].d.value.bytes| >= 24
  {
    turns[i].d.Some? && ParseCall(turns[i].d.value.bytes, 0).Parsed?
  }

  lemma CallHasKey(turns: seq<Turn>, i: nat)
    requires i < |turns| && IsCall(turns, i)
    ensures KeyAt(turns, i).Some?
    ensures KeyAt(turns, i).value.addr == RtAddr(turns, i + 1)
  {
    hide WordAt;
  }

  /** A call that is handed to a service carries the identifier, program, version and procedure of its datagram: words
      0, 3, 4 and 5. */
  lemma HandedWords(size: nat, iosz: nat, turns: seq<Turn>, log: seq<seq<Action>>, i: nat)
    requires Served(size, iosz, turns, log) && i < |turns| == |log| && IsCall(turns, i)
    ensures log[i] != []
    ensures log[i][0].Handed? ==>
      var k, b := log[i][0].key, turns[i].d.value.bytes;
      && k.xid == WordAt(b, 0) && k.prog == WordAt(b, 12) && k.vers == WordAt(b, 16) && k.proc == WordAt(b, 20)
      && k.addr == RtAddr(turns, i + 1)
  {
    CallHasKey(turns, i);
    hide ParseCall, RtAddr;
    var ss, evs, at := Trace(size, iosz, turns, log);
    FirstEvent(turns, |turns|, iosz, evs, at, log, i);
  }

  /** The call of turn i differs from what arrived in turn j in one of the four words, or in the address kept then. */
  predicate Differs(turns: seq<Turn>, j: nat, i: nat)
    requires j < |turns| && i < |turns| && IsCall(turns, i)
  {
    var d, b := turns[j].d, turns[i].d.value.bytes;
    d.Some? && |d.value.bytes| >= 16 ==>
      var a := d.value.bytes;
      || WordAt(a, 0) != WordAt(b, 0) || WordAt(a, 12) != WordAt(b, 12)
      || (|a| >= 20 && WordAt(a, 16) != WordAt(b, 16)) || (|a| >= 24 && WordAt(a, 20) != WordAt(b, 20))
      || RtAddr(turns, j + 1) != RtAddr(turns, i + 1)
  }

  /** A call that differs from all that arrived before is handed to a service. */
  lemma NewCall(size: nat, iosz: nat, turns: seq<Turn>, log: seq<seq<Action>>, i: nat)
    requires Served(size, iosz, turns, log) && i < |turns| == |log| && IsCall(turns, i)
    requires forall j :: 0 <= j < i ==> Differs(turns, j, i)
    ensures log[i] != [] && log[i][0].Handed?
  {
    CallHasKey(turns, i);
    var k := KeyAt(turns, i).value;
    var ss, evs, at := Trace(size, iosz, turns, log);
    hide ParseCall, WordAt;
    FirstEvent(turns, |turns|, iosz, evs, at, log, i);
    if evs[at[i]].Resent? {
      var h := ss[at[i]].h;
      assert Next(size, ss[at[i]], evs[at[i]], ss[at[i] + 1]);
      var e :| Window(h, size) <= e < |h| && h[e] == Entry(evs[at[i]].key, evs[at[i]].bytes);
      CachedKey(size, turns, iosz, ss, evs, at, log, i, e);
      var m :| 0 <= m < i && SpelledAt(turns, m, k);
      NotSpelled(turns, m, i);
    }
  }

  lemma NotSpelled(turns: seq<Turn>, m: nat, i: nat)
    requires m < i < |turns| && IsCall(turns, i) && KeyAt(turns, i).Some? && Differs(turns, m, i)
    ensures !SpelledAt(turns, m, KeyAt(turns, i).value)
  {
    CallHasKey(turns, i);
    hide ParseCall, WordAt, Remote;
  }

  /** A call under an address that rtaddr never held before is handed to a service. */
  lemma NewAddress(size: nat, iosz: nat, turns: seq<Turn>, log: seq<seq<Action>>, i: nat)
    requires Served(size, iosz, turns, log) && i < |turns| == |log| && IsCall(turns, i)
    requires forall m :: 0 < m <= i ==> RtAddr(turns, m) != RtAddr(turns, i + 1)
    ensures log[i] != [] && log[i][0].Handed?
  {
    CallHasKey(turns, i);
    hide ParseCall, RtAddr;
    NewCall(size, iosz, turns, log, i);
  }

  /** Two calls that differ in the procedure alone are both handed to a service. */
  lemma OtherProcedure(size: nat, iosz: nat, turns: seq<Turn>, log: seq<seq<Action>>)
    requires Served(size, iosz, turns, log) && |turns| == 2 == |log| && IsCall(turns, 0) && IsCall(turns, 1)
    requires WordAt(turns[0].d.value.bytes, 20) != WordAt(turns[1].d.value.bytes, 20)
    ensures log[0] != [] && log[0][0].Handed? && log[1] != [] && log[1][0].Handed?
    ensures log[0][0].key.proc != log[1][0].key.proc
  {
    hide IsCall, Served, WordAt, RtAddr;
    NewCall(size, iosz, turns, log, 0);
    NewCall(size, iosz, turns, log, 1);
    HandedWords(size, iosz, turns, log, 0);
    HandedWords(size, iosz, turns, log, 1);
  }

  /** The reply to a call of turn i: what the service answers, with the identifier of the datagram. */
  function ReplyOf(turns: seq<Turn>, i: nat): Reply
    requires i < |turns| && IsCall(turns, i) && turns[i].reply.Some?
  {
    turns[i].reply.value.(xid := WordAt(turns[i].d.value.bytes, 0))
  }

  /** A call that is handed to a service is answered exactly if the service has a reply that can be encoded and sent. It
      goes to the address kept, and decodes to the service's answer with the call's identifier. */
  lemma ReplyToCall(size: nat, iosz: nat, turns: seq<Turn>, log: seq<seq<Action>>, i: nat, n: nat)
    requires Served(size, iosz, turns, log) && i < |turns| == |log| && IsCall(turns, i) && log[i] != [] && log[i][0].Handed?
    ensures |log[i]| == 2 <==>
      turns[i].reply.Some? && turns[i].whole && Sendable(ReplyOf(turns, i)) && |Replies.Layout(ReplyOf(turns, i))| <= iosz
    ensures |log[i]| == 2 ==> log[i][1].Sent? && log[i][1].datagram.addr == RtAddr(turns, i + 1)
    ensures |log[i]| == 2 && ResultSize(ReplyOf(turns, i).body, n) ==>
      var b := log[i][1].datagram.bytes; ParseReply(b, 0, n) == Parsed(ReplyOf(turns, i), |b|)
  {
    CallHasKey(turns, i);
    hide ParseCall, RtAddr, ParseReply, Replies.Layout, WordAt, Spells, PaddedLayout, Sendable;
    var ss, evs, at := Trace(size, iosz, turns, log);
    FirstEvent(turns, |turns|, iosz, evs, at, log, i);
    AnswerOfTurn(turns, |turns|, iosz, evs, at, log, i);
    if |log[i]| == 2 && ResultSize(ReplyOf(turns, i).body, n) { WholeLayout(ReplyOf(turns, i), n); }
  }

  lemma AnswerOfTurn(turns: seq<Turn>, n: nat, iosz: nat, evs: seq<Event>, at: seq<nat>, log: seq<seq<Action>>, i: nat)
    requires Explains(turns, n, iosz, evs, at, log) && i < n && at[i] < |evs| && evs[at[i]].Dispatched?
    ensures var k := evs[at[i]].key;
      if turns[i].reply.Some? && turns[i].whole && Sendable(turns[i].reply.value.(xid := k.xid)) &&
         |Replies.Layout(turns[i].reply.value.(xid := k.xid))| <= iosz
      then log[i] == [Handed(k), Sent(Datagram(Replies.Layout(turns[i].reply.value.(xid := k.xid)), k.addr))]
      else log[i] == [Handed(k)]
  {
    hide ParseCall, RtAddr, Received, Replies.Layout, Sendable;
    assert TurnAt(turns, iosz, evs, at, log, i);
    var es := evs[at[i]..at[i + 1]];
    assert es[0] == evs[at[i]] && (|es| == 2 ==> es[1] == evs[at[i] + 1]);
  }

  lemma WholeLayout(r: Reply, n: nat)
    requires Sendable(r) && ResultSize(r.body, n)
    ensures ParseReply(Replies.Layout(r), 0, n) == Parsed(r, |Replies.Layout(r)|)
  {
    hide PaddedLayout, Replies.Layout, ParseReply;
    var pad1, pad2 := ZeroPaddings(r);
    Replies.RoundTrip([], r, pad1, pad2, [], n);
    assert [] + Replies.Layout(r) + [] == Replies.Layout(r);
  }

  lemma ThreeAddresses(turns: seq<Turn>)
    requires |turns| == 3 && IsCall(turns, 0) && IsCall(turns, 1) && turns[2].d == turns[0].d
    requires turns[0].d.value.addr == [1] && turns[1].d.value.addr == [2, 3]
    ensures RtAddr(turns, 1) == [1] && RtAddr(turns, 2) == [2, 3] && RtAddr(turns, 3) == [1, 3]
    ensures RtAddr(turns, 2) != RtAddr(turns, 3) && RtAddr(turns, 1) != RtAddr(turns, 3)
  {
    hide IsCall;
    assert RtAddr(turns, 0) == [] && RtAddr(turns, 1) == [1];
    assert RtAddr(turns, 2) == [2, 3];
    assert RtAddr(turns, 3)[0] != RtAddr(turns, 2)[0] && |RtAddr(turns, 3)| != |RtAddr(turns, 1)|;
  }

  /** Once a longer address has come in between, a repeated datagram is handed to a service again. */
  lemma LongerAddressForgets(size: nat, iosz: nat, turns: seq<Turn>, log: seq<seq<Action>>)
    requires Served(size, iosz, turns, log) && |turns| == 3 == |log|
    requires IsCall(turns, 0) && turns[0].d.value.addr == [1] && turns[2].d == turns[0].d
    requires IsCall(turns, 1) && turns[1].d.value.addr == [2, 3]
    ensures log[2] != [] && log[2][0].Handed? && log[2][0].key.addr == [1, 3]
  {
    hide ParseCall, Served, RtAddr, WordAt, KeyAt;
    ThreeAddresses(turns);
    assert IsCall(turns, 2);
    NewAddress(size, iosz, turns, log, 2);
    HandedWords(size, iosz, turns, log, 2);
  }
}
