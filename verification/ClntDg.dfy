/** The send, wait and retransmit loop of `clnt_dg_call` (libsrc/clnt_dg.c). */
module ClntDg {
  import opened Basics
  import opened Xdr
  import opened Calls = CallMsg
  import opened Replies = ReplyMsg

  const RPC_MAX_BACKOFF := 30
  const MICROS := 1_000_000

  // ----- struct timeval

  datatype Time = Time(sec: int, usec: int) {
    predicate Normal() { 0 <= usec < MICROS }
    function Micros(): int { sec * MICROS + usec }
  }

  /** timercmp(a, b, <) */
  predicate Before(a: Time, b: Time) {
    if a.sec == b.sec then a.usec < b.usec else a.sec < b.sec
  }

  function Add(a: Time, b: Time): Time {
    var u := a.usec + b.usec;
    if u >= MICROS then Time(a.sec + b.sec + 1, u - MICROS) else Time(a.sec + b.sec, u)
  }

  function Sub(a: Time, b: Time): Time {
    var u := a.usec - b.usec;
    if u < 0 then Time(a.sec - b.sec - 1, u + MICROS) else Time(a.sec - b.sec, u)
  }

  /** On normalised times this is arithmetic on microseconds. */
  lemma TimeArithmetic(a: Time, b: Time)
    requires a.Normal() && b.Normal()
    ensures Add(a, b).Normal() && Add(a, b).Micros() == a.Micros() + b.Micros()
    ensures Sub(a, b).Normal() && Sub(a, b).Micros() == a.Micros() - b.Micros()
    ensures Before(a, b) <==> a.Micros() < b.Micros()
  {}

  // ----- back-off

  /** The interval after the next retransmission: doubled while under 30 seconds. */
  function Doubled(interval: Time): Time {
    if interval.sec < RPC_MAX_BACKOFF then Add(interval, interval) else interval
  }

  predicate Positive(t: Time) {
    t.Normal() && t.Micros() > 0
  }

  /** Intervals grow to less than a minute, unless the first one was longer, and then stay. */
  lemma IntervalsStayShort(interval: Time)
    requires Positive(interval)
    ensures Positive(Doubled(interval)) && Doubled(interval).Micros() >= interval.Micros()
    ensures interval.sec < 60 ==> Doubled(interval).sec < 60
    ensures Doubled(interval).Micros() == if interval.sec < 30 then 2 * interval.Micros() else interval.Micros()
  {}

  /** How many of the times next, next + d1, next + d1 + d2, ... lie before the timeout, d1 = Doubled(interval) and so
      on. This many retransmissions are possible. */
  function Thresholds(interval: Time, next: Time, timeout: Time): nat
    requires Positive(interval) && next.Normal()
    decreases if Before(next, timeout) then (timeout.sec + 1) * MICROS - next.Micros() else 0
  {
    if !Before(next, timeout) then 0
    else
      TimeArithmetic(interval, interval);
      TimeArithmetic(next, Doubled(interval));
      1 + Thresholds(Doubled(interval), Add(next, Doubled(interval)), timeout)
  }

  lemma NextThreshold(interval: Time, next: Time, timeout: Time)
    requires Positive(interval) && next.Normal() && Before(next, timeout)
    ensures Positive(Doubled(interval)) && Add(next, Doubled(interval)).Normal()
    ensures Thresholds(interval, next, timeout) == 1 + Thresholds(Doubled(interval), Add(next, Doubled(interval)), timeout)
  {
    IntervalsStayShort(interval);
    TimeArithmetic(next, Doubled(interval));
  }

  /** The time in microseconds at which retransmission k is due, when the first one is due at `next`: the interval before
      it is doubled while it is under 30 seconds. */
  function Due(interval: int, next: int, k: nat): int
    decreases k
  {
    if k == 0 then next
    else
      var d := if interval < 30_000_000 then 2 * interval else interval;
      Due(d, next + d, k - 1)
  }

  lemma {:induction false} DueLater(interval: int, next: int, k: nat)
    requires interval > 0
    ensures Due(interval, next, k) >= next
    decreases k
  {
    if k > 0 {
      var d := if interval < 30_000_000 then 2 * interval else interval;
      DueLater(d, next + d, k - 1);
    }
  }

  /** There are as many thresholds as retransmissions that are due before the timeout. */
  lemma {:induction false} ThresholdsCount(interval: Time, next: Time, timeout: Time, k: nat)
    requires Positive(interval) && next.Normal() && timeout.Normal()
    ensures k < Thresholds(interval, next, timeout) <==> Due(interval.Micros(), next.Micros(), k) < timeout.Micros()
    decreases k
  {
    TimeArithmetic(next, timeout);
    if !Before(next, timeout) {
      DueLater(interval.Micros(), next.Micros(), k);
    } else if k > 0 {
      TimeArithmetic(interval, interval);
      TimeArithmetic(next, Doubled(interval));
      IntervalsStayShort(interval);
      ThresholdsCount(Doubled(interval), Add(next, Doubled(interval)), timeout, k - 1);
    }
  }

  // ----- the environment

  /** What pollts and recvfrom give, and the clock after it. */
  datatype Poll = Quiet | PollFailed | RecvFailed | WouldBlock | Received(bytes: seq<Byte>)
  datatype Wait = Wait(poll: Poll, now: Time)

  /** Item i of a list of the environment's answers. */
  predicate Yes(answers: seq<bool>, i: nat) {
    i < |answers| && answers[i]
  }

  function Rest(answers: seq<bool>, n: nat): seq<bool> {
    if n <= |answers| then answers[n..] else []
  }

  /** The first k answers are yes. */
  ghost predicate AllYes(answers: seq<bool>, k: nat) {
    forall i :: 0 <= i < k ==> Yes(answers, i)
  }

  /** What happens outside: each call takes the next element of a list. */
  class Env {
    var waits: seq<Wait>
    var encodes: seq<bool>
    var sends: seq<bool>
    var validates: seq<bool>
    var refreshes: seq<bool>

    constructor (waits: seq<Wait>, encodes: seq<bool>, sends: seq<bool>, validates: seq<bool>, refreshes: seq<bool>) {
      this.waits, this.encodes, this.sends, this.validates, this.refreshes := waits, encodes, sends, validates, refreshes;
    }

    method TakeEncode(ghost all: seq<bool>, ghost k: nat) returns (yes: bool)
      requires encodes == Rest(all, k) && AllYes(all, k)
      modifies `encodes
      ensures encodes == Rest(all, k + 1) && yes == Yes(all, k) && (yes ==> AllYes(all, k + 1))
    {
      yes := encodes != [] && encodes[0];
      if encodes != [] { encodes := encodes[1..]; }
    }

    method TakeRefresh(ghost all: seq<bool>, ghost k: nat) returns (yes: bool)
      requires refreshes == Rest(all, k) && AllYes(all, k)
      modifies `refreshes
      ensures refreshes == Rest(all, k + 1) && yes == Yes(all, k) && (yes ==> AllYes(all, k + 1))
    {
      yes := refreshes != [] && refreshes[0];
      if refreshes != [] { refreshes := refreshes[1..]; }
    }
  }

  datatype Status = Remote(stat: ClntStat) | CantEncodeArgs | CantSend | CantRecv | TimedOut | InvalidVerifier | StillWaiting

  /** How waiting for a reply ends; Running when the environment's list does. */
  datatype Outcome = Arrived(bytes: seq<Byte>) | Failed(status: Status) | Resend | Running

  /** A datagram sent: the attempt it belongs to, and its transaction identifier. */
  datatype Sent = Sent(attempt: nat, xid: U32)

  /** The identifier of attempt k of a call. */
  function Nth(xid: U32, k: nat): U32 {
    (xid + k) % 0x1_0000_0000
  }

  /** The bytes of the identifier in a datagram: the word is counted in the machine's own order, and is never swapped. */
  function Wire(xid: U32, littleEndian: bool): (b: seq<Byte>)
    ensures |b| == 4
  {
    var w := Word(xid);
    if littleEndian then [w[3], w[2], w[1], w[0]] else w
  }

  lemma WireInBytes(xid: U32, littleEndian: bool)
    ensures var b := Wire(xid, littleEndian);
      xid == if littleEndian then b[0] as int + b[1] as int * 0x100 + b[2] as int * 0x1_0000 + b[3] as int * 0x100_0000
             else b[0] as int * 0x100_0000 + b[1] as int * 0x1_0000 + b[2] as int * 0x100 + b[3]
  {
    ValueOfWord(xid);
    ValueInBytes(Word(xid));
    hide Word, Value;
  }

  lemma Reversed(v: seq<Byte>, w: seq<Byte>)
    requires |v| == |w| == 4 && v != w
    ensures [v[3], v[2], v[1], v[0]] != [w[3], w[2], w[1], w[0]]
  {
    assert exists i :: 0 <= i < 4 && v[i] != w[i];
  }

  lemma WireDiffers(x: U32, y: U32, littleEndian: bool)
    requires x != y
    ensures Wire(x, littleEndian) != Wire(y, littleEndian)
  {
    ValueOfWord(x);
    ValueOfWord(y);
    hide Word, Value;
    Reversed(Word(x), Word(y));
  }

  /** The attempts of one call have different identifiers, also around the wrap, and in whichever byte order. */
  lemma AttemptsDiffer(xid: U32, i: nat, j: nat, littleEndian: bool)
    requires i < j <= 3
    ensures Wire(Nth(xid, i), littleEndian) != Wire(Nth(xid, j), littleEndian)
  {
    WireDiffers(Nth(xid, i), Nth(xid, j), littleEndian);
  }

  /** The datagrams of attempts up to k, in order. */
  ghost predicate Log(sent: seq<Sent>, xid: U32, k: nat) {
    && (forall i :: 0 <= i < |sent| ==> 1 <= sent[i].attempt <= k && sent[i].xid == Nth(xid, sent[i].attempt))
    && (forall i, j :: 0 <= i < j < |sent| ==> sent[i].attempt <= sent[j].attempt)
  }

  lemma LogGrows(sent: seq<Sent>, more: seq<Sent>, xid: U32, k: nat)
    requires Log(sent, xid, k) && forall i :: 0 <= i < |more| ==> more[i] == Sent(k + 1, Nth(xid, k + 1))
    ensures Log(sent + more, xid, k + 1)
  {}

  lemma NextXid(xid: U32, k: nat)
    ensures Nth(xid, k + 1) == if Nth(xid, k) == 0xffff_ffff then 0 else Nth(xid, k) + 1
  {}

  /** Without this much time the reply is not waited for. */
  const NO_TIME := Time(0, 0)

  /** The first four bytes are the identifier. */
  predicate Answers(bytes: seq<Byte>, id: seq<Byte>) {
    |bytes| >= 4 && bytes[..4] == id
  }

  /** What one round of the wait loop leads to; None if it goes round again. */
  function Reaction(w: Wait, id: seq<Byte>, start: Time, timeout: Time, next: Time): Option<Outcome> {
    if w.poll.Received? && Answers(w.poll.bytes, id) then Some(Arrived(w.poll.bytes))
    else if w.poll.RecvFailed? || w.poll.PollFailed? then Some(Failed(CantRecv))
    else if Before(timeout, Sub(w.now, start)) then Some(Failed(TimedOut))
    else if Before(next, Sub(w.now, start)) then Some(Resend)
    else None
  }

  /** After this poll more than the timeout has passed since the start. */
  predicate Late(w: Wait, start: Time, timeout: Time) {
    Before(timeout, Sub(w.now, start))
  }

  /** This poll ends an attempt, late or not: it failed, or brought a datagram with the identifier. */
  predicate Decisive(w: Wait, id: seq<Byte>) {
    w.poll.PollFailed? || w.poll.RecvFailed? || (w.poll.Received? && |w.poll.bytes| >= 4 && w.poll.bytes[..4] == id)
  }

  lemma LateInMicros(w: Wait, start: Time, timeout: Time)
    requires w.now.Normal() && start.Normal() && timeout.Normal()
    ensures Late(w, start, timeout) <==> w.now.Micros() > start.Micros() + timeout.Micros()
  {
    TimeArithmetic(w.now, start);
    TimeArithmetic(timeout, Sub(w.now, start));
  }

  /** What the polls of one attempt have led to. */
  ghost predicate Polled(polls: seq<Wait>, o: Outcome, start: Time, timeout: Time, id: seq<Byte>) {
    && (forall i :: 0 <= i < |polls| && Decisive(polls[i], id) ==>
          i == |polls| - 1 && (o.Arrived? || o == Failed(CantRecv)))
    && (forall i :: 0 <= i < |polls| && Late(polls[i], start, timeout) ==>
          i == |polls| - 1 && (o.Arrived? || o == Failed(TimedOut) || o == Failed(CantRecv)))
    && (o == Failed(TimedOut) ==>
          timeout == NO_TIME || (polls != [] && Late(polls[|polls| - 1], start, timeout)))
    && (o == Failed(CantRecv) ==>
          polls != [] && (polls[|polls| - 1].poll.RecvFailed? || polls[|polls| - 1].poll.PollFailed?))
    && (o.Arrived? ==> polls != [] && polls[|polls| - 1].poll == Received(o.bytes))
  }

  lemma PollsGoOn(polls: seq<Wait>, more: seq<Wait>, o: Outcome, id: seq<Byte>, start: Time, timeout: Time, next: Time)
    requires Polled(polls, Resend, start, timeout, id)
    requires forall i :: 0 <= i < |more| - (if o.Running? then 0 else 1) ==> Reaction(more[i], id, start, timeout, next) == None
    requires !o.Running? ==> more != [] && Reaction(more[|more| - 1], id, start, timeout, next) == Some(o)
    ensures Polled(polls + more, o, start, timeout, id)
  {
    var all := polls + more;
    assert more != [] ==> all[|all| - 1] == more[|more| - 1];
    assert forall i :: 0 <= i < |polls| ==> all[i] == polls[i];
    forall i | |polls| <= i < |all| && Late(all[i], start, timeout)
      ensures i == |all| - 1 && (o.Arrived? || o == Failed(TimedOut) || o == Failed(CantRecv))
    {
      assert all[i] == more[i - |polls|];
    }
    forall i | |polls| <= i < |all| && Decisive(all[i], id)
      ensures i == |all| - 1 && (o.Arrived? || o == Failed(CantRecv))
    {
      assert all[i] == more[i - |polls|];
    }
  }

  /** The polls of a whole call: it has never gone on late, except when credentials were refreshed; it times out only
      late, or without time; and what it returns is the last thing received. */
  ghost predicate Ended(polls: seq<Wait>, status: Status, reply: seq<Byte>, start: Time, timeout: Time, id: seq<Byte>) {
    && (forall i :: 0 <= i < |polls| - 1 && Late(polls[i], start, timeout) ==> polls[i].poll.Received?)
    && (status == TimedOut ==>
          timeout == NO_TIME ||
          (polls != [] && Late(polls[|polls| - 1], start, timeout) && !Decisive(polls[|polls| - 1], id)))
    && (status == CantRecv ==>
          polls != [] && (polls[|polls| - 1].poll.RecvFailed? || polls[|polls| - 1].poll.PollFailed?))
    && (status.Remote? || status == InvalidVerifier ==> polls != [] && polls[|polls| - 1].poll == Received(reply))
  }

  ghost predicate GoesOn(polls: seq<Wait>, start: Time, timeout: Time) {
    forall i :: 0 <= i < |polls| && Late(polls[i], start, timeout) ==> polls[i].poll.Received?
  }

  lemma EndedAfter(polls: seq<Wait>, more: seq<Wait>, status: Status, reply: seq<Byte>, start: Time, timeout: Time,
          id: seq<Byte>)
    requires GoesOn(polls, start, timeout)
    ensures Ended(more, status, reply, start, timeout, id) ==> Ended(polls + more, status, reply, start, timeout, id)
    ensures GoesOn(more, start, timeout) ==> GoesOn(polls + more, start, timeout)
  {
    var all := polls + more;
    assert more != [] ==> all[|all| - 1] == more[|more| - 1];
    assert forall i :: 0 <= i < |all| ==> all[i] == if i < |polls| then polls[i] else more[i - |polls|];
  }

  class Client {
    var wait: Time
    var total: Time
    /** The first word of the out buffer, as a number of this machine. */
    var xid: U32
    const littleEndian: bool

    /** A client as it is created: it retransmits after a tenth of a second, and takes the timeout of each call. */
    constructor (xid: U32, littleEndian: bool)
      ensures wait == Time(0, 100_000) && total == Time(-1, -1) && this.xid == xid && this.littleEndian == littleEndian
    {
      wait, total, this.xid, this.littleEndian := Time(0, 100_000), Time(-1, -1), xid, littleEndian;
    }

    /** Its bytes. */
    function Id(): (b: seq<Byte>)
      reads `xid
    {
      Wire(xid, littleEndian)
    }

    /** The loop around pollts: it goes round while nothing happens, and ends with the first thing that does. */
    method Await(env: Env, start: Time, timeout: Time, next: Time) returns (o: Outcome, ghost rounds: nat)
      modifies env`waits
      ensures rounds <= |old(env.waits)| && env.waits == old(env.waits)[rounds..]
      ensures !o.Running? ==> rounds > 0 && Reaction(old(env.waits)[rounds - 1], Id(), start, timeout, next) == Some(o)
      ensures forall i :: 0 <= i < rounds - (if o.Running? then 0 else 1) ==>
        Reaction(old(env.waits)[i], Id(), start, timeout, next) == None
      ensures o.Running? ==> env.waits == []
    {
      rounds := 0;
      while env.waits != []
        invariant rounds <= |old(env.waits)| && env.waits == old(env.waits)[rounds..]
        invariant forall i :: 0 <= i < rounds ==> Reaction(old(env.waits)[i], Id(), start, timeout, next) == None
        decreases |env.waits|
      {
        var w := env.waits[0];
        env.waits := env.waits[1..];
        rounds := rounds + 1;
        match w.poll {
          case Received(bytes) =>
            if Answers(bytes, Id()) { return Arrived(bytes), rounds; }
          case RecvFailed => return Failed(CantRecv), rounds;
          case PollFailed => return Failed(CantRecv), rounds;
          case _ =>
        }
        var waited := Sub(w.now, start);
        if Before(timeout, waited) { return Failed(TimedOut), rounds; }
        if Before(next, waited) { return Resend, rounds; }
      }
      return Running, rounds;
    }

    /** A datagram that is due only between `next` and the timeout. */
    lemma ReactionMeans(w: Wait, start: Time, timeout: Time, next: Time)
      ensures var r := Reaction(w, Id(), start, timeout, next);
        && (r == Some(Resend) ==> Before(next, timeout))
        && (r.Some? && r.value.Arrived? ==> |r.value.bytes| >= 4 && r.value.bytes[..4] == Id())
        && (r.Some? && r.value.Failed? ==> r.value.status == CantRecv || r.value.status == TimedOut)
    {}

    lemma NonePolled(start: Time, timeout: Time)
      ensures Polled([], Resend, start, timeout, Id())
    {}

    /** A datagram that is not waited for. */
    lemma NotPolled(polls: seq<Wait>, start: Time, timeout: Time)
      requires Polled(polls, Resend, start, timeout, Id())
      ensures Polled(polls, Failed(CantSend), start, timeout, Id())
      ensures timeout == NO_TIME ==> Polled(polls, Failed(TimedOut), start, timeout, Id())
    {}

    /** How the polls of an attempt look to the call. */
    lemma PolledEnds(polls: seq<Wait>, o: Outcome, status: Status, reply: seq<Byte>, start: Time, timeout: Time)
      requires Polled(polls, o, start, timeout, Id())
      requires o.Failed? ==> status == o.status && (status == CantSend || status == CantRecv || status == TimedOut)
      requires o.Arrived? ==> reply == o.bytes && (status.Remote? || status == InvalidVerifier)
      requires o.Running? ==> status == StillWaiting
      ensures Ended(polls, status, reply, start, timeout, Id()) || o.Resend?
      ensures o.Arrived? ==> GoesOn(polls, start, timeout)
    {}

    /** One attempt: the datagram is sent again for every threshold that passes. */
    method Attempt(env: Env, start: Time, timeout: Time, interval: Time, next: Time, attempt: nat)
      returns (o: Outcome, interval': Time, next': Time, sent: seq<Sent>, ghost polls: seq<Wait>)
      requires Positive(interval) && next.Normal()
      modifies env`waits, env`sends
      ensures old(env.waits) == polls + env.waits && Polled(polls, o, start, timeout, Id()) && (o.Running? ==> env.waits == [])
      ensures Positive(interval') && next'.Normal() && !o.Resend?
      ensures 1 <= |sent| <= 1 + Thresholds(interval, next, timeout) - Thresholds(interval', next', timeout)
      ensures forall i :: 0 <= i < |sent| ==> sent[i] == Sent(attempt, xid)
      ensures o.Arrived? ==> |o.bytes| >= 4 && o.bytes[..4] == Id() && timeout != NO_TIME
      ensures timeout == NO_TIME ==> |sent| == 1 && (o == Failed(TimedOut) || o == Failed(CantSend))
      ensures o.Failed? ==> o.status == CantSend || o.status == CantRecv || o.status == TimedOut
      ensures forall i :: 0 <= i < |sent| ==> (Yes(old(env.sends), i) <==> i < |sent| - 1 || o != Failed(CantSend))
      ensures env.sends == Rest(old(env.sends), |sent|)
    {
      hide Reaction, Answers, Wire, Polled, Late, Decisive, Thresholds, Add, Before;
      interval', next', sent, o, polls := interval, next, [], Resend, [];
      NonePolled(start, timeout);
      while o.Resend?
        invariant Positive(interval') && next'.Normal()
        invariant old(env.waits) == polls + env.waits && Polled(polls, o, start, timeout, Id()) && (o.Running? ==> env.waits == [])
        invariant |sent| + Thresholds(interval', next', timeout)
                  <= Thresholds(interval, next, timeout) + if o.Resend? then 0 else 1
        invariant !o.Resend? ==> sent != []
        invariant forall i :: 0 <= i < |sent| ==> sent[i] == Sent(attempt, xid)
        invariant o.Arrived? ==> |o.bytes| >= 4 && o.bytes[..4] == Id() && timeout != NO_TIME
        invariant timeout == NO_TIME && o.Resend? ==> sent == []
        invariant timeout == NO_TIME && !o.Resend? ==> |sent| == 1 && (o == Failed(TimedOut) || o == Failed(CantSend))
        invariant o.Failed? ==> o.status == CantSend || o.status == CantRecv || o.status == TimedOut
        invariant forall i :: 0 <= i < |sent| ==> (Yes(old(env.sends), i) <==> i < |sent| - 1 || o != Failed(CantSend))
        invariant env.sends == Rest(old(env.sends), |sent|)
        decreases o.Resend?, Thresholds(interval', next', timeout)
      {
        var whole := env.sends != [] && env.sends[0];
        if env.sends != [] { env.sends := env.sends[1..]; }
        sent := sent + [Sent(attempt, xid)];
        if !whole {
          NotPolled(polls, start, timeout);
          o := Failed(CantSend);
        } else if timeout.sec == 0 && timeout.usec == 0 {
          NotPolled(polls, start, timeout);
          o := Failed(TimedOut);
        } else {
          ghost var rounds;
          ghost var waits := env.waits;
          o, rounds := Await(env, start, timeout, next');
          if rounds > 0 { ReactionMeans(waits[rounds - 1], start, timeout, next'); }
          PollsGoOn(polls, waits[..rounds], o, Id(), start, timeout, next');
          polls := polls + waits[..rounds];
          if o.Resend? {
            NextThreshold(interval', next', timeout);
            if interval'.sec < RPC_MAX_BACKOFF { interval' := Add(interval', interval'); }
            next' := Add(next', interval');
          }
        }
      }
    }

    /** The reply decoded: what the server says, or that it cannot be decoded. */
    method Verdict(bytes: seq<Byte>, n: nat) returns (stat: ClntStat)
      ensures var r := ParseReply(bytes, 0, n);
        stat == if r.Parsed? then Meaning(r.value.body) else RpcCantDecodeRes
      ensures ParseReply(bytes, 0, n).Parsed? ==> Signifies(bytes, stat)
    {
      hide ParseReply, Signifies;
      var data := new Byte[|bytes|];
      forall i | 0 <= i < |bytes| { data[i] := bytes[i]; }
      assert data[..] == bytes;
      var x := new Stream(data, []);
      var ok, r := GetReply(x, n);
      if !ok { return RpcCantDecodeRes; }
      ParsedIsProper(bytes, n);
      MeaningInBytes(bytes, n);
      var error := new RpcErr();
      SetErrReply(r, error);
      stat := error.status;
    }

    lemma ParsedIsProper(s: seq<Byte>, n: nat)
      requires ParseReply(s, 0, n).Parsed?
      ensures Proper(ParseReply(s, 0, n).value)
    {}

    /** From call_again on: a new identifier, one attempt, and what its reply means; `again` if the credentials have been
        refreshed. */
    method Round(env: Env, start: Time, timeout: Time, interval: Time, next: Time, n: nat, last: bool,
                 ghost encodes: seq<bool>, ghost refreshes: seq<bool>, attempt: nat)
      returns (status: Status, again: bool, interval': Time, next': Time, more: seq<Sent>, reply: seq<Byte>,
               ghost polls: seq<Wait>)
      requires Positive(interval) && next.Normal() && attempt > 0
      requires env.encodes == Rest(encodes, attempt - 1) && AllYes(encodes, attempt - 1)
      requires env.refreshes == Rest(refreshes, attempt - 1) && AllYes(refreshes, attempt - 1)
      modifies this`xid, env`waits, env`encodes, env`sends, env`refreshes
      ensures Positive(interval') && next'.Normal() && xid == if old(xid) == 0xffff_ffff then 0 else old(xid) + 1
      ensures |more| <= 1 + Thresholds(interval, next, timeout) - Thresholds(interval', next', timeout)
      ensures old(env.waits) == polls + env.waits && (status == StillWaiting ==> env.waits == [])
      ensures if again then GoesOn(polls, start, timeout) else Ended(polls, status, reply, start, timeout, Id())
      ensures forall i :: 0 <= i < |more| ==> more[i] == Sent(attempt, xid)
      ensures again ==> !last && AllYes(encodes, attempt) && AllYes(refreshes, attempt) && timeout != NO_TIME
      ensures again ==> env.encodes == Rest(encodes, attempt) && env.refreshes == Rest(refreshes, attempt)
      ensures !again ==> Settled(status, more, reply, n, timeout, Yes(encodes, attempt - 1),
                                 last || !Yes(refreshes, attempt - 1), Yes(env.validates, 0), Id())
    {
      hide ParseReply, Meaning, Answers, Thresholds, Rest, AllYes, Wire, Polled, Late, Decisive, Signifies, GoesOn;
      again, interval', next', more, reply, polls := false, interval, next, [], [], [];
      xid := if xid == 0xffff_ffff then 0 else xid + 1;
      var encoded := env.TakeEncode(encodes, attempt - 1);
      if !encoded {
        status := CantEncodeArgs;
        return;
      }
      var o;
      o, interval', next', more, polls := Attempt(env, start, timeout, interval, next, attempt);
      status := if o.Failed? then o.status else StillWaiting;
      if !o.Arrived? {
        PolledEnds(polls, o, status, reply, start, timeout);
        return;
      }
      reply := o.bytes;
      var stat := Verdict(reply, n);
      status := Remote(stat);
      PolledEnds(polls, o, status, reply, start, timeout);
      PolledEnds(polls, o, InvalidVerifier, reply, start, timeout);
      if stat == RpcSuccess {
        if !Yes(env.validates, 0) { status := InvalidVerifier; }
      } else if stat == RpcAuthError && !last {
        again := env.TakeRefresh(refreshes, attempt - 1);
      }
    }

    /** How a call ends: what the status says about the last attempt, its datagrams and its reply. */
    ghost predicate Settled(status: Status, more: seq<Sent>, reply: seq<Byte>, n: nat, timeout: Time, encoded: bool,
                            noRefresh: bool, valid: bool, id: seq<Byte>) {
      var r := ParseReply(reply, 0, n);
      && (status == CantEncodeArgs <==> !encoded)
      && (status != CantEncodeArgs ==> more != [])
      && (status.Remote? || status == InvalidVerifier ==> |reply| >= 4 && reply[..4] == id)
      && (status.Remote? ==> if r.Parsed? then Signifies(reply, status.stat) else status.stat == RpcCantDecodeRes)
      && (status == InvalidVerifier ==> r.Parsed? && Signifies(reply, RpcSuccess) && !valid)
      && (status == Remote(RpcSuccess) ==> valid)
      && (status == Remote(RpcAuthError) ==> noRefresh)
      && (timeout == NO_TIME ==> |more| <= 1 && status in {CantEncodeArgs, CantSend, TimedOut})
    }

    /** What a call does within this timeout. */
    ghost predicate Within(timeout: Time, interval: Time, start: Time, status: Status, sent: seq<Sent>, last: seq<Sent>,
                           reply: seq<Byte>, n: nat, attempts: nat, polls: seq<Wait>, encoded: bool, noRefresh: bool,
                           valid: bool)
      requires Positive(interval)
      reads `xid
    {
      && |sent| <= 3 + Thresholds(interval, interval, timeout)
      && Settled(status, last, reply, n, timeout, encoded, noRefresh, valid, Id())
      && Ended(polls, status, reply, start, timeout, Id())
      && (timeout == NO_TIME ==> attempts == 1)
    }

    /** The attempts of a call within a timeout. */
    method Attempts(env: Env, timeout: Time, start: Time, n: nat)
      returns (status: Status, sent: seq<Sent>, reply: seq<Byte>, attempts: nat, ghost last: seq<Sent>,
               ghost polls: seq<Wait>)
      requires Positive(wait)
      modifies this`xid, env`waits, env`encodes, env`sends, env`refreshes
      ensures 1 <= attempts <= 3 && xid == Nth(old(xid), attempts) && Log(sent, old(xid), attempts)
      ensures |last| <= |sent| && sent[|sent| - |last|..] == last
      ensures forall i :: 0 <= i < |last| ==> last[i] == Sent(attempts, xid)
      ensures AllYes(old(env.encodes), attempts - 1) && AllYes(old(env.refreshes), attempts - 1)
      ensures old(env.waits) == polls + env.waits && (status == StillWaiting ==> env.waits == [])
      ensures Within(timeout, wait, start, status, sent, last, reply, n, attempts, polls, Yes(old(env.encodes), attempts - 1),
                     attempts == 3 || !Yes(old(env.refreshes), attempts - 1), Yes(env.validates, 0))
    {
      NothingTaken(env.encodes);
      NothingTaken(env.refreshes);
      hide Log, Nth, Thresholds, Rest, AllYes, Settled, Yes, Ended, Late, Decisive, GoesOn, Positive, Wire;
      var interval, next, again := wait, wait, true;
      ghost var x0 := xid;
      sent, reply, attempts, last, status, polls := [], [], 0, [], StillWaiting, [];
      NoneSent(x0);
      NoPolls(start, timeout);
      while again
        invariant attempts <= 3 && (again ==> attempts < 3) && (!again ==> attempts > 0)
        invariant Positive(interval) && next.Normal()
        invariant xid == Nth(x0, attempts) && Log(sent, x0, attempts)
        invariant old(env.waits) == polls + env.waits
        invariant if again then GoesOn(polls, start, timeout) else Ended(polls, status, reply, start, timeout, Id())
        invariant !again && status == StillWaiting ==> env.waits == []
        invariant |sent| + Thresholds(interval, next, timeout) <= Thresholds(wait, wait, timeout) + attempts
        invariant |last| <= |sent| && sent[|sent| - |last|..] == last
        invariant forall i :: 0 <= i < |last| ==> last[i] == Sent(attempts, xid)
        invariant again ==> AllYes(old(env.encodes), attempts) && env.encodes == Rest(old(env.encodes), attempts)
        invariant again ==> AllYes(old(env.refreshes), attempts) && env.refreshes == Rest(old(env.refreshes), attempts)
        invariant !again ==> AllYes(old(env.encodes), attempts - 1) && AllYes(old(env.refreshes), attempts - 1)
        invariant !again ==> Settled(status, last, reply, n, timeout, Yes(old(env.encodes), attempts - 1),
                                     attempts == 3 || !Yes(old(env.refreshes), attempts - 1), Yes(env.validates, 0), Id())
        invariant timeout == NO_TIME ==> attempts == if again then 0 else 1
        decreases again, 3 - attempts
      {
        NextXid(x0, attempts);
        attempts := attempts + 1;
        var more;
        ghost var polls';
        status, again, interval, next, more, reply, polls' :=
          Round(env, start, timeout, interval, next, n, attempts == 3, old(env.encodes), old(env.refreshes), attempts);
        LogGrows(sent, more, x0, attempts - 1);
        EndedAfter(polls, polls', status, reply, start, timeout, Id());
        Joined(polls, polls', env.waits);
        Suffix(sent, more);
        sent, last, polls := sent + more, more, polls + polls';
      }
    }

    lemma Joined(a: seq<Wait>, b: seq<Wait>, c: seq<Wait>)
      ensures a + (b + c) == a + b + c
    {}

    lemma Suffix(sent: seq<Sent>, more: seq<Sent>)
      ensures (sent + more)[|sent + more| - |more|..] == more
    {}

    lemma NoPolls(start: Time, timeout: Time)
      ensures GoesOn([], start, timeout)
    {}

    /** Whatever the clock and the network do, at most three attempts and one retransmission for every threshold below
        the timeout are sent, and the only reply accepted is one to the last attempt. The timeout is the call's own,
        unless one has been set for the client. */
    method Call(env: Env, utimeout: Time, start: Time, n: nat)
      returns (status: Status, sent: seq<Sent>, reply: seq<Byte>, attempts: nat, ghost last: seq<Sent>,
               ghost polls: seq<Wait>)
      requires Positive(wait)
      modifies this`xid, env`waits, env`encodes, env`sends, env`refreshes
      ensures 1 <= attempts <= 3 && xid == Nth(old(xid), attempts) && Log(sent, old(xid), attempts)
      ensures |last| <= |sent| && sent[|sent| - |last|..] == last
      ensures forall i :: 0 <= i < |last| ==> last[i] == Sent(attempts, xid)
      ensures AllYes(old(env.encodes), attempts - 1) && AllYes(old(env.refreshes), attempts - 1)
      ensures old(env.waits) == polls + env.waits && (status == StillWaiting ==> env.waits == [])
      ensures total.usec == -1 ==>
        Within(utimeout, wait, start, status, sent, last, reply, n, attempts, polls, Yes(old(env.encodes), attempts - 1),
               attempts == 3 || !Yes(old(env.refreshes), attempts - 1), Yes(env.validates, 0))
      ensures total.usec != -1 ==>
        Within(total, wait, start, status, sent, last, reply, n, attempts, polls, Yes(old(env.encodes), attempts - 1),
               attempts == 3 || !Yes(old(env.refreshes), attempts - 1), Yes(env.validates, 0))
    {
      hide Log, Nth, AllYes, Within, Yes;
      var timeout;
      if total.usec == -1 {
        timeout := utimeout;
      } else {
        timeout := total;
      }
      status, sent, reply, attempts, last, polls := Attempts(env, timeout, start, n);
    }

    lemma NothingTaken(all: seq<bool>)
      ensures Rest(all, 0) == all && AllYes(all, 0)
    {}

    lemma NoneSent(xid: U32)
      ensures Log([], xid, 0) && Nth(xid, 0) == xid
    {}
  }
}
