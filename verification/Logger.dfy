/** The asynchronous logger of libService/Logger.cpp. */
module LoggerQueue {
  type Bytes = seq<char>

  /** A buffer of one message, with its link in the queue it is in. */
  class BufferCursor {
    const data: Bytes
    var next: BufferCursor?

    constructor (data: Bytes)
      ensures this.data == data && next == null
    {
      this.data, next := data, null;
    }
  }

  function Messages(items: seq<BufferCursor>): seq<Bytes> {
    if items == [] then [] else [items[0].data] + Messages(items[1..])
  }

  /** The items are linked in order, and each is there once. */
  ghost predicate Linked(items: seq<BufferCursor>)
    reads items
  {
    && (forall i, j :: 0 <= i < j < |items| ==> items[i] != items[j])
    && (forall i, j :: 0 <= i < |items| && j == i + 1 < |items| ==> items[i].next == items[j])
    && (items != [] ==> items[|items| - 1].next == null)
  }

  twostate lemma StaysLinked(items: seq<BufferCursor>)
    requires old(Linked(items)) && forall n :: n in items ==> n.next == old(n.next)
    ensures Linked(items)
  {}

  /** The written messages of a log. */
  class Stream {
    var written: seq<Bytes>

    constructor ()
      ensures written == []
    {
      written := [];
    }
  }

  class BufferQueue {
    var first: BufferCursor?
    var last: BufferCursor?
    var size: nat
    ghost var items: seq<BufferCursor>

    ghost predicate Valid()
      reads this, items
    {
      && Linked(items) && size == |items|
      && (if items == [] then first == null && last == null else first == items[0] && last == items[|items| - 1])
    }

    constructor ()
      ensures Valid() && items == []
    {
      first, last, size, items := null, null, 0, [];
    }

    /** push_back: the node becomes the last one; says whether it is the first as well. */
    method PushBack(node: BufferCursor) returns (wasFirst: bool)
      requires Valid() && node !in items
      modifies this, items, node
      ensures Valid() && items == old(items) + [node] && wasFirst == (old(items) == [])
    {
      wasFirst := first == null;
      node.next := null;
      if wasFirst {
        first := node;
      } else {
        last.next := node;
      }
      last := node;
      size := size + 1;
      items := items + [node];
    }

    /** steal: everything goes to the other queue, and this one is empty. */
    method Steal(queue: BufferQueue)
      requires Valid() && queue != this
      modifies this, queue
      ensures Valid() && items == [] && queue.Valid() && queue.items == old(items)
    {
      queue.first, queue.last, queue.size, queue.items := first, last, size, items;
      first, last, size, items := null, null, 0, [];
    }
  }
}

/** The logger's threads as steps: producers that push, the consumer that waits, steals and writes, and whoever stops it.
    What happens inside the critical section is one step. */
module LoggerProtocol {
  import opened LoggerQueue

  /** A producer that found the queue empty still has to set the wake event. */
  datatype Producer = Ready | OwesWake

  /** Where the consumer is; `term` says whether it has seen the stop event. */
  datatype Consumer =
    | Waiting
    | Woke(term: bool)
    | Writing(rest: seq<Bytes>, term: bool)
    | LastSteal
    | LastWriting(rest: seq<Bytes>)
    | Exited

  /** `accepted` are all messages that have been pushed, `before` those pushed
      before stop was signalled. */
  datatype State = State(queue: seq<Bytes>, wake: bool, stop: bool, producers: seq<Producer>, consumer: Consumer,
                         written: seq<Bytes>, accepted: seq<Bytes>, before: seq<Bytes>)

  datatype Step = Push(p: nat, m: Bytes) | SetWake(p: nat) | SignalStop | Wait(timeout: bool) | Steal | Write | Drained

  ghost predicate Next(s: State, a: Step, s': State) {
    match a
    case Push(p, m) =>
      p < |s.producers| && s.producers[p].Ready? && m != []
      && s' == s.(queue := s.queue + [m], accepted := s.accepted + [m],
                  producers := if s.queue == [] then s.producers[p := OwesWake] else s.producers)
    case SetWake(p) =>
      p < |s.producers| && s.producers[p].OwesWake? && s' == s.(wake := true, producers := s.producers[p := Ready])
    case SignalStop =>
      s' == s.(stop := true, before := if s.stop then s.before else s.accepted)
    case Wait(timeout) =>
      s.consumer.Waiting?
      && (if s.stop then !timeout && s' == s.(consumer := Woke(true))
          else if s.wake then !timeout && s' == s.(wake := false, consumer := Woke(false))
          else timeout && s' == s.(consumer := Woke(false)))
    case Steal =>
      (match s.consumer
       case Woke(term) => s' == s.(queue := [], consumer := Writing(s.queue, term))
       case LastSteal => s' == s.(queue := [], consumer := LastWriting(s.queue))
       case _ => false)
    case Write =>
      (match s.consumer
       case Writing(rest, term) => rest != [] && s' == s.(written := s.written + [rest[0]], consumer := Writing(rest[1..], term))
       case LastWriting(rest) => rest != [] && s' == s.(written := s.written + [rest[0]], consumer := LastWriting(rest[1..]))
       case _ => false)
    case Drained =>
      (match s.consumer
       case Writing(rest, term) => rest == [] && s' == s.(consumer := if term then LastSteal else Waiting)
       case LastWriting(rest) => rest == [] && s' == s.(consumer := Exited)
       case _ => false)
  }

  predicate Initial(s: State) {
    && s.queue == [] && !s.wake && !s.stop && s.consumer.Waiting? && s.written == [] && s.accepted == [] && s.before == []
    && forall p :: 0 <= p < |s.producers| ==> s.producers[p].Ready?
  }

  ghost predicate Run(ss: seq<State>, steps: seq<Step>) {
    && |ss| == |steps| + 1 && Initial(ss[0])
    && forall i, j :: 0 <= i < |steps| && j == i + 1 ==> Next(ss[i], steps[i], ss[j])
  }

  /** Stolen, but not yet written. */
  function Stolen(c: Consumer): seq<Bytes> {
    match c case Writing(rest, _) => rest case LastWriting(rest) => rest case _ => []
  }

  /** Nothing is lost, written twice or reordered. */
  predicate Conserved(s: State) {
    s.accepted == s.written + Stolen(s.consumer) + s.queue
  }

  predicate OnItsWay(c: Consumer) {
    c.Woke? || c.LastSteal?
  }

  predicate Owing(s: State, p: nat) {
    p < |s.producers| && s.producers[p].OwesWake?
  }

  /** What is in the queue is going to be noticed. */
  ghost predicate Noticed(s: State) {
    s.queue != [] ==> s.wake || OnItsWay(s.consumer) || exists p: nat :: Owing(s, p)
  }

  /** Once the consumer has stolen after the stop, it has everything that was accepted before. */
  predicate Covered(s: State) {
    && (!s.stop ==> s.before == [] && !s.consumer.LastSteal? && !s.consumer.LastWriting? && !s.consumer.Exited?
                    && (s.consumer.Woke? || s.consumer.Writing? ==> !s.consumer.term))
    && (s.stop ==> s.before <= s.accepted)
    && (s.consumer.Writing? && s.consumer.term ==> s.before <= s.written + s.consumer.rest)
    && (s.consumer.LastSteal? || s.consumer.LastWriting? || s.consumer.Exited? ==> s.before <= s.written)
  }

  ghost predicate Inv(s: State) {
    Conserved(s) && Noticed(s) && Covered(s)
  }

  lemma ConservedStep(s: State, a: Step, s': State)
    requires Conserved(s) && Next(s, a, s')
    ensures Conserved(s')
  {
    var rest := Stolen(s.consumer);
    match a
    case Push(_, m) => assert s'.accepted == s.written + rest + (s.queue + [m]);
    case Write => assert s.written + rest == (s.written + [rest[0]]) + rest[1..];
    case Steal => assert s.written + rest + s.queue == s.written + s.queue + [];
    case _ =>
  }

  lemma NoticedStep(s: State, a: Step, s': State)
    requires Noticed(s) && Next(s, a, s')
    ensures Noticed(s')
  {
    if s'.queue != [] {
      if a.Push? && s.queue == [] {
        assert Owing(s', a.p);
      } else if !s.wake && !OnItsWay(s.consumer) {
        var p: nat :| Owing(s, p);
        assert Owing(s', p) || a == SetWake(p);
      }
    }
  }

  lemma CoveredStep(s: State, a: Step, s': State)
    requires Conserved(s) && Covered(s) && Next(s, a, s')
    ensures Covered(s')
  {
    match a
    case Write =>
      var rest := Stolen(s.consumer);
      assert s.written + rest == s'.written + rest[1..];
    case Steal => assert s.written + [] + s.queue == s.written + s.queue;
    case Drained => assert s.written + [] == s.written;
    case _ =>
  }

  lemma {:induction false} InvHolds(ss: seq<State>, steps: seq<Step>, i: nat)
    requires Run(ss, steps) && i < |ss|
    ensures Inv(ss[i])
  {
    if i > 0 {
      InvHolds(ss, steps, i - 1);
      assert Next(ss[i - 1], steps[i - 1], ss[i]);
      ConservedStep(ss[i - 1], steps[i - 1], ss[i]);
      NoticedStep(ss[i - 1], steps[i - 1], ss[i]);
      CoveredStep(ss[i - 1], steps[i - 1], ss[i]);
    }
  }

  /** `before` is what had been accepted when stop was signalled. */
  lemma {:induction false} BeforeIsFixed(ss: seq<State>, steps: seq<Step>, t: nat, u: nat)
    requires Run(ss, steps) && t < u < |ss| && steps[t].SignalStop? && !ss[t].stop
    ensures ss[u].stop && ss[u].before == ss[t].accepted
  {
    assert Next(ss[u - 1], steps[u - 1], ss[u]);
    if t < u - 1 { BeforeIsFixed(ss, steps, t, u - 1); }
  }

  /** When the consumer has exited, everything that was accepted before the stop has been written: once, in the order of
      the queue, and with nothing in between that was not accepted. */
  lemma WrittenOnExit(ss: seq<State>, steps: seq<Step>, t: nat, u: nat)
    requires Run(ss, steps) && t < u < |ss| && steps[t].SignalStop? && !ss[t].stop && ss[u].consumer.Exited?
    ensures ss[t].accepted <= ss[u].written <= ss[u].accepted
  {
    InvHolds(ss, steps, u);
    BeforeIsFixed(ss, steps, t, u);
  }

  // ----- the consumer does exit

  predicate Consumes(a: Step) {
    a.Wait? || a.Steal? || a.Write? || a.Drained?
  }

  /** After a stop the consumer can always take a step until it has exited. */
  lemma ConsumerGoesOn(s: State) returns (a: Step, s': State)
    requires s.stop && !s.consumer.Exited?
    ensures Consumes(a) && Next(s, a, s')
  {
    match s.consumer
    case Waiting => a, s' := Wait(false), s.(consumer := Woke(true));
    case Woke(term) => a, s' := Steal, s.(queue := [], consumer := Writing(s.queue, term));
    case LastSteal => a, s' := Steal, s.(queue := [], consumer := LastWriting(s.queue));
    case Writing(rest, term) =>
      if rest == [] {
        a, s' := Drained, s.(consumer := if term then LastSteal else Waiting);
      } else {
        a, s' := Write, s.(written := s.written + [rest[0]], consumer := Writing(rest[1..], term));
      }
    case LastWriting(rest) =>
      if rest == [] {
        a, s' := Drained, s.(consumer := Exited);
      } else {
        a, s' := Write, s.(written := s.written + [rest[0]], consumer := LastWriting(rest[1..]));
      }
  }

  /** The consumer's way to the exit, and what it still has to write. */
  function Distance(s: State): nat {
    |Stolen(s.consumer)| + |s.queue| +
    match s.consumer
    case Woke(false) => 7
    case Writing(_, false) => 6
    case Waiting => 5
    case Woke(true) => 4
    case Writing(_, true) => 3
    case LastSteal => 2
    case LastWriting(_) => 1
    case Exited => 0
  }

  lemma StopEnds(s: State, a: Step, s': State)
    requires s.stop && Next(s, a, s')
    ensures s'.stop && Distance(s') <= Distance(s) + (if a.Push? then 1 else 0)
    ensures Consumes(a) ==> Distance(s') < Distance(s)
  {}
}

/** The logger's objects: each step of the protocol on the queue, the events and the log. */
module Logger {
  import opened LoggerQueue
  import opened LoggerProtocol

  /** Where the consumer thread is. */
  datatype Phase = AtWait | AtSteal | AtWrite | AtEnd

  lemma MessagesFrom(items: seq<BufferCursor>, i: nat)
    requires i < |items|
    ensures Messages(items[i..]) == [items[i].data] + Messages(items[i + 1..])
  {
    assert items[i..][1..] == items[i + 1..];
  }

  lemma {:induction false} MessagesMore(items: seq<BufferCursor>, node: BufferCursor)
    ensures Messages(items + [node]) == Messages(items) + [node.data] && (Messages(items) == [] <==> items == [])
  {
    if items == [] {
      assert items + [node] == [node];
    } else {
      MessagesMore(items[1..], node);
      assert (items + [node])[1..] == items[1..] + [node];
    }
  }

  lemma PushIsNext(s: State, p: nat, m: Bytes, s': State)
    requires p < |s.producers| && s.producers[p].Ready? && m != []
    requires s' == s.(queue := s.queue + [m], accepted := s.accepted + [m],
                      producers := if s.queue == [] then s.producers[p := OwesWake] else s.producers)
    ensures Next(s, Step.Push(p, m), s')
  {}

  lemma StealIsNext(s: State, s': State)
    requires s.consumer.Woke? || s.consumer.LastSteal?
    requires s' == s.(queue := [], consumer := if s.consumer.LastSteal? then LastWriting(s.queue)
                                               else Writing(s.queue, s.consumer.term))
    ensures Next(s, Step.Steal, s')
  {}

  class LoggerImpl {
    const queue: BufferQueue
    const stream: Stream
    var wakeEvent: bool
    var stopEvent: bool
    var producers: seq<Producer>
    var phase: Phase
    /** The stop event has been seen; the loop has been left. */
    var term: bool
    var leaving: bool
    /** The stolen queue, and the next message of it to write, its message number `done`. */
    var taken: BufferQueue
    var cursor: BufferCursor?
    ghost var done: nat
    ghost var accepted: seq<Bytes>
    ghost var before: seq<Bytes>
    /** All that the logger has ever referred to. */
    ghost var repr: set<object>

    ghost predicate Valid()
      reads `phase, `term, `leaving, `taken, `cursor, `done, `repr, queue, taken, queue.items, taken.items
    {
      && queue.Valid() && taken.Valid() && queue != taken
      && (forall n :: n in queue.items ==> n !in taken.items)
      && done <= |taken.items| && cursor == (if done < |taken.items| then taken.items[done] else null)
      && (phase != AtWrite ==> done == |taken.items|) && (phase == AtWait ==> !term && !leaving)
      && {this, queue, taken, stream} <= repr
      && (forall n :: n in queue.items ==> n in repr) && (forall n :: n in taken.items ==> n in repr)
    }

    lemma InRange()
      requires Valid()
      ensures done <= |taken.items| && {this, queue, taken, stream} <= repr && forall n :: n in queue.items ==> n in repr
    {}

    ghost function Place(): Consumer
      reads this, taken
      requires done <= |taken.items|
    {
      match phase
      case AtWait => Waiting
      case AtSteal => if leaving then LastSteal else Woke(term)
      case AtWrite =>
        if leaving then LastWriting(Messages(taken.items[done..])) else Writing(Messages(taken.items[done..]), term)
      case AtEnd => Exited
    }

    ghost function Abs(): State
      reads this, queue, taken, stream
      requires done <= |taken.items|
    {
      State(Messages(queue.items), wakeEvent, stopEvent, producers, Place(), stream.written, accepted, before)
    }

    constructor (n: nat)
      ensures Valid() && fresh(repr)
      ensures Initial(Abs()) && |producers| == n
    {
      queue := new BufferQueue();
      stream := new Stream();
      taken := new BufferQueue();
      wakeEvent, stopEvent, producers := false, false, seq(n, _ => Ready);
      phase, term, leaving, cursor := AtWait, false, false, null;
      done, accepted, before := 0, [], [];
      new;
      repr := {this, queue, taken, stream};
    }

    method Enqueue(m: Bytes) returns (wasFirst: bool)
      requires Valid()
      modifies this`repr, queue, queue.items
      ensures Valid() && fresh(repr - old(repr)) && wasFirst == (old(Messages(queue.items)) == [])
      ensures Messages(queue.items) == old(Messages(queue.items)) + [m] && taken.items == old(taken.items)
    {
      hide Linked, Messages;
      var node := new BufferCursor(m);
      MessagesMore(queue.items, node);
      wasFirst := queue.PushBack(node);
      StaysLinked(taken.items);
      repr := repr + {node};
    }

    /** push: an empty message is not queued. */
    method Push(p: nat, m: Bytes)
      requires Valid() && p < |producers| && producers[p].Ready?
      modifies repr
      ensures Valid() && fresh(repr - old(repr))
      ensures if m != [] then Next(old(Abs()), Step.Push(p, m), Abs()) else Abs() == old(Abs())
    {
      hide Valid, Messages, Next;
      InRange();
      if m == [] { return; }
      ghost var s := Abs();
      var wasFirst := Enqueue(m);
      InRange();
      if wasFirst {
        producers := producers[p := OwesWake];
      }
      accepted := accepted + [m];
      PushIsNext(s, p, m, Abs());
    }

    /** The end of push, after the queue was found empty. */
    method SetWake(p: nat)
      requires Valid() && p < |producers| && producers[p].OwesWake?
      modifies this
      ensures Valid() && repr == old(repr) && Next(old(Abs()), Step.SetWake(p), Abs())
    {
      wakeEvent, producers := true, producers[p := Ready];
    }

    /** stop, up to the wait for the thread. */
    method SignalStop()
      requires Valid()
      modifies this
      ensures Valid() && repr == old(repr) && Next(old(Abs()), Step.SignalStop, Abs())
    {
      before := if stopEvent then before else accepted;
      stopEvent := true;
    }

    /** The wait for the stop event, the wake event, or a minute. */
    method Wait() returns (timeout: bool)
      requires Valid() && phase == AtWait
      modifies this
      ensures Valid() && repr == old(repr) && timeout == (!old(stopEvent) && !old(wakeEvent))
      ensures Next(old(Abs()), Step.Wait(timeout), Abs())
    {
      timeout := false;
      if stopEvent {
        term := true;
      } else if wakeEvent {
        wakeEvent := false;
      } else {
        timeout := true;
      }
      phase := AtSteal;
    }

    method TakeQueue()
      requires Valid()
      modifies this`taken, this`cursor, this`done, this`phase, this`repr, queue
      ensures Valid() && fresh(repr - old(repr)) && done == 0 && phase == AtWrite
      ensures taken.items == old(queue.items) && queue.items == []
    {
      hide Messages, Linked;
      taken := new BufferQueue();
      repr := repr + {taken};
      queue.Steal(taken);
      cursor, done, phase := taken.first, 0, AtWrite;
    }

    /** The start of consumer_drain. */
    method Steal()
      requires Valid() && phase == AtSteal
      modifies repr
      ensures Valid() && fresh(repr - old(repr)) && phase == AtWrite && leaving == old(leaving)
      ensures Next(old(Abs()), Step.Steal, Abs())
    {
      hide Valid, Next;
      InRange();
      ghost var s := Abs();
      TakeQueue();
      InRange();
      assert taken.items[0..] == taken.items;
      StealIsNext(s, Abs());
    }

    /** One message of the loop of consumer_drain. */
    method Write()
      requires Valid() && phase == AtWrite && cursor != null
      modifies this, stream
      ensures Valid() && repr == old(repr) && phase == AtWrite && taken == old(taken) && done == old(done) + 1
      ensures leaving == old(leaving)
      ensures Next(old(Abs()), Step.Write, Abs())
    {
      hide Messages;
      MessagesFrom(taken.items, done);
      assert done + 1 < |taken.items| ==> taken.items[done].next == taken.items[done + 1];
      stream.written := stream.written + [cursor.data];
      cursor, done := cursor.next, done + 1;
    }

    /** The end of that loop. */
    method Drained()
      requires Valid() && phase == AtWrite && cursor == null
      modifies this
      ensures Valid() && repr == old(repr) && Next(old(Abs()), Step.Drained, Abs())
    {
      if leaving {
        phase := AtEnd;
      } else if term {
        phase, leaving := AtSteal, true;
      } else {
        phase := AtWait;
      }
    }

    /** consumer_drain, when nothing comes in between: everything in the queue is written, once and in order. */
    method ConsumerDrain()
      requires Valid() && phase == AtSteal
      modifies repr
      ensures Valid() && fresh(repr - old(repr))
      ensures Messages(queue.items) == [] && stream.written == old(stream.written) + old(Messages(queue.items))
    {
      hide Valid, Messages;
      InRange();
      ghost var all := stream.written + Messages(queue.items);
      Steal();
      InRange();
      while cursor != null
        invariant Valid() && phase == AtWrite && fresh(repr - old(repr)) && {this, stream} <= repr
        invariant done <= |taken.items| && Messages(queue.items) == []
        invariant stream.written + Messages(taken.items[done..]) == all
        decreases |taken.items| - done
      {
        Write();
        InRange();
      }
      NothingLeft();
      Drained();
    }

    lemma NothingLeft()
      requires Valid()
      ensures done <= |taken.items| && (cursor == null <==> Messages(taken.items[done..]) == [])
    {
      if done < |taken.items| { MessagesFrom(taken.items, done); }
    }

    /** One step of a run. */
    method Perform(a: Step, ghost s': State)
      requires Valid() && Next(Abs(), a, s')
      modifies repr
      ensures Valid() && fresh(repr - old(repr)) && Abs() == s'
    {
      InRange();
      NothingLeft();
      ghost var s := Abs();
      hide Valid, Messages;
      match a {
        case Push(p, m) => Push(p, m);
        case SetWake(p) => SetWake(p);
        case SignalStop => SignalStop();
        case Wait(timeout) => var _ := Wait();
        case Steal => Steal();
        case Write => Write();
        case Drained => Drained();
      }
      InRange();
      NextIsUnique(s, a, Abs(), s');
    }
  }

  lemma NextIsUnique(s: State, a: Step, s': State, s'': State)
    requires Next(s, a, s') && Next(s, a, s'')
    ensures s' == s''
  {}

  lemma InitialIsUnique(s: State, s': State)
    requires Initial(s) && Initial(s') && |s.producers| == |s'.producers|
    ensures s == s'
  {}

  /** Any run of the protocol can be carried out, and the log is what the run says: when the consumer has exited, all
      that was accepted before the stop, once and in order. */
  method Execute(steps: seq<Step>, n: nat, ghost ss: seq<State>) returns (written: seq<Bytes>)
    requires Run(ss, steps) && |ss[0].producers| == n
    ensures |ss| == |steps| + 1 && written == ss[|steps|].written
    ensures ss[|steps|].consumer.Exited? ==>
      forall t :: 0 <= t < |steps| && steps[t].SignalStop? && !ss[t].stop ==> ss[t].accepted <= written <= ss[|steps|].accepted
  {
    hide LoggerImpl.Valid, Next;
    var logger := new LoggerImpl(n);
    logger.InRange();
    InitialIsUnique(logger.Abs(), ss[0]);
    for i := 0 to |steps|
      invariant logger.Valid() && fresh(logger.repr)
      invariant logger.done <= |logger.taken.items| && logger.Abs() == ss[i]
    {
      label Turn:
      assert Next(ss[i], steps[i], ss[i + 1]);
      logger.Perform(steps[i], ss[i + 1]);
      logger.InRange();
      forall o | o in logger.repr ensures fresh(o) {
        assert o in old@Turn(logger.repr) || fresh@Turn(o);
      }
    }
    written := logger.stream.written;
    if ss[|steps|].consumer.Exited? {
      forall t | 0 <= t < |steps| && steps[t].SignalStop? && !ss[t].stop
        ensures ss[t].accepted <= written <= ss[|steps|].accepted
      {
        WrittenOnExit(ss, steps, t, |steps|);
      }
    }
  }
}
