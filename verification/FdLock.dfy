/** The per-descriptor locks of libsrc/clnt_dg.c: a flag and a condition variable for each descriptor, shared by all
    client handles on it, as steps of threads. What happens under the mutex is one step. */
module FdLock {
  import opened Basics

  /** clnt_dg_call and clnt_dg_control hold the flag; clnt_dg_freeres and clnt_dg_destroy only wait for it to be clear. */
  datatype Kind = Holding | Passing

  datatype Thread =
    | Idle
    | Wanting(fd: nat, kind: Kind)
    | Blocked(fd: nat, kind: Kind)
    | Woken(fd: nat, kind: Kind)
    | Active(fd: nat)
    | Owing(fd: nat)

  /** The threads, and dg_fd_locks. */
  datatype State = State(threads: seq<Thread>, locks: seq<bool>)

  datatype Step =
    | Start(t: nat, fd: nat, kind: Kind)
    | Enter(t: nat)
    | Release(t: nat)
    | Signal(t: nat, woken: Option<nat>)
    | Spurious(t: nat)

  predicate IsBlocked(s: State, t: nat, fd: nat) {
    t < |s.threads| && s.threads[t].Blocked? && s.threads[t].fd == fd
  }

  predicate IsActive(s: State, t: nat, fd: nat) {
    t < |s.threads| && s.threads[t] == Active(fd)
  }

  /** A thread that will test the flag again, or will signal. */
  predicate IsStirring(s: State, t: nat, fd: nat) {
    t < |s.threads| && (s.threads[t].Woken? || s.threads[t].Owing?) && s.threads[t].fd == fd
  }

  predicate WellFormed(s: State) {
    forall t :: 0 <= t < |s.threads| && !s.threads[t].Idle? ==> s.threads[t].fd < |s.locks|
  }

  function Set(s: State, t: nat, to: Thread): State
    requires t < |s.threads|
  {
    s.(threads := s.threads[t := to])
  }

  /** The test of the flag, under the mutex: wait, or go on. */
  function Entered(s: State, t: nat): State
    requires WellFormed(s) && t < |s.threads| && (s.threads[t].Wanting? || s.threads[t].Woken?)
  {
    var me := s.threads[t];
    if s.locks[me.fd] then Set(s, t, Blocked(me.fd, me.kind))
    else if me.kind == Holding then State(s.threads[t := Active(me.fd)], s.locks[me.fd := true])
    else Set(s, t, Owing(me.fd))
  }

  ghost predicate Next(s: State, a: Step, s': State) {
    && WellFormed(s) && a.t < |s.threads|
    && match a
       case Start(t, fd, kind) => s.threads[t].Idle? && fd < |s.locks| && s' == Set(s, t, Wanting(fd, kind))
       case Enter(t) => (s.threads[t].Wanting? || s.threads[t].Woken?) && s' == Entered(s, t)
       case Release(t) =>
         s.threads[t].Active? && s' == State(s.threads[t := Owing(s.threads[t].fd)], s.locks[s.threads[t].fd := false])
       case Signal(t, None) =>
         s.threads[t].Owing? && (forall u: nat :: !IsBlocked(s, u, s.threads[t].fd)) && s' == Set(s, t, Idle)
       case Signal(t, Some(u)) =>
         s.threads[t].Owing? && IsBlocked(s, u, s.threads[t].fd)
         && s' == Set(Set(s, t, Idle), u, Woken(s.threads[u].fd, s.threads[u].kind))
       case Spurious(t) => s.threads[t].Blocked? && s' == Set(s, t, Woken(s.threads[t].fd, s.threads[t].kind))
  }

  predicate Initial(s: State) {
    (forall t :: 0 <= t < |s.threads| ==> s.threads[t].Idle?) && (forall f :: 0 <= f < |s.locks| ==> !s.locks[f])
  }

  ghost predicate Run(ss: seq<State>, steps: seq<Step>) {
    && |ss| == |steps| + 1 && Initial(ss[0])
    && forall i, j :: 0 <= i < |steps| && j == i + 1 ==> Next(ss[i], steps[i], ss[j])
  }

  /** A flag is set exactly while one call is active on the descriptor. */
  ghost predicate Exclusive(s: State) {
    && (forall f: nat, t: nat, u: nat :: IsActive(s, t, f) && IsActive(s, u, f) ==> t == u)
    && (forall f :: 0 <= f < |s.locks| ==> (s.locks[f] <==> exists t: nat :: IsActive(s, t, f)))
  }

  /** Nobody is left waiting for a clear flag. */
  ghost predicate NoneStranded(s: State) {
    forall f: nat, t: nat :: IsBlocked(s, t, f) && f < |s.locks| && !s.locks[f] ==> exists u: nat :: IsStirring(s, u, f)
  }

  ghost predicate Inv(s: State) {
    WellFormed(s) && Exclusive(s) && NoneStranded(s)
  }

  lemma ActiveStep(s: State, a: Step, s': State, t: nat, f: nat)
    requires WellFormed(s) && Exclusive(s) && Next(s, a, s') && f < |s.locks|
    ensures IsActive(s', t, f) ==> s'.locks[f] && (IsActive(s, t, f) || (a == Enter(t) && !s.locks[f]))
  {
    if IsActive(s', t, f) && IsActive(s, t, f) {
      assert a.Release? && s.threads[a.t].fd == f ==> IsActive(s, a.t, f);
    }
  }

  lemma ExclusiveStep(s: State, a: Step, s': State)
    requires WellFormed(s) && Exclusive(s) && Next(s, a, s')
    ensures WellFormed(s') && Exclusive(s')
  {
    forall f: nat, t: nat, u: nat | IsActive(s', t, f) && IsActive(s', u, f)
      ensures t == u
    {
      ActiveStep(s, a, s', t, f);
      ActiveStep(s, a, s', u, f);
    }
    forall f | 0 <= f < |s'.locks|
      ensures s'.locks[f] <==> exists t: nat :: IsActive(s', t, f)
    {
      if s'.locks[f] {
        if s.locks[f] {
          var t: nat :| IsActive(s, t, f);
          assert IsActive(s', t, f);
        } else {
          assert IsActive(s', a.t, f);
        }
      }
      forall t: nat | IsActive(s', t, f)
        ensures s'.locks[f]
      {
        ActiveStep(s, a, s', t, f);
      }
    }
  }

  lemma NoneStrandedStep(s: State, a: Step, s': State)
    requires Inv(s) && Next(s, a, s')
    ensures NoneStranded(s')
  {
    forall f: nat, t: nat | IsBlocked(s', t, f) && f < |s'.locks| && !s'.locks[f]
      ensures exists u: nat :: IsStirring(s', u, f)
    {
      if IsBlocked(s, t, f) && !s.locks[f] {
        var u: nat :| IsStirring(s, u, f);
        if !IsStirring(s', u, f) {
          assert IsStirring(s', a.woken.value, f);
        }
      } else {
        assert IsStirring(s', a.t, f);
      }
    }
  }

  /** In every interleaving at most one call is active on a descriptor, its flag says so, and no waiter is stranded. */
  lemma {:induction false} InvHolds(ss: seq<State>, steps: seq<Step>, i: nat)
    requires Run(ss, steps) && i < |ss|
    ensures Inv(ss[i])
  {
    if i > 0 {
      InvHolds(ss, steps, i - 1);
      assert Next(ss[i - 1], steps[i - 1], ss[i]);
      ExclusiveStep(ss[i - 1], steps[i - 1], ss[i]);
      NoneStrandedStep(ss[i - 1], steps[i - 1], ss[i]);
    }
  }

  // ----- progress

  /** Steps the threads and the system take by themselves. */
  predicate Progress(a: Step) {
    a.Enter? || a.Release? || a.Signal?
  }

  ghost predicate Enabled(s: State, a: Step) {
    exists s' :: Next(s, a, s')
  }

  /** As long as some thread is not idle, some thread can go on. */
  lemma NoDeadlock(s: State, t: nat) returns (a: Step)
    requires Inv(s) && t < |s.threads| && !s.threads[t].Idle?
    ensures Progress(a) && Enabled(s, a)
  {
    var me := s.threads[t];
    if me.Blocked? {
      assert IsBlocked(s, t, me.fd);
      if s.locks[me.fd] {
        var u: nat :| IsActive(s, u, me.fd);
        a := Release(u);
        assert Next(s, a, State(s.threads[u := Owing(s.threads[u].fd)], s.locks[s.threads[u].fd := false]));
      } else {
        var u: nat :| IsStirring(s, u, me.fd);
        a := MoverStep(s, u);
      }
    } else {
      a := MoverStep(s, t);
    }
  }

  lemma MoverStep(s: State, t: nat) returns (a: Step)
    requires WellFormed(s) && t < |s.threads| && !s.threads[t].Idle? && !s.threads[t].Blocked?
    ensures Progress(a) && Enabled(s, a)
  {
    var me := s.threads[t];
    match me
    case Wanting(_, _) => a := Enter(t); assert Next(s, a, Entered(s, t));
    case Woken(_, _) => a := Enter(t); assert Next(s, a, Entered(s, t));
    case Active(f) =>
      a := Release(t);
      assert Next(s, a, State(s.threads[t := Owing(f)], s.locks[f := false]));
    case Owing(f) =>
      if exists u: nat :: IsBlocked(s, u, f) {
        var u: nat :| IsBlocked(s, u, f);
        a := Signal(t, Some(u));
        assert Next(s, a, Set(Set(s, t, Idle), u, Woken(s.threads[u].fd, s.threads[u].kind)));
      } else {
        a := Signal(t, None);
        assert Next(s, a, Set(s, t, Idle));
      }
  }

  function Weight(t: Thread): nat {
    match t
    case Idle => 0
    case Owing(_) => 2
    case Active(_) => 3
    case Blocked(_, _) => 3
    case Woken(_, _) => 4
    case Wanting(_, _) => 5
  }

  function Total(ts: seq<Thread>): nat {
    if ts == [] then 0 else Weight(ts[0]) + Total(ts[1..])
  }

  lemma {:induction false} TotalOfUpdate(ts: seq<Thread>, t: nat, to: Thread)
    requires t < |ts|
    ensures Total(ts[t := to]) == Total(ts) - Weight(ts[t]) + Weight(to)
  {
    if t > 0 {
      TotalOfUpdate(ts[1..], t - 1, to);
      assert ts[t := to][1..] == ts[1..][t - 1 := to];
    } else {
      assert ts[t := to][1..] == ts[1..];
    }
  }

  lemma StepWeight(s: State, a: Step, s': State)
    requires Next(s, a, s')
    ensures Progress(a) ==> Total(s'.threads) < Total(s.threads)
    ensures a.Start? ==> Total(s'.threads) == Total(s.threads) + 5
    ensures a.Spurious? ==> Total(s'.threads) == Total(s.threads) + 1
  {
    TotalOfUpdate(s.threads, a.t, s'.threads[a.t]);
    if a.Signal? && a.woken.Some? {
      TotalOfUpdate(s.threads, a.t, Idle);
      var u := a.woken.value;
      TotalOfUpdate(s.threads[a.t := Idle], u, Woken(s.threads[u].fd, s.threads[u].kind));
    }
  }

  function Count(steps: seq<Step>, starts: bool): nat {
    if steps == [] then 0
    else
      var a := steps[|steps| - 1];
      Count(steps[..|steps| - 1], starts) + if (if starts then a.Start? else a.Spurious?) then 1 else 0
  }

  function CountProgress(steps: seq<Step>): nat {
    if steps == [] then 0
    else CountProgress(steps[..|steps| - 1]) + if Progress(steps[|steps| - 1]) then 1 else 0
  }

  /** A run takes at most five steps for every operation started, and one for every spurious wake-up. So it does not go
      on for ever by itself, and by NoDeadlock it ends only when every operation has completed. */
  lemma {:induction false} BoundedProgress(ss: seq<State>, steps: seq<Step>)
    requires Run(ss, steps)
    ensures CountProgress(steps) + Total(ss[|steps|].threads) <= 5 * Count(steps, true) + Count(steps, false)
  {
    if steps == [] {
      IdleWeight(ss[0].threads);
    } else {
      var n := |steps| - 1;
      assert Next(ss[n], steps[n], ss[n + 1]);
      StepWeight(ss[n], steps[n], ss[n + 1]);
      BoundedProgress(ss[..n + 1], steps[..n]);
    }
  }

  lemma {:induction false} IdleWeight(ts: seq<Thread>)
    requires forall t :: 0 <= t < |ts| ==> ts[t].Idle?
    ensures Total(ts) == 0
  {
    if ts != [] { IdleWeight(ts[1..]); }
  }

  /** Where a run cannot go on by itself, every operation has completed. */
  lemma CompletedWhenStill(ss: seq<State>, steps: seq<Step>, t: nat)
    requires Run(ss, steps) && t < |ss[|steps|].threads|
    requires forall a :: Progress(a) ==> !Enabled(ss[|steps|], a)
    ensures ss[|steps|].threads[t].Idle?
  {
    InvHolds(ss, steps, |steps|);
    if !ss[|steps|].threads[t].Idle? {
      var a := NoDeadlock(ss[|steps|], t);
    }
  }
}
