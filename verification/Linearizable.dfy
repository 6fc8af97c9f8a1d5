/**
  Threads, the lock and the order of calls: every interleaving of calls is equivalent to a sequential run.
 */
module Linearizable {
  import opened Lines
  import opened DeviceSpec
  import opened WholeRun
  import opened Interleaving

  datatype Thread = Idle | Waiting(call: Call) | Inside

  /** Who has the lock, which call of the log that is, and how far its body has come. */
  datatype Holder = Nobody | Held(tid: nat, turn: nat, body: Body)

  /**
    `log` lists the calls in the order they got the lock, or, for calls that never do, returned, and
    `owners` the threads that made them; `got` holds what each call of the log has returned so far.
   */
  datatype System = System(
    world: World, holder: Holder, threads: map<nat, Thread>,
    log: seq<Call>, owners: seq<nat>, got: map<nat, Reply>)

  const INITIAL := System(START, Nobody, map[], [], [], map[])

  function ThreadOf(s: System, t: nat): Thread {
    if t in s.threads then s.threads[t] else Idle
  }

  datatype Action =
    | Invoke(tid: nat, call: Call)
    | Bounce(tid: nat)
    | Acquire(tid: nat)
    | Work(tid: nat)
    | Release(tid: nat)

  ghost predicate Enabled(s: System, a: Action) {
    match a
    case Invoke(t, _) => ThreadOf(s, t) == Idle
    case Bounce(t) => ThreadOf(s, t).Waiting? && NeverLocks(ThreadOf(s, t).call)
    case Acquire(t) => ThreadOf(s, t).Waiting? && !NeverLocks(ThreadOf(s, t).call) && s.holder == Nobody
    case Work(t) => s.holder.Held? && s.holder.tid == t && !s.holder.body.Finished? && Sane(s.holder.body, s.world)
    case Release(t) => s.holder.Held? && s.holder.tid == t && s.holder.body.Finished?
  }

  ghost function Perform(s: System, a: Action): System
    requires Enabled(s, a)
  {
    match a
    case Invoke(t, c) => s.(threads := s.threads[t := Waiting(c)])
    case Bounce(t) =>
      var c := ThreadOf(s, t).call;
      s.(threads := s.threads[t := Idle], log := s.log + [c], owners := s.owners + [t],
         got := s.got[|s.log| := EarlyReturn(c)])
    case Acquire(t) =>
      var c := ThreadOf(s, t).call;
      s.(threads := s.threads[t := Inside], log := s.log + [c], owners := s.owners + [t],
         holder := Held(t, |s.log|, Enter(c, s.world)))
    case Work(t) =>
      var (b, w) := Step(s.holder.body, s.world);
      s.(world := w, holder := s.holder.(body := b))
    case Release(t) =>
      s.(threads := s.threads[t := Idle], holder := Nobody, got := s.got[s.holder.turn := s.holder.body.reply])
  }

  ghost predicate Execution(run: seq<System>, actions: seq<Action>) {
    && |run| == |actions| + 1
    && run[0] == INITIAL
    && forall i :: 0 <= i < |actions| ==> Enabled(run[i], actions[i]) && run[i + 1] == Perform(run[i], actions[i])
  }

  // ----- the invariant -----

  ghost predicate OneInside(s: System) {
    && (forall t :: t in s.threads && s.threads[t].Inside? ==> s.holder.Held? && s.holder.tid == t)
    && (s.holder.Held? ==> s.holder.tid in s.threads && s.threads[s.holder.tid].Inside?)
  }

  /** Every call of the log but the one under way has returned what the sequential run returns. */
  ghost predicate RepliesAgree(s: System) {
    && (forall i :: i in s.got ==> i < |s.log| && s.got[i] == Replies(START, s.log)[i])
    && (forall i :: 0 <= i < |s.log| && i !in s.got ==> s.holder.Held? && s.holder.turn == i)
  }

  /** The state is the sequential run's, or will be once the call under way is through. */
  ghost predicate WorldAgrees(s: System) {
    match s.holder
    case Nobody => s.world == After(START, s.log)
    case Held(_, turn, body) =>
      && turn < |s.log| && turn !in s.got
      && (forall j :: turn < j < |s.log| ==> NeverLocks(s.log[j]))
      && Sane(body, s.world)
      && Outcome(body, s.world) == Apply(After(START, s.log[..turn]), s.log[turn])
  }

  ghost predicate Good(s: System) {
    OneInside(s) && RepliesAgree(s) && WorldAgrees(s)
  }

  lemma NoLockNoEffect(c: Call, w: World)
    requires NeverLocks(c)
    ensures Apply(w, c) == (w, EarlyReturn(c))
  {
  }

  lemma LongerLog(log: seq<Call>, c: Call)
    ensures After(START, log + [c]) == Apply(After(START, log), c).0
    ensures Replies(START, log + [c]) == Replies(START, log) + [Apply(After(START, log), c).1]
  {
    var longer := log + [c];
    assert longer[..|log|] == log;
    forall i | 0 <= i < |log| ensures Replies(START, longer)[i] == Replies(START, log)[i] {
      assert longer[..i] == log[..i];
    }
  }

  lemma {:induction false} IdleTail(log: seq<Call>, n: nat)
    requires n <= |log| && forall j :: n <= j < |log| ==> NeverLocks(log[j])
    ensures After(START, log) == After(START, log[..n])
  {
    if n == |log| {
      assert log[..n] == log;
    } else {
      var short := log[..|log| - 1];
      IdleTail(short, n);
      assert short[..n] == log[..n];
      NoLockNoEffect(log[|log| - 1], After(START, short));
    }
  }

  lemma BounceReplies(s: System, t: nat)
    requires Good(s) && Enabled(s, Bounce(t))
    ensures RepliesAgree(Perform(s, Bounce(t)))
  {
    hide Apply, WorldAgrees, OneInside, EarlyReturn, After, Replies;
    var c := ThreadOf(s, t).call;
    LongerLog(s.log, c);
    NoLockNoEffect(c, After(START, s.log));
  }

  lemma BounceWorld(s: System, t: nat)
    requires Good(s) && Enabled(s, Bounce(t))
    ensures WorldAgrees(Perform(s, Bounce(t)))
  {
    hide Apply, Outcome, Sane, OneInside, EarlyReturn, After, Replies;
    var c := ThreadOf(s, t).call;
    LongerLog(s.log, c);
    NoLockNoEffect(c, After(START, s.log));
    if s.holder.Held? {
      assert (s.log + [c])[..s.holder.turn] == s.log[..s.holder.turn];
    }
  }

  lemma BounceKeeps(s: System, t: nat)
    requires Good(s) && Enabled(s, Bounce(t))
    ensures Good(Perform(s, Bounce(t)))
  {
    hide WorldAgrees, RepliesAgree;
    BounceReplies(s, t);
    BounceWorld(s, t);
  }

  lemma AcquireReplies(s: System, t: nat)
    requires Good(s) && Enabled(s, Acquire(t))
    ensures RepliesAgree(Perform(s, Acquire(t)))
  {
    hide Apply, OneInside, Enter, After, Replies;
    LongerLog(s.log, ThreadOf(s, t).call);
  }

  lemma AcquireWorld(s: System, t: nat)
    requires Good(s) && Enabled(s, Acquire(t))
    ensures WorldAgrees(Perform(s, Acquire(t)))
  {
    hide Apply, Outcome, Sane, Enter, After, Replies, WellFormed, OneInside;
    var c := ThreadOf(s, t).call;
    RunConserves(s.log);
    EnterIsSane(c, s.world);
    assert (s.log + [c])[..|s.log|] == s.log;
  }

  lemma AcquireKeeps(s: System, t: nat)
    requires Good(s) && Enabled(s, Acquire(t))
    ensures Good(Perform(s, Acquire(t)))
  {
    hide WorldAgrees, RepliesAgree, Enter;
    AcquireReplies(s, t);
    AcquireWorld(s, t);
  }

  lemma WorkKeeps(s: System, t: nat)
    requires Good(s) && Enabled(s, Work(t))
    ensures Good(Perform(s, Work(t)))
  {
    hide Apply, Outcome, Sane, Step, StepsLeft, After, Replies, NeverLocks;
    StepKeepsOutcome(s.holder.body, s.world);
  }

  lemma ReleaseKeeps(s: System, t: nat)
    requires Good(s) && Enabled(s, Release(t))
    ensures Good(Perform(s, Release(t)))
  {
    hide Apply, Sane, Replies;
    var n := s.holder.turn;
    RunNext(START, s.log, n);
    assert Outcome(s.holder.body, s.world) == (s.world, s.holder.body.reply);
    IdleTail(s.log, n + 1);
  }

  lemma ActionKeeps(s: System, a: Action)
    requires Good(s) && Enabled(s, a)
    ensures Good(Perform(s, a))
  {
    match a {
      case Invoke(t, c) =>
      case Bounce(t) => BounceKeeps(s, t);
      case Acquire(t) => AcquireKeeps(s, t);
      case Work(t) => WorkKeeps(s, t);
      case Release(t) => ReleaseKeeps(s, t);
    }
  }

  /** Every state of every execution is good. */
  lemma {:induction false} AlwaysGood(run: seq<System>, actions: seq<Action>)
    requires Execution(run, actions)
    ensures forall i :: 0 <= i < |run| ==> Good(run[i])
  {
    if actions == [] {
      assert Good(INITIAL);
    } else {
      var n := |actions| - 1;
      AlwaysGood(run[..n + 1], actions[..n]);
      assert run[n] == run[..n + 1][n];
      ActionKeeps(run[n], actions[n]);
      assert forall i :: 0 <= i < n + 1 ==> run[i] == run[..n + 1][i];
    }
  }

  // ----- what the threads call is what is logged -----

  /** The calls that thread `t` makes in `actions`. */
  ghost function Invoked(actions: seq<Action>, t: nat): seq<Call> {
    if actions == [] then []
    else
      var n := |actions| - 1;
      Invoked(actions[..n], t) + (if actions[n].Invoke? && actions[n].tid == t then [actions[n].call] else [])
  }

  /** The calls of the log that thread `t` made. */
  ghost function LoggedBy(log: seq<Call>, owners: seq<nat>, t: nat): seq<Call>
    requires |log| == |owners|
  {
    if log == [] then []
    else
      var n := |log| - 1;
      LoggedBy(log[..n], owners[..n], t) + (if owners[n] == t then [log[n]] else [])
  }

  lemma LoggedNext(log: seq<Call>, owners: seq<nat>, c: Call, u: nat, t: nat)
    requires |log| == |owners|
    ensures LoggedBy(log + [c], owners + [u], t) == LoggedBy(log, owners, t) + (if u == t then [c] else [])
  {
    assert (log + [c])[..|log|] == log && (owners + [u])[..|log|] == owners;
  }

  /** The call that thread `t` has made and that is not in the log yet. */
  ghost function Outstanding(s: System, t: nat): seq<Call> {
    match ThreadOf(s, t)
    case Waiting(c) => [c]
    case _ => []
  }

  lemma ActionKeepsOrder(s: System, a: Action, t: nat, calls: seq<Call>)
    requires Enabled(s, a) && OneInside(s)
    requires |s.log| == |s.owners| && LoggedBy(s.log, s.owners, t) + Outstanding(s, t) == calls
    ensures var after := Perform(s, a);
            && |after.log| == |after.owners|
            && LoggedBy(after.log, after.owners, t) + Outstanding(after, t)
               == calls + (if a.Invoke? && a.tid == t then [a.call] else [])
  {
    hide LoggedBy, Step, Enter, Sane;
    if a.Bounce? || a.Acquire? {
      LoggedNext(s.log, s.owners, ThreadOf(s, a.tid).call, a.tid, t);
    }
  }

  /**
    In every execution each thread's calls take effect once each, in the order the thread makes them;
    at most the last has still to.
   */
  lemma {:induction false} ThreadsKeepOrder(run: seq<System>, actions: seq<Action>, i: nat, t: nat)
    requires Execution(run, actions) && i < |run|
    ensures |run[i].log| == |run[i].owners|
    ensures LoggedBy(run[i].log, run[i].owners, t) + Outstanding(run[i], t) == Invoked(actions[..i], t)
  {
    if i == 0 {
      assert actions[..0] == [];
    } else {
      ThreadsKeepOrder(run, actions, i - 1, t);
      AlwaysGood(run, actions);
      hide Perform, Enabled, LoggedBy, Outstanding, RepliesAgree, WorldAgrees;
      assert run[i - 1 + 1] == Perform(run[i - 1], actions[i - 1]);
      ActionKeepsOrder(run[i - 1], actions[i - 1], t, Invoked(actions[..i - 1], t));
      assert actions[..i][..i - 1] == actions[..i - 1];
    }
  }

  // ----- what callers can rely on -----

  /**
    Whenever the lock is free, the log holds every call that any thread has made and that does not wait,
    device and file positions are those of these calls run whole in log order, every one has returned
    what it returns there, and the stream is the accepted writes, each in one piece.
   */
  lemma FreeMeansSequential(run: seq<System>, actions: seq<Action>, i: nat)
    requires Execution(run, actions) && i < |run| && run[i].holder == Nobody
    ensures |run[i].log| == |run[i].owners|
    ensures forall t: nat ::
              LoggedBy(run[i].log, run[i].owners, t) + Outstanding(run[i], t) == Invoked(actions[..i], t)
    ensures run[i].world == After(START, run[i].log)
    ensures forall k :: 0 <= k < |run[i].log| ==> k in run[i].got && run[i].got[k] == Replies(START, run[i].log)[k]
    ensures WellFormed(run[i].world.device) && Stream(run[i].world.device) == Accepted(run[i].log)
  {
    AlwaysGood(run, actions);
    hide Enabled, Perform, LoggedBy, Outstanding, Invoked;
    RunConserves(run[i].log);
    ThreadsKeepOrder(run, actions, i, 0);
    forall t: nat {
      ThreadsKeepOrder(run, actions, i, t);
    }
  }

  /**
    At any moment every call that has returned has returned what the sequential run gives it, at most one
    thread is under the lock, and the one that is can go on: each of its steps brings the release nearer.
   */
  lemma HolderProceeds(run: seq<System>, actions: seq<Action>, i: nat)
    requires Execution(run, actions) && i < |run|
    ensures forall k :: k in run[i].got ==> k < |run[i].log| && run[i].got[k] == Replies(START, run[i].log)[k]
    ensures forall t, u :: ThreadOf(run[i], t) == Inside && ThreadOf(run[i], u) == Inside ==> t == u
    ensures run[i].holder.Held? ==>
              var t, b := run[i].holder.tid, run[i].holder.body;
              if b.Finished? then Enabled(run[i], Release(t))
              else
                && Enabled(run[i], Work(t))
                && var (b', w') := Step(b, run[i].world);
                   StepsLeft(b', w') < StepsLeft(b, run[i].world)
  {
    AlwaysGood(run, actions);
    var h := run[i].holder;
    if h.Held? && !h.body.Finished? {
      StepKeepsOutcome(h.body, run[i].world);
    }
  }

  /** How many stages a thread still has before its call has returned. */
  function Stages(th: Thread): nat {
    match th
    case Idle => 0
    case Inside => 1
    case Waiting(_) => 2
  }

  ghost function WorkLeft(s: System): nat {
    match s.holder
    case Nobody => 0
    case Held(_, _, body) => StepsLeft(body, s.world)
  }

  /**
    Every step counts: one that is not a new call takes its thread to a later stage or lowers the steps left
    under the lock, a thread is never inside without the lock, and no step changes another thread.
   */
  lemma StepsCount(run: seq<System>, actions: seq<Action>, i: nat)
    requires Execution(run, actions) && i < |actions|
    ensures var t := actions[i].tid;
            var before, after := Stages(ThreadOf(run[i], t)), Stages(ThreadOf(run[i + 1], t));
            if actions[i].Invoke? then ThreadOf(run[i + 1], t) == Waiting(actions[i].call)
            else after < before || (after == before && WorkLeft(run[i + 1]) < WorkLeft(run[i]))
    ensures forall t :: ThreadOf(run[i], t).Inside? <==> run[i].holder.Held? && run[i].holder.tid == t
    ensures forall u :: u != actions[i].tid ==> ThreadOf(run[i + 1], u) == ThreadOf(run[i], u)
  {
    AlwaysGood(run, actions);
    hide Apply, Outcome, Sane, StepsLeft, Step, Enter, After, Replies, NeverLocks, RepliesAgree;
    assert Enabled(run[i], actions[i]);
    if actions[i].Work? {
      StepKeepsOutcome(run[i].holder.body, run[i].world);
    }
  }

  /** Nobody is stuck: a thread can call, and a call can return early or get the lock once it is free. */
  lemma WaitersProceed(s: System, t: nat, c: Call)
    ensures ThreadOf(s, t) == Idle ==> Enabled(s, Invoke(t, c))
    ensures ThreadOf(s, t).Waiting? && NeverLocks(ThreadOf(s, t).call) ==> Enabled(s, Bounce(t))
    ensures ThreadOf(s, t).Waiting? && !NeverLocks(ThreadOf(s, t).call) && s.holder == Nobody ==> Enabled(s, Acquire(t))
  {
  }
}
