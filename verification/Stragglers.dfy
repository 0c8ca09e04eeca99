/**
 The process-wide list of abandoned check threads: swept and extended after every budgeted run,
 joined once at exit.
 */
module Stragglers {
  import opened Options
  import opened Sorting

  /** One short grace period, shared by all threads joined at exit. */
  const EXIT_GRACE: real := 0.25

  /** When every thread ends, if ever, and how long the process is delayed before its n-th step. */
  datatype World = World(ends: nat -> Option<real>, delay: nat -> real) {
    predicate Alive(thread: nat, now: real) {
      ends(thread).None? || now < ends(thread).value
    }

    ghost predicate Forward() {
      forall tick :: 0.0 <= delay(tick)
    }
  }

  /** The list, the time, and how many steps have been taken. */
  datatype Snapshot = Snapshot(stragglers: seq<nat>, now: real, tick: nat) {
    function Later(world: World): Snapshot {
      this.(now := now + world.delay(tick), tick := tick + 1)
    }
  }

  /** The threads found alive, asked one after the other. */
  function Surviving(world: World, s: Snapshot, threads: seq<nat>): (seq<nat>, Snapshot)
    decreases |threads|
  {
    if threads == [] then ([], s)
    else
      var asked := s.Later(world);
      var (rest, after) := Surviving(world, asked, threads[1..]);
      (if world.Alive(threads[0], asked.now) then [threads[0]] + rest else rest, after)
  }

  /** What one budgeted run over these threads leaves behind. */
  function Recorded(world: World, s: Snapshot, threads: seq<nat>): Snapshot {
    var (abandoned, checked) := Surviving(world, s, threads);
    var (kept, swept) := Surviving(world, checked, s.stragglers);
    swept.(stragglers := kept + abandoned)
  }

  /** The first `n` budgeted runs of a process. */
  function After(world: World, start: real, calls: seq<seq<nat>>, n: nat): Snapshot
    requires n <= |calls|
  {
    if n == 0 then Snapshot([], start, 0) else Recorded(world, After(world, start, calls, n - 1), calls[n - 1])
  }

  /** Waiting for a thread that has not ended lasts until it ends or the time is up. */
  function Joined(world: World, thread: nat, now: real, timeout: real): real {
    if !world.Alive(thread, now) then now
    else if world.ends(thread).None? || now + timeout < world.ends(thread).value then now + timeout
    else world.ends(thread).value
  }

  /** Joining against a deadline takes time only up to it, and leaves a thread alive only past it. */
  lemma JoinedInTime(world: World, thread: nat, now: real, deadline: real)
    ensures var back := Joined(world, thread, now, if deadline < now then 0.0 else deadline - now);
      && now <= back && (back == now || back <= deadline)
      && (!world.Alive(thread, back) || deadline <= back)
  {
  }

  ghost predicate EndedBy(world: World, threads: seq<nat>, now: real) {
    forall thread :: thread in threads ==> !world.Alive(thread, now)
  }

  class Registry {
    const world: World
    var stragglers: seq<nat>
    var now: real
    var tick: nat

    constructor (world: World, start: real)
      ensures this.world == world && State() == After(world, start, [], 0)
    {
      this.world := world;
      stragglers, now, tick := [], start, 0;
    }

    function State(): Snapshot
      reads this
    {
      Snapshot(stragglers, now, tick)
    }

    method IsAlive(thread: nat) returns (alive: bool)
      modifies `now, `tick
      ensures State() == old(State()).Later(world)
      ensures alive == world.Alive(thread, now)
    {
      now := now + world.delay(tick);
      tick := tick + 1;
      alive := world.Alive(thread, now);
    }

    method StillAlive(threads: seq<nat>) returns (kept: seq<nat>)
      modifies `now, `tick
      ensures kept == Surviving(world, old(State()), threads).0
      ensures State() == Surviving(world, old(State()), threads).1
    {
      kept := [];
      assert threads[0..] == threads;
      for i := 0 to |threads|
        invariant stragglers == old(stragglers)
        invariant Surviving(world, old(State()), threads).0 == kept + Surviving(world, State(), threads[i..]).0
        invariant Surviving(world, old(State()), threads).1 == Surviving(world, State(), threads[i..]).1
      {
        ghost var before, taken := State(), kept;
        var alive := IsAlive(threads[i]);
        assert threads[i..][0] == threads[i] && threads[i..][1..] == threads[i + 1..];
        ghost var (rest, _) := Surviving(world, State(), threads[i + 1..]);
        assert taken + ([threads[i]] + rest) == (taken + [threads[i]]) + rest;
        if alive {
          kept := kept + [threads[i]];
        }
      }
      assert threads[|threads|..] == [];
    }

    /** After a budgeted run: what outlived it is abandoned, and the list is swept. */
    method Record(threads: seq<nat>)
      modifies this
      ensures State() == Recorded(world, old(State()), threads)
    {
      var abandoned := StillAlive(threads);
      var kept := StillAlive(stragglers);
      stragglers := kept + abandoned;
    }

    /**
     At exit: the list is cleared and every thread on it joined, all against one deadline.
     `waited` is the time spent inside `join`.
     */
    method JoinAtExit() returns (waited: real)
      requires world.Forward()
      modifies this
      ensures stragglers == []
      ensures old(now) <= now
      ensures 0.0 <= waited <= EXIT_GRACE
      ensures forall thread :: thread in old(stragglers) && world.Alive(thread, now) ==> old(now) + EXIT_GRACE <= now
      ensures (forall t :: world.delay(t) == 0.0) ==> now == old(now) + waited
    {
      var threads := StillAlive(stragglers);
      SurvivingMoves(world, old(State()), stragglers);
      SurvivingInNoTime(world, old(State()), stragglers);
      NotKeptHaveEnded(world, old(State()), stragglers);
      hide Surviving, Joined;
      ghost var prompt := forall t :: world.delay(t) == 0.0;
      stragglers := [];
      now := now + world.delay(tick);
      tick := tick + 1;
      var deadline := now + EXIT_GRACE;
      ghost var begun := now;
      waited := 0.0;
      for i := 0 to |threads|
        invariant stragglers == []
        invariant old(now) <= begun <= now
        invariant 0.0 <= waited <= now - begun
        invariant waited <= EXIT_GRACE
        invariant deadline <= now || EndedBy(world, threads[..i], now)
        invariant prompt ==> now == old(now) + waited
        invariant forall thread :: thread in old(stragglers) && thread !in threads ==> !world.Alive(thread, now)
      {
        assert threads[..i + 1] == threads[..i] + [threads[i]];
        now := now + world.delay(tick);
        tick := tick + 1;
        var timeout := if deadline < now then 0.0 else deadline - now;
        JoinedInTime(world, threads[i], now, deadline);
        var back := Joined(world, threads[i], now, timeout);
        waited := waited + (back - now);
        now := back;
      }
      assert threads[..|threads|] == threads;
    }
  }

  // ---- Over whole runs --------------------------------------------------------------------------

  /** Time only moves forward, and a thread found alive was alive when asking began. */
  lemma {:induction false} SurvivingMoves(world: World, s: Snapshot, threads: seq<nat>)
    requires world.Forward()
    ensures var (kept, after) := Surviving(world, s, threads);
      && s.now <= after.now && after.stragglers == s.stragglers
      && (forall t :: t in kept ==> t in threads && world.Alive(t, s.now))
      && (Distinct(threads) ==> Distinct(kept))
    decreases |threads|
  {
    if threads != [] {
      SurvivingMoves(world, s.Later(world), threads[1..]);
      var (kept, _) := Surviving(world, s.Later(world), threads[1..]);
      assert forall t :: t in kept ==> t in threads[1..];
      if Distinct(threads) {
        assert threads[0] !in threads[1..];
      }
    }
  }

  lemma {:induction false} SurvivingInNoTime(world: World, s: Snapshot, threads: seq<nat>)
    requires world.Forward()
    ensures (forall tick :: world.delay(tick) == 0.0) ==> Surviving(world, s, threads).1.now == s.now
    decreases |threads|
  {
    if threads != [] {
      SurvivingInNoTime(world, s.Later(world), threads[1..]);
    }
  }

  /** A thread alive once asking is over was found alive. */
  lemma {:induction false} AliveSurvives(world: World, s: Snapshot, threads: seq<nat>, thread: nat)
    requires world.Forward() && thread in threads
    requires world.Alive(thread, Surviving(world, s, threads).1.now)
    ensures thread in Surviving(world, s, threads).0
    decreases |threads|
  {
    var asked := s.Later(world);
    SurvivingMoves(world, asked, threads[1..]);
    if thread != threads[0] {
      assert thread in threads[1..];
      AliveSurvives(world, asked, threads[1..], thread);
    }
  }

  lemma NotKeptHaveEnded(world: World, s: Snapshot, threads: seq<nat>)
    requires world.Forward()
    ensures var (kept, after) := Surviving(world, s, threads);
      forall thread :: thread in threads && thread !in kept ==> !world.Alive(thread, after.now)
  {
    var (kept, after) := Surviving(world, s, threads);
    forall thread | thread in threads && world.Alive(thread, after.now) ensures thread in kept {
      AliveSurvives(world, s, threads, thread);
    }
  }

  // ---- Alive when asked -------------------------------------------------------------------------

  /** After `n` more steps. */
  function Steps(world: World, s: Snapshot, n: nat): Snapshot
    decreases n
  {
    if n == 0 then s else Steps(world, s.Later(world), n - 1)
  }

  /** The k-th of some threads, asked one after the other, is kept exactly when it is alive as it is asked. */
  lemma {:induction false} KeptIffAliveWhenAsked(world: World, s: Snapshot, threads: seq<nat>, k: nat)
    requires Distinct(threads) && k < |threads|
    ensures threads[k] in Surviving(world, s, threads).0 <==> world.Alive(threads[k], Steps(world, s, k + 1).now)
    decreases |threads|
  {
    var asked, rest := s.Later(world), threads[1..];
    SurvivorsAreAsked(world, asked, rest);
    if k == 0 {
      assert threads[0] !in rest;
      assert Steps(world, s, 1) == Steps(world, asked, 0) == asked;
    } else {
      assert rest[k - 1] == threads[k];
      KeptIffAliveWhenAsked(world, asked, rest, k - 1);
      hide world.Alive;
    }
  }

  lemma {:induction false} SurvivorsAreAsked(world: World, s: Snapshot, threads: seq<nat>)
    ensures forall t :: t in Surviving(world, s, threads).0 ==> t in threads
    ensures Surviving(world, s, threads).1 == Steps(world, s, |threads|)
    decreases |threads|
  {
    if threads != [] {
      SurvivorsAreAsked(world, s.Later(world), threads[1..]);
    }
  }

  /** A thread of the given ones that is alive at the moment it is asked, asking from `s` on. */
  ghost predicate AliveWhenAsked(world: World, s: Snapshot, threads: seq<nat>, thread: nat) {
    exists k :: 0 <= k < |threads| && threads[k] == thread && world.Alive(thread, Steps(world, s, k + 1).now)
  }

  lemma KeptAreAliveWhenAsked(world: World, s: Snapshot, threads: seq<nat>, thread: nat)
    requires Distinct(threads)
    ensures thread in Surviving(world, s, threads).0 <==> AliveWhenAsked(world, s, threads, thread)
  {
    SurvivorsAreAsked(world, s, threads);
    hide Surviving, Steps, world.Alive;
    if thread in Surviving(world, s, threads).0 {
      var k :| 0 <= k < |threads| && threads[k] == thread;
      KeptIffAliveWhenAsked(world, s, threads, k);
    }
    if AliveWhenAsked(world, s, threads, thread) {
      var k :| 0 <= k < |threads| && threads[k] == thread && world.Alive(thread, Steps(world, s, k + 1).now);
      KeptIffAliveWhenAsked(world, s, threads, k);
    }
  }

  /**
   After a run the list holds exactly the threads of that run, and those listed before, that were
   alive at the moment the run asked them.
   */
  lemma ListedIffAliveWhenAsked(world: World, start: real, calls: seq<seq<nat>>, n: nat, thread: nat)
    requires world.Forward() && FreshThreads(calls) && 0 < n <= |calls|
    ensures var before, threads := After(world, start, calls, n - 1), calls[n - 1];
      thread in After(world, start, calls, n).stragglers <==>
        || AliveWhenAsked(world, before, threads, thread)
        || AliveWhenAsked(world, Steps(world, before, |threads|), before.stragglers, thread)
  {
    ListIsTight(world, start, calls, n - 1);
    var before, threads := After(world, start, calls, n - 1), calls[n - 1];
    SurvivorsAreAsked(world, before, threads);
    KeptAreAliveWhenAsked(world, before, threads, thread);
    KeptAreAliveWhenAsked(world, Steps(world, before, |threads|), before.stragglers, thread);
    hide Surviving, Steps, AliveWhenAsked;
  }

  // ---- Over any number of runs --------------------------------------------------------------------

  /** Every run starts threads of its own. */
  ghost predicate FreshThreads(calls: seq<seq<nat>>) {
    && (forall n :: 0 <= n < |calls| ==> Distinct(calls[n]))
    && (forall m, n, t :: 0 <= m < n < |calls| && t in calls[m] ==> t !in calls[n])
  }

  /** A thread of one of the first `n` runs. */
  ghost predicate Started(calls: seq<seq<nat>>, n: nat, thread: nat)
    requires n <= |calls|
  {
    exists m :: 0 <= m < n && thread in calls[m]
  }

  /** The list after `n` runs: without repetition, and every thread still alive is on it. */
  ghost predicate Holds(world: World, start: real, calls: seq<seq<nat>>, n: nat)
    requires n <= |calls|
  {
    var s := After(world, start, calls, n);
    && Distinct(s.stragglers)
    && (forall t :: t in s.stragglers ==> Started(calls, n, t))
    && (forall t :: Started(calls, n, t) && world.Alive(t, s.now) ==> t in s.stragglers)
  }

  lemma RecordHolds(world: World, start: real, calls: seq<seq<nat>>, n: nat)
    requires world.Forward() && FreshThreads(calls) && 0 < n <= |calls|
    requires Holds(world, start, calls, n - 1)
    ensures Holds(world, start, calls, n)
    ensures var before := After(world, start, calls, n - 1);
      forall t :: t in After(world, start, calls, n).stragglers ==> world.Alive(t, before.now)
  {
    var s, threads := After(world, start, calls, n - 1), calls[n - 1];
    var (abandoned, checked) := Surviving(world, s, threads);
    var (kept, swept) := Surviving(world, checked, s.stragglers);
    SurvivingMoves(world, s, threads);
    SurvivingMoves(world, checked, s.stragglers);
    var after := After(world, start, calls, n);
    assert after.stragglers == kept + abandoned && after.now == swept.now;
    hide After, Surviving;
    forall t | t in kept ensures t !in abandoned && Started(calls, n, t) {
      assert Started(calls, n - 1, t);
      var m :| 0 <= m < n - 1 && t in calls[m];
      assert t !in threads;
    }
    assert Distinct(after.stragglers) by {
      assert Distinct(kept) && Distinct(abandoned);
      assert forall k :: 0 <= k < |kept| ==> kept[k] in kept;
    }
    forall t | t in abandoned ensures Started(calls, n, t) {
      assert t in calls[n - 1];
    }
    forall t | Started(calls, n, t) && world.Alive(t, swept.now) ensures t in kept + abandoned {
      var m :| 0 <= m < n && t in calls[m];
      if m == n - 1 {
        AliveSurvives(world, s, threads, t);
      } else {
        assert Started(calls, n - 1, t);
        AliveSurvives(world, checked, s.stragglers, t);
      }
    }
  }

  /**
   After any number of runs the list has no repetition, holds every thread of any run that is
   still alive, and no thread that had already ended when the last run began to look.
   */
  lemma {:induction false} ListIsTight(world: World, start: real, calls: seq<seq<nat>>, n: nat)
    requires world.Forward() && FreshThreads(calls) && n <= |calls|
    ensures Holds(world, start, calls, n)
    ensures n > 0 ==> var before := After(world, start, calls, n - 1);
      forall t :: t in After(world, start, calls, n).stragglers ==> world.Alive(t, before.now)
    decreases n
  {
    if n > 0 {
      ListIsTight(world, start, calls, n - 1);
      RecordHolds(world, start, calls, n);
    }
  }
}
