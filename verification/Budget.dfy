/**
 Running named checks concurrently under one wall-clock budget: worker threads, the joining
 thread, and every interleaving of their steps.
 */
module Budget {
  import opened Options
  import opened Sorting

  // ---- The tasks ----------------------------------------------------------------------------

  /**
   The checks, when joining started, the budget, the checks with a deadline of their own, and
   the order in which they are joined.
   */
  datatype Plan = Plan(names: seq<string>, started: real, budget: real, timeouts: map<string, real>,
    order: seq<nat>) {
    function Deadline(i: nat): real
      requires i < |names|
    {
      var own := started + if names[i] in timeouts then timeouts[names[i]] else budget;
      if own < started + budget then own else started + budget
    }

    /** Every check is joined, none twice, and none before one with an earlier deadline. */
    ghost predicate Ordered() {
      && |order| == |names|
      && (forall k :: 0 <= k < |order| ==> order[k] < |names|)
      && (forall i, k :: 0 <= i < k < |order| ==> Deadline(order[i]) <= Deadline(order[k]))
      && (forall i: nat :: i < |names| ==> i in order)
    }

    ghost predicate Valid() {
      && Ordered() && Distinct(names) && 0.0 <= budget
      && forall name :: name in timeouts ==> 0.0 <= timeouts[name]
    }
  }

  /** `sorted` by deadline: stable, so equal deadlines keep the order of the checks. */
  function EarlierDeadline(plan: Plan): (nat, nat) -> bool {
    (i: nat, k: nat) =>
      i < |plan.names| && k < |plan.names|
      && (plan.Deadline(i) < plan.Deadline(k) || (plan.Deadline(i) == plan.Deadline(k) && i < k))
  }

  function JoinOrder(plan: Plan): seq<nat> {
    Sorted<nat>(EarlierDeadline(plan), Indices(|plan.names|))
  }

  // ---- Threads --------------------------------------------------------------------------------

  /** How a check came out; `Killed` is anything that is no `Exception`. */
  datatype Outcome<V> = Value(value: V) | Raised(text: string) | Killed

  datatype Worker<V> =
    | Running
    | Finishing(outcome: Outcome<V>)         // the check returned, nothing is stored yet
    | Stored(outcome: Outcome<V>)
    | Ended(outcome: Outcome<V>, at: real)   // the thread is no longer alive

  datatype Report<V> = Report(results: map<nat, V>, truncated: seq<nat>, failed: map<nat, string>)

  /**
   The joining thread: at a position of the order, perhaps inside `join` until a time, or done.
   `expired` says when a check that was waited for long enough was found alive.
   */
  datatype Joiner<V> =
    | Joining(position: nat, until: Option<real>, expired: map<nat, real>)
    | Done(expired: map<nat, real>, report: Report<V>)

  datatype State<V> = State(now: real, workers: seq<Worker<V>>, results: map<nat, V>, failed: map<nat, string>,
    joiner: Joiner<V>)

  predicate Initial<V>(plan: Plan, s: State<V>) {
    && s.now == plan.started
    && |s.workers| == |plan.names|
    && s.results == map[] && s.failed == map[]
    && (forall i :: 0 <= i < |s.workers| ==> s.workers[i].Running?)
    && s.joiner == Joining(0, None, map[])
  }

  // ---- The steps ------------------------------------------------------------------------------

  ghost predicate TimePasses<V(!new)>(s: State<V>, t: State<V>) {
    s.now < t.now && t == s.(now := t.now)
  }

  ghost predicate WorkerReturns<V(!new)>(s: State<V>, t: State<V>, i: nat, outcome: Outcome<V>) {
    && i < |s.workers| && s.workers[i].Running?
    && t == s.(workers := s.workers[i := Finishing(outcome)])
  }

  /** Under the lock: a value or an exception's text is stored, anything else stores nothing. */
  ghost predicate WorkerStores<V(!new)>(s: State<V>, t: State<V>, i: nat) {
    && i < |s.workers| && s.workers[i].Finishing?
    && var outcome := s.workers[i].outcome;
       t == s.(workers := s.workers[i := Stored(outcome)],
               results := if outcome.Value? then s.results[i := outcome.value] else s.results,
               failed := if outcome.Raised? then s.failed[i := outcome.text] else s.failed)
  }

  /** A thread that was found alive at some instant ends later than that. */
  ghost predicate WorkerEnds<V(!new)>(s: State<V>, t: State<V>, i: nat) {
    && i < |s.workers| && s.workers[i].Stored?
    && (i in s.joiner.expired ==> s.joiner.expired[i] < s.now)
    && t == s.(workers := s.workers[i := Ended(s.workers[i].outcome, s.now)])
  }

  /** `join` with what is left until the deadline, or with no wait at all when it has passed. */
  ghost predicate JoinBegins<V(!new)>(plan: Plan, s: State<V>, t: State<V>) {
    && s.joiner.Joining? && s.joiner.until.None? && s.joiner.position < |plan.names|
    && plan.Ordered()
    && var deadline := plan.Deadline(plan.order[s.joiner.position]);
       t == s.(joiner := s.joiner.(until := Some(if deadline < s.now then s.now else deadline)))
  }

  /** `join` came back, as the thread ended or the time was up; is the thread still alive? */
  ghost predicate JoinEnds<V(!new)>(plan: Plan, s: State<V>, t: State<V>) {
    && s.joiner.Joining? && s.joiner.until.Some? && s.joiner.position < |plan.names|
    && plan.Ordered() && |s.workers| == |plan.names|
    && var task := plan.order[s.joiner.position];
       var alive := !s.workers[task].Ended?;
       (alive ==> s.joiner.until.value <= s.now)
       && t == s.(joiner := Joining(s.joiner.position + 1, None,
                                    if alive then s.joiner.expired[task := s.now] else s.joiner.expired))
  }

  function Expired<V>(s: State<V>): set<nat> {
    s.joiner.expired.Keys
  }

  function Truncated<V>(s: State<V>, expired: set<nat>, n: nat): seq<nat> {
    if n == 0 then []
    else
      Truncated(s, expired, n - 1)
        + if n - 1 in expired || (n - 1 !in s.results && n - 1 !in s.failed) then [n - 1] else []
  }

  function Reported<V>(plan: Plan, s: State<V>, expired: set<nat>): Report<V> {
    Report(map i | i in s.results && i !in expired :: s.results[i],
           Truncated(s, expired, |plan.names|),
           map i | i in s.failed && i !in expired :: s.failed[i])
  }

  ghost predicate ReportIsTaken<V(!new)>(plan: Plan, s: State<V>, t: State<V>) {
    && s.joiner.Joining? && s.joiner.position == |plan.names|
    && t == s.(joiner := Done(s.joiner.expired, Reported(plan, s, Expired(s))))
  }

  ghost predicate WorkerStep<V(!new)>(s: State<V>, t: State<V>) {
    || (exists i: nat, outcome :: WorkerReturns(s, t, i, outcome))
    || (exists i: nat :: WorkerStores(s, t, i))
    || (exists i: nat :: WorkerEnds(s, t, i))
  }

  ghost predicate JoinerStep<V(!new)>(plan: Plan, s: State<V>, t: State<V>) {
    JoinBegins(plan, s, t) || JoinEnds(plan, s, t) || ReportIsTaken(plan, s, t)
  }

  ghost predicate Next<V(!new)>(plan: Plan, s: State<V>, t: State<V>) {
    TimePasses(s, t) || WorkerStep(s, t) || JoinerStep(plan, s, t)
  }

  /** Any sequence of steps, in any order, with any delays. */
  ghost predicate Run<V(!new)>(plan: Plan, states: seq<State<V>>) {
    && states != [] && Initial(plan, states[0])
    && forall k :: 0 <= k < |states| - 1 ==> Next(plan, states[k], states[k + 1])
  }

  // ---- The join order ---------------------------------------------------------------------------

  ghost predicate ByDeadline(plan: Plan, s: seq<nat>) {
    && (forall k :: 0 <= k < |s| ==> s[k] < |plan.names|)
    && (forall i, k :: 0 <= i < k < |s| ==> plan.Deadline(s[i]) <= plan.Deadline(s[k]))
  }

  lemma {:induction false} InsertByDeadline(plan: Plan, x: nat, s: seq<nat>)
    requires x < |plan.names| && ByDeadline(plan, s)
    ensures ByDeadline(plan, Insert<nat>(EarlierDeadline(plan), x, s))
    decreases |s|
  {
    hide plan.Deadline;
    if s != [] && EarlierDeadline(plan)(s[0], x) {
      assert plan.Deadline(s[0]) <= plan.Deadline(x);
      InsertByDeadline(plan, x, s[1..]);
      var rest: seq<nat> := Insert<nat>(EarlierDeadline(plan), x, s[1..]);
      forall k | 0 <= k < |rest| ensures plan.Deadline(s[0]) <= plan.Deadline(rest[k]) {
        assert rest[k] in multiset(rest);
        assert rest[k] == x || rest[k] in s[1..];
      }
    } else if s != [] {
      assert plan.Deadline(x) <= plan.Deadline(s[0]);
    }
  }

  lemma {:induction false} SortedByDeadline(plan: Plan, s: seq<nat>)
    requires forall k :: 0 <= k < |s| ==> s[k] < |plan.names|
    ensures ByDeadline(plan, Sorted<nat>(EarlierDeadline(plan), s))
    decreases |s|
  {
    if s != [] {
      SortedByDeadline(plan, s[1..]);
      InsertByDeadline(plan, s[0], Sorted<nat>(EarlierDeadline(plan), s[1..]));
    }
  }

  /** Sorting the checks by deadline gives an order to join them in. */
  lemma JoinOrderIsOrdered(plan: Plan)
    requires plan.order == JoinOrder(plan)
    ensures plan.Ordered()
  {
    var indices: seq<nat> := Indices(|plan.names|);
    assert forall k :: 0 <= k < |indices| ==> indices[k] == k;
    SortedByDeadline(plan, indices);
    MembersByMultiset<nat>(indices, plan.order);
    forall i: nat | i < |plan.names| ensures i in plan.order {
      assert indices[i] == i;
    }
  }

  // ---- What every state satisfies ----------------------------------------------------------------

  /** A check is in a dictionary exactly when its worker has stored that. */
  ghost predicate StoredAt<V(!new)>(s: State<V>, i: nat)
    requires i < |s.workers|
  {
    var worker := s.workers[i];
    var stored := worker.Stored? || worker.Ended?;
    && (i in s.results <==> stored && worker.outcome.Value?)
    && (i in s.failed <==> stored && worker.outcome.Raised?)
    && (i in s.results ==> worker.outcome.value == s.results[i])
    && (i in s.failed ==> worker.outcome.text == s.failed[i])
  }

  /** The shared dictionaries hold what the workers stored, and nothing else. */
  ghost predicate StoredMatches<V(!new)>(s: State<V>) {
    && (forall i :: i in s.results ==> i < |s.workers|)
    && (forall i :: i in s.failed ==> i < |s.workers|)
    && (forall i: nat :: i < |s.workers| ==> StoredAt(s, i))
  }

  /** An expired check had not ended when its time was up. */
  ghost predicate ExpiredFairly<V(!new)>(plan: Plan, s: State<V>)
    requires |s.workers| == |plan.names|
  {
    forall i :: i in Expired(s) ==>
      && i < |plan.names| && plan.Deadline(i) <= s.joiner.expired[i] <= s.now
      && (s.workers[i].Ended? ==> s.joiner.expired[i] < s.workers[i].at)
  }

  /** A check that was joined and is not expired has ended. */
  ghost predicate JoinedHaveEnded<V(!new)>(plan: Plan, s: State<V>)
    requires |s.workers| == |plan.names| && plan.Ordered()
  {
    && (s.joiner.Joining? ==> s.joiner.position <= |plan.names|)
    && (forall k :: 0 <= k < |plan.order| && (s.joiner.Joining? ==> k < s.joiner.position) ==>
          plan.order[k] in Expired(s) || s.workers[plan.order[k]].Ended?)
  }

  /** No wait ends before the deadline of the check that is waited for. */
  ghost predicate WaitsLongEnough<V(!new)>(plan: Plan, s: State<V>)
    requires plan.Ordered()
  {
    s.joiner.Joining? && s.joiner.until.Some? && s.joiner.position < |plan.names| ==>
      plan.Deadline(plan.order[s.joiner.position]) <= s.joiner.until.value
  }

  /** What the report says of a check was so when it was taken. */
  ghost predicate ReportedAt<V(!new)>(s: State<V>, i: nat)
    requires s.joiner.Done? && i < |s.workers|
  {
    var report := s.joiner.report;
    if i in Expired(s) then i !in report.results && i !in report.failed && i in report.truncated
    else
      && s.workers[i].Ended?
      && match s.workers[i].outcome
         case Value(v) => i in report.results && report.results[i] == v && i !in report.failed
           && i !in report.truncated
         case Raised(text) => i in report.failed && report.failed[i] == text && i !in report.results
           && i !in report.truncated
         case Killed => i in report.truncated && i !in report.results && i !in report.failed
  }

  ghost predicate ReportHolds<V(!new)>(s: State<V>) {
    s.joiner.Done? ==> forall i: nat :: i < |s.workers| ==> ReportedAt(s, i)
  }

  ghost predicate Inv<V(!new)>(plan: Plan, s: State<V>)
    requires plan.Ordered()
  {
    && |s.workers| == |plan.names|
    && StoredMatches(s) && ExpiredFairly(plan, s) && JoinedHaveEnded(plan, s)
    && WaitsLongEnough(plan, s) && ReportHolds(s)
  }

  lemma InitiallySound<V(!new)>(plan: Plan, s: State<V>)
    requires plan.Ordered() && Initial(plan, s)
    ensures Inv(plan, s)
  {
  }

  lemma StoredStaysMatched<V(!new)>(s: State<V>, t: State<V>)
    requires StoredMatches(s) && WorkerStep(s, t)
    ensures StoredMatches(t)
  {
    forall i: nat | i < |t.workers| ensures StoredAt(t, i) {
      assert StoredAt(s, i);
      if j: nat, outcome :| WorkerReturns(s, t, j, outcome) {
      } else if j: nat :| WorkerStores(s, t, j) {
        assert i != j ==> t.workers[i] == s.workers[i];
      } else {
        var j: nat :| WorkerEnds(s, t, j);
      }
    }
  }

  lemma SameStore<V(!new)>(s: State<V>, t: State<V>)
    requires StoredMatches(s) && t.workers == s.workers && t.results == s.results && t.failed == s.failed
    ensures StoredMatches(t)
  {
    forall i: nat | i < |t.workers| ensures StoredAt(t, i) {
      assert StoredAt(s, i);
    }
  }

  /** A worker's step changes one worker, which had not ended, and ends at the current time if it ends. */
  lemma WorkerStepLocal<V(!new)>(s: State<V>, t: State<V>) returns (i: nat)
    requires WorkerStep(s, t)
    ensures i < |s.workers| && !s.workers[i].Ended?
    ensures |t.workers| == |s.workers| && t.now == s.now && t.joiner == s.joiner
    ensures forall k :: 0 <= k < |s.workers| && k != i ==> t.workers[k] == s.workers[k]
    ensures t.workers[i].Ended? ==> t.workers[i].at == s.now
  {
    if j: nat, outcome :| WorkerReturns(s, t, j, outcome) {
      i := j;
    } else if j: nat :| WorkerStores(s, t, j) {
      i := j;
    } else {
      i :| WorkerEnds(s, t, i);
    }
  }

  lemma WorkerStepSound<V(!new)>(plan: Plan, s: State<V>, t: State<V>)
    requires plan.Ordered() && Inv(plan, s) && WorkerStep(s, t)
    ensures Inv(plan, t)
  {
    StoredStaysMatched(s, t);
    var i := WorkerStepLocal(s, t);
    hide WorkerStep, StoredMatches, plan.Deadline;
    assert JoinedHaveEnded(plan, t);
    assert ExpiredFairly(plan, t);
    if t.joiner.Done? {
      forall k: nat | k < |t.workers| ensures ReportedAt(t, k) {
        assert ReportedAt(s, k);
      }
    }
  }

  lemma {:induction false} TruncatedHolds<V(!new)>(s: State<V>, expired: set<nat>, n: nat, i: nat)
    ensures i in Truncated(s, expired, n) <==> i < n && (i in expired || (i !in s.results && i !in s.failed))
    decreases n
  {
    if n > 0 {
      TruncatedHolds(s, expired, n - 1, i);
    }
  }

  lemma ReportTells<V(!new)>(plan: Plan, s: State<V>, t: State<V>)
    requires plan.Ordered() && Inv(plan, s) && ReportIsTaken(plan, s, t)
    ensures ReportHolds(t)
  {
    hide plan.Deadline, Truncated;
    forall i: nat | i < |plan.names| ensures ReportedAt(t, i) {
      TruncatedHolds(s, Expired(s), |plan.names|, i);
      assert StoredAt(s, i);
      assert i in plan.order;
      var k :| 0 <= k < |plan.order| && plan.order[k] == i;
    }
  }

  lemma ReportSound<V(!new)>(plan: Plan, s: State<V>, t: State<V>)
    requires plan.Ordered() && Inv(plan, s) && ReportIsTaken(plan, s, t)
    ensures Inv(plan, t)
  {
    hide plan.Deadline, StoredMatches, ReportHolds, Reported;
    SameStore(s, t);
    ReportTells(plan, s, t);
  }

  lemma TimeSound<V(!new)>(plan: Plan, s: State<V>, t: State<V>)
    requires plan.Ordered() && Inv(plan, s) && TimePasses(s, t)
    ensures Inv(plan, t)
  {
    hide plan.Deadline, StoredMatches;
    SameStore(s, t);
    if t.joiner.Done? {
      forall i: nat | i < |t.workers| ensures ReportedAt(t, i) {
        assert ReportedAt(s, i);
      }
    }
  }

  lemma JoinBeginsSound<V(!new)>(plan: Plan, s: State<V>, t: State<V>)
    requires plan.Ordered() && Inv(plan, s) && JoinBegins(plan, s, t)
    ensures Inv(plan, t)
  {
    hide plan.Deadline, StoredMatches;
    SameStore(s, t);
  }

  lemma JoinEndsSound<V(!new)>(plan: Plan, s: State<V>, t: State<V>)
    requires plan.Ordered() && Inv(plan, s) && JoinEnds(plan, s, t)
    ensures Inv(plan, t)
  {
    hide plan.Deadline, StoredMatches;
    SameStore(s, t);
    var task := plan.order[s.joiner.position];
    assert Expired(t) <= Expired(s) + {task};
    assert ExpiredFairly(plan, t);
    assert JoinedHaveEnded(plan, t);
  }

  lemma NextSound<V(!new)>(plan: Plan, s: State<V>, t: State<V>)
    requires plan.Ordered() && Inv(plan, s) && Next(plan, s, t)
    ensures Inv(plan, t)
  {
    hide Inv;
    if WorkerStep(s, t) {
      WorkerStepSound(plan, s, t);
    } else if ReportIsTaken(plan, s, t) {
      ReportSound(plan, s, t);
    } else if TimePasses(s, t) {
      TimeSound(plan, s, t);
    } else if JoinBegins(plan, s, t) {
      JoinBeginsSound(plan, s, t);
    } else {
      JoinEndsSound(plan, s, t);
    }
  }

  lemma {:induction false} RunSound<V(!new)>(plan: Plan, states: seq<State<V>>, k: nat)
    requires plan.Ordered() && Run(plan, states) && k < |states|
    ensures Inv(plan, states[k])
    decreases k
  {
    if k == 0 {
      InitiallySound(plan, states[0]);
    } else {
      RunSound(plan, states, k - 1);
      NextSound(plan, states[k - 1], states[k]);
    }
  }

  // ---- The theorems -------------------------------------------------------------------------------

  /**
   A check that ends by its own deadline is never expired and its outcome is reported,
   whatever the other checks do and however long any step is delayed.
   */
  lemma DeadlineIsFair<V(!new)>(plan: Plan, states: seq<State<V>>, k: nat, i: nat)
    requires plan.Ordered() && Run(plan, states) && k < |states| && i < |plan.names|
    requires |states[k].workers| == |plan.names|
    requires states[k].workers[i].Ended? && states[k].workers[i].at <= plan.Deadline(i)
    ensures i !in Expired(states[k])
    ensures states[k].joiner.Done? ==>
      var report := states[k].joiner.report;
      match states[k].workers[i].outcome
      case Value(v) => i in report.results && report.results[i] == v
      case Raised(text) => i in report.failed && report.failed[i] == text
      case Killed => i in report.truncated
  {
    RunSound(plan, states, k);
    hide StoredMatches, JoinedHaveEnded, WaitsLongEnough;
    assert states[k].joiner.Done? ==> ReportedAt(states[k], i);
  }

  /**
   Every check is reported exactly once: among the results, the failures or the truncated
   ones.  An expired check is truncated even when its answer came in late.
   */
  lemma ReportedExactlyOnce<V(!new)>(plan: Plan, states: seq<State<V>>, k: nat, i: nat)
    requires plan.Ordered() && Run(plan, states) && k < |states| && states[k].joiner.Done? && i < |plan.names|
    ensures var report := states[k].joiner.report;
      && (i in report.results <==> i !in report.failed && i !in report.truncated)
      && (i in report.failed <==> i !in report.results && i !in report.truncated)
      && (i in Expired(states[k]) ==> i in report.truncated)
  {
    RunSound(plan, states, k);
    hide StoredMatches, JoinedHaveEnded, WaitsLongEnough;
    assert states[k].joiner.Done? ==> ReportedAt(states[k], i);
  }

  /** The joining thread is never stuck: after some more time at the latest, it has a step to take. */
  lemma JoinerNeverStuck<V(!new)>(plan: Plan, s: State<V>) returns (later: real, t: State<V>)
    requires plan.Ordered() && Inv(plan, s) && s.joiner.Joining?
    ensures s.now <= later && JoinerStep(plan, s.(now := later), t)
  {
    hide StoredMatches, ReportHolds, ExpiredFairly, Truncated;
    later := s.now;
    if s.joiner.position == |plan.names| {
      t := s.(joiner := Done(s.joiner.expired, Reported(plan, s, Expired(s))));
      assert ReportIsTaken(plan, s, t);
    } else if s.joiner.until.None? {
      var deadline := plan.Deadline(plan.order[s.joiner.position]);
      t := s.(joiner := s.joiner.(until := Some(if deadline < s.now then s.now else deadline)));
      assert JoinBegins(plan, s, t);
    } else {
      later := if s.now < s.joiner.until.value then s.joiner.until.value else s.now;
      var task := plan.order[s.joiner.position];
      var waited := s.(now := later);
      var expired := if s.workers[task].Ended? then s.joiner.expired else s.joiner.expired[task := later];
      t := waited.(joiner := Joining(s.joiner.position + 1, None, expired));
      assert JoinEnds(plan, waited, t);
    }
  }

  // ---- A clock without delays ------------------------------------------------------------------

  /**
   On a clock without delays the joining thread never dawdles: time passes only while it waits
   for a thread that has not ended, and no further than that wait, or after it is done.
   */
  ghost predicate PromptNext<V(!new)>(plan: Plan, s: State<V>, t: State<V>) {
    && Next(plan, s, t)
    && (TimePasses(s, t) ==>
          || s.joiner.Done?
          || (&& s.joiner.until.Some? && t.now <= s.joiner.until.value
              && s.joiner.position < |plan.names| && plan.Ordered() && |s.workers| == |plan.names|
              && !s.workers[plan.order[s.joiner.position]].Ended?))
  }

  ghost predicate PromptRun<V(!new)>(plan: Plan, states: seq<State<V>>) {
    && states != [] && Initial(plan, states[0])
    && forall k :: 0 <= k < |states| - 1 ==> PromptNext(plan, states[k], states[k + 1])
  }

  ghost predicate EndedBefore<V(!new)>(s: State<V>) {
    forall i :: 0 <= i < |s.workers| && s.workers[i].Ended? ==> s.workers[i].at <= s.now
  }

  /** The joining thread is never later than the deadline of the check it is at. */
  ghost predicate OnTime<V(!new)>(plan: Plan, s: State<V>)
    requires plan.Ordered()
  {
    s.joiner.Joining? ==>
      if s.joiner.position < |plan.names| then
        && s.now <= plan.Deadline(plan.order[s.joiner.position])
        && (s.joiner.until.Some? ==> s.joiner.until.value == plan.Deadline(plan.order[s.joiner.position]))
      else s.now <= plan.started + plan.budget
  }

  /** A check that was joined and is not expired ended by its deadline. */
  ghost predicate JoinedInTime<V(!new)>(plan: Plan, s: State<V>)
    requires plan.Ordered() && |s.workers| == |plan.names|
  {
    forall k | 0 <= k < |plan.order| && (s.joiner.Joining? ==> k < s.joiner.position) ::
      plan.order[k] in Expired(s) || !s.workers[plan.order[k]].Ended?
      || s.workers[plan.order[k]].at <= plan.Deadline(plan.order[k])
  }

  ghost predicate PromptInv<V(!new)>(plan: Plan, s: State<V>)
    requires plan.Ordered()
  {
    Inv(plan, s) && EndedBefore(s) && OnTime(plan, s) && JoinedInTime(plan, s)
  }

  lemma PromptInitially<V(!new)>(plan: Plan, s: State<V>)
    requires plan.Valid() && Initial(plan, s)
    ensures PromptInv(plan, s)
  {
    InitiallySound(plan, s);
  }

  lemma PromptNextSound<V(!new)>(plan: Plan, s: State<V>, t: State<V>)
    requires plan.Valid() && PromptInv(plan, s) && PromptNext(plan, s, t)
    ensures PromptInv(plan, t)
  {
    NextSound(plan, s, t);
    if WorkerStep(s, t) {
      var i := WorkerStepLocal(s, t);
      hide WorkerStep, StoredMatches, ReportHolds, ExpiredFairly, WaitsLongEnough, plan.Deadline;
      forall k | 0 <= k < |plan.order| && (t.joiner.Joining? ==> k < t.joiner.position)
          && plan.order[k] !in Expired(t) && t.workers[plan.order[k]].Ended?
        ensures t.workers[plan.order[k]].at <= plan.Deadline(plan.order[k])
      {
        assert s.workers[plan.order[k]].Ended?;
        assert plan.order[k] != i;
      }
    } else {
      PromptJoinerSound(plan, s, t);
    }
  }

  lemma PromptJoinerSound<V(!new)>(plan: Plan, s: State<V>, t: State<V>)
    requires plan.Valid() && PromptInv(plan, s) && PromptNext(plan, s, t) && !WorkerStep(s, t)
    ensures EndedBefore(t) && OnTime(plan, t) && JoinedInTime(plan, t)
  {
    assert t.workers == s.workers;
    hide WorkerStep, StoredMatches, ReportHolds, ExpiredFairly;
    if JoinEnds(plan, s, t) {
      var k := s.joiner.position;
      assert k + 1 < |plan.order| ==> plan.Deadline(plan.order[k]) <= plan.Deadline(plan.order[k + 1]);
      assert plan.Deadline(plan.order[k]) <= plan.started + plan.budget;
    }
  }

  lemma {:induction false} PromptRunSound<V(!new)>(plan: Plan, states: seq<State<V>>, k: nat)
    requires plan.Valid() && PromptRun(plan, states) && k < |states|
    ensures PromptInv(plan, states[k])
    decreases k
  {
    if k == 0 {
      PromptInitially(plan, states[0]);
    } else {
      PromptRunSound(plan, states, k - 1);
      PromptNextSound(plan, states[k - 1], states[k]);
    }
  }

  /**
   Without delays, a check is expired exactly when it does not end by its deadline.  Joining is
   over by the end of the budget.
   */
  lemma PromptExpiry<V(!new)>(plan: Plan, states: seq<State<V>>, k: nat, i: nat)
    requires plan.Valid() && PromptRun(plan, states) && k < |states| && i < |plan.names|
    requires |states[k].workers| == |plan.names|
    ensures states[k].joiner.Joining? ==> states[k].now <= plan.started + plan.budget
    ensures states[k].joiner.Done? ==>
      var worker := states[k].workers[i];
      i in Expired(states[k]) <==> !(worker.Ended? && worker.at <= plan.Deadline(i))
  {
    PromptRunSound(plan, states, k);
    hide StoredMatches, ReportHolds, WaitsLongEnough;
    var s := states[k];
    assert i in plan.order;
    var n :| 0 <= n < |plan.order| && plan.order[n] == i;
    if s.joiner.Joining? && s.joiner.position < |plan.names| {
      assert plan.Deadline(plan.order[s.joiner.position]) <= plan.started + plan.budget;
    }
  }
}
