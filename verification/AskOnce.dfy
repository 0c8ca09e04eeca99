/**
 Answers fetched at most once, however many threads ask at the same time: a cache entry and a
 lock per key, and every interleaving of the callers' steps.
 */
module AskOnce {
  import opened Options

  /** What a fetch comes to; `Escaped` is anything that is no `Exception`, and is not remembered. */
  datatype Answer<V> = Value(value: V) | Error(text: string) | Escaped

  /** Where a caller stands; it asks for one key. */
  datatype Caller<V> =
    | Waiting                      // before the key's lock
    | Holding                      // the lock is held, the cache not yet looked at
    | Fetching                     // the lock is held, the fetch under way
    | Reading                      // the lock is held, the cache has an answer
    | Leaving(answer: Answer<V>)   // the lock is held, the answer is known
    | Outside                      // the lock was given back, the answer is read afterwards
    | Served(answer: Answer<V>)

  /**
   The key each caller asks for.  With a fallback, an exception is remembered as that value, as
   for the peer names: no list of nodes is an empty list.
   */
  datatype Plan<V> = Plan(asks: seq<string>, fallback: Option<V>) {
    function Remembered(answer: Answer<V>): Answer<V> {
      if answer.Error? && fallback.Some? then Value(fallback.value) else answer
    }
  }

  /**
   `cache` holds what was remembered, `locks` which caller holds a key's lock.  `started` counts
   the fetches begun per key, `escaped` those that an escape cut short.
   */
  datatype State<V> = State(callers: seq<Caller<V>>, cache: map<string, Answer<V>>, locks: map<string, nat>,
                            started: multiset<string>, escaped: multiset<string>)

  predicate InLock<V>(caller: Caller<V>) {
    caller.Holding? || caller.Fetching? || caller.Reading? || caller.Leaving?
  }

  ghost predicate Initial<V>(plan: Plan<V>, s: State<V>) {
    && |s.callers| == |plan.asks|
    && (forall i :: 0 <= i < |plan.asks| ==> s.callers[i] == Waiting)
    && s.cache == map[] && s.locks == map[]
    && s.started == multiset{} && s.escaped == multiset{}
  }

  // ---- The steps of one caller ------------------------------------------------------------------

  function Moved<V>(s: State<V>, i: nat, to: Caller<V>): State<V>
    requires i < |s.callers|
  {
    s.(callers := s.callers[i := to])
  }

  predicate At<V>(plan: Plan<V>, s: State<V>, i: nat) {
    |s.callers| == |plan.asks| && i < |plan.asks|
  }

  ghost predicate Acquires<V(!new)>(plan: Plan<V>, s: State<V>, t: State<V>, i: nat) {
    && At(plan, s, i) && s.callers[i].Waiting? && plan.asks[i] !in s.locks
    && t == Moved(s, i, Holding).(locks := s.locks[plan.asks[i] := i])
  }

  /** With an answer in the cache it is read, without one a fetch begins. */
  ghost predicate Looks<V(!new)>(plan: Plan<V>, s: State<V>, t: State<V>, i: nat) {
    && At(plan, s, i) && s.callers[i].Holding?
    && t == if plan.asks[i] in s.cache then Moved(s, i, Reading)
            else Moved(s, i, Fetching).(started := s.started + multiset{plan.asks[i]})
  }

  /** The fetch comes back: a value or an exception is remembered. */
  ghost predicate Fetches<V(!new)>(plan: Plan<V>, s: State<V>, t: State<V>, i: nat, answer: Answer<V>) {
    && At(plan, s, i) && s.callers[i].Fetching? && !answer.Escaped?
    && t == Moved(s, i, Reading).(cache := s.cache[plan.asks[i] := plan.Remembered(answer)])
  }

  /** The fetch is cut short by something that is no `Exception`; that is only passed on. */
  ghost predicate Escapes<V(!new)>(plan: Plan<V>, s: State<V>, t: State<V>, i: nat) {
    && At(plan, s, i) && s.callers[i].Fetching?
    && t == Moved(s, i, Leaving(Escaped)).(escaped := s.escaped + multiset{plan.asks[i]})
  }

  ghost predicate Reads<V(!new)>(plan: Plan<V>, s: State<V>, t: State<V>, i: nat) {
    && At(plan, s, i) && s.callers[i].Reading? && plan.asks[i] in s.cache
    && t == Moved(s, i, Leaving(s.cache[plan.asks[i]]))
  }

  ghost predicate Releases<V(!new)>(plan: Plan<V>, s: State<V>, t: State<V>, i: nat) {
    && At(plan, s, i) && s.callers[i].Leaving?
    && t == Moved(s, i, Served(s.callers[i].answer)).(locks := s.locks - {plan.asks[i]})
  }

  /** The lock is given back before the answer is read, as for the peer names. */
  ghost predicate ReleasesFirst<V(!new)>(plan: Plan<V>, s: State<V>, t: State<V>, i: nat) {
    && At(plan, s, i) && s.callers[i].Reading?
    && t == Moved(s, i, Outside).(locks := s.locks - {plan.asks[i]})
  }

  ghost predicate ReadsAfter<V(!new)>(plan: Plan<V>, s: State<V>, t: State<V>, i: nat) {
    && At(plan, s, i) && s.callers[i].Outside? && plan.asks[i] in s.cache
    && t == Moved(s, i, Served(s.cache[plan.asks[i]]))
  }

  ghost predicate Step<V(!new)>(plan: Plan<V>, s: State<V>, t: State<V>, i: nat) {
    || Acquires(plan, s, t, i) || Looks(plan, s, t, i)
    || (exists answer :: Fetches(plan, s, t, i, answer)) || Escapes(plan, s, t, i)
    || Reads(plan, s, t, i) || Releases(plan, s, t, i)
    || ReleasesFirst(plan, s, t, i) || ReadsAfter(plan, s, t, i)
  }

  ghost predicate Next<V(!new)>(plan: Plan<V>, s: State<V>, t: State<V>) {
    exists i :: Step(plan, s, t, i)
  }

  ghost predicate Run<V(!new)>(plan: Plan<V>, states: seq<State<V>>) {
    && states != [] && Initial(plan, states[0])
    && forall n :: 0 <= n < |states| - 1 ==> Next(plan, states[n], states[n + 1])
  }

  // ---- What every state satisfies -----------------------------------------------------------------

  /** Exactly the callers between taking and giving back a key's lock hold it. */
  ghost predicate Locked<V(!new)>(plan: Plan<V>, s: State<V>)
    requires |s.callers| == |plan.asks|
  {
    && (forall i :: 0 <= i < |plan.asks| ==>
          (InLock(s.callers[i]) <==> plan.asks[i] in s.locks && s.locks[plan.asks[i]] == i))
    && (forall key :: key in s.locks ==> s.locks[key] < |plan.asks| && plan.asks[s.locks[key]] == key)
  }

  /** A fetch of the key is under way. */
  ghost predicate InFlight<V(!new)>(s: State<V>, key: string) {
    key in s.locks && s.locks[key] < |s.callers| && s.callers[s.locks[key]].Fetching?
  }

  /** Every fetch begun was cut short, is what the cache holds, or is under way. */
  ghost predicate CountedFor<V(!new)>(s: State<V>, key: string) {
    s.started[key] == s.escaped[key] + (if key in s.cache then 1 else 0) + (if InFlight(s, key) then 1 else 0)
  }

  ghost predicate Counted<V(!new)>(plan: Plan<V>, s: State<V>) {
    && (forall key :: CountedFor(s, key))
    && (forall key :: key in s.cache ==> !s.cache[key].Escaped? && (plan.fallback.Some? ==> s.cache[key].Value?))
  }

  /** What a caller knows agrees with the cache. */
  ghost predicate Agrees<V(!new)>(plan: Plan<V>, s: State<V>, i: nat)
    requires |s.callers| == |plan.asks| && i < |plan.asks|
  {
    var caller := s.callers[i];
    && (caller.Fetching? ==> plan.asks[i] !in s.cache)
    && (caller.Reading? || caller.Outside? ==> plan.asks[i] in s.cache)
    && ((caller.Leaving? || caller.Served?) && !caller.answer.Escaped? ==>
          plan.asks[i] in s.cache && caller.answer == s.cache[plan.asks[i]])
  }

  ghost predicate Inv<V(!new)>(plan: Plan<V>, s: State<V>) {
    && |s.callers| == |plan.asks| && Locked(plan, s) && Counted(plan, s)
    && forall i :: 0 <= i < |plan.asks| ==> Agrees(plan, s, i)
  }

  lemma LocksKept<V(!new)>(plan: Plan<V>, s: State<V>, t: State<V>, i: nat)
    requires Inv(plan, s) && Step(plan, s, t, i)
    ensures |t.callers| == |plan.asks| && Locked(plan, t)
  {
    hide Counted, Agrees;
    if Acquires(plan, s, t, i) {
    } else if Looks(plan, s, t, i) {
    } else if answer :| Fetches(plan, s, t, i, answer) {
    } else if Escapes(plan, s, t, i) {
    } else if Reads(plan, s, t, i) {
    } else if Releases(plan, s, t, i) {
    } else if ReleasesFirst(plan, s, t, i) {
    }
  }

  /** What a step of caller `i` leaves alone: the other callers, and everything about other keys. */
  ghost predicate LeavesAlone<V(!new)>(plan: Plan<V>, s: State<V>, t: State<V>, i: nat) {
    && At(plan, s, i) && |t.callers| == |s.callers|
    && (forall k :: 0 <= k < |s.callers| && k != i ==> t.callers[k] == s.callers[k])
    && (forall key :: key != plan.asks[i] ==> LeavesKeyAlone(s, t, key))
    && (t.cache != s.cache ==> s.callers[i].Fetching? && plan.asks[i] in t.cache)
  }

  ghost predicate LeavesKeyAlone<V(!new)>(s: State<V>, t: State<V>, key: string) {
    && (key in t.locks <==> key in s.locks) && (key in s.locks ==> t.locks[key] == s.locks[key])
    && (key in t.cache <==> key in s.cache) && (key in s.cache ==> t.cache[key] == s.cache[key])
    && t.started[key] == s.started[key] && t.escaped[key] == s.escaped[key]
  }

  lemma StepIsLocal<V(!new)>(plan: Plan<V>, s: State<V>, t: State<V>, i: nat)
    requires Step(plan, s, t, i)
    ensures LeavesAlone(plan, s, t, i)
  {
    forall key | key != plan.asks[i] ensures LeavesKeyAlone(s, t, key) {
      KeyLeftAlone(plan, s, t, i, key);
    }
    hide LeavesKeyAlone;
    if answer :| Fetches(plan, s, t, i, answer) {
    }
  }

  lemma KeyLeftAlone<V(!new)>(plan: Plan<V>, s: State<V>, t: State<V>, i: nat, key: string)
    requires Step(plan, s, t, i) && i < |plan.asks| && key != plan.asks[i]
    ensures LeavesKeyAlone(s, t, key)
  {
    if answer :| Fetches(plan, s, t, i, answer) {
    } else if Escapes(plan, s, t, i) {
    }
  }

  lemma CountKept<V(!new)>(plan: Plan<V>, s: State<V>, t: State<V>, i: nat, key: string)
    requires Inv(plan, s) && Step(plan, s, t, i)
    ensures CountedFor(t, key)
  {
    hide Step;
    StepIsLocal(plan, s, t, i);
    if key == plan.asks[i] {
      OwnCountKept(plan, s, t, i);
    } else {
      OtherCountKept(plan, s, t, i, key);
    }
  }

  lemma OtherCountKept<V(!new)>(plan: Plan<V>, s: State<V>, t: State<V>, i: nat, key: string)
    requires Inv(plan, s) && LeavesAlone(plan, s, t, i) && key != plan.asks[i]
    ensures CountedFor(t, key)
  {
    assert CountedFor(s, key) && LeavesKeyAlone(s, t, key);
    assert key in s.locks ==> s.locks[key] != i && t.callers[s.locks[key]] == s.callers[s.locks[key]];
  }

  lemma OwnCountKept<V(!new)>(plan: Plan<V>, s: State<V>, t: State<V>, i: nat)
    requires Inv(plan, s) && Step(plan, s, t, i)
    ensures CountedFor(t, plan.asks[i])
  {
    assert CountedFor(s, plan.asks[i]) && Agrees(plan, s, i);
    assert InLock(s.callers[i]) <==> plan.asks[i] in s.locks && s.locks[plan.asks[i]] == i;
    hide Inv, Counted, Agrees, Locked;
    if answer :| Fetches(plan, s, t, i, answer) {
    } else if Escapes(plan, s, t, i) {
    }
  }

  lemma AgreementKept<V(!new)>(plan: Plan<V>, s: State<V>, t: State<V>, i: nat, k: nat)
    requires Inv(plan, s) && Step(plan, s, t, i) && k < |plan.asks| && |t.callers| == |plan.asks|
    ensures Agrees(plan, t, k)
  {
    assert Agrees(plan, s, k);
    if k == i {
      OwnAgreementKept(plan, s, t, i);
    } else {
      assert plan.asks[k] == plan.asks[i] && s.callers[i].Fetching? ==> !InLock(s.callers[k]);
      StepIsLocal(plan, s, t, i);
      CacheGrows(plan, s, t, i);
      hide Step, Locked, Counted;
    }
  }

  lemma CacheGrows<V(!new)>(plan: Plan<V>, s: State<V>, t: State<V>, i: nat)
    requires Inv(plan, s) && Step(plan, s, t, i)
    ensures forall key :: key in s.cache ==> key in t.cache && t.cache[key] == s.cache[key]
  {
    assert Agrees(plan, s, i);
    hide Locked, Counted;
    if answer :| Fetches(plan, s, t, i, answer) {
    }
  }

  lemma OwnAgreementKept<V(!new)>(plan: Plan<V>, s: State<V>, t: State<V>, i: nat)
    requires Inv(plan, s) && Step(plan, s, t, i) && |t.callers| == |plan.asks|
    ensures Agrees(plan, t, i)
  {
    assert Agrees(plan, s, i);
    hide Inv, Locked, Counted;
    if answer :| Fetches(plan, s, t, i, answer) {
    } else if Escapes(plan, s, t, i) {
    }
  }

  lemma RememberedKept<V(!new)>(plan: Plan<V>, s: State<V>, t: State<V>, i: nat)
    requires Inv(plan, s) && Step(plan, s, t, i)
    ensures forall key :: key in t.cache ==> !t.cache[key].Escaped? && (plan.fallback.Some? ==> t.cache[key].Value?)
  {
    hide Locked, Agrees, CountedFor;
    if answer :| Fetches(plan, s, t, i, answer) {
    }
  }

  /** No step of any caller breaks the invariant. */
  lemma StepKeeps<V(!new)>(plan: Plan<V>, s: State<V>, t: State<V>, i: nat)
    requires Inv(plan, s) && Step(plan, s, t, i)
    ensures Inv(plan, t)
  {
    LocksKept(plan, s, t, i);
    RememberedKept(plan, s, t, i);
    forall key ensures CountedFor(t, key) {
      CountKept(plan, s, t, i, key);
    }
    forall k | 0 <= k < |plan.asks| ensures Agrees(plan, t, k) {
      AgreementKept(plan, s, t, i, k);
    }
    hide Step, Locked, Agrees, CountedFor;
  }

  /** What was once remembered never changes, and a caller that was served stays served. */
  ghost predicate Remembers<V(!new)>(s: State<V>, t: State<V>) {
    && (forall key :: key in s.cache ==> key in t.cache && t.cache[key] == s.cache[key])
    && |t.callers| == |s.callers|
    && (forall k :: 0 <= k < |s.callers| && s.callers[k].Served? ==> t.callers[k] == s.callers[k])
  }

  lemma StepRemembers<V(!new)>(plan: Plan<V>, s: State<V>, t: State<V>, i: nat)
    requires Inv(plan, s) && Step(plan, s, t, i)
    ensures Remembers(s, t)
  {
    CacheGrows(plan, s, t, i);
    StepIsLocal(plan, s, t, i);
    assert !s.callers[i].Served?;
    hide Step, Inv;
  }

  lemma {:induction false} RunKeeps<V(!new)>(plan: Plan<V>, states: seq<State<V>>, n: nat)
    requires Run(plan, states) && n < |states|
    ensures Inv(plan, states[n])
    decreases n
  {
    if n > 0 {
      RunKeeps(plan, states, n - 1);
      var i :| Step(plan, states[n - 1], states[n], i);
      StepKeeps(plan, states[n - 1], states[n], i);
    }
  }

  lemma NextRemembers<V(!new)>(plan: Plan<V>, states: seq<State<V>>, n: nat)
    requires Run(plan, states) && n + 1 < |states|
    ensures Remembers(states[n], states[n + 1])
  {
    RunKeeps(plan, states, n);
    var i :| Step(plan, states[n], states[n + 1], i);
    StepRemembers(plan, states[n], states[n + 1], i);
  }

  lemma RemembersOn<V(!new)>(s: State<V>, t: State<V>, u: State<V>)
    requires Remembers(s, t) && Remembers(t, u)
    ensures Remembers(s, u)
  {
  }

  lemma {:induction false} RunRemembers<V(!new)>(plan: Plan<V>, states: seq<State<V>>, m: nat, n: nat)
    requires Run(plan, states) && m <= n < |states|
    ensures Remembers(states[m], states[n])
    decreases n - m
  {
    hide Run;
    if m < n {
      RunRemembers(plan, states, m, n - 1);
      NextRemembers(plan, states, n - 1);
      RemembersOn(states[m], states[n - 1], states[n]);
    }
  }

  // ---- The theorems -------------------------------------------------------------------------------

  /**
   However many callers and however they interleave, a key is fetched once, and once more only for
   every fetch that was cut short: at most one is under way, and none once there is an answer.
   */
  lemma FetchedAtMostOnce<V(!new)>(plan: Plan<V>, states: seq<State<V>>, n: nat, key: string)
    requires Run(plan, states) && n < |states|
    ensures states[n].started[key] <= 1 + states[n].escaped[key]
    ensures key in states[n].cache ==> states[n].started[key] == 1 + states[n].escaped[key]
    ensures forall i, k :: 0 <= i < k < |plan.asks| && plan.asks[i] == plan.asks[k] == key ==>
      |states[n].callers| == |plan.asks| && !(states[n].callers[i].Fetching? && states[n].callers[k].Fetching?)
    ensures forall i :: 0 <= i < |plan.asks| && plan.asks[i] == key && key in states[n].cache ==>
      |states[n].callers| == |plan.asks| && !states[n].callers[i].Fetching?
  {
    var s := states[n];
    RunKeeps(plan, states, n);
    assert CountedFor(s, key);
    assert InFlight(s, key) ==> Agrees(plan, s, s.locks[key]);
    forall i | 0 <= i < |plan.asks| && plan.asks[i] == key && key in s.cache ensures !s.callers[i].Fetching? {
      assert Agrees(plan, s, i);
    }
  }

  /** Two callers of one key, served at any two times, got the same value or the same exception. */
  lemma SameAnswer<V(!new)>(plan: Plan<V>, states: seq<State<V>>, m: nat, n: nat, i: nat, k: nat)
    requires Run(plan, states) && m <= n < |states| && i < |plan.asks| && k < |plan.asks|
      && plan.asks[i] == plan.asks[k]
    requires |states[m].callers| == |plan.asks| && |states[n].callers| == |plan.asks|
    requires states[m].callers[i].Served? && !states[m].callers[i].answer.Escaped?
    requires states[n].callers[k].Served? && !states[n].callers[k].answer.Escaped?
    ensures states[m].callers[i].answer == states[n].callers[k].answer
  {
    RunKeeps(plan, states, m);
    RunKeeps(plan, states, n);
    assert Agrees(plan, states[m], i) && Agrees(plan, states[n], k);
    RunRemembers(plan, states, m, n);
  }

  /** With a fallback no caller is served an exception. */
  lemma FallbackServed<V(!new)>(plan: Plan<V>, states: seq<State<V>>, n: nat, i: nat)
    requires Run(plan, states) && n < |states| && i < |plan.asks| && plan.fallback.Some?
    requires |states[n].callers| == |plan.asks| && states[n].callers[i].Served?
    ensures !states[n].callers[i].answer.Error?
  {
    RunKeeps(plan, states, n);
    assert Agrees(plan, states[n], i);
  }

  /**
   No deadlock, and keys do not wait for one another: a caller that cannot move waits for a
   caller of the same key, which can.
   */
  lemma SomeoneMoves<V(!new)>(plan: Plan<V>, s: State<V>, i: nat, fetch: string -> Answer<V>)
    returns (k: nat, t: State<V>)
    requires Inv(plan, s) && i < |plan.asks| && !s.callers[i].Served?
    ensures k < |plan.asks| && plan.asks[k] == plan.asks[i] && Step(plan, s, t, k)
  {
    k := if s.callers[i].Waiting? && plan.asks[i] in s.locks then s.locks[plan.asks[i]] else i;
    assert Agrees(plan, s, k) && At(plan, s, k);
    assert s.callers[i].Waiting? && plan.asks[i] in s.locks ==> InLock(s.callers[k]);
    hide Agrees, Locked, Counted;
    match s.callers[k]
    case Waiting =>
      t := Moved(s, k, Holding).(locks := s.locks[plan.asks[k] := k]);
      assert Acquires(plan, s, t, k);
    case Holding =>
      t := if plan.asks[k] in s.cache then Moved(s, k, Reading)
           else Moved(s, k, Fetching).(started := s.started + multiset{plan.asks[k]});
      assert Looks(plan, s, t, k);
    case Fetching =>
      var answer := fetch(plan.asks[k]);
      t := if answer.Escaped? then Moved(s, k, Leaving(Escaped)).(escaped := s.escaped + multiset{plan.asks[k]})
           else Moved(s, k, Reading).(cache := s.cache[plan.asks[k] := plan.Remembered(answer)]);
      assert Escapes(plan, s, t, k) || Fetches(plan, s, t, k, answer);
    case Reading =>
      t := Moved(s, k, Outside).(locks := s.locks - {plan.asks[k]});
      assert ReleasesFirst(plan, s, t, k);
    case Leaving(answer) =>
      t := Moved(s, k, Served(answer)).(locks := s.locks - {plan.asks[k]});
      assert Releases(plan, s, t, k);
    case Outside =>
      t := Moved(s, k, Served(s.cache[plan.asks[k]]));
      assert ReadsAfter(plan, s, t, k);
    case Served(_) =>
  }
}
