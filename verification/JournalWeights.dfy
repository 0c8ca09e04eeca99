/**
 The incremental reader over any sequence of runs: how often each entry counts, when a run may
 enable a kind any number of times.
 */
module JournalWeights {
  import opened Options
  import opened Journal
  import opened JournalScan

  // ---- Entries that count several times --------------------------------------------------------------

  /** How often each entry of a journal counts, by its position. */
  type Weights = nat -> nat

  /** The times of the matching entries, each as often as it counts. */
  function Weighed(rules: Rules, entries: seq<Entry>, kind: Kind, w: Weights): seq<real> {
    if entries == [] then []
    else
      var n := |entries| - 1;
      Weighed(rules, entries[..n], kind, w) + Stamped(rules, entries[n], kind, w(n))
  }

  function Shifted(w: Weights, start: nat): Weights {
    (i: nat) => w(start + i)
  }

  lemma WeighedAppend(rules: Rules, front: seq<Entry>, last: Entry, kind: Kind, w: Weights)
    ensures Weighed(rules, front + [last], kind, w)
      == Weighed(rules, front, kind, w) + Stamped(rules, last, kind, w(|front|))
  {
    assert (front + [last])[..|front|] == front;
  }

  lemma WeighedNothing(rules: Rules, kind: Kind, w: Weights)
    ensures Weighed(rules, [], kind, w) == []
  {
  }

  lemma {:induction false} WeighedConcat(rules: Rules, a: seq<Entry>, b: seq<Entry>, kind: Kind, w: Weights)
    ensures Weighed(rules, a + b, kind, w) == Weighed(rules, a, kind, w) + Weighed(rules, b, kind, Shifted(w, |a|))
    decreases |b|
  {
    hide Weighed, Stamped;
    if b == [] {
      assert a + b == a;
      WeighedNothing(rules, kind, Shifted(w, |a|));
    } else {
      var front, last := b[..|b| - 1], b[|b| - 1];
      WeighedConcat(rules, a, front, kind, w);
      WeighedAppend(rules, a + front, last, kind, w);
      WeighedAppend(rules, front, last, kind, Shifted(w, |a|));
      assert a + b == a + front + [last] && b == front + [last];
    }
  }

  lemma LastWeighs(rules: Rules, entries: seq<Entry>, kind: Kind, w: Weights)
    requires entries != []
    ensures var n := |entries| - 1;
      Weighed(rules, entries, kind, w)
        == Weighed(rules, entries[..n], kind, w) + Stamped(rules, entries[n], kind, w(n))
  {
  }

  /** Entries that all count `n` times. */
  lemma {:induction false} WeighedEvenly(rules: Rules, entries: seq<Entry>, kind: Kind, w: Weights, n: nat)
    requires forall i: nat :: i < |entries| ==> w(i) == n
    ensures Weighed(rules, entries, kind, w) == TimesOf(rules, entries, kind, n)
    decreases |entries|
  {
    if entries != [] {
      WeighedEvenly(rules, entries[..|entries| - 1], kind, w, n);
    }
  }

  lemma {:induction false} WeighedAlike(rules: Rules, entries: seq<Entry>, kind: Kind, w: Weights, w': Weights)
    requires forall i: nat :: i < |entries| ==> w(i) == w'(i)
    ensures Weighed(rules, entries, kind, w) == Weighed(rules, entries, kind, w')
    decreases |entries|
  {
    if entries != [] {
      WeighedAlike(rules, entries[..|entries| - 1], kind, w, w');
    }
  }

  // ---- What is saved ---------------------------------------------------------------------------------

  /** The entries from position `j` on count as often as a run enables the kind, those before as they did. */
  function Reweighed(w: Weights, j: nat, n: nat): Weights {
    (i: nat) => if i < j then w(i) else n
  }

  ghost predicate Positive(w: Weights) {
    forall i: nat :: 1 <= w(i)
  }

  /** From position `s` on every kind counts as often as the run enables it. */
  ghost predicate CountsFrom(w: Kind -> Weights, s: nat, run: Run) {
    forall kind, i: nat :: s <= i ==> w(kind)(i) == Occurrences(run.enabled, kind)
  }

  /** The saved stamps are those of the journal up to the saved cursor, each entry as often as it counts. */
  ghost predicate SavedWith(rules: Rules, saved: Saved, journal: seq<Entry>, j: nat, then_: real, w: Kind -> Weights)
    requires j <= |journal|
  {
    && (saved.cursor.Some? ==> saved.cursor.value != "" && Behind(journal, saved.cursor.value) == Some(j))
    && forall kind :: KindSavedWith(rules, saved, journal[..j], then_, w(kind), kind)
  }

  ghost predicate KindSavedWith(rules: Rules, saved: Saved, head: seq<Entry>, then_: real, w: Weights, kind: Kind) {
    && Of(saved.events, kind)
      == (if kind in saved.kinds then After(Weighed(rules, head, kind, w), then_ - WINDOW) else [])
    && (kind in saved.kinds ==> Positive(w))
  }

  ghost predicate ConsistentWith(rules: Rules, file: Option<Saved>, journal: seq<Entry>, now: real,
      w: Kind -> Weights)
  {
    file.Some? ==> exists j: nat, then_: real ::
      j <= |journal| && then_ <= now && SavedWith(rules, file.value, journal, j, then_, w)
  }

  lemma ConsistentWithLater(rules: Rules, file: Option<Saved>, journal: seq<Entry>, now: real, w: Kind -> Weights,
                            longer: seq<Entry>, later: real)
    requires ConsistentWith(rules, file, journal, now, w) && now <= later && journal <= longer
      && UniqueCursors(longer)
    ensures ConsistentWith(rules, file, longer, later, w)
  {
    hide After, Weighed, Behind, KindSavedWith;
    if file.Some? {
      var j: nat, then_: real :| j <= |journal| && then_ <= now && SavedWith(rules, file.value, journal, j, then_, w);
      assert longer[..j] == journal[..j];
      if file.value.cursor.Some? {
        BehindIsThere(journal, file.value.cursor.value);
        BehindFinds(longer, j);
      }
      assert SavedWith(rules, file.value, longer, j, then_, w);
    }
  }

  // ---- One run ---------------------------------------------------------------------------------------

  /** Where a run begins to read: at the saved cursor, or at the beginning. */
  function ReadFrom(rules: Rules, file: Option<Saved>, run: Run): nat {
    var cursor := UsableCursor(file, run.enabled);
    match Read(rules, run, cursor)
    case Failed(_) => 0
    case Lines(_, full) =>
      if full || cursor.None? then 0
      else
        match Behind(run.journal, cursor.value)
        case None => 0
        case Some(j) => j
  }

  /** How often the entries count for a run: newly read ones as often as it enables the kind. */
  function Counting(rules: Rules, file: Option<Saved>, run: Run, w: Kind -> Weights): Kind -> Weights {
    kind => Reweighed(w(kind), ReadFrom(rules, file, run), Occurrences(run.enabled, kind))
  }

  lemma CountingFrom(rules: Rules, file: Option<Saved>, run: Run, w: Kind -> Weights)
    ensures CountsFrom(Counting(rules, file, run, w), ReadFrom(rules, file, run), run)
  {
    forall kind, i: nat | ReadFrom(rules, file, run) <= i
      ensures Counting(rules, file, run, w)(kind)(i) == Occurrences(run.enabled, kind)
    {
      assert Counting(rules, file, run, w)(kind)
        == Reweighed(w(kind), ReadFrom(rules, file, run), Occurrences(run.enabled, kind));
    }
  }

  ghost predicate ReadyWith(rules: Rules, file: Option<Saved>, run: Run, w: Kind -> Weights) {
    && Lossless(rules) && UniqueCursors(run.journal) && WINDOW <= run.now
    && ConsistentWith(rules, file, run.journal, run.now, w)
  }

  lemma {:induction false} EnabledOccurs(enabled: seq<Kind>, kind: Kind)
    ensures kind in enabled <==> Occurrences(enabled, kind) >= 1
    decreases |enabled|
  {
    if enabled != [] {
      EnabledOccurs(enabled[..|enabled| - 1], kind);
      assert enabled == enabled[..|enabled| - 1] + [enabled[|enabled| - 1]];
    }
  }

  /** The stamps of a run: every entry of the window as often as it counts, for the enabled kinds. */
  ghost predicate StampedWith(rules: Rules, run: Run, stamps: Stamps, w: Weights, kind: Kind) {
    && Of(stamps, kind)
      == (if kind in run.enabled then After(Weighed(rules, run.journal, kind, w), run.now - WINDOW) else [])
    && (kind in run.enabled ==> Positive(w))
  }

  /** A full read counts every entry as often as the run enables the kind. */
  lemma FullReadStamps(rules: Rules, run: Run, since: int, kind: Kind, w: Weights)
    requires Lossless(rules) && since as real <= run.now - WINDOW
    requires forall i: nat :: w(i) == Occurrences(run.enabled, kind)
    ensures StampedWith(rules, run, Fresh(Scanned(rules, Printed(rules, run.journal, Some(since)), run.enabled,
      map[]),
                                          run.now - WINDOW), w, kind)
  {
    hide After, TimesOf, Printed, Scanned, Noted, Occurrences, Copies, Weighed;
    NothingAfter(run.now - WINDOW);
    EnabledOccurs(run.enabled, kind);
    FullReadIsExact(rules, run, since, kind, Occurrences(run.enabled, kind));
    WeighedEvenly(rules, run.journal, kind, w, Occurrences(run.enabled, kind));
    NotEnabledNotAdded(rules, run.journal, kind);
  }

  /** An incremental read counts the entries it reads as often as it enables the kind, the others as before. */
  lemma IncrementalReadStamps(rules: Rules, saved: Saved, run: Run, j: nat, then_: real, w: Weights, kind: Kind)
    requires Lossless(rules) && saved.kinds == KindSet(run.enabled) && j <= |run.journal| && then_ <= run.now
    requires KindSavedWith(rules, saved, run.journal[..j], then_, w, kind)
    ensures StampedWith(rules, run, Fresh(Scanned(rules, Printed(rules, run.journal[j..], None), run.enabled,
      saved.events),
                                          run.now - WINDOW), Reweighed(w, j, Occurrences(run.enabled, kind)), kind)
  {
    hide After, TimesOf, Printed, Scanned, Noted, Occurrences, Copies, Weighed, Behind;
    var n, cut, tail := Occurrences(run.enabled, kind), run.now - WINDOW, run.journal[j..];
    NothingAfter(cut);
    EnabledOccurs(run.enabled, kind);
    StampsOf(rules, saved.events, Printed(rules, tail, None), run.enabled, cut, kind);
    PrintedKeepsTimes(rules, tail, None, kind, n, cut);
    if kind in run.enabled {
      WeighedWindowSplits(rules, run.journal, j, then_, run.now, kind, w, n);
    } else {
      NotEnabledNotAdded(rules, tail, kind);
    }
  }

  lemma WeighedWindowSplits(rules: Rules, journal: seq<Entry>, j: nat, then_: real, now: real, kind: Kind,
      w: Weights, n: nat)
    requires j <= |journal| && then_ <= now
    ensures After(Weighed(rules, journal, kind, Reweighed(w, j, n)), now - WINDOW)
      == After(After(Weighed(rules, journal[..j], kind, w), then_ - WINDOW), now - WINDOW)
         + After(TimesOf(rules, journal[j..], kind, n), now - WINDOW)
  {
    hide After, TimesOf, Stamped, Weighed;
    var head, tail, u := journal[..j], journal[j..], Reweighed(w, j, n);
    assert head + tail == journal;
    WeighedConcat(rules, head, tail, kind, u);
    WeighedAlike(rules, head, kind, u, w);
    WeighedEvenly(rules, tail, kind, Shifted(u, |head|), n);
    AfterConcat(Weighed(rules, head, kind, w), TimesOf(rules, tail, kind, n), now - WINDOW);
    AfterIsStable(Weighed(rules, head, kind, w), then_ - WINDOW, now - WINDOW);
  }

  /** Behind the last entry printed nothing counts, however often its entries do. */
  lemma WeighedNothingBehind(rules: Rules, journal: seq<Entry>, j: nat, since: Option<int>, now: real, kind: Kind,
      w: Weights, n: nat)
    requires Lossless(rules) && j <= |journal| && Printed(rules, journal[j..], since) == []
    requires since.Some? ==> since.value as real <= now - WINDOW
    requires forall i: nat :: j <= i ==> w(i) == n
    ensures After(Weighed(rules, journal[..j], kind, w), now - WINDOW)
      == After(Weighed(rules, journal, kind, w), now - WINDOW)
  {
    var head, tail, cut := journal[..j], journal[j..], now - WINDOW;
    assert TimesOf(rules, [], kind, n) == [];
    hide After, TimesOf, Stamped, Weighed, Printed;
    NothingAfter(cut);
    PrintedKeepsTimes(rules, tail, since, kind, n, cut);
    assert head + tail == journal;
    WeighedConcat(rules, head, tail, kind, w);
    WeighedEvenly(rules, tail, kind, Shifted(w, |head|), n);
    AfterConcat(Weighed(rules, head, kind, w), TimesOf(rules, tail, kind, n), cut);
  }

  /** What a run saves is again consistent. */
  lemma SavedIsConsistentWith(rules: Rules, run: Run, s: nat, since: Option<int>, start: Option<string>,
      stamps: Stamps, w: Kind -> Weights)
    requires Lossless(rules) && UniqueCursors(run.journal) && s <= |run.journal|
    requires since.Some? ==> since.value as real <= run.now - WINDOW
    requires start.Some? ==> start.value != "" && Behind(run.journal, start.value) == Some(s)
    requires start.None? ==> s == 0
    requires forall kind :: StampedWith(rules, run, stamps, w(kind), kind)
    requires CountsFrom(w, s, run)
    ensures var printed := Printed(rules, run.journal[s..], since);
      ConsistentWith(rules, Some(Saved(LastCursor(printed, start), KindSet(run.enabled), stamps)), run.journal,
        run.now, w)
  {
    hide After, TimesOf, Printed, Scanned, Noted, Occurrences, Copies, Weighed, Behind;
    var tail := run.journal[s..];
    var printed := Printed(rules, tail, since);
    var saved := Saved(LastCursor(printed, start), KindSet(run.enabled), stamps);
    var j := s;
    if printed != [] {
      var i := LastPrinted(rules, tail, since);
      j := s + i;
      assert tail[i..] == run.journal[j..];
      BehindFinds(run.journal, j);
    }
    assert Printed(rules, run.journal[j..], since) == [];
    forall kind ensures KindSavedWith(rules, saved, run.journal[..j], run.now, w(kind), kind) {
      assert StampedWith(rules, run, stamps, w(kind), kind);
      WeighedNothingBehind(rules, run.journal, j, since, run.now, kind, w(kind), Occurrences(run.enabled, kind));
    }
    assert SavedWith(rules, saved, run.journal, j, run.now, w);
  }

  /** What a run that reads something stamps and saves. */
  ghost predicate ReadsWith(rules: Rules, file: Option<Saved>, run: Run, entries: seq<Entry>, full: bool,
      w: Kind -> Weights)
  {
    var stamps := StampsAfter(rules, file, run, entries, full);
    && (forall kind :: StampedWith(rules, run, stamps, w(kind), kind))
    && ConsistentWith(rules, Some(Saved(LastCursor(entries, if full then None else UsableCursor(file, run.enabled)),
                                        KindSet(run.enabled), stamps)), run.journal, run.now, w)
  }

  lemma FullReadingWith(rules: Rules, file: Option<Saved>, run: Run, w: Kind -> Weights)
    requires ReadyWith(rules, file, run, w) && Read(rules, run, UsableCursor(file, run.enabled)).Lines?
    requires Read(rules, run, UsableCursor(file, run.enabled)) == WindowReading(rules, run)
    ensures ReadsWith(rules, file, run, Printed(rules, run.journal, Some(Since(run))), true,
      Counting(rules, file, run, w))
  {
    hide After, TimesOf, Scanned, Noted, Copies, Weighed, Behind;
    var since, u := Since(run), Counting(rules, file, run, w);
    SinceIsBefore(run);
    assert ReadFrom(rules, file, run) == 0;
    CountingFrom(rules, file, run, w);
    hide Printed, Occurrences;
    forall kind ensures StampedWith(rules, run,
      StampsAfter(rules, file, run, Printed(rules, run.journal, Some(since)), true), u(kind), kind) {
      FullReadStamps(rules, run, since, kind, u(kind));
    }
    assert run.journal[0..] == run.journal;
    SavedIsConsistentWith(rules, run, 0, Some(since), None,
      StampsAfter(rules, file, run, Printed(rules, run.journal, Some(since)), true), u);
  }

  lemma IncrementalReadingWith(rules: Rules, file: Option<Saved>, run: Run, j: nat, then_: real, w: Kind -> Weights)
    requires ReadyWith(rules, file, run, w) && file.Some? && file.value.kinds == KindSet(run.enabled)
      && file.value.cursor.Some?
    requires j <= |run.journal| && then_ <= run.now && SavedWith(rules, file.value, run.journal, j, then_, w)
    requires Read(rules, run, file.value.cursor) == Lines(Printed(rules, run.journal[j..], None), false)
    ensures ReadsWith(rules, file, run, Printed(rules, run.journal[j..], None), false, Counting(rules, file, run, w))
  {
    hide After, TimesOf, Scanned, Noted, Copies, Weighed, Behind, Printed, Occurrences, Read;
    var u, entries := Counting(rules, file, run, w), Printed(rules, run.journal[j..], None);
    assert ReadFrom(rules, file, run) == j;
    CountingFrom(rules, file, run, w);
    forall kind ensures StampedWith(rules, run, StampsAfter(rules, file, run, entries, false), u(kind), kind) {
      assert KindSavedWith(rules, file.value, run.journal[..j], then_, w(kind), kind);
      IncrementalReadStamps(rules, file.value, run, j, then_, w(kind), kind);
    }
    hide StampedWith;
    SavedIsConsistentWith(rules, run, j, None, file.value.cursor, StampsAfter(rules, file, run, entries, false), u);
  }

  lemma ReadingWith(rules: Rules, file: Option<Saved>, run: Run, w: Kind -> Weights)
    requires ReadyWith(rules, file, run, w)
    ensures match Read(rules, run, UsableCursor(file, run.enabled))
      case Failed(_) => true
      case Lines(entries, full) => ReadsWith(rules, file, run, entries, full, Counting(rules, file, run, w))
  {
    hide After, TimesOf, Printed, Scanned, Noted, Occurrences, Copies, Weighed, Behind, ReadsWith, Counting;
    var cursor := UsableCursor(file, run.enabled);
    var reading := Read(rules, run, cursor);
    if reading.Lines? {
      if reading.full {
        assert reading == WindowReading(rules, run);
        FullReadingWith(rules, file, run, w);
      } else {
        var j: nat, then_: real :| j <= |run.journal| && then_ <= run.now
          && SavedWith(rules, file.value, run.journal, j, then_, w);
        assert Behind(run.journal, cursor.value) == Some(j);
        IncrementalReadingWith(rules, file, run, j, then_, w);
      }
    }
  }

  // ---- Any sequence of runs --------------------------------------------------------------------------

  /** The state file after the runs, starting from none. */
  function FileAfter(rules: Rules, runs: seq<Run>): Option<Saved> {
    if runs == [] then None
    else Collected(rules, FileAfter(rules, runs[..|runs| - 1]), runs[|runs| - 1]).file
  }

  /** The journal only grows, time does not run backwards, cursors are unique; kinds may repeat. */
  ghost predicate AnyHistory(runs: seq<Run>) {
    && (forall i, k :: 0 <= i <= k < |runs| ==> runs[i].journal <= runs[k].journal && runs[i].now <= runs[k].now)
    && (forall i :: 0 <= i < |runs| ==> UniqueCursors(runs[i].journal) && WINDOW <= runs[i].now)
  }

  /** How often the entries behind the saved stamps count, after the runs. */
  function SavedWeights(rules: Rules, runs: seq<Run>): Kind -> Weights {
    if runs == [] then _ => _ => 1
    else
      var front, last := runs[..|runs| - 1], runs[|runs| - 1];
      var before := Found(FileAfter(rules, front), last);
      if last.writes && Read(rules, last, UsableCursor(before, last.enabled)).Lines?
      then Counting(rules, before, last, SavedWeights(rules, front))
      else SavedWeights(rules, front)
  }

  /** How often they count for the next run. */
  function WeightsFor(rules: Rules, runs: seq<Run>, next: Run): Kind -> Weights {
    Counting(rules, Found(FileAfter(rules, runs), next), next, SavedWeights(rules, runs))
  }

  lemma RunKeepsWith(rules: Rules, runs: seq<Run>, last: Run)
    requires ReadyWith(rules, Found(FileAfter(rules, runs), last), last, SavedWeights(rules, runs))
    ensures ConsistentWith(rules, FileAfter(rules, runs + [last]), last.journal, last.now,
      SavedWeights(rules, runs + [last]))
  {
    assert (runs + [last])[..|runs|] == runs;
    hide After, TimesOf, Printed, Scanned, Noted, Occurrences, Copies, Weighed, Behind, Counting, StampsAfter,
      StampedWith;
    ReadingWith(rules, Found(FileAfter(rules, runs), last), last, SavedWeights(rules, runs));
  }

  lemma {:induction false} FileStaysWith(rules: Rules, runs: seq<Run>, next: Run)
    requires Lossless(rules) && AnyHistory(runs + [next])
    ensures ReadyWith(rules, Found(FileAfter(rules, runs), next), next, SavedWeights(rules, runs))
    decreases |runs|
  {
    assert (runs + [next])[|runs|] == next;
    if runs != [] {
      var front, last := runs[..|runs| - 1], runs[|runs| - 1];
      assert front + [last] == runs;
      assert forall i :: 0 <= i < |runs| ==> (runs + [next])[i] == runs[i];
      FileStaysWith(rules, front, last);
      RunKeepsWith(rules, front, last);
      hide FileAfter, SavedWeights;
      ConsistentWithLater(rules, FileAfter(rules, runs), last.journal, last.now, SavedWeights(rules, runs),
        next.journal, next.now);
    }
  }

  /** A successful run counts every entry of the window as often as the run that read it enabled the kind. */
  lemma EveryRunCountsWeights(rules: Rules, runs: seq<Run>, next: Run, kind: Kind)
    requires Lossless(rules) && AnyHistory(runs + [next]) && kind in next.enabled
    ensures var outcome := Collected(rules, FileAfter(rules, runs), next);
      var w := WeightsFor(rules, runs, next)(kind);
      && kind in outcome.counts && (outcome.error.None? ==>
           && Positive(w)
           && outcome.counts[kind].count == |After(Weighed(rules, next.journal, kind, w), next.now - WINDOW)|)
  {
    hide After, Weighed, Counting, ConsistentWith, FileAfter, SavedWeights, ReadyWith, StampsAfter, Read,
      Collected, Positive;
    var file := Found(FileAfter(rules, runs), next);
    var w := WeightsFor(rules, runs, next)(kind);
    var reading := Read(rules, next, UsableCursor(file, next.enabled));
    FileStaysWith(rules, runs, next);
    ReadingWith(rules, file, next, SavedWeights(rules, runs));
    CountOfReading(rules, FileAfter(rules, runs), next, kind);
    if reading.Lines? {
      assert StampedWith(rules, next, StampsAfter(rules, file, next, reading.entries, reading.full), w, kind);
      AfterIsStable(Weighed(rules, next.journal, kind, w), next.now - WINDOW, next.now - WINDOW);
    }
  }

  lemma CountOfReading(rules: Rules, file: Option<Saved>, run: Run, kind: Kind)
    requires kind in run.enabled
    ensures var reading := Read(rules, run, UsableCursor(Found(file, run), run.enabled));
      var outcome := Collected(rules, file, run);
      && kind in outcome.counts && (outcome.error.None? <==> reading.Lines?)
      && (reading.Lines? ==>
            outcome.counts[kind].count
              == |After(Of(StampsAfter(rules, Found(file, run), run, reading.entries, reading.full), kind),
                run.now - WINDOW)|)
  {
    hide After, Read, StampsAfter, Latest;
  }
}
