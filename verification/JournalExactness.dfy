/** The incremental reader against a stateless scan of the window, over any sequence of runs of distinct kinds. */
module JournalExactness {
  import opened Options
  import opened Journal
  import opened JournalScan
  import opened JournalWeights

  // ---- Every entry once ------------------------------------------------------------------------------

  ghost predicate NoRepeats(enabled: seq<Kind>) {
    forall kind :: Occurrences(enabled, kind) == if kind in enabled then 1 else 0
  }

  const ONCE: Kind -> Weights := _ => _ => 1

  /** The saved stamps are those of the journal up to the saved cursor, as of the time of saving. */
  ghost predicate Consistent(rules: Rules, file: Option<Saved>, journal: seq<Entry>, now: real) {
    ConsistentWith(rules, file, journal, now, ONCE)
  }

  /** A saved state of distinct kinds that the journal bears out. */
  ghost predicate ReadyFor(rules: Rules, file: Option<Saved>, run: Run) {
    NoRepeats(run.enabled) && ReadyWith(rules, file, run, ONCE)
  }

  /** Where an enabled kind is enabled once, its entries go on counting once. */
  lemma CountsOnce(rules: Rules, file: Option<Saved>, run: Run, kind: Kind)
    requires NoRepeats(run.enabled) && kind in run.enabled
    ensures forall i: nat :: Counting(rules, file, run, ONCE)(kind)(i) == 1
  {
    assert Counting(rules, file, run, ONCE)(kind) == Reweighed(ONCE(kind), ReadFrom(rules, file, run), 1);
  }

  /** How often the entries count matters for the saved kinds only. */
  lemma SavedAlike(rules: Rules, saved: Saved, journal: seq<Entry>, now: real, w: Kind -> Weights)
    requires ConsistentWith(rules, Some(saved), journal, now, w)
    requires forall kind, i: nat :: kind in saved.kinds ==> w(kind)(i) == 1
    ensures Consistent(rules, Some(saved), journal, now)
  {
    hide After, Weighed, Behind;
    var j: nat, then_: real :| j <= |journal| && then_ <= now && SavedWith(rules, saved, journal, j, then_, w);
    forall kind ensures KindSavedWith(rules, saved, journal[..j], then_, ONCE(kind), kind) {
      assert KindSavedWith(rules, saved, journal[..j], then_, w(kind), kind);
      if kind in saved.kinds {
        WeighedAlike(rules, journal[..j], kind, w(kind), ONCE(kind));
      }
    }
    assert SavedWith(rules, saved, journal, j, then_, ONCE);
  }

  // ---- One run ---------------------------------------------------------------------------------------

  /** The stamps are those of the stateless scan, for the enabled kinds and no others. */
  ghost predicate AreExact(rules: Rules, run: Run, stamps: Stamps) {
    forall kind :: Of(stamps, kind) == if kind in run.enabled then InWindow(rules, run.journal, run.now, kind) else []
  }

  lemma ReadIsExact(rules: Rules, file: Option<Saved>, run: Run)
    requires ReadyFor(rules, file, run)
    ensures var cursor := UsableCursor(file, run.enabled);
      match Read(rules, run, cursor)
      case Failed(_) => true
      case Lines(entries, full) =>
        var stamps := StampsAfter(rules, file, run, entries, full);
        && AreExact(rules, run, stamps)
        && Consistent(rules,
                      Some(Saved(LastCursor(entries, if full then None else cursor), KindSet(run.enabled), stamps)),
                      run.journal, run.now)
  {
    hide After, TimesOf, Weighed, Counting, ReadyWith, Read, ConsistentWith, StampsAfter, Occurrences;
    var cursor := UsableCursor(file, run.enabled);
    var reading := Read(rules, run, cursor);
    ReadingWith(rules, file, run, ONCE);
    if reading.Lines? {
      var stamps, w := StampsAfter(rules, file, run, reading.entries, reading.full), Counting(rules, file, run, ONCE);
      forall kind | kind in run.enabled ensures forall i: nat :: w(kind)(i) == 1 {
        CountsOnce(rules, file, run, kind);
      }
      forall kind
        ensures Of(stamps, kind) == if kind in run.enabled then InWindow(rules, run.journal, run.now, kind) else []
      {
        assert StampedWith(rules, run, stamps, w(kind), kind);
        if kind in run.enabled {
          WeighedEvenly(rules, run.journal, kind, w(kind), 1);
        }
      }
      var last := LastCursor(reading.entries, if reading.full then None else cursor);
      var saved := Saved(last, KindSet(run.enabled), stamps);
      SavedAlike(rules, saved, run.journal, run.now, w);
    }
  }

  /** Every time counted is one of the stateless scan's, and there are no more of them. */
  ghost predicate NoMoreThan(count: EventCount, truth: EventCount) {
    && count.count <= truth.count
    && (count.last.Some? ==> truth.last.Some? && count.last.value <= truth.last.value)
  }

  lemma KnownNeverOvercounts(rules: Rules, file: Option<Saved>, run: Run, kind: Kind)
    requires Consistent(rules, file, run.journal, run.now)
    ensures NoMoreThan(CountAfter(Of(Known(file), kind), run.now - WINDOW), Truth(rules, run.journal, run.now, kind))
  {
    hide After, TimesOf, Weighed, Latest, Behind;
    NothingAfter(run.now - WINDOW);
    if file.Some? {
      var j: nat, then_: real :| j <= |run.journal| && then_ <= run.now
        && SavedWith(rules, file.value, run.journal, j, then_, ONCE);
      assert KindSavedWith(rules, file.value, run.journal[..j], then_, ONCE(kind), kind);
      SavedNeverOvercounts(rules, file.value, run, j, then_, kind);
    }
  }

  lemma SavedNeverOvercounts(rules: Rules, saved: Saved, run: Run, j: nat, then_: real, kind: Kind)
    requires j <= |run.journal| && then_ <= run.now
    requires KindSavedWith(rules, saved, run.journal[..j], then_, ONCE(kind), kind)
    ensures NoMoreThan(CountAfter(Of(saved.events, kind), run.now - WINDOW), Truth(rules, run.journal, run.now, kind))
  {
    hide After, TimesOf, Weighed, Latest;
    NothingAfter(run.now - WINDOW);
    var known, more := After(Of(saved.events, kind), run.now - WINDOW),
      InWindow(rules, run.journal[j..], run.now, kind);
    if kind in saved.kinds {
      WeighedWindowSplits(rules, run.journal, j, then_, run.now, kind, ONCE(kind), 1);
      WeighedEvenly(rules, run.journal, kind, Reweighed(ONCE(kind), j, 1), 1);
      assert InWindow(rules, run.journal, run.now, kind) == known + more;
      PartIsNoMore(known, more);
    }
  }

  lemma PartIsNoMore(a: seq<real>, b: seq<real>)
    ensures NoMoreThan(EventCount(|a|, Latest(a)), EventCount(|a + b|, Latest(a + b)))
  {
    LatestIsMaximum(a);
    LatestIsMaximum(a + b);
    assert forall t :: t in a ==> t in a + b;
  }

  /** What one run from a consistent state returns and leaves behind. */
  lemma RunIsExact(rules: Rules, file: Option<Saved>, run: Run)
    requires ReadyFor(rules, Found(file, run), run)
    ensures var outcome := Collected(rules, file, run);
      && Consistent(rules, outcome.file, run.journal, run.now)
      && outcome.counts.Keys == KindSet(run.enabled)
      && (forall kind :: kind in run.enabled ==>
            if outcome.error.None? then outcome.counts[kind] == Truth(rules, run.journal, run.now, kind)
            else NoMoreThan(outcome.counts[kind], Truth(rules, run.journal, run.now, kind)))
      && (outcome.error.Some? ==> outcome.file == Found(file, run))
  {
    hide After, TimesOf, Printed, Scanned, Noted, Occurrences, Copies, Latest, Behind, Weighed, SavedWith, Counting;
    var before := Found(file, run);
    ReadIsExact(rules, before, run);
    forall kind | kind in run.enabled
      ensures var outcome := Collected(rules, file, run);
        if outcome.error.None? then outcome.counts[kind] == Truth(rules, run.journal, run.now, kind)
        else NoMoreThan(outcome.counts[kind], Truth(rules, run.journal, run.now, kind))
    {
      CountIsExact(rules, file, run, kind);
    }
  }

  lemma CountIsExact(rules: Rules, file: Option<Saved>, run: Run, kind: Kind)
    requires ReadyFor(rules, Found(file, run), run) && kind in run.enabled
    ensures var outcome := Collected(rules, file, run);
      if outcome.error.None? then outcome.counts[kind] == Truth(rules, run.journal, run.now, kind)
      else NoMoreThan(outcome.counts[kind], Truth(rules, run.journal, run.now, kind))
  {
    hide After, TimesOf, Printed, Scanned, Noted, Occurrences, Copies, Latest, Behind;
    var before := Found(file, run);
    var cursor := UsableCursor(before, run.enabled);
    var reading := Read(rules, run, cursor);
    if reading.Failed? {
      KnownNeverOvercounts(rules, before, run, kind);
    } else {
      ReadIsExact(rules, before, run);
      var stamps := StampsAfter(rules, before, run, reading.entries, reading.full);
      assert Collected(rules, file, run).counts == Counts(stamps, run.now, run.enabled);
      WindowCountIsTruth(rules, run, stamps, kind);
    }
  }

  lemma WindowCountIsTruth(rules: Rules, run: Run, stamps: Stamps, kind: Kind)
    requires kind in run.enabled && Of(stamps, kind) == InWindow(rules, run.journal, run.now, kind)
    ensures Counts(stamps, run.now, run.enabled)[kind] == Truth(rules, run.journal, run.now, kind)
  {
    hide After, TimesOf, Printed, Scanned, Noted, Occurrences, Copies, Latest, Behind;
    AfterIsStable(TimesOf(rules, run.journal, kind, 1), run.now - WINDOW, run.now - WINDOW);
  }

  // ---- When a run reports an error --------------------------------------------------------------

  /** A cursor was saved for the kinds that are enabled. */
  ghost predicate CursorSaved(file: Option<Saved>, run: Run) {
    && !run.fileLost && file.Some? && (forall kind :: kind in file.value.kinds <==> kind in run.enabled)
    && file.value.cursor.Some? && file.value.cursor.value != ""
  }

  /** The journal still has it, and reading from it works. */
  ghost predicate ReadsOn(file: Option<Saved>, run: Run) {
    && CursorSaved(file, run) && run.incremental.Succeeds?
    && exists i :: 0 <= i < |run.journal| && run.journal[i].cursor == file.value.cursor.value
  }

  /** Else the window is read, unless reading from the cursor found no `journalctl` or took too long. */
  ghost predicate ReadsWindow(file: Option<Saved>, run: Run) {
    !ReadsOn(file, run) && !(CursorSaved(file, run) && (run.incremental.NotInstalled? || run.incremental.TimesOut?))
  }

  ghost predicate Reports(file: Option<Saved>, run: Run, error: Option<ErrorCode>) {
    match error
    case None => ReadsOn(file, run) || (ReadsWindow(file, run) && run.window.Succeeds?)
    case Some(NotInstalledCode) =>
      (CursorSaved(file, run) && run.incremental.NotInstalled?) || (ReadsWindow(file, run) && run.window.NotInstalled?)
    case Some(TimeoutCode) =>
      (CursorSaved(file, run) && run.incremental.TimesOut?) || (ReadsWindow(file, run) && run.window.TimesOut?)
    case Some(NoPermissionCode) => ReadsWindow(file, run) && run.window.ExitsNonzero?
  }

  lemma SavedKinds(saved: Saved, enabled: seq<Kind>)
    ensures saved.kinds == KindSet(enabled) <==> forall kind :: kind in saved.kinds <==> kind in enabled
  {
  }

  lemma {:induction false} BehindIffThere(entries: seq<Entry>, cursor: string)
    ensures Behind(entries, cursor).Some? <==> exists i :: 0 <= i < |entries| && entries[i].cursor == cursor
    decreases |entries|
  {
    if entries != [] {
      var n := |entries| - 1;
      BehindIffThere(entries[..n], cursor);
      assert forall i :: 0 <= i < n ==> entries[..n][i] == entries[i];
    }
  }

  /** Which error a run reports, and that a lost cursor alone is none: the window is read instead. */
  lemma ErrorIff(rules: Rules, file: Option<Saved>, run: Run, error: Option<ErrorCode>)
    ensures Collected(rules, file, run).error == error <==> Reports(file, run, error)
  {
    hide Behind, Printed, Counts, StampsAfter, KindSet;
    if file.Some? {
      SavedKinds(file.value, run.enabled);
      if file.value.cursor.Some? {
        BehindIffThere(run.journal, file.value.cursor.value);
      }
    }
  }

  // ---- Any sequence of runs --------------------------------------------------------------------------

  /** The journal only grows, time does not run backwards, cursors are unique, kinds are enabled once. */
  ghost predicate History(runs: seq<Run>) {
    && (forall i, k :: 0 <= i <= k < |runs| ==> runs[i].journal <= runs[k].journal && runs[i].now <= runs[k].now)
    && (forall i :: 0 <= i < |runs| ==>
          UniqueCursors(runs[i].journal) && NoRepeats(runs[i].enabled) && WINDOW <= runs[i].now)
  }

  lemma {:induction false} FileStaysConsistent(rules: Rules, runs: seq<Run>, next: Run)
    requires Lossless(rules) && History(runs + [next])
    ensures ReadyFor(rules, Found(FileAfter(rules, runs), next), next)
    decreases |runs|
  {
    assert (runs + [next])[|runs|] == next;
    if runs != [] {
      var front, last := runs[..|runs| - 1], runs[|runs| - 1];
      assert front + [last] == runs;
      assert forall i :: 0 <= i < |runs| ==> (runs + [next])[i] == runs[i];
      FileStaysConsistent(rules, front, last);
      RunIsExact(rules, FileAfter(rules, front), last);
      ConsistentWithLater(rules, FileAfter(rules, runs), last.journal, last.now, ONCE, next.journal, next.now);
    }
  }

  /**
   After any history of lost cursors, lost files, changed kinds, failed reads and failed
   writes, the next run either counts exactly what a stateless scan of the whole journal
   counts, for every enabled kind, or reports an error, keeps the saved state and counts no more.
   Which of the two, and which error, is decided by what the reads it needs come to.
   */
  lemma EveryRunIsExact(rules: Rules, runs: seq<Run>, next: Run, kind: Kind)
    requires Lossless(rules) && History(runs + [next]) && kind in next.enabled
    ensures var outcome := Collected(rules, FileAfter(rules, runs), next);
      && kind in outcome.counts && Reports(FileAfter(rules, runs), next, outcome.error)
      && if outcome.error.None? then outcome.counts[kind] == Truth(rules, next.journal, next.now, kind)
         else && NoMoreThan(outcome.counts[kind], Truth(rules, next.journal, next.now, kind))
              && outcome.file == Found(FileAfter(rules, runs), next)
  {
    hide After, TimesOf, Printed, Scanned, Noted, Occurrences, Copies, Latest, Behind;
    FileStaysConsistent(rules, runs, next);
    RunIsExact(rules, FileAfter(rules, runs), next);
    ErrorIff(rules, FileAfter(rules, runs), next, Collected(rules, FileAfter(rules, runs), next).error);
    hide Reports;
  }

  // ---- The saved cursor ---------------------------------------------------------------------------

  lemma {:induction false} PrintedHolds(rules: Rules, entries: seq<Entry>, since: Option<int>, i: nat)
    requires i < |entries| && rules.passes(entries[i]) && NotBefore(entries[i], since)
    ensures Printed(rules, entries, since) != []
    decreases |entries|
  {
    if i < |entries| - 1 {
      PrintedHolds(rules, entries[..|entries| - 1], since, i);
    }
  }

  /** The cursor behind which a run goes on is not before any entry it was printed. */
  lemma LastCursorIsBehind(rules: Rules, entries: seq<Entry>, since: Option<int>, start: Option<string>, i: nat)
    requires i < |entries| && rules.passes(entries[i]) && NotBefore(entries[i], since)
    ensures var cursor := LastCursor(Printed(rules, entries, since), start);
      cursor.Some? && exists k :: i <= k < |entries| && entries[k].cursor == cursor.value
  {
    hide Printed, NotBefore;
    PrintedHolds(rules, entries, since, i);
    var j := LastPrinted(rules, entries, since);
    if j <= i {
      assert entries[j..][i - j] == entries[i];
      PrintedHolds(rules, entries[j..], since, i - j);
      assert false;
    }
    assert entries[j - 1].cursor == LastCursor(Printed(rules, entries, since), start).value;
  }

  /**
   What a successful run saves: the enabled kinds, and a cursor that is not before any entry of the
   window that the filter lets through, so that the next run reads none of them again.
   */
  lemma CursorMovesOn(rules: Rules, file: Option<Saved>, run: Run, i: nat)
    requires run.writes && Collected(rules, file, run).error.None?
    requires i < |run.journal| && rules.passes(run.journal[i]) && NotBefore(run.journal[i], Some(Since(run)))
    ensures var left := Collected(rules, file, run).file;
      && left.Some? && left.value.kinds == KindSet(run.enabled) && left.value.cursor.Some?
      && exists k :: i <= k < |run.journal| && run.journal[k].cursor == left.value.cursor.value
  {
    hide Printed, StampsAfter, Counts, KindSet, Behind, LastCursor;
    var cursor := UsableCursor(Found(file, run), run.enabled);
    if Read(rules, run, cursor) == WindowReading(rules, run) {
      LastCursorIsBehind(rules, run.journal, Some(Since(run)), None, i);
    } else {
      BehindIsThere(run.journal, cursor.value);
      var j := Behind(run.journal, cursor.value).value;
      var tail := run.journal[j..];
      if j <= i {
        LastCursorIsBehind(rules, tail, None, cursor, i - j);
        var last := LastCursor(Printed(rules, tail, None), cursor);
        var k :| i - j <= k < |tail| && tail[k].cursor == last.value;
        assert run.journal[j + k].cursor == last.value;
      } else {
        StaysOrMoves(rules, run.journal, j, cursor);
      }
    }
  }

  lemma StaysOrMoves(rules: Rules, journal: seq<Entry>, j: nat, cursor: Option<string>)
    requires 0 < j <= |journal| && cursor == Some(journal[j - 1].cursor)
    ensures var last := LastCursor(Printed(rules, journal[j..], None), cursor);
      last.Some? && exists k :: j - 1 <= k < |journal| && journal[k].cursor == last.value
  {
    var tail := journal[j..];
    if Printed(rules, tail, None) != [] {
      var i := LastPrinted(rules, tail, None);
      assert journal[j + i - 1] == tail[i - 1];
    } else {
      assert journal[j - 1].cursor == cursor.value;
    }
  }

  // ---- After a failed write --------------------------------------------------------------------------

  /**
   A run whose state could not be written leaves the file as it found it, cursor included.  A later
   run then reads the whole window only where it would have to anyway: where the file has no cursor
   for its kinds, or the journal does not know that cursor any more, or reading from it fails.
   */
  lemma FailedWriteKeepsCursor(rules: Rules, file: Option<Saved>, run: Run, next: Run)
    requires !run.writes
    ensures Collected(rules, file, run).file == Found(file, run)
    ensures var cursor := UsableCursor(Found(Found(file, run), next), next.enabled);
      var reading := Read(rules, next, UsableCursor(Found(Collected(rules, file, run).file, next), next.enabled));
      reading.Lines? ==>
        (reading.full <==>
         !(&& cursor.Some? && cursor.value != "" && next.incremental.Succeeds?
           && Behind(next.journal, cursor.value).Some?))
  {
    hide Behind, Printed, Counts, StampsAfter;
  }

  /** The case that differs: a write fails, and the next run reads on from the old cursor, not the window. */
  lemma FailedWriteReadsOn(rules: Rules, first: Entry, second: Entry, now: real)
    requires first.cursor != "" && first.cursor != second.cursor
    ensures var journal, enabled := [first, second], [OomKill];
      var file := Some(Saved(Some(first.cursor), {OomKill}, map[]));
      var run := Run(journal, now, enabled, Succeeds, Succeeds, false, false);
      var next := Run(journal, now, enabled, Succeeds, Succeeds, true, false);
      var left := Collected(rules, file, run).file;
      Read(rules, next, UsableCursor(left, enabled)) == Lines(Printed(rules, [second], None), false)
  {
    hide Printed, Counts, StampsAfter;
    var journal := [first, second];
    assert journal[..1] == [first] && journal[1..] == [second];
    assert Behind([first], first.cursor) == Some(1);
    assert KindSet([OomKill]) == {OomKill};
  }
}
