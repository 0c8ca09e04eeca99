/** The stateless scan of a journal, and what the server-side filter leaves of it. */
module JournalScan {
  import opened Options
  import opened Journal

  // ---- The stateless scan ----------------------------------------------------------------------------

  /** The entries of the whole journal that match the kind and are younger than the window. */
  function InWindow(rules: Rules, journal: seq<Entry>, now: real, kind: Kind): seq<real> {
    After(TimesOf(rules, journal, kind, 1), now - WINDOW)
  }

  function Truth(rules: Rules, journal: seq<Entry>, now: real, kind: Kind): EventCount {
    EventCount(|InWindow(rules, journal, now, kind)|, Latest(InWindow(rules, journal, now, kind)))
  }

  // ---- Splitting and filtering -----------------------------------------------------------------------

  lemma NothingAfter(cut: real)
    ensures After([], cut) == [] && Latest([]) == None
    ensures forall times: seq<real> :: times + [] == times && [] + times == times
  {
  }

  lemma {:induction false} TimesConcat(rules: Rules, a: seq<Entry>, b: seq<Entry>, kind: Kind, n: nat)
    ensures TimesOf(rules, a + b, kind, n) == TimesOf(rules, a, kind, n) + TimesOf(rules, b, kind, n)
    decreases |b|
  {
    if b == [] {
      assert a + b == a;
    } else {
      TimesConcat(rules, a, b[..|b| - 1], kind, n);
      hide Stamped;
      assert (a + b)[..|a + b| - 1] == a + b[..|b| - 1] && (a + b)[|a + b| - 1] == b[|b| - 1];
    }
  }

  lemma {:induction false} AfterConcat(a: seq<real>, b: seq<real>, cut: real)
    ensures After(a + b, cut) == After(a, cut) + After(b, cut)
    decreases |b|
  {
    if b == [] {
      assert a + b == a;
    } else {
      AfterConcat(a, b[..|b| - 1], cut);
      assert (a + b)[..|a + b| - 1] == a + b[..|b| - 1];
    }
  }

  lemma TimesAppend(rules: Rules, front: seq<Entry>, last: Entry, kind: Kind, n: nat, cut: real)
    ensures After(TimesOf(rules, front + [last], kind, n), cut)
         == After(TimesOf(rules, front, kind, n), cut) + After(Stamped(rules, last, kind, n), cut)
  {
    assert (front + [last])[..|front|] == front;
    AfterConcat(TimesOf(rules, front, kind, n), Stamped(rules, last, kind, n), cut);
  }

  lemma {:induction false} CopiesAfter(t: real, n: nat, cut: real)
    ensures After(Copies(t, n), cut) == if t > cut then Copies(t, n) else []
    ensures |Copies(t, n)| == n
  {
    if n > 0 {
      CopiesAfter(t, n - 1, cut);
      assert (Copies(t, n - 1) + [t])[..n - 1] == Copies(t, n - 1);
    }
  }

  ghost predicate KeepsTimes(rules: Rules, entries: seq<Entry>, since: Option<int>, kind: Kind, n: nat, cut: real) {
    After(TimesOf(rules, Printed(rules, entries, since), kind, n), cut)
      == After(TimesOf(rules, entries, kind, n), cut)
  }

  lemma OneMorePrinted(rules: Rules, front: seq<Entry>, last: Entry, since: Option<int>, kind: Kind, n: nat,
      cut: real)
    requires Lossless(rules) && (since.Some? ==> since.value as real <= cut)
    requires KeepsTimes(rules, front, since, kind, n, cut)
    ensures KeepsTimes(rules, front + [last], since, kind, n, cut)
  {
    assert (front + [last])[..|front|] == front;
    TimesAppend(rules, front, last, kind, n, cut);
    if rules.passes(last) && NotBefore(last, since) {
      TimesAppend(rules, Printed(rules, front, since), last, kind, n, cut);
    } else {
      assert Printed(rules, front + [last], since) == Printed(rules, front, since);
      if last.at.Some? {
        CopiesAfter(last.at.value, n, cut);
      }
      assert After(Stamped(rules, last, kind, n), cut) == [];
    }
  }

  /** What the server-side filter drops is nothing any kind counts inside the window. */
  lemma {:induction false} PrintedKeepsTimes(rules: Rules, entries: seq<Entry>, since: Option<int>, kind: Kind,
      n: nat, cut: real)
    requires Lossless(rules) && (since.Some? ==> since.value as real <= cut)
    ensures KeepsTimes(rules, entries, since, kind, n, cut)
    decreases |entries|
  {
    if entries != [] {
      var front, last := entries[..|entries| - 1], entries[|entries| - 1];
      PrintedKeepsTimes(rules, front, since, kind, n, cut);
      OneMorePrinted(rules, front, last, since, kind, n, cut);
      assert entries == front + [last];
    }
  }

  /** Behind the last printed entry nothing more would be printed. */
  lemma {:induction false} LastPrinted(rules: Rules, entries: seq<Entry>, since: Option<int>) returns (j: nat)
    requires Printed(rules, entries, since) != []
    ensures 0 < j <= |entries|
    ensures var printed := Printed(rules, entries, since); entries[j - 1] == printed[|printed| - 1]
    ensures Printed(rules, entries[j..], since) == []
    decreases |entries|
  {
    var front, last := entries[..|entries| - 1], entries[|entries| - 1];
    if rules.passes(last) && NotBefore(last, since) {
      j := |entries|;
    } else {
      assert Printed(rules, entries, since) == Printed(rules, front, since);
      j := LastPrinted(rules, front, since);
      var behind := entries[j..];
      assert behind[..|behind| - 1] == front[j..] && behind[|behind| - 1] == last;
    }
  }

  lemma {:induction false} BehindFinds(entries: seq<Entry>, j: nat)
    requires UniqueCursors(entries) && 0 < j <= |entries|
    ensures Behind(entries, entries[j - 1].cursor) == Some(j)
    decreases |entries|
  {
    if j < |entries| {
      BehindFinds(entries[..|entries| - 1], j);
    }
  }

  lemma {:induction false} BehindIsThere(entries: seq<Entry>, cursor: string)
    ensures match Behind(entries, cursor)
      case None => true
      case Some(j) => 0 < j <= |entries| && entries[j - 1].cursor == cursor
    decreases |entries|
  {
    if entries != [] && entries[|entries| - 1].cursor != cursor {
      BehindIsThere(entries[..|entries| - 1], cursor);
    }
  }

  // ---- What the scan counts ---------------------------------------------------------------------

  /** An entry of the last twelve hours that the kind counts. */
  predicate Counted(rules: Rules, journal: seq<Entry>, now: real, kind: Kind, i: nat) {
    && i < |journal| && journal[i].at.Some? && rules.matches(kind, journal[i])
    && journal[i].at.value > now - 43200.0
  }

  ghost function CountedIn(rules: Rules, journal: seq<Entry>, now: real, kind: Kind): set<nat> {
    set i: nat | i < |journal| && Counted(rules, journal, now, kind, i)
  }

  ghost predicate WindowHolds(rules: Rules, journal: seq<Entry>, now: real, kind: Kind) {
    var times := InWindow(rules, journal, now, kind);
    && |times| == |CountedIn(rules, journal, now, kind)|
    && forall t :: t in times <==>
         exists i: nat :: Counted(rules, journal, now, kind, i) && journal[i].at.value == t
  }

  lemma WindowAppend(rules: Rules, front: seq<Entry>, last: Entry, now: real, kind: Kind)
    ensures InWindow(rules, front + [last], now, kind) == InWindow(rules, front, now, kind)
      + if Counted(rules, front + [last], now, kind, |front|) then [last.at.value] else []
  {
    TimesAppend(rules, front, last, kind, 1, now - WINDOW);
    NothingAfter(now - WINDOW);
    hide After, TimesOf;
    if last.at.Some? {
      CopiesAfter(last.at.value, 1, now - WINDOW);
      assert Copies(last.at.value, 1) == Copies(last.at.value, 0) + [last.at.value];
    }
  }

  lemma CountedInFront(rules: Rules, front: seq<Entry>, last: Entry, now: real, kind: Kind, i: nat)
    requires i < |front|
    ensures Counted(rules, front + [last], now, kind, i) <==> Counted(rules, front, now, kind, i)
  {
  }

  lemma OneMoreCountedIn(rules: Rules, front: seq<Entry>, last: Entry, now: real, kind: Kind)
    ensures |CountedIn(rules, front + [last], now, kind)|
      == |CountedIn(rules, front, now, kind)| + if Counted(rules, front + [last], now, kind, |front|) then 1 else 0
  {
    var all, n, before := front + [last], |front|, CountedIn(rules, front, now, kind);
    forall i: nat | i < n ensures Counted(rules, all, now, kind, i) <==> Counted(rules, front, now, kind, i) {
      CountedInFront(rules, front, last, now, kind, i);
    }
    hide Counted;
    assert CountedIn(rules, all, now, kind) == before + if Counted(rules, all, now, kind, n) then {n} else {};
    assert n !in before;
  }

  lemma OneMoreInWindow(rules: Rules, front: seq<Entry>, last: Entry, now: real, kind: Kind)
    requires WindowHolds(rules, front, now, kind)
    ensures WindowHolds(rules, front + [last], now, kind)
  {
    WindowAppend(rules, front, last, now, kind);
    OneMoreCountedIn(rules, front, last, now, kind);
    hide InWindow, CountedIn;
    forall t ensures t in InWindow(rules, front + [last], now, kind) <==>
      exists i: nat :: Counted(rules, front + [last], now, kind, i) && (front + [last])[i].at.value == t
    {
      TimesAppear(rules, front, last, now, kind, t);
    }
  }

  lemma TimesAppear(rules: Rules, front: seq<Entry>, last: Entry, now: real, kind: Kind, t: real)
    requires WindowHolds(rules, front, now, kind)
    ensures var all := front + [last];
      t in InWindow(rules, all, now, kind) <==>
      exists i: nat :: Counted(rules, all, now, kind, i) && all[i].at.value == t
  {
    var all, n := front + [last], |front|;
    WindowAppend(rules, front, last, now, kind);
    hide InWindow;
    if t in InWindow(rules, front, now, kind) {
      var i: nat :| Counted(rules, front, now, kind, i) && front[i].at.value == t;
      CountedInFront(rules, front, last, now, kind, i);
      assert all[i].at.value == t;
    }
    if i: nat :| Counted(rules, all, now, kind, i) && all[i].at.value == t {
      if i < n {
        CountedInFront(rules, front, last, now, kind, i);
        assert front[i].at.value == t;
      }
    }
  }

  lemma {:induction false} WindowIsCounted(rules: Rules, journal: seq<Entry>, now: real, kind: Kind)
    ensures WindowHolds(rules, journal, now, kind)
    decreases |journal|
  {
    if journal != [] {
      var front, last := journal[..|journal| - 1], journal[|journal| - 1];
      WindowIsCounted(rules, front, now, kind);
      OneMoreInWindow(rules, front, last, now, kind);
      assert journal == front + [last];
    } else {
      assert CountedIn(rules, journal, now, kind) == {};
    }
  }

  /** The stateless scan counts the matching entries of the last twelve hours, and tells the latest time. */
  lemma TruthIsCount(rules: Rules, journal: seq<Entry>, now: real, kind: Kind)
    ensures var truth := Truth(rules, journal, now, kind);
      && truth.count == |CountedIn(rules, journal, now, kind)|
      && match truth.last
         case None => forall i: nat :: !Counted(rules, journal, now, kind, i)
         case Some(last) =>
           && (exists i: nat :: Counted(rules, journal, now, kind, i) && journal[i].at.value == last)
           && forall i: nat :: Counted(rules, journal, now, kind, i) ==> journal[i].at.value <= last
  {
    WindowIsCounted(rules, journal, now, kind);
    LatestIsMaximum(InWindow(rules, journal, now, kind));
    hide InWindow, Latest;
    var truth, times := Truth(rules, journal, now, kind), InWindow(rules, journal, now, kind);
    forall i: nat | Counted(rules, journal, now, kind, i) ensures journal[i].at.value in times {
      assert Counted(rules, journal, now, kind, i) && journal[i].at.value == journal[i].at.value;
    }
  }

  // ---- What a run stamps -----------------------------------------------------------------------------

  lemma {:induction false} NotEnabledNotAdded(rules: Rules, entries: seq<Entry>, kind: Kind)
    ensures TimesOf(rules, entries, kind, 0) == []
    decreases |entries|
  {
    if entries != [] {
      NotEnabledNotAdded(rules, entries[..|entries| - 1], kind);
    }
  }

  lemma FreshOf(stamps: Stamps, cut: real, kind: Kind)
    ensures Of(Fresh(stamps, cut), kind) == After(Of(stamps, kind), cut)
  {
  }

  /** The stamps after a run that went on from `known`. */
  lemma StampsOf(rules: Rules, known: Stamps, entries: seq<Entry>, enabled: seq<Kind>, cut: real, kind: Kind)
    ensures Of(Fresh(Scanned(rules, entries, enabled, known), cut), kind)
         == After(Of(known, kind), cut) + After(TimesOf(rules, entries, kind, Occurrences(enabled, kind)), cut)
  {
    hide After, TimesOf, Printed, Scanned, Noted, Occurrences, Copies, Latest, Behind;
    ScannedAdds(rules, entries, enabled, known, kind);
    FreshOf(Scanned(rules, entries, enabled, known), cut, kind);
    AfterConcat(Of(known, kind), TimesOf(rules, entries, kind, Occurrences(enabled, kind)), cut);
  }

  lemma StampsFromNothing(rules: Rules, entries: seq<Entry>, enabled: seq<Kind>, cut: real, kind: Kind, n: nat)
    requires n == Occurrences(enabled, kind)
    ensures Of(Fresh(Scanned(rules, entries, enabled, map[]), cut), kind)
      == After(TimesOf(rules, entries, kind, n), cut)
  {
    StampsOf(rules, map[], entries, enabled, cut, kind);
    var times := After(TimesOf(rules, entries, kind, n), cut);
    assert After([], cut) + times == times;
  }

  /** A full read: whatever was saved, the stamps are those of the stateless scan. */
  lemma FullReadIsExact(rules: Rules, run: Run, since: int, kind: Kind, n: nat)
    requires Lossless(rules) && since as real <= run.now - WINDOW && n == Occurrences(run.enabled, kind)
    ensures Of(Fresh(Scanned(rules, Printed(rules, run.journal, Some(since)), run.enabled, map[]),
      run.now - WINDOW), kind)
         == After(TimesOf(rules, run.journal, kind, n), run.now - WINDOW)
  {
    hide After, TimesOf, Printed, Scanned, Noted, Occurrences, Copies, Latest, Behind;
    var entries, cut := Printed(rules, run.journal, Some(since)), run.now - WINDOW;
    StampsFromNothing(rules, entries, run.enabled, cut, kind, n);
    PrintedKeepsTimes(rules, run.journal, Some(since), kind, n, cut);
  }
}
