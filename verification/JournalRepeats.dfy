/** When the bare reader, with kinds enabled more than once, still counts exactly. */
module JournalRepeats {
  import opened Sorting
  import opened Journal
  import opened JournalScan
  import opened JournalWeights
  import opened JournalExactness

  // ---- Exactness -------------------------------------------------------------------------------------

  ghost predicate CountedOnce(rules: Rules, entries: seq<Entry>, now: real, kind: Kind, w: Weights) {
    forall i: nat :: Counted(rules, entries, now, kind, i) ==> w(i) == 1
  }

  ghost predicate NoFewer(rules: Rules, entries: seq<Entry>, now: real, kind: Kind, w: Weights) {
    var counted, truth := |After(Weighed(rules, entries, kind, w), now - WINDOW)|,
      |InWindow(rules, entries, now, kind)|;
    truth <= counted && (truth == counted <==> CountedOnce(rules, entries, now, kind, w))
  }

  lemma {:induction false} WeightsCount(rules: Rules, entries: seq<Entry>, now: real, kind: Kind, w: Weights)
    requires Positive(w)
    ensures NoFewer(rules, entries, now, kind, w)
    decreases |entries|
  {
    if entries != [] {
      WeightsCount(rules, entries[..|entries| - 1], now, kind, w);
      OneMoreCounted(rules, entries, now, kind, w);
    }
  }

  lemma OneMoreCounted(rules: Rules, entries: seq<Entry>, now: real, kind: Kind, w: Weights)
    requires Positive(w) && entries != [] && NoFewer(rules, entries[..|entries| - 1], now, kind, w)
    ensures NoFewer(rules, entries, now, kind, w)
  {
    var n := |entries| - 1;
    var front, last, cut := entries[..n], entries[n], now - WINDOW;
    assert entries == front + [last];
    LastWeighs(rules, entries, kind, w);
    hide After, TimesOf, Copies, Weighed, Stamped;
    TimesAppend(rules, front, last, kind, 1, cut);
    AfterConcat(Weighed(rules, front, kind, w), Stamped(rules, last, kind, w(n)), cut);
    StampsCounted(rules, entries, now, kind, w(n));
    StampsCounted(rules, entries, now, kind, 1);
    OnceMore(rules, entries, now, kind, w);
    hide CountedOnce, Counted;
  }

  lemma StampsCounted(rules: Rules, entries: seq<Entry>, now: real, kind: Kind, m: nat)
    requires entries != []
    ensures var n := |entries| - 1;
      |After(Stamped(rules, entries[n], kind, m), now - WINDOW)|
        == if Counted(rules, entries, now, kind, n) then m else 0
  {
    hide After, Copies;
    var last := entries[|entries| - 1];
    NothingAfter(now - WINDOW);
    if last.at.Some? {
      CopiesAfter(last.at.value, m, now - WINDOW);
    }
  }

  lemma OnceMore(rules: Rules, entries: seq<Entry>, now: real, kind: Kind, w: Weights)
    requires entries != []
    ensures var n := |entries| - 1;
      CountedOnce(rules, entries, now, kind, w) <==>
        CountedOnce(rules, entries[..n], now, kind, w) && (Counted(rules, entries, now, kind, n) ==> w(n) == 1)
  {
    var n := |entries| - 1;
    assert forall i: nat :: i < n ==>
      (Counted(rules, entries, now, kind, i) <==> Counted(rules, entries[..n], now, kind, i));
  }

  /**
   Over any history: a successful run counts no fewer events than there are, and exactly as many if
   and only if every event of the window was read by a run that enabled its kind once.
   */
  lemma ExactIffReadOnce(rules: Rules, runs: seq<Run>, next: Run, kind: Kind)
    requires Lossless(rules) && AnyHistory(runs + [next]) && kind in next.enabled
    ensures var outcome := Collected(rules, FileAfter(rules, runs), next);
      && kind in outcome.counts && (outcome.error.None? ==>
           var counted, truth := outcome.counts[kind].count, Truth(rules, next.journal, next.now, kind).count;
           && truth <= counted
           && (counted == truth <==> CountedOnce(rules, next.journal, next.now, kind,
             WeightsFor(rules, runs, next)(kind))))
  {
    hide After, TimesOf, Weighed, WeightsFor, Collected, FileAfter, CountedOnce, Latest, AnyHistory, Lossless,
      Positive;
    EveryRunCountsWeights(rules, runs, next, kind);
    var w := WeightsFor(rules, runs, next)(kind);
    if Collected(rules, FileAfter(rules, runs), next).error.None? {
      WeightsCount(rules, next.journal, next.now, kind, w);
    }
  }

  // ---- The configured kinds --------------------------------------------------------------------------

  /** The configuration keeps a repeated name once. */
  method ReadNames(names: seq<Kind>) returns (kept: seq<Kind>)
    ensures kept == Distinctly(names) && NoRepeats(kept)
    ensures forall kind :: kind in kept <==> kind in names
  {
    kept := [];
    for i := 0 to |names|
      invariant kept == Distinctly(names[..i])
    {
      DistinctlyKeeps(names[..i]);
      assert names[..i + 1][..i] == names[..i];
      if names[i] !in kept {
        kept := kept + [names[i]];
      }
    }
    assert names[..|names|] == names;
    DistinctlyKeeps(names);
    DistinctHasNoRepeats(kept);
  }

  lemma {:induction false} DistinctHasNoRepeats(kinds: seq<Kind>)
    requires Distinct(kinds)
    ensures NoRepeats(kinds)
    decreases |kinds|
  {
    if kinds != [] {
      var front := kinds[..|kinds| - 1];
      DistinctHasNoRepeats(front);
      assert kinds == front + [kinds[|kinds| - 1]];
    }
  }
}
