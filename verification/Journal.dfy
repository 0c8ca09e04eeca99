/** Host events from the journal: the incremental reader and its saved state. */
module Journal {
  import opened Options

  const WINDOW: real := 43200.0   // twelve hours, in seconds

  // ---- Entries and kinds -----------------------------------------------------------------------

  /** A journal entry: its cursor, its time unless that is no number, and the fields asked for. */
  datatype Entry = Entry(cursor: string, at: Option<real>, transport: Option<string>, identifier: Option<string>,
                         unit: Option<string>, pid: Option<string>, message: Option<string>)

  datatype Kind = OomKill | VrrpState | ApacheSlotsFull | UnitFailed | ApacheReload

  /** Which entries a kind counts, and which entries the server-side filter lets through. */
  datatype Rules = Rules(matches: (Kind, Entry) -> bool, passes: Entry -> bool)

  /** The filter keeps every entry that some kind counts. */
  ghost predicate Lossless(rules: Rules) {
    forall kind: Kind, e: Entry :: rules.matches(kind, e) ==> rules.passes(e)
  }

  // ---- What journalctl prints -----------------------------------------------------------------

  /** `--since` lets through what is not older than the given second. */
  predicate NotBefore(e: Entry, since: Option<int>) {
    since.None? || e.at.None? || e.at.value >= since.value as real
  }

  function Printed(rules: Rules, entries: seq<Entry>, since: Option<int>): seq<Entry> {
    if entries == [] then []
    else
      var last := entries[|entries| - 1];
      Printed(rules, entries[..|entries| - 1], since)
        + if rules.passes(last) && NotBefore(last, since) then [last] else []
  }

  ghost predicate UniqueCursors(entries: seq<Entry>) {
    && (forall i, k :: 0 <= i < k < |entries| ==> entries[i].cursor != entries[k].cursor)
    && (forall i :: 0 <= i < |entries| ==> entries[i].cursor != "")
  }

  /** Just behind the entry with this cursor, or nothing when it is not there. */
  function Behind(entries: seq<Entry>, cursor: string): Option<nat> {
    if entries == [] then None
    else if entries[|entries| - 1].cursor == cursor then Some(|entries|)
    else Behind(entries[..|entries| - 1], cursor)
  }

  datatype Fate = Succeeds | ExitsNonzero | NotInstalled | TimesOut

  datatype ErrorCode = NotInstalledCode | TimeoutCode | NoPermissionCode

  /** One run: what the journal holds by then, and how each thing it tries turns out. */
  datatype Run = Run(journal: seq<Entry>, now: real, enabled: seq<Kind>,
                     incremental: Fate, window: Fate, writes: bool, fileLost: bool)

  datatype Reading = Lines(entries: seq<Entry>, full: bool) | Failed(code: ErrorCode)

  /** The second handed to `--since`.  Python's `int` is the floor here: `now` is past the first window. */
  function Since(run: Run): int {
    (run.now - WINDOW).Floor
  }

  lemma SinceIsBefore(run: Run)
    requires WINDOW <= run.now
    ensures Since(run) as real <= run.now - WINDOW
  {
  }

  function WindowReading(rules: Rules, run: Run): Reading {
    match run.window
    case Succeeds => Lines(Printed(rules, run.journal, Some(Since(run))), true)
    case ExitsNonzero => Failed(NoPermissionCode)
    case NotInstalled => Failed(NotInstalledCode)
    case TimesOut => Failed(TimeoutCode)
  }

  /** A cursor the journal does not know makes the incremental read exit nonzero. */
  function Read(rules: Rules, run: Run, cursor: Option<string>): Reading {
    if cursor.None? || cursor.value == "" then WindowReading(rules, run)
    else
      match run.incremental
      case NotInstalled => Failed(NotInstalledCode)
      case TimesOut => Failed(TimeoutCode)
      case ExitsNonzero => WindowReading(rules, run)
      case Succeeds =>
        match Behind(run.journal, cursor.value)
        case None => WindowReading(rules, run)
        case Some(n) => Lines(Printed(rules, if n <= |run.journal| then run.journal[n..] else [], None), false)
  }

  // ---- Scanning -----------------------------------------------------------------------------------

  type Stamps = map<Kind, seq<real>>

  function Of(stamps: Stamps, kind: Kind): seq<real> {
    if kind in stamps then stamps[kind] else []
  }

  function Copies(t: real, n: nat): seq<real> {
    if n == 0 then [] else Copies(t, n - 1) + [t]
  }

  /** What one entry adds to a kind: its time, `n` times, if it matches. */
  function Stamped(rules: Rules, e: Entry, kind: Kind, n: nat): seq<real> {
    if e.at.Some? && rules.matches(kind, e) then Copies(e.at.value, n) else []
  }

  /** The times of the matching entries, each `n` times, in journal order. */
  function TimesOf(rules: Rules, entries: seq<Entry>, kind: Kind, n: nat): seq<real> {
    if entries == [] then []
    else TimesOf(rules, entries[..|entries| - 1], kind, n) + Stamped(rules, entries[|entries| - 1], kind, n)
  }

  function Occurrences(enabled: seq<Kind>, kind: Kind): nat {
    if enabled == [] then 0
    else Occurrences(enabled[..|enabled| - 1], kind) + if enabled[|enabled| - 1] == kind then 1 else 0
  }

  function LastCursor(entries: seq<Entry>, cursor: Option<string>): Option<string> {
    if entries == [] then cursor else Some(entries[|entries| - 1].cursor)
  }

  /** One entry, added for every enabled kind it matches. */
  function Noted(rules: Rules, entry: Entry, enabled: seq<Kind>, stamps: Stamps): Stamps {
    if enabled == [] || entry.at.None? then stamps
    else
      var kind, s := enabled[|enabled| - 1], Noted(rules, entry, enabled[..|enabled| - 1], stamps);
      if rules.matches(kind, entry) then s[kind := Of(s, kind) + [entry.at.value]] else s
  }

  function Scanned(rules: Rules, entries: seq<Entry>, enabled: seq<Kind>, stamps: Stamps): Stamps {
    if entries == [] then stamps
    else Noted(rules, entries[|entries| - 1], enabled, Scanned(rules, entries[..|entries| - 1], enabled, stamps))
  }

  method Scan(rules: Rules, entries: seq<Entry>, enabled: seq<Kind>, before: Stamps, start: Option<string>)
    returns (stamps: Stamps, cursor: Option<string>)
    ensures stamps == Scanned(rules, entries, enabled, before) && cursor == LastCursor(entries, start)
  {
    stamps, cursor := before, start;
    var i := 0;
    while i < |entries|
      invariant 0 <= i <= |entries|
      invariant stamps == Scanned(rules, entries[..i], enabled, before) && cursor == LastCursor(entries[..i], start)
    {
      assert entries[..i + 1][..i] == entries[..i];
      var entry := entries[i];
      cursor := Some(entry.cursor);
      i := i + 1;
      if entry.at.None? {
        continue;
      }
      ghost var known := stamps;
      var k := 0;
      while k < |enabled|
        invariant 0 <= k <= |enabled| && stamps == Noted(rules, entry, enabled[..k], known)
      {
        assert enabled[..k + 1][..k] == enabled[..k];
        var kind := enabled[k];
        if rules.matches(kind, entry) {
          stamps := stamps[kind := Of(stamps, kind) + [entry.at.value]];
        }
        k := k + 1;
      }
      assert enabled[..|enabled|] == enabled;
    }
    assert entries[..|entries|] == entries;
  }

  lemma {:induction false} NotedAdds(rules: Rules, entry: Entry, enabled: seq<Kind>, stamps: Stamps, kind: Kind)
    ensures Of(Noted(rules, entry, enabled, stamps), kind)
         == Of(stamps, kind) + Stamped(rules, entry, kind, Occurrences(enabled, kind))
    decreases |enabled|
  {
    if enabled != [] {
      NotedAdds(rules, entry, enabled[..|enabled| - 1], stamps, kind);
    }
  }

  /** Every kind gains the times of its entries, as often as it is enabled. */
  lemma {:induction false} ScannedAdds(rules: Rules, entries: seq<Entry>, enabled: seq<Kind>, stamps: Stamps,
      kind: Kind)
    ensures Of(Scanned(rules, entries, enabled, stamps), kind)
         == Of(stamps, kind) + TimesOf(rules, entries, kind, Occurrences(enabled, kind))
    decreases |entries|
  {
    if entries != [] {
      var front, last := entries[..|entries| - 1], entries[|entries| - 1];
      ScannedAdds(rules, front, enabled, stamps, kind);
      NotedAdds(rules, last, enabled, Scanned(rules, front, enabled, stamps), kind);
    }
  }

  // ---- One run ------------------------------------------------------------------------------------

  function After(times: seq<real>, cut: real): seq<real> {
    if times == [] then []
    else After(times[..|times| - 1], cut) + if times[|times| - 1] > cut then [times[|times| - 1]] else []
  }

  function Latest(times: seq<real>): Option<real> {
    if times == [] then None
    else
      var last := times[|times| - 1];
      match Latest(times[..|times| - 1])
      case None => Some(last)
      case Some(best) => if best < last then Some(last) else Some(best)
  }

  /** The latest time is one of them, and none is later. */
  lemma {:induction false} LatestIsMaximum(times: seq<real>)
    ensures match Latest(times)
      case None => times == []
      case Some(best) => best in times && forall t :: t in times ==> t <= best
    decreases |times|
  {
    if times != [] {
      var front, last := times[..|times| - 1], times[|times| - 1];
      LatestIsMaximum(front);
      assert forall t :: t in times <==> t in front || t == last;
    }
  }

  datatype EventCount = EventCount(count: nat, last: Option<real>)

  function CountAfter(times: seq<real>, cut: real): EventCount {
    EventCount(|After(times, cut)|, Latest(After(times, cut)))
  }

  function Counts(stamps: Stamps, now: real, enabled: seq<Kind>): map<Kind, EventCount> {
    map kind | kind in enabled :: CountAfter(Of(stamps, kind), now - WINDOW)
  }

  datatype Saved = Saved(cursor: Option<string>, kinds: set<Kind>, events: Stamps)

  function KindSet(enabled: seq<Kind>): set<Kind> {
    set kind | kind in enabled
  }

  function Known(file: Option<Saved>): Stamps {
    if file.Some? then file.value.events else map[]
  }

  function UsableCursor(file: Option<Saved>, enabled: seq<Kind>): Option<string> {
    if file.Some? && file.value.kinds == KindSet(enabled) then file.value.cursor else None
  }

  /** What one run does: the file it leaves, and what it returns. */
  datatype Outcome = Outcome(file: Option<Saved>, counts: map<Kind, EventCount>, error: Option<ErrorCode>)

  function Found(file: Option<Saved>, run: Run): Option<Saved> {
    if run.fileLost then None else file
  }

  function StampsAfter(rules: Rules, file: Option<Saved>, run: Run, entries: seq<Entry>, full: bool): Stamps {
    Fresh(Scanned(rules, entries, run.enabled, if full then map[] else Known(file)), run.now - WINDOW)
  }

  function AfterReading(rules: Rules, before: Option<Saved>, run: Run, cursor: Option<string>,
      reading: Reading): Outcome
  {
    match reading
    case Failed(code) => Outcome(before, Counts(Known(before), run.now, run.enabled), Some(code))
    case Lines(entries, full) =>
      var stamps := StampsAfter(rules, before, run, entries, full);
      var saved := Saved(LastCursor(entries, if full then None else cursor), KindSet(run.enabled), stamps);
      Outcome(if run.writes then Some(saved) else before, Counts(stamps, run.now, run.enabled), None)
  }

  function Collected(rules: Rules, file: Option<Saved>, run: Run): Outcome {
    var before := Found(file, run);
    var cursor := UsableCursor(before, run.enabled);
    AfterReading(rules, before, run, cursor, Read(rules, run, cursor))
  }

  class Collector {
    var file: Option<Saved>

    const rules: Rules

    constructor (rules: Rules)
      ensures file == None && this.rules == rules
    {
      this.rules := rules;
      file := None;
    }

    method CollectEvents(run: Run) returns (counts: map<Kind, EventCount>, error: Option<ErrorCode>)
      modifies this
      ensures Outcome(file, counts, error) == Collected(rules, old(file), run)
    {
      if run.fileLost {
        file := None;
      }
      var cursor := UsableCursor(file, run.enabled);
      var reading := Read(rules, run, cursor);
      match reading {
        case Failed(code) =>
          return Counts(Known(file), run.now, run.enabled), Some(code);
        case Lines(entries, full) =>
          ghost var before := file;
          var stamps, last := Scan(rules, entries, run.enabled, if full then map[] else Known(file),
            if full then None else cursor);
          stamps := Fresh(stamps, run.now - WINDOW);
          assert stamps == StampsAfter(rules, before, run, entries, full);
          if run.writes {
            file := Some(Saved(last, KindSet(run.enabled), stamps));
          }
          counts, error := Counts(stamps, run.now, run.enabled), None;
      }
    }
  }

  /** The stamps inside the window. */
  function Fresh(stamps: Stamps, cut: real): Stamps {
    map kind | kind in stamps :: After(stamps[kind], cut)
  }

  lemma {:induction false} AfterIsStable(times: seq<real>, early: real, cut: real)
    requires early <= cut
    ensures After(After(times, early), cut) == After(times, cut)
    decreases |times|
  {
    if times != [] {
      var front, last := times[..|times| - 1], times[|times| - 1];
      AfterIsStable(front, early, cut);
      if last > early {
        assert (After(front, early) + [last])[..|After(front, early)|] == After(front, early);
      } else {
        assert After(front, early) + [] == After(front, early);
      }
    }
  }

}
