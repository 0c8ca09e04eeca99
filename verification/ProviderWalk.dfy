/**
 Walking one bind mount for the files a directory provider reads: the host-side tree, the
 explicit-stack walk within its budgets, and the recursive traversal it performs.
 */
module ProviderWalk {
  import opened Options
  import opened Sorting
  import opened TextOrder
  import opened Mounts

  const MAX_PROVIDER_FILES: nat := 64
  const MAX_SCANNED_ENTRIES: nat := 10_000

  /** A directory as the walk meets it; `listable` is whether the system lets it be read. */
  datatype Dir = Dir(listable: bool, entries: seq<Entry>)

  /**
   A subdirectory, possibly behind a link, or anything else.  `plain` says that the entry
   resolves below the bind source and is a regular file.
   */
  datatype Entry = Subdir(name: string, linked: bool, dir: Dir) | Leaf(name: string, plain: bool)

  datatype Cause = EntryRefused | WalkStopped | NotListed | NotHere | OtherMount | TooManyFiles | NotMounted

  datatype Note = Note(where: ContainerPath, cause: Cause)

  // ---- File formats -----------------------------------------------------------------------

  function Lower(text: string): string {
    if text == "" then ""
    else
      var c := text[0];
      [if 'A' <= c <= 'Z' then (c as int + 32) as char else c] + Lower(text[1..])
  }

  /** From the last dot on, or nothing when there is no dot. */
  function Extension(name: string): string {
    if name == "" then ""
    else if '.' in name[1..] then Extension(name[1..])
    else if name[0] == '.' then name
    else Extension(name[1..])
  }

  predicate DynamicName(name: string) {
    Lower(Extension(name)) in [".toml", ".yaml", ".yml"]
  }

  predicate Dynamic(path: ContainerPath) {
    path != [] && DynamicName(path[|path| - 1])
  }

  // ---- The recursive traversal -----------------------------------------------------------------

  datatype Visit = Visit(at: ContainerPath, dir: Dir)

  function ByName(): (Entry, Entry) -> bool {
    (a: Entry, b: Entry) => Less(a.name, b.name)
  }

  /** The subdirectories the walk descends into: not those behind a link. */
  function Descended(entries: seq<Entry>): (r: seq<Entry>)
    ensures forall e :: e in r <==> e in entries && e.Subdir? && !e.linked
    ensures |r| <= |entries|
  {
    if entries == [] then []
    else
      var rest := Descended(entries[1..]);
      if entries[0].Subdir? && !entries[0].linked then [entries[0]] + rest else rest
  }

  function LeavesIn(entries: seq<Entry>): seq<Entry> {
    if entries == [] then []
    else
      var rest := LeavesIn(entries[1..]);
      if entries[0].Leaf? then [entries[0]] + rest else rest
  }

  function SortedEntries(entries: seq<Entry>): (r: seq<Entry>)
    ensures |r| == |entries| && forall e :: e in r <==> e in entries
  {
    var r := Sorted(ByName(), entries);
    MembersByMultiset(entries, r);
    r
  }

  function Subdirs(dir: Dir): (r: seq<Entry>)
    ensures forall e :: e in r <==> e in dir.entries && e.Subdir? && !e.linked
    ensures |r| <= |dir.entries|
  {
    SortedEntries(Descended(dir.entries))
  }

  function Leaves(dir: Dir): seq<Entry> {
    Sorted(ByName(), LeavesIn(dir.entries))
  }

  lemma {:induction false} LeavesInAreLeaves(entries: seq<Entry>)
    ensures forall e :: e in LeavesIn(entries) <==> e in entries && e.Leaf?
  {
    if entries != [] {
      LeavesInAreLeaves(entries[1..]);
      assert forall e :: e in entries <==> e == entries[0] || e in entries[1..];
    }
  }

  lemma LeavesAreLeaves(dir: Dir)
    ensures forall e :: e in Leaves(dir) <==> e in dir.entries && e.Leaf?
  {
    LeavesInAreLeaves(dir.entries);
    MembersByMultiset(LeavesIn(dir.entries), Leaves(dir));
  }

  /** Every directory of the tree, top-down, each level in name order, links left alone. */
  function Visits(dir: Dir, at: ContainerPath): (r: seq<Visit>)
    ensures r != []
    decreases dir, |dir.entries| + 1
  {
    [Visit(at, dir)] + VisitsOf(dir, Subdirs(dir), at)
  }

  function VisitsOf(parent: Dir, subs: seq<Entry>, at: ContainerPath): seq<Visit>
    requires forall e :: e in subs ==> e.Subdir? && e in parent.entries
    decreases parent, |subs|
  {
    if subs == [] then []
    else
      assert subs[0] in parent.entries;
      Visits(subs[0].dir, at + [subs[0].name]) + VisitsOf(parent, subs[1..], at)
  }

  // ---- What the walk keeps -----------------------------------------------------------------------

  datatype Counters = Counters(files: nat, entries: nat, exhausted: bool)

  datatype Progress = Progress(counters: Counters, notes: seq<Note>, found: seq<Located>)

  datatype Ending = Finished | Full | Spent(at: ContainerPath) | Failed(at: ContainerPath)

  /** One walked entry: nothing, a note, or a file of this mount. */
  function TakeFile(mounts: seq<Mount>, mount: Mount, at: ContainerPath, leaf: Entry, p: Progress): Progress {
    var path := at + [leaf.name];
    if leaf.Subdir? || !DynamicName(leaf.name) then p
    else if !leaf.plain then p.(notes := p.notes + [Note(path, EntryRefused)])
    else
      var located := Locate(mounts, path);
      if located.mount != Some(mount) then p
      else Progress(p.counters.(files := p.counters.files + 1), p.notes, p.found + [located])
  }

  function TakeFiles(mounts: seq<Mount>, mount: Mount, at: ContainerPath, leaves: seq<Entry>, p: Progress): Progress {
    if leaves == [] || p.counters.files > MAX_PROVIDER_FILES then p
    else TakeFiles(mounts, mount, at, leaves[1..], TakeFile(mounts, mount, at, leaves[0], p))
  }

  /** One directory: `Finished` when the walk goes on after it. */
  function TakeDir(mounts: seq<Mount>, mount: Mount, visit: Visit, p: Progress): (Progress, Ending) {
    var scanned := p.counters.entries + |visit.dir.entries|;
    if !visit.dir.listable then (p, Failed(visit.at))
    else if scanned > MAX_SCANNED_ENTRIES then
      (p.(counters := p.counters.(entries := MAX_SCANNED_ENTRIES + 1)), Spent(visit.at))
    else
      var q := TakeFiles(mounts, mount, visit.at, Leaves(visit.dir), p.(counters := p.counters.(entries := scanned)));
      (q, if q.counters.files > MAX_PROVIDER_FILES then Full else Finished)
  }

  function TakeDirs(mounts: seq<Mount>, mount: Mount, visits: seq<Visit>, p: Progress): (Progress, Ending) {
    if visits == [] then (p, Finished)
    else
      var step := TakeDir(mounts, mount, visits[0], p);
      if step.1.Finished? then TakeDirs(mounts, mount, visits[1..], step.0) else step
  }

  /** What a walk that ended this way leaves behind. */
  function Settled(start: ContainerPath, result: (Progress, Ending)): Progress {
    var (p, ending) := result;
    match ending
    case Finished => p
    case Full => p
    case Spent(at) => p.(counters := p.counters.(exhausted := true), notes := p.notes + [Note(at, WalkStopped)])
    case Failed(_) => p.(notes := p.notes + [Note(start, NotListed)], found := [])
  }

  /** A whole walk, from the counters and notes of the listing so far. */
  function Walked(mounts: seq<Mount>, mount: Mount, dir: Dir, start: ContainerPath, p: Progress): Progress {
    if p.counters.exhausted || p.counters.files > MAX_PROVIDER_FILES then p.(found := [])
    else Settled(start, TakeDirs(mounts, mount, Visits(dir, start), p.(found := [])))
  }

  // ---- The walk with a stack --------------------------------------------------------------------

  class Scan {
    var files: nat
    var entries: nat
    var exhausted: bool

    constructor ()
      ensures files == 0 && entries == 0 && !exhausted
    {
      files, entries, exhausted := 0, 0, false;
    }

    function Value(): Counters
      reads this
    {
      Counters(files, entries, exhausted)
    }
  }

  class Listing {
    var files: seq<Located>
    var notes: seq<Note>

    constructor ()
      ensures files == [] && notes == []
    {
      files, notes := [], [];
    }
  }

  /** What is still to be visited: the top of the stack is its last element. */
  function Pending(stack: seq<Visit>): seq<Visit> {
    if stack == [] then []
    else
      var top := stack[|stack| - 1];
      Visits(top.dir, top.at) + Pending(stack[..|stack| - 1])
  }

  function Reversed(visits: seq<Visit>): seq<Visit> {
    if visits == [] then [] else Reversed(visits[1..]) + [visits[0]]
  }

  function Tops(subs: seq<Entry>, at: ContainerPath): seq<Visit>
    requires forall e :: e in subs ==> e.Subdir?
  {
    if subs == [] then [] else [Visit(at + [subs[0].name], subs[0].dir)] + Tops(subs[1..], at)
  }

  lemma Pushed(lower: seq<Visit>, top: Visit)
    ensures Pending(lower + [top]) == Visits(top.dir, top.at) + Pending(lower)
  {
    hide Visits;
    assert (lower + [top])[..|lower|] == lower;
  }

  lemma FirstSubdir(parent: Dir, subs: seq<Entry>, at: ContainerPath)
    requires subs != [] && forall e :: e in subs ==> e.Subdir? && e in parent.entries
    ensures VisitsOf(parent, subs, at)
      == Visits(subs[0].dir, at + [subs[0].name]) + VisitsOf(parent, subs[1..], at)
    ensures Reversed(Tops(subs, at)) == Reversed(Tops(subs[1..], at)) + [Visit(at + [subs[0].name], subs[0].dir)]
  {
    hide Visits;
    assert Tops(subs, at)[1..] == Tops(subs[1..], at);
  }

  /** Pushing the subdirectories in reverse leaves them to be visited in order. */
  lemma {:induction false} PushedInOrder(stack: seq<Visit>, parent: Dir, subs: seq<Entry>, at: ContainerPath)
    requires forall e :: e in subs ==> e.Subdir? && e in parent.entries
    ensures Pending(stack + Reversed(Tops(subs, at))) == VisitsOf(parent, subs, at) + Pending(stack)
    decreases |subs|
  {
    hide Visits, Subdirs, SortedEntries, Pending;
    if subs == [] {
      assert stack + [] == stack;
    } else {
      var top, lower := Visit(at + [subs[0].name], subs[0].dir), stack + Reversed(Tops(subs[1..], at));
      PushedInOrder(stack, parent, subs[1..], at);
      FirstSubdir(parent, subs, at);
      Pushed(lower, top);
      hide VisitsOf, Reversed, Tops;
      assert stack + Reversed(Tops(subs, at)) == lower + [top];
    }
  }

  lemma OnlyTop(dir: Dir, start: ContainerPath)
    ensures Pending([Visit(start, dir)]) == Visits(dir, start)
  {
    assert [Visit(start, dir)][..0] == [];
    assert Visits(dir, start) + [] == Visits(dir, start);
  }

  lemma Popped(stack: seq<Visit>)
    requires stack != []
    ensures var current, lower := stack[|stack| - 1], stack[..|stack| - 1];
      && Pending(stack) != [] && Pending(stack)[0] == current
      && Pending(stack)[1..] == VisitsOf(current.dir, Subdirs(current.dir), current.at) + Pending(lower)
  {
    var current, lower := stack[|stack| - 1], stack[..|stack| - 1];
    var below := VisitsOf(current.dir, Subdirs(current.dir), current.at);
    assert Pending(stack) == [current] + (below + Pending(lower));
  }

  method TakeEntries(mounts: seq<Mount>, mount: Mount, at: ContainerPath, leaves: seq<Entry>,
                     listing: Listing, scan: Scan, before: seq<Located>) returns (found: seq<Located>)
    requires scan.files <= MAX_PROVIDER_FILES
    modifies listing`notes, scan`files
    ensures Progress(scan.Value(), listing.notes, found)
         == TakeFiles(mounts, mount, at, leaves, Progress(old(scan.Value()), old(listing.notes), before))
  {
    found := before;
    var i := 0;
    ghost var goal := TakeFiles(mounts, mount, at, leaves, Progress(scan.Value(), listing.notes, before));
    while i < |leaves|
      invariant 0 <= i <= |leaves| && scan.files <= MAX_PROVIDER_FILES
      invariant scan.entries == old(scan.entries) && scan.exhausted == old(scan.exhausted)
      invariant goal == TakeFiles(mounts, mount, at, leaves[i..], Progress(scan.Value(), listing.notes, found))
    {
      var leaf := leaves[i];
      var path := at + [leaf.name];
      i := i + 1;
      if leaf.Subdir? || !DynamicName(leaf.name) {
        continue;
      }
      if !leaf.plain {
        listing.notes := listing.notes + [Note(path, EntryRefused)];
        continue;
      }
      var located := LocateInOrder(mounts, path);
      if located.mount != Some(mount) {
        continue;
      }
      found := found + [located];
      scan.files := scan.files + 1;
      if scan.files > MAX_PROVIDER_FILES {
        return;
      }
    }
  }

  method TakeDirectory(mounts: seq<Mount>, mount: Mount, current: Visit, listing: Listing, scan: Scan,
      before: seq<Located>)
    returns (found: seq<Located>, ending: Ending)
    requires scan.files <= MAX_PROVIDER_FILES
    modifies listing`notes, scan`files, scan`entries
    ensures (Progress(scan.Value(), listing.notes, found), ending)
         == TakeDir(mounts, mount, current, Progress(old(scan.Value()), old(listing.notes), before))
    ensures ending.Finished? ==> scan.files <= MAX_PROVIDER_FILES
  {
    found := before;
    if !current.dir.listable {
      return found, Failed(current.at);
    }
    if scan.entries + |current.dir.entries| > MAX_SCANNED_ENTRIES {
      scan.entries := MAX_SCANNED_ENTRIES + 1;
      return found, Spent(current.at);
    }
    scan.entries := scan.entries + |current.dir.entries|;
    found := TakeEntries(mounts, mount, current.at, Leaves(current.dir), listing, scan, found);
    ending := if scan.files > MAX_PROVIDER_FILES then Full else Finished;
  }

  lemma FirstDir(mounts: seq<Mount>, mount: Mount, visits: seq<Visit>, p: Progress)
    requires visits != []
    ensures var step := TakeDir(mounts, mount, visits[0], p);
      TakeDirs(mounts, mount, visits, p)
        == if step.1.Finished? then TakeDirs(mounts, mount, visits[1..], step.0) else step
  {
  }

  /**
   The walk with its explicit stack.  Directories are listed one at a time, so a walk that
   stops early never looks at the rest.
   */
  method Walk(mounts: seq<Mount>, mount: Mount, dir: Dir, start: ContainerPath, listing: Listing, scan: Scan)
    returns (found: seq<Located>)
    modifies listing`notes, scan
    ensures Progress(scan.Value(), listing.notes, found)
         == Walked(mounts, mount, dir, start, Progress(old(scan.Value()), old(listing.notes), []))
  {
    found := [];
    if scan.exhausted || scan.files > MAX_PROVIDER_FILES {
      return;
    }
    ghost var goal := TakeDirs(mounts, mount, Visits(dir, start), Progress(scan.Value(), listing.notes, []));
    var stack := [Visit(start, dir)];
    OnlyTop(dir, start);
    while stack != []
      invariant scan.files <= MAX_PROVIDER_FILES && !scan.exhausted
      invariant goal == TakeDirs(mounts, mount, Pending(stack), Progress(scan.Value(), listing.notes, found))
      decreases |Pending(stack)|
    {
      Popped(stack);
      FirstDir(mounts, mount, Pending(stack), Progress(scan.Value(), listing.notes, found));
      var current := stack[|stack| - 1];
      stack := stack[..|stack| - 1];
      var ending;
      found, ending := TakeDirectory(mounts, mount, current, listing, scan, found);
      match ending {
        case Finished =>
          PushedInOrder(stack, current.dir, Subdirs(current.dir), current.at);
          stack := stack + Reversed(Tops(Subdirs(current.dir), current.at));
        case Full =>
          return;
        case Spent(at) =>
          scan.exhausted := true;
          listing.notes := listing.notes + [Note(at, WalkStopped)];
          return;
        case Failed(_) =>
          listing.notes := listing.notes + [Note(start, NotListed)];
          return [];
      }
    }
  }
}
