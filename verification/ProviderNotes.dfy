/** When a listing has no note, in terms of the mounts and of what is on the host. */
module ProviderNotes {
  import opened Options
  import opened Sorting
  import opened Mounts
  import opened ProviderWalk
  import opened ProviderWalkFacts
  import opened ProviderListing
  import opened ProviderExactness

  // ---- A directory tree -------------------------------------------------------------------------

  /** Every directory can be listed, and whatever is named like a dynamic file is a readable one. */
  ghost predicate TreeClear(dir: Dir) {
    dir.listable && forall e :: e in dir.entries ==> EntryClear(e) && (e.Subdir? && !e.linked ==> TreeClear(e.dir))
  }

  ghost predicate EntryClear(e: Entry) {
    e.Leaf? && DynamicName(e.name) ==> e.plain
  }

  /** The number of entries of a directory and of those below it, links not followed. */
  ghost function TreeEntries(dir: Dir): nat
    decreases dir, |dir.entries| + 1
  {
    |dir.entries| + EntriesBelow(dir, dir.entries)
  }

  ghost function EntriesBelow(parent: Dir, entries: seq<Entry>): nat
    requires forall e :: e in entries ==> e in parent.entries
    decreases parent, |entries|
  {
    if entries == [] then 0
    else
      assert entries[0] in entries;
      EntriesIn(parent, entries[0]) + EntriesBelow(parent, entries[1..])
  }

  ghost function EntriesIn(parent: Dir, e: Entry): nat
    requires e in parent.entries
    decreases parent, 0
  {
    if e.Subdir? && !e.linked then TreeEntries(e.dir) else 0
  }

  lemma {:induction false} BelowConcat(parent: Dir, a: seq<Entry>, b: seq<Entry>)
    requires forall e :: e in a || e in b ==> e in parent.entries
    ensures EntriesBelow(parent, a + b) == EntriesBelow(parent, a) + EntriesBelow(parent, b)
    decreases |a|
  {
    hide EntriesIn;
    if a == [] {
      assert a + b == b;
    } else {
      BelowConcat(parent, a[1..], b);
      assert (a + b)[1..] == a[1..] + b;
    }
  }

  lemma {:induction false} BelowPermutes(parent: Dir, a: seq<Entry>, b: seq<Entry>)
    requires multiset(a) == multiset(b) && forall e :: e in a || e in b ==> e in parent.entries
    ensures EntriesBelow(parent, a) == EntriesBelow(parent, b)
    decreases |a|
  {
    assert |multiset(a)| == |a| && |multiset(b)| == |b|;
    if a != [] {
      var front, last := a[..|a| - 1], a[|a| - 1];
      assert a == front + [last];
      assert last in multiset(b);
      var k :| 0 <= k < |b| && b[k] == last;
      var left, right := b[..k], b[k + 1..];
      assert b == left + [last] + right;
      WithoutOne(front, last, left, right, b);
      hide EntriesBelow;
      BelowPermutes(parent, front, left + right);
      BelowConcat(parent, front, [last]);
      BelowConcat(parent, left, right);
      BelowConcat(parent, left + [last], right);
      BelowConcat(parent, left, [last]);
    }
  }

  lemma {:induction false} BelowDescended(parent: Dir, entries: seq<Entry>)
    requires forall e :: e in entries ==> e in parent.entries
    ensures EntriesBelow(parent, Descended(entries)) == EntriesBelow(parent, entries)
    decreases |entries|
  {
    if entries != [] {
      BelowDescended(parent, entries[1..]);
      var rest := Descended(entries[1..]);
      assert ([entries[0]] + rest)[1..] == rest;
    }
  }

  // ---- The walk of it -----------------------------------------------------------------------------

  ghost predicate VisitClear(visit: Visit) {
    visit.dir.listable && forall e :: e in visit.dir.entries ==> EntryClear(e)
  }

  ghost predicate VisitsClear(visits: seq<Visit>) {
    forall i :: 0 <= i < |visits| ==> VisitClear(visits[i])
  }

  ghost function VisitedEntries(visits: seq<Visit>): nat {
    if visits == [] then 0 else |visits[0].dir.entries| + VisitedEntries(visits[1..])
  }

  lemma {:induction false} VisitedConcat(a: seq<Visit>, b: seq<Visit>)
    ensures VisitedEntries(a + b) == VisitedEntries(a) + VisitedEntries(b)
    ensures VisitsClear(a + b) <==> VisitsClear(a) && VisitsClear(b)
    decreases |a|
  {
    hide VisitClear;
    if a == [] {
      assert a + b == b;
    } else {
      VisitedConcat(a[1..], b);
      assert (a + b)[1..] == a[1..] + b;
      FirstVisitClear(a);
      FirstVisitClear(a + b);
    }
  }

  lemma FirstVisitClear(visits: seq<Visit>)
    requires visits != []
    ensures VisitsClear(visits) <==> VisitClear(visits[0]) && VisitsClear(visits[1..])
  {
    hide VisitClear;
    assert forall i :: 0 < i < |visits| ==> visits[i] == visits[1..][i - 1];
  }

  /** The traversal visits the whole tree. */
  lemma {:induction false} TreeVisited(dir: Dir, at: ContainerPath)
    ensures VisitedEntries(Visits(dir, at)) == TreeEntries(dir)
    ensures VisitsClear(Visits(dir, at)) <==> TreeClear(dir)
    decreases dir, |dir.entries| + 1
  {
    var subs := Subdirs(dir);
    var below := VisitsOf(dir, subs, at);
    SubdirsVisited(dir, subs, at);
    BelowDescended(dir, dir.entries);
    BelowPermutes(dir, Descended(dir.entries), subs);
    assert Visits(dir, at)[1..] == below;
    FirstVisitClear(Visits(dir, at));
    hide VisitsOf, Subdirs, Descended, EntriesBelow, EntryClear, VisitsClear;
  }

  lemma {:induction false} SubdirsVisited(parent: Dir, subs: seq<Entry>, at: ContainerPath)
    requires forall e :: e in subs ==> e.Subdir? && !e.linked && e in parent.entries
    ensures VisitedEntries(VisitsOf(parent, subs, at)) == EntriesBelow(parent, subs)
    ensures VisitsClear(VisitsOf(parent, subs, at)) <==> forall e :: e in subs ==> TreeClear(e.dir)
    decreases parent, |subs|
  {
    if subs != [] {
      assert subs[0] in parent.entries;
      var here, rest := Visits(subs[0].dir, at + [subs[0].name]), VisitsOf(parent, subs[1..], at);
      TreeVisited(subs[0].dir, at + [subs[0].name]);
      SubdirsVisited(parent, subs[1..], at);
      VisitedConcat(here, rest);
      hide TreeClear, VisitsClear, Visits;
      assert forall e :: e in subs <==> e == subs[0] || e in subs[1..];
    }
  }

  /** With room for all files, the files of a directory give a note exactly where one is not plain. */
  lemma {:induction false} FilesNoteIff(mounts: seq<Mount>, mount: Mount, at: ContainerPath, leaves: seq<Entry>,
      p: Progress)
    ensures var q := TakeFiles(mounts, mount, at, leaves, p);
      && p.notes <= q.notes
      && (q.counters.files <= 64 ==> (q.notes == p.notes <==> forall e :: e in leaves ==> EntryClear(e)))
    decreases |leaves|
  {
    hide Locate;
    if leaves != [] && p.counters.files <= MAX_PROVIDER_FILES {
      var p1 := TakeFile(mounts, mount, at, leaves[0], p);
      FilesNoteIff(mounts, mount, at, leaves[1..], p1);
      assert p.notes <= p1.notes && (p1.notes == p.notes <==> EntryClear(leaves[0]));
      hide TakeFile, EntryClear;
      assert forall e :: e in leaves <==> e == leaves[0] || e in leaves[1..];
    }
  }

  lemma DirNoteIff(mounts: seq<Mount>, mount: Mount, visit: Visit, p: Progress)
    ensures var (q, ending) := TakeDir(mounts, mount, visit, p);
      && p.notes <= q.notes
      && (!ending.Full? ==>
            (ending.Finished? && q.notes == p.notes
             <==> VisitClear(visit) && p.counters.entries + |visit.dir.entries| <= 10_000))
      && (ending.Finished? ==> q.counters.entries == p.counters.entries + |visit.dir.entries| <= 10_000)
  {
    LeavesClear(visit.dir);
    hide TakeFiles, Leaves, WantedIn, EntryClear;
    var counted := p.(counters := p.counters.(entries := p.counters.entries + |visit.dir.entries|));
    FilesNoteIff(mounts, mount, visit.at, Leaves(visit.dir), counted);
    var _ := TakeFilesTakes(mounts, mount, visit.at, Leaves(visit.dir), counted);
  }

  lemma LeavesClear(dir: Dir)
    ensures (forall e :: e in Leaves(dir) ==> EntryClear(e)) <==> forall e :: e in dir.entries ==> EntryClear(e)
  {
    LeavesAreLeaves(dir);
  }

  lemma {:induction false} DirsNoteIff(mounts: seq<Mount>, mount: Mount, visits: seq<Visit>, p: Progress)
    requires p.counters.entries <= 10_000
    ensures var (q, ending) := TakeDirs(mounts, mount, visits, p);
      && p.notes <= q.notes
      && (!ending.Full? ==>
            (ending.Finished? && q.notes == p.notes
             <==> VisitsClear(visits) && p.counters.entries + VisitedEntries(visits) <= 10_000))
      && (ending.Finished? ==> q.counters.entries == p.counters.entries + VisitedEntries(visits))
    decreases |visits|
  {
    if visits != [] {
      var (middle, ending) := TakeDir(mounts, mount, visits[0], p);
      FirstDir(mounts, mount, visits, p);
      DirNoteIff(mounts, mount, visits[0], p);
      FirstVisitClear(visits);
      hide TakeDir, TakeDirs, VisitsClear, VisitClear;
      if ending.Finished? {
        DirsNoteIff(mounts, mount, visits[1..], middle);
      }
    }
  }

  /** A walk gives no note exactly where its tree is clear and within what is left of the budget. */
  lemma WalkNoteIff(mounts: seq<Mount>, mount: Mount, dir: Dir, start: ContainerPath, p: Progress)
    requires !p.counters.exhausted && p.counters.entries <= 10_000 && p.counters.files <= 64
    requires p.counters.files + |Walked(mounts, mount, dir, start, p).found| <= 64
    ensures var q := Walked(mounts, mount, dir, start, p);
      && (q.notes == p.notes <==> TreeClear(dir) && p.counters.entries + TreeEntries(dir) <= 10_000)
      && (q.notes == p.notes ==> !q.counters.exhausted && q.counters.entries == p.counters.entries + TreeEntries(dir))
  {
    var p0, visits := p.(found := []), Visits(dir, start);
    var k := TakeDirsTakes(mounts, mount, visits, p0);
    DirsNoteIff(mounts, mount, visits, p0);
    TreeVisited(dir, start);
    hide TakeDirs, Visits, Wanted, TreeClear, TreeEntries, VisitsClear, VisitedEntries;
  }

  // ---- One mount ------------------------------------------------------------------------------------

  /** A bind mount whose directory is gone through: inside the provider directory, or the one that owns it. */
  ghost predicate Entered(mounts: seq<Mount>, mount: Mount, directory: ContainerPath) {
    && mount.kind.Bind?
    && if directory < mount.target then !Dynamic(mount.target)
       else mount.target <= directory && Owner(mounts, directory) == Some(mount)
  }

  function EnteredAt(mount: Mount, directory: ContainerPath): ContainerPath {
    if directory < mount.target then mount.target else directory
  }

  /** Nothing about the mount keeps its files from being listed. */
  ghost predicate MountClear(mounts: seq<Mount>, mount: Mount, directory: ContainerPath, host: Host) {
    && (!mount.kind.Bind? && !mount.kind.Config? ==> !(directory < mount.target))
    && (Entered(mounts, mount, directory) ==>
          && host.here
          && (directory < mount.target ==> !host.stat(mount).StatFails?)
          && (!(directory < mount.target && host.stat(mount).NotDirectory?) ==>
                TreeClear(host.tree(mount, EnteredAt(mount, directory)))))
  }

  ghost function MountEntries(mounts: seq<Mount>, mount: Mount, directory: ContainerPath, host: Host): nat {
    if Entered(mounts, mount, directory) && !(directory < mount.target && host.stat(mount).NotDirectory?)
    then TreeEntries(host.tree(mount, EnteredAt(mount, directory))) else 0
  }

  ghost function AllEntries(mounts: seq<Mount>, directory: ContainerPath, host: Host, k: nat): nat
    requires k <= |mounts|
  {
    if k == 0 then 0
    else AllEntries(mounts, directory, host, k - 1) + MountEntries(mounts, mounts[k - 1], directory, host)
  }

  lemma MountNoteIff(mounts: seq<Mount>, mount: Mount, directory: ContainerPath, host: Host, p: Progress)
    requires !p.counters.exhausted && p.counters.entries <= 10_000 && p.counters.files <= 64
    requires p.counters.files + |FromMount(mounts, mount, directory, host, p).found| <= 64
    ensures var q := FromMount(mounts, mount, directory, host, p);
      && p.notes <= q.notes
      && (q.notes == p.notes <==>
            && MountClear(mounts, mount, directory, host)
            && p.counters.entries + MountEntries(mounts, mount, directory, host) <= 10_000)
      && (q.notes == p.notes ==>
            && !q.counters.exhausted
            && q.counters.entries == p.counters.entries + MountEntries(mounts, mount, directory, host))
  {
    hide Walked, Owner, Dynamic, TreeClear, TreeEntries;
    assert Inside(directory, mount.target) <==> directory < mount.target;
    var dir := host.tree(mount, EnteredAt(mount, directory));
    var q := FromMount(mounts, mount, directory, host, p);
    if q == Walked(mounts, mount, dir, EnteredAt(mount, directory), p) {
      WalkNoteIff(mounts, mount, dir, EnteredAt(mount, directory), p);
      WalkKeepsNotes(mounts, mount, dir, EnteredAt(mount, directory), p);
    }
  }

  lemma WalkKeepsNotes(mounts: seq<Mount>, mount: Mount, dir: Dir, start: ContainerPath, p: Progress)
    ensures p.notes <= Walked(mounts, mount, dir, start, p).notes
  {
    if !p.counters.exhausted && p.counters.files <= MAX_PROVIDER_FILES {
      var k := TakeDirsTakes(mounts, mount, Visits(dir, start), p.(found := []));
      hide TakeDirs, Visits, Wanted;
    }
  }

  // ---- All mounts -----------------------------------------------------------------------------------

  /** A file that the listing is to have, as `ListingIsExact` says. */
  ghost predicate Shown(mounts: seq<Mount>, directory: ContainerPath, host: Host, path: ContainerPath) {
    SomeContributes(mounts, mounts, directory, host, path)
  }

  /** There are at most 64 of them. */
  ghost predicate FewFiles(mounts: seq<Mount>, directory: ContainerPath, host: Host) {
    forall paths: set<ContainerPath> :: (forall path :: path in paths ==> Shown(mounts, directory, host, path)) ==>
      |paths| <= 64
  }

  /** The directory lies on a bind mount or a config, or on none but with a mount in it. */
  ghost predicate Readable(mounts: seq<Mount>, directory: ContainerPath) {
    match Owner(mounts, directory)
    case Some(mount) => mount.kind.Bind? || mount.kind.Config?
    case None => exists mount :: mount in mounts && directory <= mount.target
  }

  /** Nothing keeps the listing from being whole. */
  ghost predicate Clear(mounts: seq<Mount>, directory: ContainerPath, host: Host) {
    && Readable(mounts, directory)
    && (forall mount :: mount in mounts ==> MountClear(mounts, mount, directory, host))
    && AllEntries(mounts, directory, host, |mounts|) <= 10_000
    && FewFiles(mounts, directory, host)
  }

  lemma FirstNoteIff(mounts: seq<Mount>, directory: ContainerPath)
    ensures FirstNote(mounts, directory) == [] <==> Readable(mounts, directory)
  {
    hide Owner;
    if mount :| mount in mounts && directory <= mount.target {
      var i :| 0 <= i < |mounts| && mounts[i] == mount;
      assert Covers(directory, mounts[i].target);
    }
    if i :| 0 <= i < |mounts| && Covers(directory, mounts[i].target) {
      assert mounts[i] in mounts;
    }
  }

  lemma GatheredAtFirst(mounts: seq<Mount>, directory: ContainerPath, host: Host)
    ensures Gathered(mounts, directory, host, 0) == Progress(Counters(0, 0, false), [], [])
  {
  }

  lemma GatheredNext(mounts: seq<Mount>, directory: ContainerPath, host: Host, k: nat)
    requires 0 < k <= |mounts|
    ensures var g := Gathered(mounts, directory, host, k - 1);
      var q := Added(mounts, k - 1, directory, host, g);
      Gathered(mounts, directory, host, k) == q.(found := Merge(g.found, q.found))
  {
    hide FromMount, Merge;
  }

  /** What the k-th mount adds to what is known. */
  function Added(mounts: seq<Mount>, k: nat, directory: ContainerPath, host: Host, g: Progress): Progress
    requires k < |mounts|
  {
    FromMount(mounts, mounts[k], directory, host, g.(counters := g.counters.(files := |g.found|), found := []))
  }

  lemma AddedIsApart(mounts: seq<Mount>, k: nat, directory: ContainerPath, host: Host, g: Progress)
    requires Setting(mounts, directory, host) && k < |mounts|
    requires OwnedBy(mounts, mounts[..k], directory, g.found) && WithinBudget(g.counters)
    ensures Merge(g.found, Added(mounts, k, directory, host, g).found)
      == g.found + Added(mounts, k, directory, host, g).found
  {
    MountIsSound(mounts, mounts[k], directory, host, g.(counters := g.counters.(files := |g.found|), found := []));
    hide FromMount, Merge, OwnedBy, SoundFor, DistinctPaths;
    MergedOwned(mounts, k, directory, g.found, Added(mounts, k, directory, host, g).found);
  }

  /** One more mount, as one step. */
  lemma GatheredStep(mounts: seq<Mount>, directory: ContainerPath, host: Host, k: nat)
    requires Setting(mounts, directory, host) && 0 < k <= |mounts|
    ensures var g, h := Gathered(mounts, directory, host, k - 1), Gathered(mounts, directory, host, k);
      var q := Added(mounts, k - 1, directory, host, g);
      && h.found == g.found + q.found && h.notes == q.notes && h.counters == q.counters
  {
    hide Gathered, Added, Merge, OwnedBy, CompleteSoFar, Setting;
    GatheredNext(mounts, directory, host, k);
    GatheredSoFar(mounts, directory, host, k - 1);
    AddedIsApart(mounts, k - 1, directory, host, Gathered(mounts, directory, host, k - 1));
  }

  /** What a mount adds it contributes, whether or not it gives a note. */
  lemma MountAddsShown(mounts: seq<Mount>, mount: Mount, directory: ContainerPath, host: Host, p: Progress)
    requires Setting(mounts, directory, host) && mount in mounts
    ensures var q := FromMount(mounts, mount, directory, host, p);
      forall l :: l in q.found ==> Contributes(mounts, mount, directory, host, l.path)
  {
    hide Walked, WellFormed, Owner, Dynamic, Render, TreeHas;
    OwnTarget(mounts, mount);
    assert Inside(directory, mount.target) <==> directory < mount.target;
    var start := EnteredAt(mount, directory);
    var walked := Walked(mounts, mount, host.tree(mount, start), start, p).found;
    forall l | l in walked
      ensures start < l.path && TreeHas(host.tree(mount, start), l.path[|start|..]) && Belongs(mounts, mount, l.path)
    {
      var i :| 0 <= i < |walked| && walked[i] == l;
      assert Lists(walked, l.path);
      WalkedWithinTree(mounts, mount, host.tree(mount, start), start, p, l.path);
    }
  }

  lemma AddedIsShown(mounts: seq<Mount>, k: nat, directory: ContainerPath, host: Host, g: Progress)
    requires Setting(mounts, directory, host) && k < |mounts|
    ensures forall l :: l in Added(mounts, k, directory, host, g).found ==> Shown(mounts, directory, host, l.path)
  {
    MountAddsShown(mounts, mounts[k], directory, host, g.(counters := g.counters.(files := |g.found|), found := []));
    hide FromMount, Contributes;
    assert mounts[k] in mounts;
  }

  lemma MembersOfBoth(a: seq<Located>, b: seq<Located>)
    ensures forall l :: l in a + b <==> l in a || l in b
  {
  }

  lemma {:induction false} FoundIsShown(mounts: seq<Mount>, directory: ContainerPath, host: Host, k: nat)
    requires Setting(mounts, directory, host) && k <= |mounts|
    ensures forall l :: l in Gathered(mounts, directory, host, k).found ==> Shown(mounts, directory, host, l.path)
    decreases k
  {
    hide Gathered, Added, Shown, Setting;
    if k == 0 {
      GatheredAtFirst(mounts, directory, host);
    } else {
      FoundIsShown(mounts, directory, host, k - 1);
      GatheredStep(mounts, directory, host, k);
      var g := Gathered(mounts, directory, host, k - 1);
      AddedIsShown(mounts, k - 1, directory, host, g);
      MembersOfBoth(g.found, Added(mounts, k - 1, directory, host, g).found);
    }
  }

  ghost function PathsOf(found: seq<Located>): set<ContainerPath> {
    set l | l in found :: l.path
  }

  lemma {:induction false} PathsCounted(found: seq<Located>)
    requires DistinctPaths(found)
    ensures |PathsOf(found)| == |found|
    decreases |found|
  {
    if found != [] {
      var front, last := found[..|found| - 1], found[|found| - 1];
      PathsCounted(front);
      assert found == front + [last];
      assert PathsOf(found) == PathsOf(front) + {last.path};
      forall l | l in front ensures l.path != last.path {
        var i :| 0 <= i < |front| && front[i] == l;
        assert found[i] == l;
      }
    }
  }

  /** However far it got, a listing within the limit knows no more than 64 files. */
  lemma FewFound(mounts: seq<Mount>, directory: ContainerPath, host: Host, k: nat)
    requires Setting(mounts, directory, host) && k <= |mounts| && FewFiles(mounts, directory, host)
    ensures |Gathered(mounts, directory, host, k).found| <= 64
  {
    GatheredSoFar(mounts, directory, host, k);
    FoundIsShown(mounts, directory, host, k);
    var found := Gathered(mounts, directory, host, k).found;
    PathsCounted(found);
    hide Gathered, Shown;
    assert forall path :: path in PathsOf(found) ==> Shown(mounts, directory, host, path);
  }

  /** No note after k mounts, and as many entries looked at as they have. */
  ghost predicate Quiet(mounts: seq<Mount>, directory: ContainerPath, host: Host, k: nat)
    requires k <= |mounts|
  {
    var g := Gathered(mounts, directory, host, k);
    && g.notes == [] && !g.counters.exhausted
    && g.counters.entries == AllEntries(mounts, directory, host, k) <= 10_000
  }

  ghost predicate ClearUpTo(mounts: seq<Mount>, directory: ContainerPath, host: Host, k: nat)
    requires k <= |mounts|
  {
    forall i :: 0 <= i < k ==> MountClear(mounts, mounts[i], directory, host)
  }

  /** With few enough files known, one more mount stays quiet exactly where it is clear and within the budget. */
  lemma OneMoreQuiet(mounts: seq<Mount>, directory: ContainerPath, host: Host, k: nat)
    requires Setting(mounts, directory, host) && 0 < k <= |mounts|
    requires |Gathered(mounts, directory, host, k).found| <= 64 && Quiet(mounts, directory, host, k - 1)
    ensures Gathered(mounts, directory, host, k).notes == [] ==> Quiet(mounts, directory, host, k)
    ensures Quiet(mounts, directory, host, k) <==>
      && MountClear(mounts, mounts[k - 1], directory, host)
      && AllEntries(mounts, directory, host, k) <= 10_000
  {
    var g := Gathered(mounts, directory, host, k - 1);
    var p := g.(counters := g.counters.(files := |g.found|), found := []);
    GatheredStep(mounts, directory, host, k);
    hide FromMount, Gathered, MountClear, MountEntries, Setting;
    MountNoteIff(mounts, mounts[k - 1], directory, host, p);
  }

  lemma {:induction false} QuietIffClear(mounts: seq<Mount>, directory: ContainerPath, host: Host, k: nat)
    requires Setting(mounts, directory, host) && k <= |mounts|
    requires |Gathered(mounts, directory, host, k).found| <= 64
    ensures Gathered(mounts, directory, host, k).notes == [] ==> Quiet(mounts, directory, host, k)
    ensures Quiet(mounts, directory, host, k) <==>
      ClearUpTo(mounts, directory, host, k) && AllEntries(mounts, directory, host, k) <= 10_000
    decreases k
  {
    if k > 0 {
      GatheredStep(mounts, directory, host, k);
      NotesGrow(mounts, directory, host, k);
      QuietIffClear(mounts, directory, host, k - 1);
      ClearOneMore(mounts, directory, host, k);
      if Quiet(mounts, directory, host, k - 1) {
        OneMoreQuiet(mounts, directory, host, k);
      }
      hide FromMount, Gathered, MountClear, MountEntries, Setting, ClearUpTo;
    }
  }

  lemma ClearOneMore(mounts: seq<Mount>, directory: ContainerPath, host: Host, k: nat)
    requires 0 < k <= |mounts|
    ensures ClearUpTo(mounts, directory, host, k) <==>
      ClearUpTo(mounts, directory, host, k - 1) && MountClear(mounts, mounts[k - 1], directory, host)
  {
    hide MountClear;
  }

  lemma NotesGrow(mounts: seq<Mount>, directory: ContainerPath, host: Host, k: nat)
    requires Setting(mounts, directory, host) && 0 < k <= |mounts|
    ensures Gathered(mounts, directory, host, k - 1).notes <= Gathered(mounts, directory, host, k).notes
  {
    GatheredStep(mounts, directory, host, k);
    GatheredSoFar(mounts, directory, host, k - 1);
    var g := Gathered(mounts, directory, host, k - 1);
    hide FromMount, Gathered, SoundFor, OwnedBy, CompleteSoFar;
    MountIsSound(mounts, mounts[k - 1], directory, host,
      g.(counters := g.counters.(files := |g.found|), found := []));
  }

  // ---- The theorems -----------------------------------------------------------------------------------

  /** A complete listing of at most 64 files is all there is. */
  lemma WholeIsFew(mounts: seq<Mount>, directory: ContainerPath, host: Host)
    requires Setting(mounts, directory, host)
    requires var g := Gathered(mounts, directory, host, |mounts|); g.notes == [] && |g.found| <= 64
    ensures FewFiles(mounts, directory, host)
  {
    GatheredSoFar(mounts, directory, host, |mounts|);
    var found := Gathered(mounts, directory, host, |mounts|).found;
    assert mounts[..|mounts|] == mounts;
    PathsCounted(found);
    hide Gathered, Contributes;
    forall paths: set<ContainerPath> | forall path :: path in paths ==> Shown(mounts, directory, host, path)
      ensures |paths| <= 64
    {
      forall path | path in paths ensures path in PathsOf(found) {
        assert Lists(found, path);
        var l :| 0 <= l < |found| && found[l].path == path;
        assert found[l] in found;
      }
      SubsetIsSmaller(paths, PathsOf(found));
    }
  }

  lemma SubsetIsSmaller(a: set<ContainerPath>, b: set<ContainerPath>)
    requires a <= b
    ensures |a| <= |b|
  {
    assert b == a + (b - a);
  }

  lemma ClearByIndex(mounts: seq<Mount>, directory: ContainerPath, host: Host)
    ensures ClearUpTo(mounts, directory, host, |mounts|) <==>
      forall mount :: mount in mounts ==> MountClear(mounts, mount, directory, host)
  {
    hide MountClear;
    assert forall i :: 0 <= i < |mounts| ==> mounts[i] in mounts;
  }

  /** All files known are listed, and there is a note of too many exactly where there are. */
  lemma ListedNotesSplit(mounts: seq<Mount>, directory: ContainerPath, host: Host)
    requires Setting(mounts, directory, host)
    ensures ListedNotes(mounts, directory, host) == [] <==>
      && FirstNote(mounts, directory) == []
      && Gathered(mounts, directory, host, |mounts|).notes == []
      && |Gathered(mounts, directory, host, |mounts|).found| <= 64
  {
    GatheredSoFar(mounts, directory, host, |mounts|);
    PathOrderKeeps(Gathered(mounts, directory, host, |mounts|).found);
    hide Gathered, FirstNote, InPathOrder, StrictlyOrdered, CompleteSoFar;
  }

  /**
   A listing has no note exactly where nothing keeps it from being whole: the directory and all in
   it lie on bind mounts and configs, the task is here, every source can be looked at and every
   directory listed, no more than 10,000 entries are gone through, everything named like a dynamic
   file is one, and there are at most 64.
   */
  lemma NoNoteIff(mounts: seq<Mount>, directory: ContainerPath, host: Host)
    requires Setting(mounts, directory, host)
    ensures ListedNotes(mounts, directory, host) == [] <==> Clear(mounts, directory, host)
  {
    ListedNotesSplit(mounts, directory, host);
    FirstNoteIff(mounts, directory);
    ClearByIndex(mounts, directory, host);
    var g := Gathered(mounts, directory, host, |mounts|);
    if FewFiles(mounts, directory, host) {
      FewFound(mounts, directory, host, |mounts|);
    }
    if |g.found| <= 64 {
      QuietIffClear(mounts, directory, host, |mounts|);
      if g.notes == [] {
        WholeIsFew(mounts, directory, host);
      }
    }
    hide ListedNotes, Gathered, FirstNote, FewFiles, Readable, MountClear, AllEntries, Setting;
  }

  /** So a listing of what is clear is exact. */
  lemma ClearListingIsExact(mounts: seq<Mount>, directory: ContainerPath, host: Host,
      elsewhere: (Mount, ContainerPath) -> bool, path: ContainerPath)
    requires Setting(mounts, directory, host) && Proper(path) && Clear(mounts, directory, host)
    ensures Lists(ListedFiles(mounts, directory, host), path) <==>
      && InView(mounts, directory, host, elsewhere, path)
      && !BehindConfig(mounts, directory, Owner(mounts, path).value)
  {
    NoNoteIff(mounts, directory, host);
    hide Clear, ListedNotes;
    ListingIsExact(mounts, directory, host, elsewhere, path);
  }

  // ---- A clear mount among others -----------------------------------------------------------------------

  lemma {:induction false} DirsWithinVisited(mounts: seq<Mount>, mount: Mount, visits: seq<Visit>, p: Progress)
    requires p.counters.entries + VisitedEntries(visits) <= 10_000
    ensures var (q, ending) := TakeDirs(mounts, mount, visits, p);
      !ending.Spent? && q.counters.entries <= p.counters.entries + VisitedEntries(visits)
    decreases |visits|
  {
    if visits != [] {
      var (middle, ending) := TakeDir(mounts, mount, visits[0], p);
      FirstDir(mounts, mount, visits, p);
      DirWithin(mounts, mount, visits[0], p);
      hide TakeDir, TakeDirs;
      if ending.Finished? {
        DirsWithinVisited(mounts, mount, visits[1..], middle);
      }
    }
  }

  lemma DirWithin(mounts: seq<Mount>, mount: Mount, visit: Visit, p: Progress)
    requires p.counters.entries + |visit.dir.entries| <= 10_000
    ensures var (q, ending) := TakeDir(mounts, mount, visit, p);
      !ending.Spent? && q.counters.entries <= p.counters.entries + |visit.dir.entries|
  {
    hide TakeFiles, Leaves, WantedIn;
    var _ := TakeFilesTakes(mounts, mount, visit.at, Leaves(visit.dir),
      p.(counters := p.counters.(entries := p.counters.entries + |visit.dir.entries|)));
  }

  lemma WalkWithin(mounts: seq<Mount>, mount: Mount, dir: Dir, start: ContainerPath, p: Progress)
    requires !p.counters.exhausted && p.counters.entries + TreeEntries(dir) <= 10_000
    ensures var q := Walked(mounts, mount, dir, start, p);
      !q.counters.exhausted && q.counters.entries <= p.counters.entries + TreeEntries(dir)
  {
    var visits := Visits(dir, start);
    TreeVisited(dir, start);
    hide TakeDirs, Visits, Wanted, TreeEntries, VisitedEntries, TreeClear, VisitsClear;
    DirsWithinVisited(mounts, mount, visits, p.(found := []));
    var _ := TakeDirsTakes(mounts, mount, visits, p.(found := []));
  }

  lemma MountWithin(mounts: seq<Mount>, mount: Mount, directory: ContainerPath, host: Host, p: Progress)
    requires !p.counters.exhausted && p.counters.entries + MountEntries(mounts, mount, directory, host) <= 10_000
    ensures var q := FromMount(mounts, mount, directory, host, p);
      !q.counters.exhausted && q.counters.entries <= p.counters.entries + MountEntries(mounts, mount, directory, host)
  {
    hide Walked, Owner, Dynamic, TreeEntries;
    assert Inside(directory, mount.target) <==> directory < mount.target;
    var dir := host.tree(mount, EnteredAt(mount, directory));
    if Entered(mounts, mount, directory) && !(directory < mount.target && host.stat(mount).NotDirectory?) {
      WalkWithin(mounts, mount, dir, EnteredAt(mount, directory), p);
    }
  }

  lemma {:induction false} WithinSoFar(mounts: seq<Mount>, directory: ContainerPath, host: Host, k: nat)
    requires Setting(mounts, directory, host) && k <= |mounts| && AllEntries(mounts, directory, host, k) <= 10_000
    ensures var g := Gathered(mounts, directory, host, k);
      !g.counters.exhausted && g.counters.entries <= AllEntries(mounts, directory, host, k)
    decreases k
  {
    hide FromMount, Gathered, MountEntries, Setting;
    if k == 0 {
      GatheredAtFirst(mounts, directory, host);
    } else {
      WithinSoFar(mounts, directory, host, k - 1);
      GatheredStep(mounts, directory, host, k);
      var g := Gathered(mounts, directory, host, k - 1);
      MountWithin(mounts, mounts[k - 1], directory, host,
        g.(counters := g.counters.(files := |g.found|), found := []));
    }
  }

  lemma {:induction false} EntriesGrow(mounts: seq<Mount>, directory: ContainerPath, host: Host, i: nat, k: nat)
    requires i <= k <= |mounts|
    ensures AllEntries(mounts, directory, host, i) <= AllEntries(mounts, directory, host, k)
    decreases k
  {
    if i < k {
      EntriesGrow(mounts, directory, host, i, k - 1);
    }
  }

  lemma PrefixLists(a: seq<Located>, b: seq<Located>, path: ContainerPath)
    requires a <= b && Lists(a, path)
    ensures Lists(b, path)
  {
    var i :| 0 <= i < |a| && a[i].path == path;
    assert b[i] == a[i];
  }

  lemma {:induction false} FoundGrows(mounts: seq<Mount>, directory: ContainerPath, host: Host, i: nat, k: nat)
    requires Setting(mounts, directory, host) && i <= k <= |mounts|
    ensures Gathered(mounts, directory, host, i).found <= Gathered(mounts, directory, host, k).found
    decreases k
  {
    hide FromMount, Gathered, Setting;
    if i < k {
      FoundGrows(mounts, directory, host, i, k - 1);
      GatheredStep(mounts, directory, host, k);
    }
  }

  /** Alone among the mounts that are to be clear for its own files: what it contributes is known after it. */
  lemma ClearMountIsKnown(mounts: seq<Mount>, i: nat, directory: ContainerPath, host: Host, path: ContainerPath)
    requires Setting(mounts, directory, host) && i < |mounts| && MountClear(mounts, mounts[i], directory, host)
    requires AllEntries(mounts, directory, host, i + 1) <= 10_000 && FewFiles(mounts, directory, host)
    requires Contributes(mounts, mounts[i], directory, host, path)
    ensures Lists(Gathered(mounts, directory, host, i + 1).found, path)
  {
    WithinSoFar(mounts, directory, host, i);
    FewFound(mounts, directory, host, i + 1);
    GatheredStep(mounts, directory, host, i + 1);
    var g := Gathered(mounts, directory, host, i);
    var p := g.(counters := g.counters.(files := |g.found|), found := []);
    hide FromMount, Gathered, MountClear, MountEntries, Contributes, FewFiles;
    MountNoteIff(mounts, mounts[i], directory, host, p);
    MountIsComplete(mounts, mounts[i], directory, host, p);
    hide Setting;
    ListsConcat(g.found, FromMount(mounts, mounts[i], directory, host, p).found, path);
  }

  /**
   Whatever keeps other mounts from being listed, the files of a mount that nothing keeps are: within
   the budget and the limit, each of them is in the listing.
   */
  lemma ClearMountIsListed(mounts: seq<Mount>, i: nat, directory: ContainerPath, host: Host, path: ContainerPath)
    requires Setting(mounts, directory, host) && i < |mounts| && MountClear(mounts, mounts[i], directory, host)
    requires AllEntries(mounts, directory, host, |mounts|) <= 10_000 && FewFiles(mounts, directory, host)
    requires Contributes(mounts, mounts[i], directory, host, path)
    ensures Lists(ListedFiles(mounts, directory, host), path)
  {
    EntriesGrow(mounts, directory, host, i + 1, |mounts|);
    ClearMountIsKnown(mounts, i, directory, host, path);
    FoundGrows(mounts, directory, host, i + 1, |mounts|);
    FewFound(mounts, directory, host, |mounts|);
    GatheredSoFar(mounts, directory, host, |mounts|);
    var found := Gathered(mounts, directory, host, |mounts|).found;
    PrefixLists(Gathered(mounts, directory, host, i + 1).found, found, path);
    PathOrderKeeps(found);
    hide Gathered, Contributes, FewFiles, MountClear, AllEntries, CompleteSoFar, InPathOrder;
    SameMembersList(ListedFiles(mounts, directory, host), found, path);
  }
}
