/** What a walk finds, and when it found everything. */
module ProviderWalkFacts {
  import opened Options
  import opened Sorting
  import opened Mounts
  import opened ProviderWalk

  // ---- The files of a mount, listed in traversal order -------------------------------------------

  /** Entries that resolve to a regular file count; with `all`, so does every other leaf. */
  predicate Counts(mounts: seq<Mount>, mount: Mount, at: ContainerPath, leaf: Entry, all: bool) {
    && leaf.Leaf? && DynamicName(leaf.name) && (leaf.plain || all)
    && Locate(mounts, at + [leaf.name]).mount == Some(mount)
  }

  function WantedIn(mounts: seq<Mount>, mount: Mount, at: ContainerPath, leaves: seq<Entry>,
      all: bool): seq<Located>
  {
    if leaves == [] then []
    else
      (if Counts(mounts, mount, at, leaves[0], all) then [Locate(mounts, at + [leaves[0].name])] else [])
      + WantedIn(mounts, mount, at, leaves[1..], all)
  }

  function Wanted(mounts: seq<Mount>, mount: Mount, visits: seq<Visit>, all: bool): seq<Located> {
    if visits == [] then []
    else WantedIn(mounts, mount, visits[0].at, Leaves(visits[0].dir), all) + Wanted(mounts, mount, visits[1..], all)
  }

  // ---- The walk follows that list ----------------------------------------------------------------

  /** `q` is `p` after the first k files of `wanted` were taken. */
  ghost predicate Took(p: Progress, q: Progress, wanted: seq<Located>, k: nat) {
    && k <= |wanted|
    && q.found == p.found + wanted[..k]
    && q.counters.files == p.counters.files + k
    && q.counters.exhausted == p.counters.exhausted
    && p.notes <= q.notes
  }

  lemma {:induction false} TakeFilesTakes(mounts: seq<Mount>, mount: Mount, at: ContainerPath, leaves: seq<Entry>,
      p: Progress)
    returns (k: nat)
    ensures var q := TakeFiles(mounts, mount, at, leaves, p);
      && Took(p, q, WantedIn(mounts, mount, at, leaves, false), k)
      && q.counters.entries == p.counters.entries
      && (q.counters.files <= MAX_PROVIDER_FILES ==> k == |WantedIn(mounts, mount, at, leaves, false)|)
    decreases |leaves|
  {
    var wanted := WantedIn(mounts, mount, at, leaves, false);
    if leaves == [] || p.counters.files > MAX_PROVIDER_FILES {
      k := 0;
      assert p.found + wanted[..0] == p.found;
    } else {
      var p1 := TakeFile(mounts, mount, at, leaves[0], p);
      var rest := WantedIn(mounts, mount, at, leaves[1..], false);
      var k1 := TakeFilesTakes(mounts, mount, at, leaves[1..], p1);
      if Counts(mounts, mount, at, leaves[0], false) {
        var first := Locate(mounts, at + [leaves[0].name]);
        assert wanted == [first] + rest;
        assert wanted[..k1 + 1] == [first] + rest[..k1];
        k := k1 + 1;
      } else {
        assert wanted == rest;
        k := k1;
      }
    }
  }

  lemma TookMore(p: Progress, middle: Progress, q: Progress, here: seq<Located>, rest: seq<Located>, more: nat)
    requires Took(p, middle, here, |here|) && Took(middle, q, rest, more)
    ensures Took(p, q, here + rest, |here| + more)
  {
    assert (here + rest)[..|here| + more] == here + rest[..more];
    assert here[..|here|] == here;
  }

  lemma TookSome(p: Progress, q: Progress, here: seq<Located>, rest: seq<Located>, k: nat)
    requires Took(p, q, here, k)
    ensures Took(p, q, here + rest, k)
  {
    assert (here + rest)[..k] == here[..k];
  }

  lemma TakeDirTakes(mounts: seq<Mount>, mount: Mount, visit: Visit, p: Progress) returns (k: nat)
    ensures var (q, ending) := TakeDir(mounts, mount, visit, p);
      && Took(p, q, WantedIn(mounts, mount, visit.at, Leaves(visit.dir), false), k)
      && (ending.Finished? ==>
            && k == |WantedIn(mounts, mount, visit.at, Leaves(visit.dir), false)|
            && q.counters.entries == p.counters.entries + |visit.dir.entries| <= MAX_SCANNED_ENTRIES)
      && (ending.Full? ==> MAX_PROVIDER_FILES < q.counters.files && q.counters.entries <= MAX_SCANNED_ENTRIES)
      && (ending.Spent? ==> q.counters.entries == MAX_SCANNED_ENTRIES + 1)
      && (ending.Failed? ==> q.counters.entries == p.counters.entries)
  {
    hide TakeFiles, WantedIn, Leaves;
    var scanned := p.counters.entries + |visit.dir.entries|;
    if !visit.dir.listable || scanned > MAX_SCANNED_ENTRIES {
      k := 0;
      assert p.found + WantedIn(mounts, mount, visit.at, Leaves(visit.dir), false)[..0] == p.found;
    } else {
      k := TakeFilesTakes(mounts, mount, visit.at, Leaves(visit.dir),
        p.(counters := p.counters.(entries := scanned)));
    }
  }

  lemma {:induction false} TakeDirsTakes(mounts: seq<Mount>, mount: Mount, visits: seq<Visit>, p: Progress)
    returns (k: nat)
    ensures var (q, ending) := TakeDirs(mounts, mount, visits, p);
      && Took(p, q, Wanted(mounts, mount, visits, false), k)
      && (ending.Finished? ==> k == |Wanted(mounts, mount, visits, false)|)
      && (ending.Full? ==> q.counters.files > MAX_PROVIDER_FILES)
    decreases |visits|
  {
    hide TakeDir, TakeDirs, WantedIn, Wanted, Leaves, Took;
    if visits == [] {
      k := 0;
      NothingTaken(mounts, mount, p);
    } else {
      var visit := visits[0];
      var here := WantedIn(mounts, mount, visit.at, Leaves(visit.dir), false);
      var rest := Wanted(mounts, mount, visits[1..], false);
      var (middle, ending) := TakeDir(mounts, mount, visit, p);
      k := TakeDirTakes(mounts, mount, visit, p);
      FirstDir(mounts, mount, visits, p);
      FirstWanted(mounts, mount, visits, false);
      if ending.Finished? {
        var more := TakeDirsTakes(mounts, mount, visits[1..], middle);
        TookMore(p, middle, TakeDirs(mounts, mount, visits[1..], middle).0, here, rest, more);
        k := k + more;
      } else {
        TookSome(p, middle, here, rest, k);
      }
    }
  }

  lemma NothingTaken(mounts: seq<Mount>, mount: Mount, p: Progress)
    ensures TakeDirs(mounts, mount, [], p) == (p, Finished) && Wanted(mounts, mount, [], false) == []
    ensures Took(p, p, [], 0)
  {
  }

  // ---- No note, nothing missed --------------------------------------------------------------------

  lemma {:induction false} FilesWithoutNote(mounts: seq<Mount>, mount: Mount, at: ContainerPath,
      leaves: seq<Entry>, p: Progress)
    requires var q := TakeFiles(mounts, mount, at, leaves, p);
      q.notes == p.notes && q.counters.files <= MAX_PROVIDER_FILES
    ensures WantedIn(mounts, mount, at, leaves, true) == WantedIn(mounts, mount, at, leaves, false)
    decreases |leaves|
  {
    if leaves != [] {
      var _ := TakeFilesTakes(mounts, mount, at, leaves, p);
      var p1 := TakeFile(mounts, mount, at, leaves[0], p);
      var _ := TakeFilesTakes(mounts, mount, at, leaves[1..], p1);
      assert p1.notes == p.notes;
      FilesWithoutNote(mounts, mount, at, leaves[1..], p1);
    }
  }

  lemma DirWithoutNote(mounts: seq<Mount>, mount: Mount, visit: Visit, p: Progress)
    requires var (q, ending) := TakeDir(mounts, mount, visit, p); q.notes == p.notes && ending.Finished?
    ensures WantedIn(mounts, mount, visit.at, Leaves(visit.dir), true)
      == WantedIn(mounts, mount, visit.at, Leaves(visit.dir), false)
  {
    hide TakeFiles, WantedIn, Leaves;
    var counted := p.(counters := p.counters.(entries := p.counters.entries + |visit.dir.entries|));
    FilesWithoutNote(mounts, mount, visit.at, Leaves(visit.dir), counted);
  }

  lemma FirstWanted(mounts: seq<Mount>, mount: Mount, visits: seq<Visit>, all: bool)
    requires visits != []
    ensures Wanted(mounts, mount, visits, all)
      == WantedIn(mounts, mount, visits[0].at, Leaves(visits[0].dir), all) + Wanted(mounts, mount, visits[1..], all)
  {
    hide WantedIn, Leaves;
  }

  /** A walk that finished without a note took every leaf with a dynamic extension. */
  lemma {:induction false} DirsWithoutNote(mounts: seq<Mount>, mount: Mount, visits: seq<Visit>, p: Progress)
    requires var (q, ending) := TakeDirs(mounts, mount, visits, p);
      q.notes == p.notes && ending.Finished?
    ensures Wanted(mounts, mount, visits, true) == Wanted(mounts, mount, visits, false)
    decreases |visits|
  {
    if visits != [] {
      var (middle, ending) := TakeDir(mounts, mount, visits[0], p);
      FirstDir(mounts, mount, visits, p);
      FirstWanted(mounts, mount, visits, true);
      FirstWanted(mounts, mount, visits, false);
      hide TakeDir, TakeDirs, WantedIn, Wanted, Leaves;
      var _ := TakeDirTakes(mounts, mount, visits[0], p);
      var _ := TakeDirsTakes(mounts, mount, visits[1..], middle);
      DirWithoutNote(mounts, mount, visits[0], p);
      DirsWithoutNote(mounts, mount, visits[1..], middle);
    }
  }

  // ---- The entry budget -----------------------------------------------------------------------------

  /** Never more than one entry beyond the budget, and then no further walk starts. */
  predicate WithinBudget(c: Counters) {
    c.entries <= MAX_SCANNED_ENTRIES || (c.exhausted && c.entries == MAX_SCANNED_ENTRIES + 1)
  }

  lemma {:induction false} DirsWithinBudget(mounts: seq<Mount>, mount: Mount, visits: seq<Visit>, p: Progress)
    requires p.counters.entries <= MAX_SCANNED_ENTRIES
    ensures var (q, ending) := TakeDirs(mounts, mount, visits, p);
      if ending.Spent? then q.counters.entries == MAX_SCANNED_ENTRIES + 1
      else q.counters.entries <= MAX_SCANNED_ENTRIES
    decreases |visits|
  {
    if visits != [] {
      var (middle, ending) := TakeDir(mounts, mount, visits[0], p);
      var _ := TakeDirTakes(mounts, mount, visits[0], p);
      FirstDir(mounts, mount, visits, p);
      if ending.Finished? {
        DirsWithinBudget(mounts, mount, visits[1..], middle);
      }
    }
  }

  lemma WalkedWithinBudget(mounts: seq<Mount>, mount: Mount, dir: Dir, start: ContainerPath, p: Progress)
    requires WithinBudget(p.counters)
    ensures WithinBudget(Walked(mounts, mount, dir, start, p).counters)
  {
    if !p.counters.exhausted && p.counters.files <= MAX_PROVIDER_FILES {
      DirsWithinBudget(mounts, mount, Visits(dir, start), p.(found := []));
      var _ := TakeDirsTakes(mounts, mount, Visits(dir, start), p.(found := []));
    }
  }

  // ---- Which paths are in the list ---------------------------------------------------------------

  /** A leaf at `relative`, below directories that are no links. */
  ghost predicate TreeHas(dir: Dir, relative: seq<string>)
    decreases |relative|
  {
    relative != [] && exists e :: e in dir.entries && e.name == relative[0] && EntryHas(e, relative)
  }

  ghost predicate EntryHas(e: Entry, relative: seq<string>)
    requires relative != []
    decreases |relative|, 0
  {
    if |relative| == 1 then e.Leaf? else e.Subdir? && !e.linked && TreeHas(e.dir, relative[1..])
  }

  predicate Lists(located: seq<Located>, path: ContainerPath) {
    exists i :: 0 <= i < |located| && located[i].path == path
  }

  lemma ListsConcat(a: seq<Located>, b: seq<Located>, path: ContainerPath)
    ensures Lists(a + b, path) <==> Lists(a, path) || Lists(b, path)
  {
    if Lists(a, path) {
      var i :| 0 <= i < |a| && a[i].path == path;
      assert (a + b)[i].path == path;
    }
    if Lists(b, path) {
      var i :| 0 <= i < |b| && b[i].path == path;
      assert (a + b)[|a| + i].path == path;
    }
  }

  predicate Belongs(mounts: seq<Mount>, mount: Mount, path: ContainerPath) {
    Dynamic(path) && Owner(mounts, path) == Some(mount)
  }

  lemma {:induction false} WantedInLists(mounts: seq<Mount>, mount: Mount, at: ContainerPath, leaves: seq<Entry>,
      path: ContainerPath)
    ensures Lists(WantedIn(mounts, mount, at, leaves, true), path) <==>
      Belongs(mounts, mount, path) && exists e :: e in leaves && e.Leaf? && path == at + [e.name]
    decreases |leaves|
  {
    if leaves != [] {
      WantedInLists(mounts, mount, at, leaves[1..], path);
      var first := if Counts(mounts, mount, at, leaves[0], true) then [Locate(mounts, at + [leaves[0].name])] else [];
      ListsConcat(first, WantedIn(mounts, mount, at, leaves[1..], true), path);
      assert forall e :: e in leaves <==> e == leaves[0] || e in leaves[1..];
      var here := at + [leaves[0].name];
      assert here[|here| - 1] == leaves[0].name;
      if first != [] {
        assert first[0].path == here;
      }
    }
  }

  /** Somewhere below one of the given subdirectories. */
  ghost predicate BelowOneOf(subs: seq<Entry>, at: ContainerPath, path: ContainerPath) {
    && |path| > |at| + 1 && at <= path
    && exists e :: e in subs && e.Subdir? && e.name == path[|at|] && TreeHas(e.dir, path[|at| + 1..])
  }

  lemma {:induction false} VisitsList(mounts: seq<Mount>, mount: Mount, dir: Dir, at: ContainerPath,
      path: ContainerPath)
    ensures Lists(Wanted(mounts, mount, Visits(dir, at), true), path) <==>
      at < path && TreeHas(dir, path[|at|..]) && Belongs(mounts, mount, path)
    decreases dir, |dir.entries| + 1
  {
    var below := VisitsOf(dir, Subdirs(dir), at);
    assert Visits(dir, at)[1..] == below;
    var here := WantedIn(mounts, mount, at, Leaves(dir), true);
    ListsConcat(here, Wanted(mounts, mount, below, true), path);
    WantedInLists(mounts, mount, at, Leaves(dir), path);
    VisitsOfList(mounts, mount, dir, Subdirs(dir), at, path);
    if at < path {
      TreeHasSplits(dir, at, path);
    }
  }

  lemma TreeHasSplits(dir: Dir, at: ContainerPath, path: ContainerPath)
    requires at < path
    ensures TreeHas(dir, path[|at|..]) <==>
      (exists e :: e in Leaves(dir) && e.Leaf? && path == at + [e.name]) || BelowOneOf(Subdirs(dir), at, path)
  {
    var relative := path[|at|..];
    assert path == at + relative;
    LeavesAreLeaves(dir);
    if |relative| == 1 {
      if TreeHas(dir, relative) {
        var e :| e in dir.entries && e.name == relative[0] && EntryHas(e, relative);
        assert e in Leaves(dir) && path == at + [e.name];
      }
      if e :| e in Leaves(dir) && e.Leaf? && path == at + [e.name] {
        assert EntryHas(e, relative);
      }
    } else {
      assert relative[1..] == path[|at| + 1..];
      if TreeHas(dir, relative) {
        var e :| e in dir.entries && e.name == relative[0] && EntryHas(e, relative);
        assert e in Subdirs(dir);
      }
      if BelowOneOf(Subdirs(dir), at, path) {
        var e :| e in Subdirs(dir) && e.name == path[|at|] && TreeHas(e.dir, path[|at| + 1..]);
        assert EntryHas(e, relative);
      }
    }
  }

  lemma {:induction false} VisitsOfList(mounts: seq<Mount>, mount: Mount, parent: Dir, subs: seq<Entry>,
      at: ContainerPath, path: ContainerPath)
    requires forall e :: e in subs ==> e.Subdir? && e in parent.entries
    ensures Lists(Wanted(mounts, mount, VisitsOf(parent, subs, at), true), path) <==>
      BelowOneOf(subs, at, path) && Belongs(mounts, mount, path)
    decreases parent, |subs|
  {
    if subs != [] {
      var sub := subs[0];
      assert sub in parent.entries;
      var here, rest := Visits(sub.dir, at + [sub.name]), VisitsOf(parent, subs[1..], at);
      WantedConcat(mounts, mount, here, rest, true);
      ListsConcat(Wanted(mounts, mount, here, true), Wanted(mounts, mount, rest, true), path);
      VisitsList(mounts, mount, sub.dir, at + [sub.name], path);
      VisitsOfList(mounts, mount, parent, subs[1..], at, path);
      BelowFirstOrRest(subs, at, path);
    }
  }

  lemma BelowFirstOrRest(subs: seq<Entry>, at: ContainerPath, path: ContainerPath)
    requires subs != [] && subs[0].Subdir?
    ensures var below := at + [subs[0].name];
      BelowOneOf(subs, at, path) <==>
        (below < path && TreeHas(subs[0].dir, path[|below|..])) || BelowOneOf(subs[1..], at, path)
  {
    assert forall e :: e in subs <==> e == subs[0] || e in subs[1..];
    var below := at + [subs[0].name];
    assert below < path <==> |path| > |at| + 1 && at <= path && path[|at|] == subs[0].name;
  }

  ghost predicate Concatenates(mounts: seq<Mount>, mount: Mount, a: seq<Visit>, b: seq<Visit>, all: bool) {
    Wanted(mounts, mount, a + b, all) == Wanted(mounts, mount, a, all) + Wanted(mounts, mount, b, all)
  }

  lemma {:induction false} WantedConcat(mounts: seq<Mount>, mount: Mount, a: seq<Visit>, b: seq<Visit>, all: bool)
    ensures Concatenates(mounts, mount, a, b, all)
    decreases |a|
  {
    if a == [] {
      assert a + b == b;
    } else {
      WantedConcat(mounts, mount, a[1..], b, all);
      ConcatenatesCons(mounts, mount, a[0], a[1..], b, all);
      assert a == [a[0]] + a[1..];
    }
  }

  lemma ConcatenatesCons(mounts: seq<Mount>, mount: Mount, first: Visit, rest: seq<Visit>, b: seq<Visit>, all: bool)
    requires Concatenates(mounts, mount, rest, b, all)
    ensures Concatenates(mounts, mount, [first] + rest, b, all)
  {
    hide Wanted, WantedIn, Leaves;
    var here := WantedIn(mounts, mount, first.at, Leaves(first.dir), all);
    assert [first] + rest + b == [first] + (rest + b);
    WantedCons(mounts, mount, first, rest, all);
    WantedCons(mounts, mount, first, rest + b, all);
    Associates(here, Wanted(mounts, mount, rest, all), Wanted(mounts, mount, b, all));
  }

  lemma Associates(a: seq<Located>, b: seq<Located>, c: seq<Located>)
    ensures a + (b + c) == (a + b) + c
  {
  }

  lemma WantedCons(mounts: seq<Mount>, mount: Mount, first: Visit, rest: seq<Visit>, all: bool)
    ensures Wanted(mounts, mount, [first] + rest, all)
         == WantedIn(mounts, mount, first.at, Leaves(first.dir), all) + Wanted(mounts, mount, rest, all)
  {
    assert ([first] + rest)[1..] == rest;
  }

  // ---- No path is listed twice ---------------------------------------------------------------------

  ghost predicate UniqueNames(entries: seq<Entry>) {
    forall i, k :: 0 <= i < k < |entries| ==> entries[i].name != entries[k].name
  }

  /** Every directory of the tree names each of its entries once. */
  ghost predicate WellFormed(dir: Dir) {
    && UniqueNames(dir.entries)
    && forall e :: e in dir.entries ==> ProperName(e.name) && (e.Subdir? ==> WellFormed(e.dir))
  }

  ghost predicate DistinctPaths(located: seq<Located>) {
    forall i, k :: 0 <= i < k < |located| ==> located[i].path != located[k].path
  }

  lemma DistinctConcat(a: seq<Located>, b: seq<Located>)
    requires DistinctPaths(a) && DistinctPaths(b)
    requires forall path :: Lists(a, path) ==> !Lists(b, path)
    ensures DistinctPaths(a + b)
  {
    var c := a + b;
    forall i, k | 0 <= i < k < |c| ensures c[i].path != c[k].path {
      if i < |a| <= k {
        assert Lists(a, c[i].path);
        assert b[k - |a|].path == c[k].path;
        assert Lists(b, c[k].path);
      }
    }
  }

  lemma UniqueByName(entries: seq<Entry>)
    requires UniqueNames(entries)
    ensures Distinct(entries)
    ensures forall a, b :: a in entries && b in entries && a.name == b.name ==> a == b
  {
  }

  lemma UniqueFromElements(entries: seq<Entry>)
    requires Distinct(entries)
    requires forall a, b :: a in entries && b in entries && a.name == b.name ==> a == b
    ensures UniqueNames(entries)
  {
    forall i, k | 0 <= i < k < |entries| ensures entries[i].name != entries[k].name {
      assert entries[i] in entries && entries[k] in entries;
    }
  }

  lemma {:induction false} FilteredDistinct(entries: seq<Entry>)
    requires Distinct(entries)
    ensures Distinct(LeavesIn(entries)) && Distinct(Descended(entries))
    decreases |entries|
  {
    if entries != [] {
      FilteredDistinct(entries[1..]);
      LeavesInAreLeaves(entries[1..]);
      assert entries[0] !in entries[1..];
    }
  }

  lemma SortedUnique(dir: Dir)
    requires UniqueNames(dir.entries)
    ensures UniqueNames(Leaves(dir)) && UniqueNames(Subdirs(dir))
  {
    UniqueByName(dir.entries);
    FilteredDistinct(dir.entries);
    LeavesAreLeaves(dir);
    DistinctPermutes(LeavesIn(dir.entries), Leaves(dir));
    DistinctPermutes(Descended(dir.entries), Subdirs(dir));
    UniqueFromElements(Leaves(dir));
    UniqueFromElements(Subdirs(dir));
  }

  lemma {:induction false} PlainAreListed(mounts: seq<Mount>, mount: Mount, at: ContainerPath, leaves: seq<Entry>,
      path: ContainerPath)
    ensures Lists(WantedIn(mounts, mount, at, leaves, false), path) ==>
      Lists(WantedIn(mounts, mount, at, leaves, true), path)
    decreases |leaves|
  {
    if leaves != [] {
      PlainAreListed(mounts, mount, at, leaves[1..], path);
      var here := Locate(mounts, at + [leaves[0].name]);
      ListsConcat(if Counts(mounts, mount, at, leaves[0], true) then [here] else [],
                  WantedIn(mounts, mount, at, leaves[1..], true), path);
      ListsConcat(if Counts(mounts, mount, at, leaves[0], false) then [here] else [],
                  WantedIn(mounts, mount, at, leaves[1..], false), path);
    }
  }

  lemma {:induction false} WantedAreListed(mounts: seq<Mount>, mount: Mount, visits: seq<Visit>, path: ContainerPath)
    ensures Lists(Wanted(mounts, mount, visits, false), path) ==> Lists(Wanted(mounts, mount, visits, true), path)
    decreases |visits|
  {
    if visits != [] {
      WantedAreListed(mounts, mount, visits[1..], path);
      var at, leaves := visits[0].at, Leaves(visits[0].dir);
      PlainAreListed(mounts, mount, at, leaves, path);
      ListsConcat(WantedIn(mounts, mount, at, leaves, true), Wanted(mounts, mount, visits[1..], true), path);
      ListsConcat(WantedIn(mounts, mount, at, leaves, false), Wanted(mounts, mount, visits[1..], false), path);
    }
  }

  lemma {:induction false} LeavesDistinct(mounts: seq<Mount>, mount: Mount, at: ContainerPath, leaves: seq<Entry>)
    requires UniqueNames(leaves)
    ensures DistinctPaths(WantedIn(mounts, mount, at, leaves, false))
    decreases |leaves|
  {
    if leaves != [] {
      var rest := WantedIn(mounts, mount, at, leaves[1..], false);
      LeavesDistinct(mounts, mount, at, leaves[1..]);
      var here := Locate(mounts, at + [leaves[0].name]);
      var first := if Counts(mounts, mount, at, leaves[0], false) then [here] else [];
      forall path | Lists(first, path) ensures !Lists(rest, path) {
        PlainAreListed(mounts, mount, at, leaves[1..], path);
        WantedInLists(mounts, mount, at, leaves[1..], path);
        assert path == at + [leaves[0].name];
        assert path[|at|] == leaves[0].name;
      }
      DistinctConcat(first, rest);
    }
  }

  lemma {:induction false} VisitsDistinct(mounts: seq<Mount>, mount: Mount, dir: Dir, at: ContainerPath)
    requires WellFormed(dir)
    ensures DistinctPaths(Wanted(mounts, mount, Visits(dir, at), false))
    decreases dir, |dir.entries| + 1
  {
    var below := VisitsOf(dir, Subdirs(dir), at);
    assert Visits(dir, at)[1..] == below;
    SortedUnique(dir);
    LeavesDistinct(mounts, mount, at, Leaves(dir));
    VisitsOfDistinct(mounts, mount, dir, Subdirs(dir), at);
    var here, deeper := WantedIn(mounts, mount, at, Leaves(dir), false), Wanted(mounts, mount, below, false);
    forall path | Lists(here, path) ensures !Lists(deeper, path) {
      PlainAreListed(mounts, mount, at, Leaves(dir), path);
      WantedInLists(mounts, mount, at, Leaves(dir), path);
      WantedAreListed(mounts, mount, below, path);
      VisitsOfList(mounts, mount, dir, Subdirs(dir), at, path);
    }
    DistinctConcat(here, deeper);
  }

  lemma {:induction false} VisitsOfDistinct(mounts: seq<Mount>, mount: Mount, parent: Dir, subs: seq<Entry>,
      at: ContainerPath)
    requires WellFormed(parent) && UniqueNames(subs)
    requires forall e :: e in subs ==> e.Subdir? && e in parent.entries
    ensures DistinctPaths(Wanted(mounts, mount, VisitsOf(parent, subs, at), false))
    decreases parent, |subs|
  {
    if subs != [] {
      var sub := subs[0];
      assert sub in parent.entries;
      var here, rest := Visits(sub.dir, at + [sub.name]), VisitsOf(parent, subs[1..], at);
      VisitsDistinct(mounts, mount, sub.dir, at + [sub.name]);
      VisitsOfDistinct(mounts, mount, parent, subs[1..], at);
      WantedConcat(mounts, mount, here, rest, false);
      forall path | Lists(Wanted(mounts, mount, here, false), path)
        ensures !Lists(Wanted(mounts, mount, rest, false), path)
      {
        WantedAreListed(mounts, mount, here, path);
        WantedAreListed(mounts, mount, rest, path);
        VisitsList(mounts, mount, sub.dir, at + [sub.name], path);
        VisitsOfList(mounts, mount, parent, subs[1..], at, path);
        assert path[|at|] == sub.name;
      }
      DistinctConcat(Wanted(mounts, mount, here, false), Wanted(mounts, mount, rest, false));
    }
  }

  // ---- A whole walk -----------------------------------------------------------------------------------

  /** Whatever stopped it, a walk returns distinct files that the lookup gives to this mount. */
  lemma WalkedIsSound(mounts: seq<Mount>, mount: Mount, dir: Dir, start: ContainerPath, p: Progress)
    requires WellFormed(dir)
    ensures var q := Walked(mounts, mount, dir, start, p);
      && DistinctPaths(q.found)
      && (forall l :: l in q.found ==> l == Locate(mounts, l.path) && l.mount == Some(mount))
      && p.notes <= q.notes
  {
    hide Wanted, Visits, TakeDirs, WellFormed, Locate;
    if !p.counters.exhausted && p.counters.files <= MAX_PROVIDER_FILES {
      var k := TakeDirsTakes(mounts, mount, Visits(dir, start), p.(found := []));
      VisitsDistinct(mounts, mount, dir, start);
      WantedAreLocated(mounts, mount, Visits(dir, start), false);
      var wanted := Wanted(mounts, mount, Visits(dir, start), false);
      assert wanted[..k] <= wanted;
      assert forall l :: l in wanted[..k] ==> l in wanted;
    }
  }

  lemma {:induction false} LeavesAreLocated(mounts: seq<Mount>, mount: Mount, at: ContainerPath,
      leaves: seq<Entry>, all: bool)
    ensures forall l :: l in WantedIn(mounts, mount, at, leaves, all) ==>
      l == Locate(mounts, l.path) && l.mount == Some(mount)
    decreases |leaves|
  {
    if leaves != [] {
      LeavesAreLocated(mounts, mount, at, leaves[1..], all);
    }
  }

  lemma {:induction false} WantedAreLocated(mounts: seq<Mount>, mount: Mount, visits: seq<Visit>, all: bool)
    ensures forall l :: l in Wanted(mounts, mount, visits, all) ==>
      l == Locate(mounts, l.path) && l.mount == Some(mount)
    decreases |visits|
  {
    if visits != [] {
      WantedAreLocated(mounts, mount, visits[1..], all);
      LeavesAreLocated(mounts, mount, visits[0].at, Leaves(visits[0].dir), all);
    }
  }

  /**
   A walk that adds no note either found every file of its tree that the lookup gives to this
   mount, or stopped because more files are known than are read.
   */
  lemma WalkedIsComplete(mounts: seq<Mount>, mount: Mount, dir: Dir, start: ContainerPath, p: Progress)
    requires !p.counters.exhausted && Walked(mounts, mount, dir, start, p).notes == p.notes
    ensures var q := Walked(mounts, mount, dir, start, p);
      && !q.counters.exhausted
      && (p.counters.files + |q.found| > MAX_PROVIDER_FILES
          || forall path :: Lists(q.found, path) <==>
               start < path && TreeHas(dir, path[|start|..]) && Belongs(mounts, mount, path))
  {
    if p.counters.files <= MAX_PROVIDER_FILES {
      var visits, p0 := Visits(dir, start), p.(found := []);
      var k := TakeDirsTakes(mounts, mount, visits, p0);
      var (q, ending) := TakeDirs(mounts, mount, visits, p0);
      if ending.Finished? {
        DirsWithoutNote(mounts, mount, visits, p0);
        var wanted := Wanted(mounts, mount, visits, true);
        assert wanted[..k] == wanted;
        assert q.found == wanted;
        forall path ensures Lists(q.found, path) <==>
          start < path && TreeHas(dir, path[|start|..]) && Belongs(mounts, mount, path)
        {
          VisitsList(mounts, mount, dir, start, path);
        }
      }
    }
  }
}
