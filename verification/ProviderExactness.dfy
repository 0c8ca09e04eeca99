/** What the listing says about the mount-table view of the container. */
module ProviderExactness {
  import opened Options
  import opened Sorting
  import opened TextOrder
  import opened Mounts
  import opened ProviderWalk
  import opened ProviderWalkFacts
  import opened ProviderListing

  /** Well-formed input: normalized paths, and directories that name each entry once. */
  ghost predicate Normal(mounts: seq<Mount>, directory: ContainerPath, host: Host) {
    && (forall m :: m in mounts ==> Proper(m.target))
    && Proper(directory)
    && (forall m: Mount, base: ContainerPath :: WellFormed(host.tree(m, base)))
  }

  /** And no two mounts with one target. */
  ghost predicate Setting(mounts: seq<Mount>, directory: ContainerPath, host: Host) {
    DistinctTargets(mounts) && Normal(mounts, directory, host)
  }

  // ---- The mount-table view ------------------------------------------------------------------

  /**
   Whether the mount itself has a file at the path.  A bind whose target ends in a dynamic
   extension counts as that one file; any other bind is the tree it shows from where the
   provider directory enters it.  What a volume or another mount holds is known to the
   container only: `elsewhere` says it, and may say anything.
   */
  ghost predicate FileOf(mount: Mount, directory: ContainerPath, host: Host,
      elsewhere: (Mount, ContainerPath) -> bool, path: ContainerPath)
  {
    match mount.kind
    case Config => path == mount.target
    case Bind =>
      if Inside(directory, mount.target) then
        if Dynamic(mount.target) then path == mount.target
        else host.stat(mount).IsDirectory? && mount.target < path
             && TreeHas(host.tree(mount, mount.target), path[|mount.target|..])
      else directory < path && TreeHas(host.tree(mount, directory), path[|directory|..])
    case _ => elsewhere(mount, path)
  }

  /** A dynamic-extension file below the directory, on the mount that owns its path. */
  ghost predicate InView(mounts: seq<Mount>, directory: ContainerPath, host: Host,
      elsewhere: (Mount, ContainerPath) -> bool, path: ContainerPath)
  {
    && directory < path && Dynamic(path)
    && Owner(mounts, path).Some?
    && FileOf(Owner(mounts, path).value, directory, host, elsewhere, path)
  }

  /** The mount reaches below the directory only around a config that is the directory itself. */
  ghost predicate BehindConfig(mounts: seq<Mount>, directory: ContainerPath, mount: Mount) {
    mount.target <= directory && Owner(mounts, directory) != Some(mount)
  }

  /** The part of the view that a bind or config mount is responsible for. */
  ghost predicate Contributes(mounts: seq<Mount>, mount: Mount, directory: ContainerPath, host: Host,
      path: ContainerPath)
  {
    && directory < path && Belongs(mounts, mount, path)
    && (mount.kind.Bind? || mount.kind.Config?)
    && FileOf(mount, directory, host, (_, _) => false, path)
    && !BehindConfig(mounts, directory, mount)
  }

  // ---- One mount -----------------------------------------------------------------------------

  lemma OwnTarget(mounts: seq<Mount>, mount: Mount)
    requires DistinctTargets(mounts) && mount in mounts && Proper(mount.target)
    ensures Owner(mounts, mount.target) == Some(mount)
  {
    OwnerIffDeepest(mounts, mount.target, mount);
  }

  ghost predicate SoundFor(mounts: seq<Mount>, mount: Mount, directory: ContainerPath, found: seq<Located>) {
    && DistinctPaths(found)
    && forall l :: l in found ==>
         l == Locate(mounts, l.path) && l.mount == Some(mount) && Proper(l.path) && directory < l.path
  }

  lemma {:induction false} TreeHasProper(dir: Dir, relative: seq<string>)
    requires WellFormed(dir) && TreeHas(dir, relative)
    ensures forall i :: 0 <= i < |relative| ==> Mounts.ProperName(relative[i])
    decreases |relative|
  {
    var e :| e in dir.entries && e.name == relative[0] && EntryHas(e, relative);
    if |relative| > 1 {
      TreeHasProper(e.dir, relative[1..]);
      forall i | 0 <= i < |relative| ensures Mounts.ProperName(relative[i]) {
        if i > 0 {
          assert relative[i] == relative[1..][i - 1];
        }
      }
    }
  }

  lemma WalkSoundFor(mounts: seq<Mount>, mount: Mount, dir: Dir, start: ContainerPath, directory: ContainerPath,
      p: Progress)
    requires WellFormed(dir) && Proper(start) && directory <= start
    ensures SoundFor(mounts, mount, directory, Walked(mounts, mount, dir, start, p).found)
  {
    WalkedIsSound(mounts, mount, dir, start, p);
    var found := Walked(mounts, mount, dir, start, p).found;
    forall l | l in found ensures Proper(l.path) && directory < l.path {
      var i :| 0 <= i < |found| && found[i] == l;
      assert Lists(found, l.path);
      WalkedWithinTree(mounts, mount, dir, start, p, l.path);
      TreeHasProper(dir, l.path[|start|..]);
      assert l.path == start + l.path[|start|..];
    }
  }

  lemma WalkedWithinTree(mounts: seq<Mount>, mount: Mount, dir: Dir, start: ContainerPath, p: Progress,
      path: ContainerPath)
    requires Lists(Walked(mounts, mount, dir, start, p).found, path)
    ensures start < path && TreeHas(dir, path[|start|..]) && Belongs(mounts, mount, path)
  {
    var visits, p0 := Visits(dir, start), p.(found := []);
    var k := TakeDirsTakes(mounts, mount, visits, p0);
    var wanted := Wanted(mounts, mount, visits, false);
    var i :| 0 <= i < |wanted[..k]| && wanted[..k][i].path == path;
    assert wanted[i].path == path;
    WantedAreListed(mounts, mount, visits, path);
    VisitsList(mounts, mount, dir, start, path);
  }

  /** What one mount adds is its own, and stays within the entry budget. */
  lemma MountIsSound(mounts: seq<Mount>, mount: Mount, directory: ContainerPath, host: Host, p: Progress)
    requires Setting(mounts, directory, host) && mount in mounts && WithinBudget(p.counters)
    ensures var q := FromMount(mounts, mount, directory, host, p);
      SoundFor(mounts, mount, directory, q.found) && p.notes <= q.notes && WithinBudget(q.counters)
  {
    hide Walked, WellFormed, Owner, Dynamic, Render, TreeHas;
    OwnTarget(mounts, mount);
    var inside := Inside(directory, mount.target);
    var start := if inside then mount.target else directory;
    var dir := host.tree(mount, start);
    assert WellFormed(dir);
    assert inside ==> directory < mount.target;
    WalkSoundFor(mounts, mount, dir, start, directory, p);
    WalkedIsSound(mounts, mount, dir, start, p);
    WalkedWithinBudget(mounts, mount, dir, start, p);
  }

  /** Without a new note, one mount adds exactly its part of the view, or more than is read. */
  lemma MountIsComplete(mounts: seq<Mount>, mount: Mount, directory: ContainerPath, host: Host, p: Progress)
    requires Setting(mounts, directory, host) && mount in mounts
    requires !p.counters.exhausted && FromMount(mounts, mount, directory, host, p).notes == p.notes
    ensures var q := FromMount(mounts, mount, directory, host, p);
      && !q.counters.exhausted
      && (!mount.kind.Bind? && !mount.kind.Config? ==> !Inside(directory, mount.target))
      && (p.counters.files + |q.found| > MAX_PROVIDER_FILES
          || forall path :: Lists(q.found, path) <==> Contributes(mounts, mount, directory, host, path))
  {
    hide Walked, WellFormed, Owner, Dynamic, Render, TreeHas;
    var q := FromMount(mounts, mount, directory, host, p);
    if mount.kind.Bind? && WalkedMount(mounts, mount, directory, host) {
      var start := if Inside(directory, mount.target) then mount.target else directory;
      WalkedIsComplete(mounts, mount, host.tree(mount, start), start, p);
      assert Inside(directory, mount.target) <==> directory < mount.target;
    } else {
      forall path ensures Lists(q.found, path) <==> Contributes(mounts, mount, directory, host, path) {
        OneFileOrNone(mounts, mount, directory, host, p, path);
      }
    }
  }

  /** The bind mount's tree is walked. */
  predicate WalkedMount(mounts: seq<Mount>, mount: Mount, directory: ContainerPath, host: Host) {
    if Inside(directory, mount.target)
    then !Dynamic(mount.target) && host.here && host.stat(mount).IsDirectory?
    else Covers(mount.target, directory) && Owner(mounts, directory) == Some(mount) && host.here
  }

  lemma OneFileOrNone(mounts: seq<Mount>, mount: Mount, directory: ContainerPath, host: Host, p: Progress,
      path: ContainerPath)
    requires Setting(mounts, directory, host) && mount in mounts
    requires !(mount.kind.Bind? && WalkedMount(mounts, mount, directory, host))
    requires FromMount(mounts, mount, directory, host, p).notes == p.notes
    ensures Lists(FromMount(mounts, mount, directory, host, p).found, path)
         <==> Contributes(mounts, mount, directory, host, path)
  {
    hide Walked, WellFormed, Owner, Dynamic, Render, TreeHas;
    OwnTarget(mounts, mount);
    var q := FromMount(mounts, mount, directory, host, p);
    assert Inside(directory, mount.target) <==> directory < mount.target;
    if Owner(mounts, path) == Some(mount) && directory < path {
      OwnerMatches(mounts, path);
      assert mount.target <= path;
      assert mount.target <= directory || directory < mount.target;
    }
    if q.found != [] {
      assert q.found[0].path == mount.target;
    }
  }

  lemma {:induction false} OwnerMatches(mounts: seq<Mount>, path: ContainerPath)
    ensures var owner := Owner(mounts, path); owner.Some? ==> Matches(owner.value, path)
  {
    if mounts != [] {
      OwnerMatches(mounts[..|mounts| - 1], path);
    }
  }

  // ---- All mounts ------------------------------------------------------------------------------

  lemma {:induction false} MergeDisjoint(found: seq<Located>, more: seq<Located>)
    requires DistinctPaths(more)
    requires forall path :: Lists(found, path) ==> !Lists(more, path)
    ensures Merge(found, more) == found + more
    decreases |more|
  {
    if more == [] {
      assert found + more == found;
    } else {
      assert Lists(more, more[0].path);
      RestStaysApart(found, more);
      hide Lists, DistinctPaths;
      MergeDisjoint(found + [more[0]], more[1..]);
      assert found + [more[0]] + more[1..] == found + more;
    }
  }

  lemma RestStaysApart(found: seq<Located>, more: seq<Located>)
    requires more != [] && DistinctPaths(more)
    requires forall path :: Lists(found, path) ==> !Lists(more, path)
    ensures DistinctPaths(more[1..])
    ensures forall path :: Lists(found + [more[0]], path) ==> !Lists(more[1..], path)
  {
    forall path | Lists(found + [more[0]], path) ensures !Lists(more[1..], path) {
      ListsConcat(found, [more[0]], path);
      ListsConcat([more[0]], more[1..], path);
      assert more == [more[0]] + more[1..];
    }
  }

  ghost predicate OwnedBy(mounts: seq<Mount>, owners: seq<Mount>, directory: ContainerPath, found: seq<Located>) {
    && DistinctPaths(found)
    && forall l :: l in found ==>
         && l == Locate(mounts, l.path) && Proper(l.path) && directory < l.path
         && l.mount.Some? && l.mount.value in owners
  }

  lemma MergedOwned(mounts: seq<Mount>, k: nat, directory: ContainerPath, found: seq<Located>, more: seq<Located>)
    requires k < |mounts| && DistinctTargets(mounts)
    requires OwnedBy(mounts, mounts[..k], directory, found) && SoundFor(mounts, mounts[k], directory, more)
    ensures Merge(found, more) == found + more
    ensures OwnedBy(mounts, mounts[..k + 1], directory, found + more)
  {
    forall path | Lists(found, path) ensures !Lists(more, path) {
      var i :| 0 <= i < |found| && found[i].path == path;
      var owner := found[i].mount.value;
      assert owner in mounts[..k] && Owner(mounts, path) == Some(owner);
      var n :| 0 <= n < k && mounts[n] == owner;
      assert owner.target != mounts[k].target;
      assert forall j :: 0 <= j < |more| ==> more[j] in more && Owner(mounts, more[j].path) == Some(mounts[k]);
    }
    MergeDisjoint(found, more);
    DistinctConcat(found, more);
    assert forall m :: m in mounts[..k + 1] <==> m in mounts[..k] || m == mounts[k];
  }

  ghost predicate SomeContributes(mounts: seq<Mount>, owners: seq<Mount>, directory: ContainerPath, host: Host,
      path: ContainerPath)
  {
    exists m :: m in owners && Contributes(mounts, m, directory, host, path)
  }

  /** Nothing noted so far: everything so far is found, or more than is read. */
  ghost predicate CompleteSoFar(mounts: seq<Mount>, directory: ContainerPath, host: Host, k: nat, g: Progress)
    requires k <= |mounts|
  {
    && !g.counters.exhausted
    && (forall m :: m in mounts[..k] && !m.kind.Bind? && !m.kind.Config? ==> !Inside(directory, m.target))
    && (|g.found| > MAX_PROVIDER_FILES
        || forall path :: Lists(g.found, path) <==> SomeContributes(mounts, mounts[..k], directory, host, path))
  }

  lemma {:induction false} GatheredSoFar(mounts: seq<Mount>, directory: ContainerPath, host: Host, k: nat)
    requires Setting(mounts, directory, host) && k <= |mounts|
    ensures var g := Gathered(mounts, directory, host, k);
      && OwnedBy(mounts, mounts[..k], directory, g.found)
      && WithinBudget(g.counters)
      && (g.notes == [] ==> CompleteSoFar(mounts, directory, host, k, g))
    decreases k
  {
    if k == 0 {
      NothingGathered(mounts, directory, host);
    } else {
      GatheredSoFar(mounts, directory, host, k - 1);
      hide Gathered, OwnedBy, CompleteSoFar, Setting;
      OneMoreMount(mounts, directory, host, k);
    }
  }

  lemma NothingGathered(mounts: seq<Mount>, directory: ContainerPath, host: Host)
    ensures var g := Gathered(mounts, directory, host, 0);
      && OwnedBy(mounts, mounts[..0], directory, g.found)
      && WithinBudget(g.counters)
      && CompleteSoFar(mounts, directory, host, 0, g)
  {
  }

  lemma OneMoreMount(mounts: seq<Mount>, directory: ContainerPath, host: Host, k: nat)
    requires Setting(mounts, directory, host) && 0 < k <= |mounts|
    requires var g := Gathered(mounts, directory, host, k - 1);
      && OwnedBy(mounts, mounts[..k - 1], directory, g.found)
      && WithinBudget(g.counters)
      && (g.notes == [] ==> CompleteSoFar(mounts, directory, host, k - 1, g))
    ensures var g := Gathered(mounts, directory, host, k);
      && OwnedBy(mounts, mounts[..k], directory, g.found)
      && WithinBudget(g.counters)
      && (g.notes == [] ==> CompleteSoFar(mounts, directory, host, k, g))
  {
    hide Walked, WellFormed, Owner, Dynamic, Render, TreeHas;
    var g := Gathered(mounts, directory, host, k - 1);
    var mount := mounts[k - 1];
    var p := g.(counters := g.counters.(files := |g.found|), found := []);
    var q := FromMount(mounts, mount, directory, host, p);
    MountIsSound(mounts, mount, directory, host, p);
    MergedOwned(mounts, k - 1, directory, g.found, q.found);
    assert mounts[..k] == mounts[..k - 1] + [mount];
    if q.notes == [] {
      MountIsComplete(mounts, mount, directory, host, p);
      if |g.found| + |q.found| <= MAX_PROVIDER_FILES {
        forall path
          ensures Lists(g.found + q.found, path) <==> SomeContributes(mounts, mounts[..k], directory, host, path)
        {
          ListsConcat(g.found, q.found, path);
          OneMoreContributes(mounts, mounts[..k - 1], mount, directory, host, path);
        }
      }
    }
  }

  lemma OneMoreContributes(mounts: seq<Mount>, owners: seq<Mount>, mount: Mount, directory: ContainerPath,
      host: Host, path: ContainerPath)
    ensures SomeContributes(mounts, owners + [mount], directory, host, path) <==>
      SomeContributes(mounts, owners, directory, host, path) || Contributes(mounts, mount, directory, host, path)
  {
    assert forall m :: m in owners + [mount] <==> m in owners || m == mount;
  }

  // ---- The order of the listing -----------------------------------------------------------------

  ghost predicate StrictlyOrdered(files: seq<Located>) {
    forall i, k :: 0 <= i < k < |files| ==> Less(Render(files[i].path), Render(files[k].path))
  }

  lemma {:induction false} WithTextIsThere(found: seq<Located>, text: string)
    requires text in Texts(found)
    ensures WithText(found, text) in found && Render(WithText(found, text).path) == text
    decreases |found|
  {
    if Render(found[0].path) != text {
      assert exists i :: 0 < i < |found| && Texts(found[1..])[i - 1] == Texts(found)[i] == text;
      WithTextIsThere(found[1..], text);
    }
  }

  lemma PathOrderKeeps(found: seq<Located>)
    requires DistinctPaths(found) && forall l :: l in found ==> Proper(l.path)
    ensures var files := InPathOrder(found);
      && |files| == |found| && StrictlyOrdered(files)
      && (forall l :: l in files ==> l in found)
      && (forall l :: l in found ==> l in files)
  {
    hide Less, Sorted, Render, Slashed, WithText, Locate;
    var texts := Sorted(Less, Texts(found));
    var files := InPathOrder(found);
    MembersByMultiset(Texts(found), texts);
    LessIsStrictTotal();
    SortedAscends(Less, Texts(found));
    assert Distinct(Texts(found)) by {
      forall i, k | 0 <= i < k < |found| ensures Texts(found)[i] != Texts(found)[k] {
        assert found[i] in found && found[k] in found;
        if Render(found[i].path) == Render(found[k].path) {
          RenderInjective(found[i].path, found[k].path);
        }
      }
    }
    DistinctPermutes(Texts(found), texts);
    forall i | 0 <= i < |texts| ensures files[i] in found && Render(files[i].path) == texts[i] {
      assert texts[i] in texts;
      WithTextIsThere(found, texts[i]);
    }
    forall l | l in found ensures l in files {
      var n :| 0 <= n < |found| && found[n] == l;
      assert Texts(found)[n] in texts;
      var i :| 0 <= i < |texts| && texts[i] == Texts(found)[n];
      assert files[i] in found;
      RenderInjective(files[i].path, l.path);
      var j :| 0 <= j < |found| && found[j] == files[i];
      assert j == n;
    }
  }

  // ---- The theorems -------------------------------------------------------------------------------

  /** A dynamic-extension file below the directory, as the lookup answers for its own path. */
  ghost predicate FileBelow(mounts: seq<Mount>, directory: ContainerPath, l: Located) {
    l == Locate(mounts, l.path) && l.mount.Some? && Proper(l.path) && directory < l.path && Dynamic(l.path)
  }

  /** Whatever its mount's target, one mount adds only such files. */
  lemma MountAddsFilesBelow(mounts: seq<Mount>, mount: Mount, directory: ContainerPath, host: Host, p: Progress)
    requires Normal(mounts, directory, host) && mount in mounts && WithinBudget(p.counters)
    ensures var q := FromMount(mounts, mount, directory, host, p);
      WithinBudget(q.counters) && forall l :: l in q.found ==> FileBelow(mounts, directory, l)
  {
    hide Walked, WellFormed, Owner, Dynamic, Render, TreeHas;
    var inside := Inside(directory, mount.target);
    var start := if inside then mount.target else directory;
    var dir := host.tree(mount, start);
    assert WellFormed(dir);
    assert inside ==> directory < mount.target;
    OwnerIsDeepest(mounts, mount.target);
    assert Matches(mount, mount.target);
    WalkedWithinBudget(mounts, mount, dir, start, p);
    WalkSoundFor(mounts, mount, dir, start, directory, p);
    var walked := Walked(mounts, mount, dir, start, p).found;
    forall l | l in walked ensures FileBelow(mounts, directory, l) {
      assert Lists(walked, l.path);
      WalkedWithinTree(mounts, mount, dir, start, p, l.path);
    }
  }

  lemma {:induction false} MergeKeeps(found: seq<Located>, more: seq<Located>)
    requires DistinctPaths(found)
    ensures DistinctPaths(Merge(found, more))
    ensures forall l :: l in Merge(found, more) ==> l in found || l in more
    decreases |more|
  {
    if more != [] {
      if !Lists(found, more[0].path) {
        DistinctConcat(found, [more[0]]);
        MergeKeeps(found + [more[0]], more[1..]);
      } else {
        MergeKeeps(found, more[1..]);
      }
    }
  }

  lemma {:induction false} GatheredFilesBelow(mounts: seq<Mount>, directory: ContainerPath, host: Host, k: nat)
    requires Normal(mounts, directory, host) && k <= |mounts|
    ensures var g := Gathered(mounts, directory, host, k);
      && DistinctPaths(g.found) && WithinBudget(g.counters)
      && forall l :: l in g.found ==> FileBelow(mounts, directory, l)
    decreases k
  {
    if k > 0 {
      GatheredFilesBelow(mounts, directory, host, k - 1);
      var g := Gathered(mounts, directory, host, k - 1);
      var p := g.(counters := g.counters.(files := |g.found|), found := []);
      MountAddsFilesBelow(mounts, mounts[k - 1], directory, host, p);
      MergeKeeps(g.found, FromMount(mounts, mounts[k - 1], directory, host, p).found);
      hide FromMount, FileBelow, Merge, Normal, DistinctPaths;
    }
  }

  /**
   In every case, even with two mounts at one target: at most 64 dynamic-extension files below the
   directory, strictly ordered by path, each as the lookup answers for its own path; and never
   more than one directory entry beyond the budget.
   */
  lemma ListingIsSound(mounts: seq<Mount>, directory: ContainerPath, host: Host)
    requires Normal(mounts, directory, host)
    ensures var files := ListedFiles(mounts, directory, host);
      && |files| <= MAX_PROVIDER_FILES && StrictlyOrdered(files)
      && (forall l :: l in files ==> FileBelow(mounts, directory, l))
    ensures Gathered(mounts, directory, host, |mounts|).counters.entries <= MAX_SCANNED_ENTRIES + 1
  {
    GatheredFilesBelow(mounts, directory, host, |mounts|);
    var found := Gathered(mounts, directory, host, |mounts|).found;
    assert forall l :: l in found ==> FileBelow(mounts, directory, l) && Proper(l.path);
    PathOrderKeeps(found);
    hide Gathered, FileBelow, Normal;
    var files, all := ListedFiles(mounts, directory, host), InPathOrder(found);
    assert files <= all;
    assert forall l :: l in files ==> l in all;
  }

  /**
   A listing without a note is exact, whatever the volumes hold: its files are the files of the
   view, except those a bind shows around a config that is the provider directory itself.
   */
  lemma ListingIsExact(mounts: seq<Mount>, directory: ContainerPath, host: Host,
      elsewhere: (Mount, ContainerPath) -> bool, path: ContainerPath)
    requires Setting(mounts, directory, host) && Proper(path)
    requires ListedNotes(mounts, directory, host) == []
    ensures Lists(ListedFiles(mounts, directory, host), path) <==>
      && InView(mounts, directory, host, elsewhere, path)
      && !BehindConfig(mounts, directory, Owner(mounts, path).value)
  {
    hide Gathered, WellFormed, Render, Dynamic, TreeHas, Less, Sorted;
    var g := Gathered(mounts, directory, host, |mounts|);
    GatheredSoFar(mounts, directory, host, |mounts|);
    PathOrderKeeps(g.found);
    assert mounts[..|mounts|] == mounts;
    var files := ListedFiles(mounts, directory, host);
    assert files == InPathOrder(g.found) && g.notes == [] && FirstNote(mounts, directory) == [];
    SameMembersList(files, g.found, path);
    assert Lists(files, path) <==> SomeContributes(mounts, mounts, directory, host, path);
    OwnerIsDeepest(mounts, path);
    OwnerIsDeepest(mounts, directory);
    var owner := Owner(mounts, path);
    if owner.Some? && InView(mounts, directory, host, elsewhere, path)
      && !BehindConfig(mounts, directory, owner.value) {
      var m := owner.value;
      assert m.target <= directory || directory < m.target;
      assert m.kind.Bind? || m.kind.Config?;
      assert Contributes(mounts, m, directory, host, path);
    }
  }

  lemma SameMembersList(a: seq<Located>, b: seq<Located>, path: ContainerPath)
    requires forall l :: l in a ==> l in b
    requires forall l :: l in b ==> l in a
    ensures Lists(a, path) <==> Lists(b, path)
  {
    if Lists(a, path) {
      var i :| 0 <= i < |a| && a[i].path == path;
      assert a[i] in b;
    }
    if Lists(b, path) {
      var i :| 0 <= i < |b| && b[i].path == path;
      assert b[i] in a;
    }
  }

  /** Where the provider directory is no config file, nothing is excepted. */
  lemma NothingBehindConfig(mounts: seq<Mount>, directory: ContainerPath, path: ContainerPath)
    requires DistinctTargets(mounts) && Proper(path) && directory < path
    requires Owner(mounts, path).Some?
    requires Owner(mounts, directory).Some? ==> !Owner(mounts, directory).value.kind.Config?
    ensures !BehindConfig(mounts, directory, Owner(mounts, path).value)
  {
    var m := Owner(mounts, path).value;
    OwnerIsDeepest(mounts, path);
    assert Proper(directory) by {
      assert forall i :: 0 <= i < |directory| ==> directory[i] == path[i];
    }
    OwnerIsDeepest(mounts, directory);
    if m.target <= directory {
      assert !m.kind.Config? && Matches(m, directory);
      var d := Owner(mounts, directory).value;
      assert d.target <= path && Matches(d, path);
      OwnerIffDeepest(mounts, directory, m);
    }
  }
}
