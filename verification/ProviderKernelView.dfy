/** The listing of a directory provider against what the container has, as the kernel looks paths up. */
module ProviderKernelView {
  import opened Options
  import opened Sorting
  import opened TextOrder
  import opened Mounts
  import opened ProviderWalk
  import opened ProviderWalkFacts
  import opened ProviderListing
  import opened ProviderExactness

  /** The same with the kernel's mount lookup: the files the container really has there. */
  ghost predicate InKernelView(mounts: seq<Mount>, directory: ContainerPath, host: Host,
      elsewhere: (Mount, ContainerPath) -> bool, path: ContainerPath)
  {
    && directory < path && Dynamic(path)
    && KernelMount(mounts, path).Some?
    && FileOf(KernelMount(mounts, path).value, directory, host, elsewhere, path)
  }

  /** A config is in the way of a file that the mount around it, not itself behind a config, holds. */
  ghost predicate ShownThroughConfig(mounts: seq<Mount>, directory: ContainerPath, host: Host,
      elsewhere: (Mount, ContainerPath) -> bool, path: ContainerPath)
  {
    && UnderConfig(mounts, path) && InView(mounts, directory, host, elsewhere, path)
    && !BehindConfig(mounts, directory, Owner(mounts, path).value)
  }

  /** With no config in effect above the path, nothing is behind a config. */
  lemma NotBehindConfig(mounts: seq<Mount>, directory: ContainerPath, path: ContainerPath)
    requires DistinctTargets(mounts) && Proper(path) && directory < path
    requires Owner(mounts, path).Some? && !UnderConfig(mounts, path)
    ensures !BehindConfig(mounts, directory, Owner(mounts, path).value)
  {
    LocateIsKernelLookupIff(mounts, path);
    KernelMountIsDeepest(mounts, path);
    var at := Owner(mounts, directory);
    if at.Some? && at.value.kind.Config? {
      assert Proper(directory) by {
        assert forall i :: 0 <= i < |directory| ==> directory[i] == path[i];
      }
      OwnerIsDeepest(mounts, directory);
      OwnerIsDeepest(mounts, path);
      assert at.value.target == directory;
      if Owner(mounts, path).value.target <= directory {
        OwnerIffDeepest(mounts, directory, at.value);
        SameTargetSameMount(mounts, at.value, Owner(mounts, path).value);
      }
    } else {
      NothingBehindConfig(mounts, directory, path);
    }
  }

  lemma SameTargetSameMount(mounts: seq<Mount>, a: Mount, b: Mount)
    requires DistinctTargets(mounts) && a in mounts && b in mounts
    ensures a.target == b.target ==> a == b
  {
    var i :| 0 <= i < |mounts| && mounts[i] == a;
    var k :| 0 <= k < |mounts| && mounts[k] == b;
  }

  /**
   For every path, a listing without a note agrees with the container, as the kernel sees it, if
   and only if no config is in the way of a file that the listing shows through it.
   */
  lemma ListedIsThereIff(mounts: seq<Mount>, directory: ContainerPath, host: Host,
      elsewhere: (Mount, ContainerPath) -> bool, path: ContainerPath)
    requires Setting(mounts, directory, host) && Proper(path)
    requires ListedNotes(mounts, directory, host) == []
    ensures (Lists(ListedFiles(mounts, directory, host), path)
             <==> InKernelView(mounts, directory, host, elsewhere, path))
      <==> !ShownThroughConfig(mounts, directory, host, elsewhere, path)
  {
    ListingIsExact(mounts, directory, host, elsewhere, path);
    LocateIsKernelLookupIff(mounts, path);
    hide Gathered, WellFormed, Render, Dynamic, TreeHas, Less, Sorted;
    hide ListedFiles, ListedNotes;
    if InView(mounts, directory, host, elsewhere, path) {
      if !UnderConfig(mounts, path) {
        NotBehindConfig(mounts, directory, path);
      }
    }
  }

  /** So the whole listing is what the container has if and only if no mount shows a file through a config. */
  lemma ListingIsKernelViewIff(mounts: seq<Mount>, directory: ContainerPath, host: Host,
      elsewhere: (Mount, ContainerPath) -> bool)
    requires Setting(mounts, directory, host) && ListedNotes(mounts, directory, host) == []
    ensures
      (forall path: ContainerPath :: Proper(path) ==>
         (Lists(ListedFiles(mounts, directory, host), path)
          <==> InKernelView(mounts, directory, host, elsewhere, path)))
      <==>
      (forall path: ContainerPath :: Proper(path) ==>
         !ShownThroughConfig(mounts, directory, host, elsewhere, path))
  {
    hide ListedFiles, ListedNotes, Setting, InKernelView, ShownThroughConfig;
    forall path: ContainerPath | Proper(path)
      ensures (Lists(ListedFiles(mounts, directory, host), path)
               <==> InKernelView(mounts, directory, host, elsewhere, path))
        <==> !ShownThroughConfig(mounts, directory, host, elsewhere, path)
    {
      ListedIsThereIff(mounts, directory, host, elsewhere, path);
    }
  }

  // ---- The case that fails ----------------------------------------------------------------------------

  const SUB: Dir := Dir(true, [Leaf("x.yml", true)])
  const TOP: Dir := Dir(true, [Subdir("sub", false, SUB)])

  lemma NamesHere()
    ensures DynamicName("x.yml") && !DynamicName("sub")
    ensures ProperName("dyn") && ProperName("sub") && ProperName("x.yml")
  {
    assert Extension("x.yml") == Extension(".yml") == ".yml" by {
      assert "x.yml"[1..] == ".yml" && ".yml"[1..] == "yml";
    }
    assert Lower(".yml") == ".yml";
    assert Extension("sub") == "" by {
      assert "sub"[1..] == "ub" && "ub"[1..] == "b" && "b"[1..] == "";
    }
  }

  /** What a directory with one entry comes to. */
  lemma OneEntry(e: Entry)
    ensures Sorted(ByName(), [e]) == [e] && Sorted(ByName(), []) == []
    ensures Descended([e]) == if e.Subdir? && !e.linked then [e] else []
    ensures LeavesIn([e]) == if e.Leaf? then [e] else []
  {
    assert [e][1..] == [];
    assert Insert(ByName(), e, []) == [e];
  }

  lemma VisitsHere()
    ensures Visits(TOP, ["dyn"]) == [Visit(["dyn"], TOP), Visit(["dyn", "sub"], SUB)]
    ensures Leaves(TOP) == [] && Leaves(SUB) == [Leaf("x.yml", true)]
  {
    var top, leaf := Subdir("sub", false, SUB), Leaf("x.yml", true);
    OneEntry(top);
    OneEntry(leaf);
    hide Sorted, Descended, LeavesIn;
    assert Subdirs(TOP) == [top] && Subdirs(SUB) == [] && [top][1..] == [];
    assert ["dyn"] + ["sub"] == ["dyn", "sub"];
    assert Visits(SUB, ["dyn", "sub"]) == [Visit(["dyn", "sub"], SUB)];
    assert VisitsOf(TOP, [top], ["dyn"]) == Visits(SUB, ["dyn", "sub"]) + VisitsOf(TOP, [], ["dyn"]);
  }

  /**
   A bind at `/dyn` shows `/dyn/sub/x.yml`; in the container a config is mounted at `/dyn/sub`.
   The listing has no note and lists the file, which the kernel does not find.
   */
  lemma ListsThroughConfig(root: Mount, file: Mount, host: Host, elsewhere: (Mount, ContainerPath) -> bool)
    requires root.kind == Bind && root.target == ["dyn"] && file.kind == Config && file.target == ["dyn", "sub"]
    requires host.here && host.tree(root, ["dyn"]) == TOP
    ensures var mounts, path := [root, file], ["dyn", "sub", "x.yml"];
      && ListedNotes(mounts, ["dyn"], host) == [] && Lists(ListedFiles(mounts, ["dyn"], host), path)
      && !InKernelView(mounts, ["dyn"], host, elsewhere, path)
  {
    var mounts, path := [root, file], ["dyn", "sub", "x.yml"];
    NamesHere();
    VisitsHere();
    LookupsHere(root, file);
    WalkedHere(mounts, root);
    GatheredHere(root, file, host);
    SingleListed(mounts, ["dyn"], host, Locate(mounts, path));
    hide Gathered, DynamicName, Owner, KernelMount, Walked, ListedFiles, ListedNotes;
    assert FirstNote(mounts, ["dyn"]) == [];
  }

  lemma SingleListed(mounts: seq<Mount>, directory: ContainerPath, host: Host, l: Located)
    requires Gathered(mounts, directory, host, |mounts|).found == [l]
    ensures Lists(ListedFiles(mounts, directory, host), l.path)
    ensures ListedNotes(mounts, directory, host)
      == FirstNote(mounts, directory) + Gathered(mounts, directory, host, |mounts|).notes
  {
    hide Gathered, FirstNote, Render, Less;
    assert Texts([l]) == [Render(l.path)] && Sorted(Less, [Render(l.path)]) == [Render(l.path)];
    assert InPathOrder([l]) == [l];
    assert ListedFiles(mounts, directory, host)[0] == l;
  }

  lemma GatheredHere(root: Mount, file: Mount, host: Host)
    requires root.kind == Bind && root.target == ["dyn"] && file.kind == Config && file.target == ["dyn", "sub"]
    requires host.here && host.tree(root, ["dyn"]) == TOP
    ensures Gathered([root, file], ["dyn"], host, 2)
      == Progress(Counters(1, 2, false), [], [Locate([root, file], ["dyn", "sub", "x.yml"])])
  {
    var mounts := [root, file];
    var p, l := Progress(Counters(0, 0, false), [], []), Locate(mounts, ["dyn", "sub", "x.yml"]);
    NamesHere();
    LookupsHere(root, file);
    WalkedHere(mounts, root);
    hide Walked, DynamicName, Owner;
    assert FromMount(mounts, root, ["dyn"], host, p) == Progress(Counters(1, 2, false), [], [l]);
    assert FromMount(mounts, file, ["dyn"], host, Progress(Counters(1, 2, false), [], []))
      == Progress(Counters(1, 2, false), [], []);
    hide FromMount, Locate;
    assert Merge([], [l]) == [l] by {
      assert [l][1..] == [] && [] + [l] == [l];
      assert !Lists([], l.path);
    }
    assert Gathered(mounts, ["dyn"], host, 0) == p;
    assert Gathered(mounts, ["dyn"], host, 1) == Progress(Counters(1, 2, false), [], [l]);
  }

  lemma LookupsHere(root: Mount, file: Mount)
    requires root.kind == Bind && root.target == ["dyn"] && file.kind == Config && file.target == ["dyn", "sub"]
    ensures var mounts := [root, file];
      && Owner(mounts, ["dyn"]) == Some(root) && Owner(mounts, ["dyn", "sub", "x.yml"]) == Some(root)
      && KernelMount(mounts, ["dyn", "sub", "x.yml"]) == Some(file)
  {
    var mounts, path := [root, file], ["dyn", "sub", "x.yml"];
    assert mounts[..1] == [root] && [root][..0] == [];
    assert Owner([root], ["dyn"]) == Some(root) && Owner([root], path) == Some(root);
    KernelMountIsDeepest(mounts, path);
    assert file in mounts && file.target <= path;
  }

  lemma OneFileTaken(mounts: seq<Mount>, mount: Mount, at: ContainerPath, name: string, p: Progress)
    requires DynamicName(name) && Owner(mounts, at + [name]) == Some(mount) && p.counters.files < MAX_PROVIDER_FILES
    ensures TakeFiles(mounts, mount, at, [Leaf(name, true)], p)
      == Progress(p.counters.(files := p.counters.files + 1), p.notes, p.found + [Locate(mounts, at + [name])])
  {
    var leaf := Leaf(name, true);
    hide DynamicName, Owner;
    assert [leaf][1..] == [];
    assert TakeFiles(mounts, mount, at, [leaf], p)
      == TakeFiles(mounts, mount, at, [], TakeFile(mounts, mount, at, leaf, p));
  }

  lemma TwoDirsTaken(mounts: seq<Mount>, mount: Mount, first: Visit, second: Visit, p: Progress, q: Progress,
      r: Progress)
    requires TakeDir(mounts, mount, first, p) == (q, Finished) && TakeDir(mounts, mount, second, q) == (r, Finished)
    ensures TakeDirs(mounts, mount, [first, second], p) == (r, Finished)
  {
    hide TakeDir;
    assert [first, second][1..] == [second] && [second][1..] == [];
    assert TakeDirs(mounts, mount, [], r) == (r, Finished);
    assert TakeDirs(mounts, mount, [second], q) == (r, Finished);
  }

  lemma WalkedHere(mounts: seq<Mount>, root: Mount)
    requires Owner(mounts, ["dyn", "sub", "x.yml"]) == Some(root)
    ensures Walked(mounts, root, TOP, ["dyn"], Progress(Counters(0, 0, false), [], []))
      == Progress(Counters(1, 2, false), [], [Locate(mounts, ["dyn", "sub", "x.yml"])])
  {
    NamesHere();
    VisitsHere();
    var p, l := Progress(Counters(0, 0, false), [], []), Locate(mounts, ["dyn", "sub", "x.yml"]);
    var first, second := Visit(["dyn"], TOP), Visit(["dyn", "sub"], SUB);
    assert ["dyn", "sub"] + ["x.yml"] == ["dyn", "sub", "x.yml"];
    var q, taken := p.(counters := Counters(0, 1, false)), p.(counters := Counters(0, 2, false));
    OneFileTaken(mounts, root, ["dyn", "sub"], "x.yml", taken);
    hide DynamicName, Visits, Leaves, Owner, TakeDirs, Locate;
    var r := Progress(Counters(1, 2, false), [], [l]);
    assert TakeDir(mounts, root, first, p) == (q, Finished) by {
      assert TakeFiles(mounts, root, ["dyn"], [], q) == q;
    }
    hide TakeFiles;
    assert [] + [l] == [l];
    assert TakeDir(mounts, root, second, q) == (r, Finished);
    hide TakeDir;
    TwoDirsTaken(mounts, root, first, second, p, q, r);
  }
}
