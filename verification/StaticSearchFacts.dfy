/** What the search decides, what it measures and which texts it looks at, each by itself. */
module StaticSearchFacts {
  import opened Options
  import opened Text
  import opened Lsn
  import opened Mounts
  import opened StaticSearch
  import P = PathResolver

  // ---- The decision -----------------------------------------------------------------------------

  /** Here, below a bind mount's directory, the candidate was measured so. */
  predicate MeasuredAs(text: string, mounts: seq<Mount>, node: Node, presence: Presence) {
    match Normalized(text)
    case Nowhere(_) => false
    case At(path) =>
      match Owner(mounts, path)
      case None => false
      case Some(mount) =>
        && mount.kind.Bind? && node.here && mount.target < path
        && node.measured(mount, path[|mount.target|..]) == presence
  }

  predicate OnNoMount(text: string, mounts: seq<Mount>) {
    Normalized(text).At? ==> Owner(mounts, Normalized(text).path).None?
  }

  /** A config, or a bind mount aimed exactly at the candidate. */
  predicate MountedItself(text: string, mounts: seq<Mount>) {
    && Normalized(text).At? && Owner(mounts, Normalized(text).path).Some?
    && var mount := Owner(mounts, Normalized(text).path).value;
       mount.kind.Config? || (mount.kind.Bind? && mount.target == Normalized(text).path)
  }

  /** Traefik moves on to the next candidate. */
  predicate PassedOver(text: string, explicit: bool, mounts: seq<Mount>, node: Node) {
    (OnNoMount(text, mounts) && !explicit) || MeasuredAs(text, mounts, node, Absent)
  }

  predicate IsThere(text: string, mounts: seq<Mount>, node: Node) {
    MountedItself(text, mounts) || MeasuredAs(text, mounts, node, Present)
  }

  ghost predicate AllPassedOver(paths: seq<string>, start: nat, end: nat, explicit: bool, mounts: seq<Mount>,
      node: Node)
    requires end <= |paths|
  {
    forall k :: start <= k < end ==> PassedOver(paths[k], explicit && k == 0, mounts, node)
  }

  lemma CandidateDecided(text: string, explicit: bool, mounts: seq<Mount>, node: Node)
    ensures var place := Normalized(text);
      var mount := LocatePlace(mounts, place);
      && (mount.None? <==> OnNoMount(text, mounts))
      && (mount.None? ==> (PassedOver(text, explicit, mounts, node) <==> !explicit) && !IsThere(text, mounts, node))
      && (mount.Some? ==>
            && (PresenceAt(mount.value, place, node).Present? <==> IsThere(text, mounts, node))
            && (PresenceAt(mount.value, place, node).Absent? <==> PassedOver(text, explicit, mounts, node)))
  {
    hide Normalized;
    var place := Normalized(text);
    if place.At? {
      OwnerCovers(mounts, place.path);
    }
    hide Owner;
  }

  lemma {:induction false} OwnerCovers(mounts: seq<Mount>, path: ContainerPath)
    ensures Owner(mounts, path).Some? ==> Owner(mounts, path).value.target <= path
    decreases |mounts|
  {
    if mounts != [] {
      OwnerCovers(mounts[..|mounts| - 1], path);
    }
  }

  /** What the search from some candidate on comes to, and when. */
  ghost predicate Decides(paths: seq<string>, start: nat, explicit: bool, mounts: seq<Mount>, node: Node, r: Search)
    requires start <= |paths|
  {
    match r
    case Found(i, mount) =>
      && start <= i < |paths| && AllPassedOver(paths, start, i, explicit, mounts, node)
      && IsThere(paths[i], mounts, node) && LocatePlace(mounts, Normalized(paths[i])) == Some(mount)
    case Undecidable(i) =>
      && start <= i < |paths| && AllPassedOver(paths, start, i, explicit, mounts, node)
      && !PassedOver(paths[i], explicit && i == 0, mounts, node) && !IsThere(paths[i], mounts, node)
    case NoFile => AllPassedOver(paths, start, |paths|, explicit, mounts, node)
    case RelativeFile => false
  }

  /**
   The search ends at the first candidate that is not passed over: it is located there if it is
   there, and undecided if not; and there is no file exactly if all are passed over.
   */
  lemma {:induction false} SearchDecides(paths: seq<string>, start: nat, explicit: bool, mounts: seq<Mount>,
      node: Node, r: Search)
    requires start <= |paths|
    ensures SearchFrom(paths, start, explicit, mounts, node) == r
      <==> Decides(paths, start, explicit, mounts, node, r)
    decreases |paths| - start
  {
    hide Normalized, LocatePlace, PresenceAt, PassedOver, IsThere, OnNoMount;
    if start < |paths| {
      SearchStep(paths, start, explicit, mounts, node);
      CandidateDecided(paths[start], explicit && start == 0, mounts, node);
      SearchDecides(paths, start + 1, explicit, mounts, node, r);
      PassedFrom(paths, start, explicit, mounts, node, r);
      hide SearchFrom, AllPassedOver;
    }
  }

  lemma PassedFrom(paths: seq<string>, start: nat, explicit: bool, mounts: seq<Mount>, node: Node, r: Search)
    requires start < |paths|
    ensures forall end :: start < end <= |paths| ==>
      (AllPassedOver(paths, start, end, explicit, mounts, node) <==>
         && PassedOver(paths[start], explicit && start == 0, mounts, node)
         && AllPassedOver(paths, start + 1, end, explicit, mounts, node))
    ensures AllPassedOver(paths, start, start, explicit, mounts, node)
  {
    hide PassedOver;
  }

  // ---- The measurement ----------------------------------------------------------------------------

  /** What is measured, in terms of the pathname walk that `.` and `..` of a file do not stop. */
  lemma PresenceIff(world: P.World, tree: P.Tree, relative: P.Path)
    requires P.Unchanging(world, tree)
    ensures var walk := P.Walk(tree, false, [], relative, true, 40);
      && (BindPresence(world, tree, relative).Present? <==> walk.Reached? && P.Standing(tree(walk.path)))
      && (BindPresence(world, tree, relative).Absent?
          <==> walk == P.Stopped(P.MissingAbove) || (walk.Reached? && tree(walk.path).Missing?))
  {
    P.LoopIsRecursiveWalk(world, tree, relative);
    hide P.Walk, P.Resolve;
  }

  // ---- Texts ----------------------------------------------------------------------------------------

  lemma {:induction false} SplitName(name: string, rest: string)
    requires '/' !in name && (rest == "" || rest[0] == '/')
    ensures P.Split(name + rest) == [name] + P.Split(rest)[1..]
    decreases |name|
  {
    P.SplitStep('/', "");
    hide P.Split;
    if name == "" {
      assert name + rest == rest;
      if rest != "" {
        P.SplitStep('/', rest[1..]);
        assert rest == ['/'] + rest[1..];
      }
    } else {
      SplitName(name[1..], rest);
      P.SplitStep(name[0], name[1..] + rest);
      assert name + rest == [name[0]] + (name[1..] + rest);
      assert [name[0]] + name[1..] == name;
    }
  }

  lemma {:induction false} SplitSlashed(path: ContainerPath)
    requires Proper(path)
    ensures P.Split(Slashed(path)) == [""] + path
    decreases |path|
  {
    if path != [] {
      assert ProperName(path[0]);
      var rest := Slashed(path[1..]);
      assert Slashed(path) == ['/'] + (path[0] + rest);
      assert rest == "" || rest[0] == '/';
      hide P.Split, Slashed;
      SplitSlashed(path[1..]);
      SplitName(path[0], rest);
      P.SplitStep('/', path[0] + rest);
      assert P.Split(rest)[1..] == path[1..] && path == [path[0]] + path[1..];
    }
  }

  lemma {:induction false} ClimbedStays(pieces: seq<string>, above: ContainerPath)
    requires P.Physical(pieces)
    ensures Climbed(pieces, above) == above + pieces
    decreases |pieces|
  {
    if pieces != [] {
      assert P.PhysicalName(pieces[0]);
      ClimbedStays(pieces[1..], above + [pieces[0]]);
      assert above + [pieces[0]] + pieces[1..] == above + pieces;
    }
  }

  lemma RenderSplits(path: ContainerPath)
    requires Proper(path)
    ensures Render(path) != "" && Render(path)[0] == '/'
    ensures !("//" <= Render(path))
    ensures P.Split(Render(path)) == if path == [] then ["", ""] else [""] + path
  {
    if path == [] {
      P.SplitStep('/', "");
      assert ['/'] + "" == "/";
    } else {
      SplitSlashed(path);
      assert ProperName(path[0]);
      assert Slashed(path) == "/" + path[0] + Slashed(path[1..]);
      assert Slashed(path)[1] == path[0][0];
    }
  }

  lemma ClimbedFrom(path: ContainerPath)
    requires P.Physical(path)
    ensures Climbed(if path == [] then ["", ""] else [""] + path, []) == path
  {
    ClimbedStays(path, []);
    var pieces: seq<string> := if path == [] then ["", ""] else [""] + path;
    assert pieces[1..] == if path == [] then [""] else path;
    assert path == [] ==> pieces[1..][1..] == [];
    assert [] + path == path;
  }

  /** The text of a path names that path; with two slashes in front it names nothing mounted. */
  lemma RenderNormalizes(path: ContainerPath)
    requires Proper(path) && P.Physical(path)
    ensures Normalized(Render(path)) == At(path)
    ensures Normalized("/" + Render(path)) == Nowhere("/" + Render(path))
  {
    RenderSplits(path);
    ClimbedFrom(path);
    var text := "/" + Render(path);
    assert text[0] == '/' && text[1] == '/';
    assert "//" <= text;
    assert path != [] ==> text[2] == Render(path)[1];
  }

  /** Joining a relative text to the text of a directory names what lies there. */
  lemma JoinRenders(dir: ContainerPath, names: ContainerPath)
    requires Proper(dir) && Proper(names) && names != []
    ensures Join(Render(dir), Slashed(names)[1..]) == Render(dir + names)
  {
    SlashedConcat(dir, names);
    FirstSlashed(names);
    var relative := Slashed(names)[1..];
    hide Slashed;
    if dir == [] {
      assert dir + names == names;
    } else {
      NoTrailingSlash(dir);
      assert Render(dir) + "/" + relative == Render(dir) + ("/" + relative);
    }
  }

  lemma FirstSlashed(names: ContainerPath)
    requires Proper(names) && names != []
    ensures |Slashed(names)| > 1 && Slashed(names) == "/" + Slashed(names)[1..]
    ensures Slashed(names)[1] != '/' && !P.IsAbsolute(Slashed(names)[1..])
  {
    assert ProperName(names[0]);
    assert Slashed(names) == "/" + names[0] + Slashed(names[1..]);
    assert Slashed(names)[1] == names[0][0];
  }

  // ---- The flag ---------------------------------------------------------------------------------------

  /** The argument is one of the two flags with this value, which names this path. */
  predicate IsFlag(arg: string, flag: string, value: string, path: string) {
    && (flag == "--configFile" || flag == "--configfile")
    && Strip(arg) == flag + "=" + value && Strip(value) == path
  }

  /** An argument names a file exactly as `--configFile=` or `--configfile=` with something behind it. */
  lemma NamedByIff(arg: string, path: string)
    ensures NamedBy(arg) == Some(path) <==> path != "" && exists flag, value :: IsFlag(arg, flag, value, path)
  {
    hide Strip;
    if flag, value :| IsFlag(arg, flag, value, path) {
      assert '=' !in "--configFile" && '=' !in "--configfile";
      PartitionAt(flag, '=', value);
      assert flag + ['='] + value == flag + "=" + value;
    }
    if NamedBy(arg) == Some(path) {
      var (flag, found, value) := Partition(Strip(arg), '=');
      assert IsFlag(arg, flag, value, path);
    }
  }

  /** The two bases that come from the environment have their places too. */
  lemma EnvironmentBases(args: seq<string>, env: map<string, string>, workdir: Option<string>)
    requires "XDG_CONFIG_HOME" in env && "HOME" in env
    requires !("./" <= env["XDG_CONFIG_HOME"] + "/traefik") && !("./" <= env["HOME"] + "/.config/traefik")
    ensures var paths, start := Candidates(args, env, workdir), if ConfigFileArg(args).Some? then 1 else 0;
      && HasBaseAt(paths, start + 3, env["XDG_CONFIG_HOME"] + "/traefik")
      && HasBaseAt(paths, start + 6, env["HOME"] + "/.config/traefik")
  {
    hide Join, ConfigFileArg, Candidates, HasBaseAt, Kept, KeptAmong, Stem, Expand, BASES;
    TheBases(env, workdir);
    EnvironmentKept(env, workdir);
    NoneKept(env, workdir);
    CandidatesInOrder(args, env, workdir);
    OneMoreKept(BASES[..1], env, workdir);
    OneMoreKept(BASES[..2], env, workdir);
    assert BASES[..1][..0] == [] && BASES[..2][..1] == BASES[..1];
    assert BASES[..1][0] == BASES[0] && BASES[..2][1] == BASES[1];
  }

  lemma EnvironmentKept(env: map<string, string>, workdir: Option<string>)
    requires "XDG_CONFIG_HOME" in env && "HOME" in env
    requires !("./" <= env["XDG_CONFIG_HOME"] + "/traefik") && !("./" <= env["HOME"] + "/.config/traefik")
    ensures |BASES| == 4
    ensures Kept(BASES[1], env, workdir) && Stem(BASES[1], env, workdir) == env["XDG_CONFIG_HOME"] + "/traefik"
    ensures Kept(BASES[2], env, workdir) && Stem(BASES[2], env, workdir) == env["HOME"] + "/.config/traefik"
  {
  }
}
