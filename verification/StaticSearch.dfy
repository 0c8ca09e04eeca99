/** The search for the file Traefik reads its static configuration from. */
module StaticSearch {
  import opened Options
  import opened Mounts
  import opened Text
  import P = PathResolver

  /** `posixpath.join`. */
  function Join(a: string, b: string): string {
    if P.IsAbsolute(b) then b
    else if a == "" || a[|a| - 1] == '/' then a + b
    else a + "/" + b
  }

  // ---- The candidates ----------------------------------------------------------------------------

  predicate ConfigFileFlag(flag: string) {
    flag == "--configFile" || flag == "--configfile"
  }

  function ConfigFileArg(args: seq<string>): Option<string> {
    if args == [] then None
    else
      var (flag, found, value) := Partition(Strip(args[0]), '=');
      if found && ConfigFileFlag(flag) && Strip(value) != "" then Some(Strip(value)) else ConfigFileArg(args[1..])
  }

  /** A base path of Traefik's own search: a fixed text, or a variable and what follows it. */
  datatype Base = Fixed(text: string) | FromEnv(variable: string, rest: string)

  const BASES: seq<Base> := [
    Fixed("/etc/traefik/traefik"),
    FromEnv("XDG_CONFIG_HOME", "/traefik"),
    FromEnv("HOME", "/.config/traefik"),
    Fixed("./traefik")
  ]

  /** An unset variable becomes the empty text. */
  function Expand(base: Base, env: map<string, string>): string {
    match base
    case Fixed(text) => text
    case FromEnv(variable, rest) => (if variable in env then env[variable] else "") + rest
  }

  function WithExtensions(base: string): seq<string> {
    [base + ".toml", base + ".yaml", base + ".yml"]
  }

  /** `./` resolves against a declared working directory only; without one the base is left out. */
  function FromBase(base: Base, env: map<string, string>, workdir: Option<string>): seq<string> {
    var expanded := Expand(base, env);
    if !("./" <= expanded) then WithExtensions(expanded)
    else if workdir.None? then []
    else WithExtensions(Join(workdir.value, expanded[2..]))
  }

  function FromBases(bases: seq<Base>, env: map<string, string>, workdir: Option<string>): seq<string> {
    if bases == [] then []
    else FromBases(bases[..|bases| - 1], env, workdir) + FromBase(bases[|bases| - 1], env, workdir)
  }

  function Explicit(args: seq<string>, workdir: Option<string>): seq<string> {
    match ConfigFileArg(args)
    case None => []
    case Some(path) =>
      [if workdir.Some? && !P.IsAbsolute(path) then Join(workdir.value, path) else path]
  }

  function Candidates(args: seq<string>, env: map<string, string>, workdir: Option<string>): seq<string> {
    Explicit(args, workdir) + FromBases(BASES, env, workdir)
  }

  // ---- Which candidates, in which order ------------------------------------------------------------

  /** The path a single argument names, if it is the flag. */
  function NamedBy(arg: string): Option<string> {
    var (flag, found, value) := Partition(Strip(arg), '=');
    if found && ConfigFileFlag(flag) && Strip(value) != "" then Some(Strip(value)) else None
  }

  ghost predicate NamedFirst(args: seq<string>, i: nat, path: string) {
    i < |args| && NamedBy(args[i]) == Some(path) && forall k :: 0 <= k < i ==> NamedBy(args[k]).None?
  }

  lemma NextArg(args: seq<string>)
    ensures ConfigFileArg(args) ==
      if args == [] then None
      else if NamedBy(args[0]).Some? then NamedBy(args[0]) else ConfigFileArg(args[1..])
  {
    hide Strip, Partition, ConfigFileFlag;
  }

  /** The first argument that names a file decides; without one there is none. */
  lemma {:induction false} FirstFlagCounts(args: seq<string>) returns (i: nat)
    ensures match ConfigFileArg(args)
      case None => forall k :: 0 <= k < |args| ==> NamedBy(args[k]).None?
      case Some(path) => NamedFirst(args, i, path)
    decreases |args|
  {
    i := 0;
    NextArg(args);
    hide NamedBy, ConfigFileArg;
    if args != [] && NamedBy(args[0]).None? {
      var k := FirstFlagCounts(args[1..]);
      i := k + 1;
      assert forall n :: 0 < n < |args| ==> args[n] == args[1..][n - 1];
    }
  }

  /** A base that starts with `./` needs a declared working directory. */
  predicate Kept(base: Base, env: map<string, string>, workdir: Option<string>) {
    workdir.Some? || !("./" <= Expand(base, env))
  }

  /** The path a base stands for, without its extension. */
  function Stem(base: Base, env: map<string, string>, workdir: Option<string>): string
    requires Kept(base, env, workdir)
  {
    var expanded := Expand(base, env);
    if "./" <= expanded then Join(workdir.value, expanded[2..]) else expanded
  }

  function KeptAmong(bases: seq<Base>, env: map<string, string>, workdir: Option<string>): nat {
    if bases == [] then 0
    else KeptAmong(bases[..|bases| - 1], env, workdir) + if Kept(bases[|bases| - 1], env, workdir) then 1 else 0
  }

  /** From `start` on, the texts of one base in the order of the extensions. */
  predicate HasBaseAt(paths: seq<string>, start: nat, stem: string) {
    && start + 3 <= |paths|
    && paths[start] == stem + ".toml" && paths[start + 1] == stem + ".yaml" && paths[start + 2] == stem + ".yml"
  }

  /** Three texts for every base that is kept, base after base, and no others. */
  ghost predicate BasesFrom(paths: seq<string>, start: nat, bases: seq<Base>, env: map<string, string>,
      workdir: Option<string>)
  {
    && |paths| == start + 3 * KeptAmong(bases, env, workdir)
    && forall k :: 0 <= k < |bases| && Kept(bases[k], env, workdir) ==>
         HasBaseAt(paths, start + 3 * KeptAmong(bases[..k], env, workdir), Stem(bases[k], env, workdir))
  }

  lemma ExtensionsAtEnd(before: seq<string>, stem: string)
    ensures HasBaseAt(before + WithExtensions(stem), |before|, stem)
  {
  }

  lemma BaseMovesBack(paths: seq<string>, start: nat, stem: string, front: seq<string>)
    requires HasBaseAt(paths, start, stem)
    ensures HasBaseAt(front + paths, |front| + start, stem)
  {
  }

  lemma {:induction false} DefaultsInOrder(bases: seq<Base>, env: map<string, string>, workdir: Option<string>)
    ensures BasesFrom(FromBases(bases, env, workdir), 0, bases, env, workdir)
    decreases |bases|
  {
    if bases != [] {
      DefaultsInOrder(bases[..|bases| - 1], env, workdir);
      OneMoreBase(bases, env, workdir);
    }
  }

  lemma OneMoreBase(bases: seq<Base>, env: map<string, string>, workdir: Option<string>)
    requires bases != []
    requires var front := bases[..|bases| - 1]; BasesFrom(FromBases(front, env, workdir), 0, front, env, workdir)
    ensures BasesFrom(FromBases(bases, env, workdir), 0, bases, env, workdir)
  {
    var front, last := bases[..|bases| - 1], bases[|bases| - 1];
    LastBase(FromBases(front, env, workdir), last, env, workdir);
    MoreBases(bases, FromBases(front, env, workdir), FromBase(last, env, workdir), env, workdir);
    hide BasesFrom, FromBase, HasBaseAt, Stem, Kept, KeptAmong;
  }

  lemma MoreBases(bases: seq<Base>, before: seq<string>, more: seq<string>, env: map<string, string>,
      workdir: Option<string>)
    requires bases != [] && BasesFrom(before, 0, bases[..|bases| - 1], env, workdir)
    requires var last := bases[|bases| - 1];
      if Kept(last, env, workdir) then
        |more| == 3 && HasBaseAt(before + more, |before|, Stem(last, env, workdir))
      else more == []
    ensures BasesFrom(before + more, 0, bases, env, workdir)
  {
    OneMoreKept(bases, env, workdir);
    hide HasBaseAt, Stem, Kept, KeptAmong;
    forall k | 0 <= k < |bases| && Kept(bases[k], env, workdir)
      ensures HasBaseAt(before + more, 0 + 3 * KeptAmong(bases[..k], env, workdir), Stem(bases[k], env, workdir))
    {
      if k < |bases| - 1 {
        EarlierBase(bases, before, more, k, env, workdir);
      }
    }
  }

  lemma OneMoreKept(bases: seq<Base>, env: map<string, string>, workdir: Option<string>)
    requires bases != []
    ensures var n := |bases| - 1;
      KeptAmong(bases, env, workdir)
        == KeptAmong(bases[..n], env, workdir) + if Kept(bases[n], env, workdir) then 1 else 0
  {
  }

  lemma EarlierBase(bases: seq<Base>, before: seq<string>, more: seq<string>, k: nat, env: map<string, string>,
      workdir: Option<string>)
    requires k < |bases| - 1 && Kept(bases[k], env, workdir)
      && BasesFrom(before, 0, bases[..|bases| - 1], env, workdir)
    ensures HasBaseAt(before + more, 3 * KeptAmong(bases[..k], env, workdir), Stem(bases[k], env, workdir))
  {
    hide HasBaseAt, Stem, Kept, KeptAmong;
    var front := bases[..|bases| - 1];
    assert front[k] == bases[k] && front[..k] == bases[..k];
    BaseStaysInFront(before, 3 * KeptAmong(front[..k], env, workdir), Stem(front[k], env, workdir), more);
  }

  lemma LastBase(before: seq<string>, last: Base, env: map<string, string>, workdir: Option<string>)
    ensures var more := FromBase(last, env, workdir);
      if Kept(last, env, workdir) then
        |more| == 3 && HasBaseAt(before + more, |before|, Stem(last, env, workdir))
      else more == []
  {
    if Kept(last, env, workdir) {
      var stem := Stem(last, env, workdir);
      assert FromBase(last, env, workdir) == WithExtensions(stem);
      hide FromBase, Stem, Kept, Expand, Join;
      ExtensionsAtEnd(before, stem);
    }
  }

  lemma BaseStaysInFront(paths: seq<string>, start: nat, stem: string, behind: seq<string>)
    requires HasBaseAt(paths, start, stem)
    ensures HasBaseAt(paths + behind, start, stem)
  {
  }

  lemma BasesBehind(front: seq<string>, paths: seq<string>, bases: seq<Base>, env: map<string, string>,
      workdir: Option<string>)
    requires BasesFrom(paths, 0, bases, env, workdir)
    ensures BasesFrom(front + paths, |front|, bases, env, workdir)
  {
    hide HasBaseAt, Expand, Stem;
    forall k | 0 <= k < |bases| && Kept(bases[k], env, workdir)
      ensures HasBaseAt(front + paths, |front| + 3 * KeptAmong(bases[..k], env, workdir),
        Stem(bases[k], env, workdir))
    {
      BaseMovesBack(paths, 3 * KeptAmong(bases[..k], env, workdir), Stem(bases[k], env, workdir), front);
    }
  }

  /**
   The candidates in Traefik's order: the file named explicitly, if any, and only that one, in
   front; then for every base that needs no working directory or has one, in the order of the
   bases, its three texts in the order of the extensions.
   */
  lemma CandidatesInOrder(args: seq<string>, env: map<string, string>, workdir: Option<string>)
    ensures var paths := Candidates(args, env, workdir);
      match ConfigFileArg(args)
      case None => BasesFrom(paths, 0, BASES, env, workdir)
      case Some(path) =>
        && BasesFrom(paths, 1, BASES, env, workdir)
        && paths[0] == (if P.IsAbsolute(path) || workdir.None? then path else Join(workdir.value, path))
  {
    hide BASES, Join, ConfigFileArg, FromBases;
    DefaultsInOrder(BASES, env, workdir);
    BasesBehind(Explicit(args, workdir), FromBases(BASES, env, workdir), BASES, env, workdir);
    hide BasesFrom;
  }

  lemma {:induction false} AllKept(bases: seq<Base>, env: map<string, string>, workdir: Option<string>)
    requires workdir.Some?
    ensures KeptAmong(bases, env, workdir) == |bases|
    decreases |bases|
  {
    if bases != [] {
      AllKept(bases[..|bases| - 1], env, workdir);
    }
  }

  lemma TheBases(env: map<string, string>, workdir: Option<string>)
    ensures |BASES| == 4 && BASES[0] == Fixed("/etc/traefik/traefik") && BASES[3] == Fixed("./traefik")
    ensures Kept(BASES[0], env, workdir) && Stem(BASES[0], env, workdir) == "/etc/traefik/traefik"
    ensures workdir.Some? ==>
      Kept(BASES[3], env, workdir) && Stem(BASES[3], env, workdir) == Join(workdir.value, "traefik")
  {
    var fixed, local := "/etc/traefik/traefik", "./traefik";
    assert fixed[0] == '/';
    assert "./"[0] == '.';
    assert !("./" <= fixed);
    assert local[..2] == "./" && local[2..] == "traefik";
    assert "./" <= local;
    assert Expand(BASES[0], env) == fixed && Expand(BASES[3], env) == local;
  }

  /** The fixed location is the first of the defaults, and the working directory the last. */
  lemma FixedBases(args: seq<string>, env: map<string, string>, workdir: Option<string>)
    ensures var paths, start := Candidates(args, env, workdir), if ConfigFileArg(args).Some? then 1 else 0;
      && HasBaseAt(paths, start, "/etc/traefik/traefik")
      && (workdir.Some? ==> |paths| == start + 12 && HasBaseAt(paths, start + 9, Join(workdir.value, "traefik")))
  {
    hide BASES, Join, ConfigFileArg, Candidates, HasBaseAt, Kept, KeptAmong, Stem;
    TheBases(env, workdir);
    NoneKept(env, workdir);
    CandidatesInOrder(args, env, workdir);
    assert BASES[..0] == [];
    if workdir.Some? {
      AllKept(BASES, env, workdir);
      AllKept(BASES[..3], env, workdir);
    }
  }

  lemma NoneKept(env: map<string, string>, workdir: Option<string>)
    ensures KeptAmong([], env, workdir) == 0
  {
  }

  method CandidatePaths(args: seq<string>, env: map<string, string>, workdir: Option<string>)
    returns (paths: seq<string>)
    ensures paths == Candidates(args, env, workdir)
  {
    paths := [];
    var explicit := ConfigFileArg(args);
    if explicit.Some? {
      var path := explicit.value;
      if workdir.Some? && !P.IsAbsolute(path) {
        path := Join(workdir.value, path);
      }
      paths := [path];
    }
    var defaults := DefaultPaths(BASES, env, workdir);
    paths := paths + defaults;
  }

  method DefaultPaths(bases: seq<Base>, env: map<string, string>, workdir: Option<string>)
    returns (paths: seq<string>)
    ensures paths == FromBases(bases, env, workdir)
  {
    hide Expand, Join, WithExtensions;
    paths := [];
    var i := 0;
    while i < |bases|
      invariant 0 <= i <= |bases| && paths == FromBases(bases[..i], env, workdir)
    {
      assert bases[..i + 1][..i] == bases[..i];
      var expanded := Expand(bases[i], env);
      i := i + 1;
      if "./" <= expanded {
        if workdir.None? {
          continue;
        }
        expanded := Join(workdir.value, expanded[2..]);
      }
      paths := paths + WithExtensions(expanded);
    }
    assert bases[..|bases|] == bases;
  }

  // ---- Where a candidate lies ---------------------------------------------------------------------

  function Climbed(pieces: seq<string>, above: ContainerPath): ContainerPath {
    if pieces == [] then above
    else if P.Skipped(pieces[0]) then Climbed(pieces[1..], above)
    else if pieces[0] == ".." then Climbed(pieces[1..], if above == [] then [] else above[..|above| - 1])
    else Climbed(pieces[1..], above + [pieces[0]])
  }

  /**
   A candidate as `posixpath.normpath` reads it.  A relative text, and one that starts with
   exactly two slashes, names no path below any mount target.
   */
  datatype Place = At(path: ContainerPath) | Nowhere(text: string)

  function Normalized(text: string): Place {
    if P.IsAbsolute(text) && (!("//" <= text) || "///" <= text) then At(Climbed(P.Split(text), []))
    else Nowhere(text)
  }

  function LocatePlace(mounts: seq<Mount>, place: Place): Option<Mount> {
    match place
    case At(path) => Owner(mounts, path)
    case Nowhere(_) => None
  }

  // ---- Presence -----------------------------------------------------------------------------------

  datatype Presence = Present | Absent | Unknown

  /** What this node can measure: whether it runs the container, and each bind source. */
  datatype Node = Node(here: bool, measured: (Mount, seq<string>) -> Presence)

  /** Whether the place is there: by definition, as measured, or not to be told from here. */
  function PresenceAt(mount: Mount, place: Place, node: Node): Presence {
    match place
    case Nowhere(_) => Unknown
    case At(path) =>
      if mount.kind.Config? || (mount.kind.Bind? && path == mount.target) then Present
      else if !mount.kind.Bind? || !node.here || !(mount.target <= path) then Unknown
      else node.measured(mount, path[|mount.target|..])
  }

  // ---- The search -----------------------------------------------------------------------------------

  datatype Search = Found(index: nat, mount: Mount) | Undecidable(index: nat) | RelativeFile | NoFile

  function SearchFrom(paths: seq<string>, index: nat, explicit: bool, mounts: seq<Mount>, node: Node): Search
    requires index <= |paths|
    decreases |paths| - index
  {
    if index == |paths| then NoFile
    else
      var place := Normalized(paths[index]);
      match LocatePlace(mounts, place)
      case None =>
        if explicit && index == 0 then Undecidable(index) else SearchFrom(paths, index + 1, explicit, mounts, node)
      case Some(mount) =>
        match PresenceAt(mount, place, node)
        case Present => Found(index, mount)
        case Unknown => Undecidable(index)
        case Absent => SearchFrom(paths, index + 1, explicit, mounts, node)
  }

  lemma ExplicitIsFirst(args: seq<string>, env: map<string, string>, workdir: Option<string>)
    ensures ConfigFileArg(args).Some? ==> Candidates(args, env, workdir) != []
  {
    hide ConfigFileArg;
  }

  lemma SearchEnds(paths: seq<string>, explicit: bool, mounts: seq<Mount>, node: Node)
    ensures SearchFrom(paths, |paths|, explicit, mounts, node) == NoFile
  {
  }

  /** One step of the search. */
  lemma SearchStep(paths: seq<string>, index: nat, explicit: bool, mounts: seq<Mount>, node: Node)
    requires index < |paths|
    ensures var place := Normalized(paths[index]);
      var mount := LocatePlace(mounts, place);
      SearchFrom(paths, index, explicit, mounts, node) ==
        if mount.None? then
          if explicit && index == 0 then Undecidable(index)
          else SearchFrom(paths, index + 1, explicit, mounts, node)
        else if PresenceAt(mount.value, place, node).Present? then Found(index, mount.value)
        else if PresenceAt(mount.value, place, node).Unknown? then Undecidable(index)
        else SearchFrom(paths, index + 1, explicit, mounts, node)
  {
    hide Normalized, LocatePlace, PresenceAt;
  }

  method FindStaticFile(args: seq<string>, env: map<string, string>, workdir: Option<string>, mounts: seq<Mount>,
      node: Node)
    returns (r: Search)
    ensures var paths, explicit := Candidates(args, env, workdir), ConfigFileArg(args).Some?;
      r == if explicit && !P.IsAbsolute(paths[0]) then RelativeFile else SearchFrom(paths, 0, explicit, mounts, node)
  {
    ExplicitIsFirst(args, env, workdir);
    hide Candidates, ConfigFileArg, Normalized, LocatePlace, PresenceAt, SearchFrom;
    var explicit := ConfigFileArg(args).Some?;
    var paths := CandidatePaths(args, env, workdir);
    if explicit && !P.IsAbsolute(paths[0]) {
      return RelativeFile;
    }
    var index := 0;
    while index < |paths|
      invariant 0 <= index <= |paths|
      invariant SearchFrom(paths, 0, explicit, mounts, node) == SearchFrom(paths, index, explicit, mounts, node)
    {
      SearchStep(paths, index, explicit, mounts, node);
      var place := Normalized(paths[index]);
      var mount := LocatePlace(mounts, place);
      if mount.None? {
        if explicit && index == 0 {
          return Undecidable(index);
        }
        index := index + 1;
        continue;
      }
      var state := PresenceAt(mount.value, place, node);
      if state.Present? {
        return Found(index, mount.value);
      }
      if state.Unknown? {
        return Undecidable(index);
      }
      index := index + 1;
    }
    SearchEnds(paths, explicit, mounts, node);
    return NoFile;
  }

  // ---- What the answers mean ------------------------------------------------------------------------

  /**
   A container file system that this node's knowledge allows: what is present or absent there
   is so, and a place on no mount is empty unless it is the explicitly named one, which may
   be part of the image.
   */
  ghost predicate Allowed(there: Place -> bool, paths: seq<string>, explicit: bool, mounts: seq<Mount>, node: Node) {
    forall place: Place ::
      match LocatePlace(mounts, place)
      case None => there(place) ==> explicit && paths != [] && place == Normalized(paths[0])
      case Some(mount) =>
        && (PresenceAt(mount, place, node).Present? ==> there(place))
        && (PresenceAt(mount, place, node).Absent? ==> !there(place))
  }

  ghost predicate NoneBefore(there: Place -> bool, paths: seq<string>, index: nat)
    requires index <= |paths|
  {
    forall i :: 0 <= i < index ==> !there(Normalized(paths[i]))
  }

  /**
   Sound in every allowed container: a found file is the first candidate that exists, no file
   means that none exists, and an undecidable answer comes only after candidates that do not.
   */
  lemma {:induction false} SearchIsSound(there: Place -> bool, paths: seq<string>, index: nat, explicit: bool,
      mounts: seq<Mount>, node: Node)
    requires Allowed(there, paths, explicit, mounts, node)
    requires index <= |paths| && NoneBefore(there, paths, index)
    requires explicit && index > 0 ==> LocatePlace(mounts, Normalized(paths[0])).Some?
    ensures match SearchFrom(paths, index, explicit, mounts, node)
      case Found(i, mount) =>
        && i < |paths| && there(Normalized(paths[i])) && NoneBefore(there, paths, i)
        && LocatePlace(mounts, Normalized(paths[i])) == Some(mount)
      case Undecidable(i) => i < |paths| && NoneBefore(there, paths, i)
      case NoFile => NoneBefore(there, paths, |paths|)
      case RelativeFile => false
    decreases |paths| - index
  {
    if index < |paths| {
      var place := Normalized(paths[index]);
      var mount := LocatePlace(mounts, place);
      if mount.None? {
        if !(explicit && index == 0) {
          assert !there(place);
          SearchIsSound(there, paths, index + 1, explicit, mounts, node);
        }
      } else if PresenceAt(mount.value, place, node).Absent? {
        SearchIsSound(there, paths, index + 1, explicit, mounts, node);
      }
    }
  }

  /** The container that has what must be there, and nothing else except perhaps one place. */
  function Least(mounts: seq<Mount>, node: Node, also: Place): Place -> bool {
    place => place == also || match LocatePlace(mounts, place)
                              case None => false
                              case Some(mount) => PresenceAt(mount, place, node).Present?
  }

  function Without(mounts: seq<Mount>, node: Node, missing: Place): Place -> bool {
    place => place != missing && match LocatePlace(mounts, place)
                                 case None => false
                                 case Some(mount) => PresenceAt(mount, place, node).Present?
  }

  /** An undecidable answer is truly undecidable: allowed containers differ at that candidate. */
  lemma {:induction false} UndecidableIsUndecided(paths: seq<string>, index: nat, explicit: bool,
      mounts: seq<Mount>, node: Node)
    requires index <= |paths| && SearchFrom(paths, index, explicit, mounts, node).Undecidable?
    ensures var i := SearchFrom(paths, index, explicit, mounts, node).index;
      && index <= i < |paths|
      && var place := Normalized(paths[i]);
         && Allowed(Least(mounts, node, place), paths, explicit, mounts, node) && Least(mounts, node, place)(place)
         && Allowed(Without(mounts, node, place), paths, explicit, mounts, node)
         && !Without(mounts, node, place)(place)
    decreases |paths| - index
  {
    var place := Normalized(paths[index]);
    var mount := LocatePlace(mounts, place);
    if (mount.None? && !(explicit && index == 0)) || (mount.Some? && PresenceAt(mount.value, place, node).Absent?) {
      UndecidableIsUndecided(paths, index + 1, explicit, mounts, node);
    }
  }

  // ---- What a measured bind path means -----------------------------------------------------------------

  /** `os.stat` of the resolved path, on an unchanging host. */
  function BindPresence(world: P.World, tree: P.Tree, relative: P.Path): Presence {
    match P.Resolve(world, 0, [], relative, 0)
    case Refused(why) => if why.MissingAbove? then Absent else Unknown
    case Resolved(path) =>
      match tree(path)
      case Missing => Absent
      case Directory(_) => Present
      case File(_, _) => Present
      case _ => Unknown
  }

  /** The kernel, inside the container, gets to an existing node. */
  ghost predicate ThereFor(container: P.Tree, arrival: P.Arrival) {
    arrival.Reached? && P.Standing(container(arrival.path))
  }

  /** The kernel, inside the container, answers "no such file or directory". */
  ghost predicate NotThereFor(container: P.Tree, arrival: P.Arrival) {
    arrival == P.Stopped(P.MissingAbove) || (arrival.Reached? && container(arrival.path).Missing?)
  }

  /** The kernel's walk in a container agrees with the measurement. */
  ghost predicate Agrees(measured: Presence, container: P.Tree, target: P.Path, relative: P.Path) {
    var arrival := P.KernelWalk(container, target, relative, true, P.MAX_SYMLINK_HOPS);
    match measured
    case Present => ThereFor(container, arrival)
    case Absent => NotThereFor(container, arrival)
    case Unknown => true
  }

  /** Every `.` and `..` on the way follows a directory. */
  ghost predicate DotsFollow(tree: P.Tree, relative: P.Path) {
    P.DotsFollowDirectories(tree, [], relative, true, P.MAX_SYMLINK_HOPS)
  }

  /** The way stays at the places of the mount that nothing else is mounted over. */
  ghost predicate WayStaysIn(tree: P.Tree, shown: P.Path -> bool, relative: P.Path) {
    P.StaysIn(tree, shown, [], relative, true, P.MAX_SYMLINK_HOPS)
  }

  /**
   For a path that was measured and whose way stays in the mount, what the kernel meets is what
   was measured exactly when every `.` and `..` on the way follows a directory.
   */
  lemma MeasuredIff(world: P.World, tree: P.Tree, relative: P.Path, container: P.Tree, target: P.Path,
      shown: P.Path -> bool)
    requires P.Unchanging(world, tree) && P.ShowsWhere(container, target, tree, shown)
    requires P.Consistent(tree) && tree([]).Directory? && WayStaysIn(tree, shown, relative)
    requires !BindPresence(world, tree, relative).Unknown?
    ensures Agrees(BindPresence(world, tree, relative), container, target, relative) <==> DotsFollow(tree, relative)
  {
    P.LoopIsRecursiveWalk(world, tree, relative);
    P.WalkBelowMountPoint(container, target, tree, shown, [], relative, true, P.MAX_SYMLINK_HOPS);
    assert target + [] == target;
    var lenient := P.Walk(tree, false, [], relative, true, P.MAX_SYMLINK_HOPS);
    if lenient.Reached? {
      P.LenientIsPosixIff(tree, [], relative, true, P.MAX_SYMLINK_HOPS);
    } else if lenient.why.MissingAbove? {
      P.LenientStopIsPosixIff(tree, [], relative, true, P.MAX_SYMLINK_HOPS);
    }
  }

  /**
   A measurement is right in every container that shows the mount where nothing else is mounted
   over it, exactly when every `.` and `..` on the way follows a directory and the way stays there.
   */
  lemma MeasuredForCertainIff(world: P.World, tree: P.Tree, relative: P.Path, target: P.Path, shown: P.Path -> bool)
    requires P.Unchanging(world, tree) && P.Consistent(tree) && tree([]).Directory?
    requires !BindPresence(world, tree, relative).Unknown?
    ensures
      (forall container: P.Tree :: P.ShowsWhere(container, target, tree, shown) ==>
         Agrees(BindPresence(world, tree, relative), container, target, relative))
      <==> DotsFollow(tree, relative) && WayStaysIn(tree, shown, relative)
  {
    var measured, masked := BindPresence(world, tree, relative), P.Masked(target, tree, shown);
    P.MaskedShows(target, tree, shown);
    hide BindPresence, P.ShowsWhere;
    if WayStaysIn(tree, shown, relative) {
      forall container: P.Tree | P.ShowsWhere(container, target, tree, shown)
        ensures Agrees(measured, container, target, relative) <==> DotsFollow(tree, relative)
      {
        MeasuredIff(world, tree, relative, container, target, shown);
      }
      hide Agrees;
      assert Agrees(measured, masked, target, relative) <==> DotsFollow(tree, relative);
    } else {
      P.LeavingIsLost(target, tree, shown, [], relative, true, P.MAX_SYMLINK_HOPS);
      assert target + [] == target;
      assert !Agrees(measured, masked, target, relative);
    }
  }

  /**
   The case that fails: a link of the bind mount leads into a directory that something else is
   mounted over.  The file is there on the host, and not in the container.
   */
  lemma LinkIntoOtherMountDiffers(world: P.World, tree: P.Tree, container: P.Tree, target: P.Path)
    requires P.Unchanging(world, tree)
    requires tree(["t"]) == P.Link("c/x") && tree(["c"]).Directory? && tree(["c", "x"]).File?
    requires container(target).Directory? && container(target + ["t"]) == P.Link("c/x")
    requires container(target + ["c"]).Directory? && container(target + ["c", "x"]).Missing?
    ensures BindPresence(world, tree, ["t"]) == Present && !Agrees(Present, container, target, ["t"])
  {
    P.SplitInTwo('c', 'x');
    assert ['c', '/', 'x'] == "c/x" && ['c'] == "c" && ['x'] == "x";
    hide P.Split;
    HostFinds(world, tree);
    ContainerLacks(container, target);
  }

  lemma HostFinds(world: P.World, tree: P.Tree)
    requires P.Unchanging(world, tree) && P.Split("c/x") == ["c", "x"]
    requires tree(["t"]) == P.Link("c/x") && tree(["c"]).Directory? && tree(["c", "x"]).File?
    ensures BindPresence(world, tree, ["t"]) == Present
  {
    assert ["t"][1..] == [] && ["c", "x"][1..] == ["x"] && ["x"][1..] == [];
    assert [] + ["t"] == ["t"] && [] + ["c"] == ["c"] && ["c"] + ["x"] == ["c", "x"];
    assert ["c", "x"] + [] == ["c", "x"];
    hide P.Split;
    assert P.Resolve(world, 3, ["c"], ["x"], 1) == P.Resolved(["c", "x"]);
    assert P.Resolve(world, 2, [], ["c", "x"], 1) == P.Resolve(world, 3, ["c"], ["x"], 1);
  }

  lemma ContainerLacks(container: P.Tree, target: P.Path)
    requires P.Split("c/x") == ["c", "x"]
    requires container(target).Directory? && container(target + ["t"]) == P.Link("c/x")
    requires container(target + ["c"]).Directory? && container(target + ["c", "x"]).Missing?
    ensures !Agrees(Present, container, target, ["t"])
  {
    var hops := P.MAX_SYMLINK_HOPS;
    assert ["t"][1..] == [] && ["c", "x"][1..] == ["x"] && ["x"][1..] == [];
    assert target + ["c"] + ["x"] == target + ["c", "x"];
    P.KernelStep(container, target, ["t"], true, hops);
    P.KernelStep(container, target, ["c", "x"], true, hops - 1);
    P.KernelStep(container, target + ["c"], ["x"], true, hops - 1);
    P.KernelDone(container, target + ["c", "x"], true, hops - 1);
    hide P.KernelWalk, P.Split;
  }
}
