/**
 Resolving a path below the source of a bind mount: the worklist loop, and the recursive
 pathname walk (POSIX.1-2017 Base Definitions, section 4.13) it has to agree with.

 A path is its list of component names below the root.  The file system answers every
 `lstat` and `readlink` at its own instant: `world(now, path)` is the node seen at `path`
 at time `now`, and nothing relates two instants unless a lemma says so.
 */
module PathResolver {

  type Path = seq<string>

  datatype Node =
    | Missing                              // no such file or directory
    | Failing                              // any other failure: not a directory above, no permission
    | Link(target: string)
    | Directory(inode: nat)
    | File(inode: nat, regular: bool)      // a regular file, or a FIFO, socket or device

  type World = (nat, Path) -> Node
  type Tree = Path -> Node

  const MAX_SYMLINK_HOPS: nat := 40

  datatype Refusal =
    | Outside | MissingAbove | Unreadable | TooManyLinks | AbsoluteLink | ChangedMeanwhile | NotADirectory

  datatype Resolution = Resolved(path: Path) | Refused(why: Refusal)

  // ---- Component lists ----------------------------------------------------------------------

  /** The text between the slashes, empty pieces included. */
  function Split(text: string): (pieces: seq<string>)
    ensures |pieces| >= 1
  {
    if text == "" then [""]
    else
      var rest := Split(text[1..]);
      if text[0] == '/' then [""] + rest else [[text[0]] + rest[0]] + rest[1..]
  }

  /** One more character in front. */
  lemma SplitStep(c: char, text: string)
    ensures Split("") == [""]
    ensures Split([c] + text) ==
      if c == '/' then [""] + Split(text) else [[c] + Split(text)[0]] + Split(text)[1..]
  {
    assert ([c] + text)[1..] == text;
  }

  lemma SplitInTwo(a: char, b: char)
    requires a != '/' && b != '/'
    ensures Split([a, '/', b]) == [[a], [b]]
  {
    SplitStep(b, "");
    SplitStep('/', [b]);
    SplitStep(a, ['/', b]);
    assert [b] + "" == [b] && ['/'] + [b] == ['/', b] && [a] + ['/', b] == [a, '/', b];
    assert [a] + "" == [a];
  }

  predicate IsAbsolute(text: string) {
    text != "" && text[0] == '/'
  }

  predicate Skipped(name: string) {
    name == "" || name == "."
  }

  /** A component a directory can hold. */
  predicate PhysicalName(name: string) {
    !Skipped(name) && name != ".."
  }

  ghost predicate Physical(path: Path) {
    forall i :: 0 <= i < |path| ==> PhysicalName(path[i])
  }

  function Parent(path: Path): Path
    requires path != []
  {
    path[..|path| - 1]
  }

  // ---- The worklist loop ----------------------------------------------------------------------

  /** What the loop returns from a given state. */
  function Resolve(world: World, now: nat, resolved: Path, pending: Path, hops: nat): Resolution
    requires hops <= MAX_SYMLINK_HOPS
    decreases MAX_SYMLINK_HOPS - hops, |pending|
  {
    if pending == [] then Resolved(resolved)
    else
      var component, rest := pending[0], pending[1..];
      if Skipped(component) then Resolve(world, now, resolved, rest, hops)
      else if component == ".." then
        if resolved == [] then Refused(Outside) else Resolve(world, now, Parent(resolved), rest, hops)
      else
        var candidate := resolved + [component];
        match world(now, candidate)
        case Missing => if rest == [] then Resolved(candidate) else Refused(MissingAbove)
        case Failing => Refused(Unreadable)
        case Directory(_) => Resolve(world, now + 1, candidate, rest, hops)
        case File(_, _) => Resolve(world, now + 1, candidate, rest, hops)
        case Link(_) =>
          if hops == MAX_SYMLINK_HOPS then Refused(TooManyLinks)
          else
            match world(now + 1, candidate)
            case Link(target) =>
              if IsAbsolute(target) then Refused(AbsoluteLink)
              else Resolve(world, now + 2, resolved, Split(target) + rest, hops + 1)
            case _ => Refused(ChangedMeanwhile)
  }

  method ResolveComponents(world: World, relative: Path) returns (r: Resolution)
    ensures r == Resolve(world, 0, [], relative, 0)
  {
    var pending, resolved: Path, hops: nat, now: nat := relative, [], 0, 0;
    while pending != []
      invariant hops <= MAX_SYMLINK_HOPS
      invariant Resolve(world, 0, [], relative, 0) == Resolve(world, now, resolved, pending, hops)
      decreases MAX_SYMLINK_HOPS - hops, |pending|
    {
      var component := pending[0];
      pending := pending[1..];
      if Skipped(component) {
        continue;
      }
      if component == ".." {
        if resolved == [] {
          return Refused(Outside);
        }
        resolved := Parent(resolved);
        continue;
      }
      var candidate := resolved + [component];
      var info := world(now, candidate);
      now := now + 1;
      if info.Missing? {
        if pending != [] {
          return Refused(MissingAbove);
        }
        resolved := candidate;
        break;
      }
      if info.Failing? {
        return Refused(Unreadable);
      }
      if !info.Link? {
        resolved := candidate;
        continue;
      }
      hops := hops + 1;
      if hops > MAX_SYMLINK_HOPS {
        return Refused(TooManyLinks);
      }
      var read := world(now, candidate);
      now := now + 1;
      if !read.Link? {
        return Refused(ChangedMeanwhile);
      }
      if IsAbsolute(read.target) {
        return Refused(AbsoluteLink);
      }
      pending := Split(read.target) + pending;
    }
    return Resolved(resolved);
  }

  // ---- Safety, whatever changes meanwhile ------------------------------------------------------

  /** At some instant `path` was there and was not a link. */
  ghost predicate SeenPlain(world: World, path: Path) {
    exists t: nat :: world(t, path).Directory? || world(t, path).File?
  }

  ghost predicate SeenMissing(world: World, path: Path) {
    exists t: nat :: world(t, path).Missing?
  }

  /** Every component of the path was itself seen as something other than a link. */
  ghost predicate ChainSeenPlain(world: World, path: Path) {
    forall i :: 1 <= i <= |path| ==> SeenPlain(world, path[..i])
  }

  lemma ChainGrows(world: World, path: Path, name: string)
    requires ChainSeenPlain(world, path) && SeenPlain(world, path + [name])
    ensures ChainSeenPlain(world, path + [name])
  {
    var longer := path + [name];
    forall i | 1 <= i <= |longer| ensures SeenPlain(world, longer[..i]) {
      assert longer[..i] == if i <= |path| then path[..i] else longer;
    }
  }

  lemma ChainShrinks(world: World, path: Path)
    requires ChainSeenPlain(world, path) && path != []
    ensures ChainSeenPlain(world, Parent(path))
  {
    forall i | 1 <= i <= |path| - 1 ensures SeenPlain(world, Parent(path)[..i]) {
      assert Parent(path)[..i] == path[..i];
    }
  }

  /** Every component above the last was seen to be no link, and so was the last unless it was missing. */
  ghost predicate SafePath(world: World, path: Path) {
    && Physical(path)
    && (ChainSeenPlain(world, path)
        || (path != [] && ChainSeenPlain(world, Parent(path)) && SeenMissing(world, path)))
  }

  lemma MissingIsSafe(world: World, now: nat, resolved: Path, component: string)
    requires Physical(resolved) && PhysicalName(component) && ChainSeenPlain(world, resolved)
    requires world(now, resolved + [component]).Missing?
    ensures SafePath(world, resolved + [component])
  {
    assert Parent(resolved + [component]) == resolved;
  }

  lemma PlainIsSafe(world: World, now: nat, resolved: Path, component: string)
    requires Physical(resolved) && PhysicalName(component) && ChainSeenPlain(world, resolved)
    requires world(now, resolved + [component]).Directory? || world(now, resolved + [component]).File?
    ensures Physical(resolved + [component]) && ChainSeenPlain(world, resolved + [component])
  {
    ChainGrows(world, resolved, component);
  }

  /** A returned path is physical and safe, under any interference. */
  lemma {:induction false} ResolvedIsSafe(world: World, now: nat, resolved: Path, pending: Path, hops: nat)
    requires hops <= MAX_SYMLINK_HOPS && Physical(resolved) && ChainSeenPlain(world, resolved)
    ensures var r := Resolve(world, now, resolved, pending, hops); r.Resolved? ==> SafePath(world, r.path)
    decreases MAX_SYMLINK_HOPS - hops, |pending|
  {
    if pending != [] {
      var component, rest := pending[0], pending[1..];
      var candidate := resolved + [component];
      hide ChainSeenPlain, SafePath, Split;
      if Skipped(component) {
        ResolvedIsSafe(world, now, resolved, rest, hops);
      } else if component == ".." {
        if resolved != [] {
          ChainShrinks(world, resolved);
          ResolvedIsSafe(world, now, Parent(resolved), rest, hops);
        }
      } else {
        match world(now, candidate)
        case Missing => MissingIsSafe(world, now, resolved, component);
        case Failing =>
        case Directory(_) =>
          PlainIsSafe(world, now, resolved, component);
          ResolvedIsSafe(world, now + 1, candidate, rest, hops);
        case File(_, _) =>
          PlainIsSafe(world, now, resolved, component);
          ResolvedIsSafe(world, now + 1, candidate, rest, hops);
        case Link(_) =>
          var read := world(now + 1, candidate);
          if hops < MAX_SYMLINK_HOPS && read.Link? && !IsAbsolute(read.target) {
            ResolvedIsSafe(world, now + 2, resolved, Split(read.target) + rest, hops + 1);
          }
      }
    }
  }

  // ---- The recursive pathname walk -------------------------------------------------------------

  datatype Arrival = Reached(path: Path, left: nat) | Stopped(why: Refusal)

  /**
   The walk of `names` from `dir` below the root.  `last` says whether nothing follows these
   names, so that their final component may be missing; `links` is how many more links may be
   expanded.  A strict walk insists that every step starts in a directory, as POSIX does;
   the other does so only where the file system itself refuses.
   */
  function Walk(tree: Tree, strict: bool, dir: Path, names: Path, last: bool, links: nat): (r: Arrival)
    ensures r.Reached? ==> r.left <= links
    decreases links, |names|
  {
    if names == [] then Reached(dir, links)
    else if strict && !tree(dir).Directory? then Stopped(NotADirectory)
    else
      var name, rest := names[0], names[1..];
      if Skipped(name) then Walk(tree, strict, dir, rest, last, links)
      else if name == ".." then
        if dir == [] then Stopped(Outside) else Walk(tree, strict, Parent(dir), rest, last, links)
      else
        var here := dir + [name];
        match tree(here)
        case Missing => if rest == [] && last then Reached(here, links) else Stopped(MissingAbove)
        case Failing => Stopped(Unreadable)
        case Directory(_) => Walk(tree, strict, here, rest, last, links)
        case File(_, _) => Walk(tree, strict, here, rest, last, links)
        case Link(target) =>
          if links == 0 then Stopped(TooManyLinks)
          else if IsAbsolute(target) then Stopped(AbsoluteLink)
          else
            match Walk(tree, strict, dir, Split(target), last && rest == [], links - 1)
            case Stopped(why) => Stopped(why)
            case Reached(there, left) => Walk(tree, strict, there, rest, last, left)
  }

  ghost predicate Unchanging(world: World, tree: Tree) {
    forall t: nat, p: Path :: world(t, p) == tree(p)
  }

  /** Without interference the instant at which the loop starts does not matter. */
  lemma {:induction false} StartDoesNotMatter(world: World, tree: Tree, now: nat, then_: nat, resolved: Path,
      pending: Path, hops: nat)
    requires Unchanging(world, tree) && hops <= MAX_SYMLINK_HOPS
    ensures Resolve(world, now, resolved, pending, hops) == Resolve(world, then_, resolved, pending, hops)
    decreases MAX_SYMLINK_HOPS - hops, |pending|
  {
    if pending != [] {
      var component, rest := pending[0], pending[1..];
      var candidate := resolved + [component];
      if Skipped(component) {
        StartDoesNotMatter(world, tree, now, then_, resolved, rest, hops);
      } else if component == ".." {
        if resolved != [] {
          StartDoesNotMatter(world, tree, now, then_, Parent(resolved), rest, hops);
        }
      } else {
        match tree(candidate)
        case Missing =>
        case Failing =>
        case Directory(_) => StartDoesNotMatter(world, tree, now + 1, then_ + 1, candidate, rest, hops);
        case File(_, _) => StartDoesNotMatter(world, tree, now + 1, then_ + 1, candidate, rest, hops);
        case Link(target) =>
          if hops < MAX_SYMLINK_HOPS && !IsAbsolute(target) {
            StartDoesNotMatter(world, tree, now + 2, then_ + 2, resolved, Split(target) + rest, hops + 1);
          }
      }
    }
  }

  /** Where the loop stands after it has worked off the names of one recursive call. */
  function AfterWalk(world: World, arrival: Arrival, behind: Path): Resolution
    requires arrival.Reached? ==> arrival.left <= MAX_SYMLINK_HOPS
  {
    match arrival
    case Stopped(why) => Refused(why)
    case Reached(path, left) => Resolve(world, 0, path, behind, MAX_SYMLINK_HOPS - left)
  }

  /**
   Splicing a link's target into the worklist does what the recursive walk does: the loop with
   `names` before `behind` behaves like the walk of `names` followed by the loop on `behind`.
   */
  lemma {:induction false} SplicingIsRecursion(world: World, tree: Tree, dir: Path, names: Path, behind: Path,
      links: nat)
    requires Unchanging(world, tree) && links <= MAX_SYMLINK_HOPS
    ensures Resolve(world, 0, dir, names + behind, MAX_SYMLINK_HOPS - links)
         == AfterWalk(world, Walk(tree, false, dir, names, behind == [], links), behind)
    decreases links, |names|
  {
    var hops := MAX_SYMLINK_HOPS - links;
    if names == [] {
      assert names + behind == behind;
    } else {
      var name, rest := names[0], names[1..];
      assert (names + behind)[0] == name && (names + behind)[1..] == rest + behind;
      var here := dir + [name];
      if Skipped(name) {
        SplicingIsRecursion(world, tree, dir, rest, behind, links);
      } else if name == ".." {
        if dir != [] {
          SplicingIsRecursion(world, tree, Parent(dir), rest, behind, links);
        }
      } else {
        match tree(here)
        case Missing =>
          assert rest + behind == [] <==> rest == [] && behind == [];
        case Failing =>
        case Directory(_) =>
          StartDoesNotMatter(world, tree, 1, 0, here, rest + behind, hops);
          SplicingIsRecursion(world, tree, here, rest, behind, links);
        case File(_, _) =>
          StartDoesNotMatter(world, tree, 1, 0, here, rest + behind, hops);
          SplicingIsRecursion(world, tree, here, rest, behind, links);
        case Link(target) =>
          if links > 0 && !IsAbsolute(target) {
            StartDoesNotMatter(world, tree, 2, 0, dir, Split(target) + (rest + behind), hops + 1);
            SplicingIsRecursion(world, tree, dir, Split(target), rest + behind, links - 1);
            var arrival := Walk(tree, false, dir, Split(target), rest + behind == [], links - 1);
            if arrival.Reached? {
              SplicingIsRecursion(world, tree, arrival.path, rest, behind, arrival.left);
            }
          }
      }
    }
  }

  /** The loop returns exactly what the recursive walk returns, refusals included. */
  lemma LoopIsRecursiveWalk(world: World, tree: Tree, relative: Path)
    requires Unchanging(world, tree)
    ensures Resolve(world, 0, [], relative, 0) ==
      match Walk(tree, false, [], relative, true, MAX_SYMLINK_HOPS)
      case Stopped(why) => Refused(why)
      case Reached(path, _) => Resolved(path)
  {
    SplicingIsRecursion(world, tree, [], relative, [], MAX_SYMLINK_HOPS);
    assert relative + [] == relative;
  }

  // ---- The POSIX walk ------------------------------------------------------------------------

  /** A walk that arrives and uses at most `more` links arrives there with `more`, having used as many. */
  ghost predicate Spares(tree: Tree, strict: bool, dir: Path, names: Path, last: bool, links: nat, more: nat) {
    var r := Walk(tree, strict, dir, names, last, links);
    r.Reached? && links - r.left <= more ==>
      Walk(tree, strict, dir, names, last, more) == Reached(r.path, more - (links - r.left))
  }

  /** With more links to spare the walk arrives at the same place, having used as many. */
  lemma {:induction false} LinksToSpare(tree: Tree, strict: bool, dir: Path, names: Path, last: bool, links: nat,
      more: nat)
    ensures Spares(tree, strict, dir, names, last, links, more)
    decreases links, |names|
  {
    hide Split;
    if names != [] {
      var name, rest := names[0], names[1..];
      var here := dir + [name];
      if Skipped(name) {
        LinksToSpare(tree, strict, dir, rest, last, links, more);
      } else if name == ".." {
        if dir != [] {
          LinksToSpare(tree, strict, Parent(dir), rest, last, links, more);
        }
      } else if tree(here).Directory? || tree(here).File? {
        LinksToSpare(tree, strict, here, rest, last, links, more);
      } else if tree(here).Link? {
        LinkToSpare(tree, strict, dir, names, last, links, more);
      }
    }
  }

  lemma {:induction false} LinkToSpare(tree: Tree, strict: bool, dir: Path, names: Path, last: bool, links: nat,
      more: nat)
    requires names != [] && PhysicalName(names[0]) && tree(dir + [names[0]]).Link?
    ensures Spares(tree, strict, dir, names, last, links, more)
    decreases links, |names|, 0
  {
    hide Walk, Split;
    var target, rest := tree(dir + [names[0]]).target, names[1..];
    WalkOverLink(tree, strict, dir, names, last, links, target);
    WalkOverLink(tree, strict, dir, names, last, more, target);
    if links > 0 && !IsAbsolute(target) && more > 0 {
      var first := Walk(tree, strict, dir, Split(target), last && rest == [], links - 1);
      LinksToSpare(tree, strict, dir, Split(target), last && rest == [], links - 1, more - 1);
      if first.Reached? && links - first.left <= more {
        LinksToSpare(tree, strict, first.path, rest, last, first.left, more - (links - first.left));
      }
    }
  }

  /** What the walk does at a link: the target first, then the rest. */
  lemma WalkOverLink(tree: Tree, strict: bool, dir: Path, names: Path, last: bool, links: nat, target: string)
    requires names != [] && PhysicalName(names[0]) && tree(dir + [names[0]]) == Link(target)
    ensures Walk(tree, strict, dir, names, last, links) ==
      if strict && !tree(dir).Directory? then Stopped(NotADirectory)
      else if links == 0 then Stopped(TooManyLinks)
      else if IsAbsolute(target) then Stopped(AbsoluteLink)
      else
        var first := Walk(tree, strict, dir, Split(target), last && names[1..] == [], links - 1);
        if first.Stopped? then first else Walk(tree, strict, first.path, names[1..], last, first.left)
  {
  }

  /** A strict walk that arrives is also a walk of the other kind. */
  lemma {:induction false} StrictIsLenient(tree: Tree, dir: Path, names: Path, last: bool, links: nat)
    requires Walk(tree, true, dir, names, last, links).Reached?
    ensures Walk(tree, false, dir, names, last, links) == Walk(tree, true, dir, names, last, links)
    decreases links, |names|
  {
    if names != [] {
      var name, rest := names[0], names[1..];
      var here := dir + [name];
      if Skipped(name) {
        StrictIsLenient(tree, dir, rest, last, links);
      } else if name == ".." {
        StrictIsLenient(tree, Parent(dir), rest, last, links);
      } else {
        match tree(here)
        case Missing =>
        case Directory(_) => StrictIsLenient(tree, here, rest, last, links);
        case File(_, _) => StrictIsLenient(tree, here, rest, last, links);
        case Link(target) =>
          StrictIsLenient(tree, dir, Split(target), last && rest == [], links - 1);
          var first := Walk(tree, true, dir, Split(target), last && rest == [], links - 1);
          StrictIsLenient(tree, first.path, rest, last, first.left);
      }
    }
  }

  /**
   Whatever POSIX resolves below the root over relative links only, expanding at most 40 of
   them, the loop resolves to the same path.
   */
  lemma PosixWalkIsFollowed(world: World, tree: Tree, relative: Path, links: nat)
    requires Unchanging(world, tree)
    requires var r := Walk(tree, true, [], relative, true, links); r.Reached? && links - r.left <= MAX_SYMLINK_HOPS
    ensures Resolve(world, 0, [], relative, 0) == Resolved(Walk(tree, true, [], relative, true, links).path)
  {
    StrictIsLenient(tree, [], relative, true, links);
    LinksToSpare(tree, false, [], relative, true, links, MAX_SYMLINK_HOPS);
    LoopIsRecursiveWalk(world, tree, relative);
  }

  // ---- Where the loop is more permissive than POSIX --------------------------------------------

  /** Nothing lies below a file. */
  ghost predicate Consistent(tree: Tree) {
    forall p: Path, name: string :: tree(p).File? ==> tree(p + [name]).Failing?
  }

  predicate Standing(node: Node) {
    node.Directory? || node.File?
  }

  /** Every step down to `path` is there and is no link. */
  ghost predicate Grounded(tree: Tree, path: Path) {
    forall i :: 0 <= i <= |path| ==> Standing(tree(path[..i]))
  }

  lemma GroundedStep(tree: Tree, path: Path, name: string)
    requires Grounded(tree, path) && Standing(tree(path + [name]))
    ensures Grounded(tree, path + [name])
  {
    var longer := path + [name];
    forall i | 0 <= i <= |longer| ensures Standing(tree(longer[..i])) {
      assert longer[..i] == if i <= |path| then path[..i] else longer;
    }
  }

  lemma GroundedParent(tree: Tree, path: Path)
    requires Grounded(tree, path) && path != []
    ensures Grounded(tree, Parent(path))
  {
    forall i | 0 <= i <= |path| - 1 ensures Standing(tree(Parent(path)[..i])) {
      assert Parent(path)[..i] == path[..i];
    }
  }

  /** Each `.`, empty name and `..` on the way is met in a directory. */
  ghost predicate DotsFollowDirectories(tree: Tree, dir: Path, names: Path, last: bool, links: nat)
    decreases links, |names|
  {
    if names == [] then true
    else
      var name, rest := names[0], names[1..];
      if Skipped(name) then tree(dir).Directory? && DotsFollowDirectories(tree, dir, rest, last, links)
      else if name == ".." then
        tree(dir).Directory? && (dir == [] || DotsFollowDirectories(tree, Parent(dir), rest, last, links))
      else
        var here := dir + [name];
        match tree(here)
        case Missing => true
        case Failing => true
        case Directory(_) => DotsFollowDirectories(tree, here, rest, last, links)
        case File(_, _) => DotsFollowDirectories(tree, here, rest, last, links)
        case Link(target) =>
          links == 0 || IsAbsolute(target) || (
            && DotsFollowDirectories(tree, dir, Split(target), last && rest == [], links - 1)
            && match Walk(tree, false, dir, Split(target), last && rest == [], links - 1)
               case Stopped(_) => true
               case Reached(there, left) => DotsFollowDirectories(tree, there, rest, last, left))
  }

  ghost predicate ArrivedAt(tree: Tree, path: Path, last: bool) {
    Grounded(tree, path) || (last && path != [] && Grounded(tree, Parent(path)) && tree(path).Missing?)
  }

  /** A walk from a grounded place arrives at a grounded place, or at a missing final component. */
  lemma {:induction false} WalkArrives(tree: Tree, dir: Path, names: Path, last: bool, links: nat)
    requires Grounded(tree, dir) || (names == [] && ArrivedAt(tree, dir, last))
    ensures var r := Walk(tree, false, dir, names, last, links);
      r.Reached? ==> ArrivedAt(tree, r.path, last)
    decreases links, |names|
  {
    if names != [] {
      var name, rest := names[0], names[1..];
      var here := dir + [name];
      if Skipped(name) {
        WalkArrives(tree, dir, rest, last, links);
      } else if name == ".." {
        if dir != [] {
          GroundedParent(tree, dir);
          WalkArrives(tree, Parent(dir), rest, last, links);
        }
      } else {
        assert Parent(here) == dir;
        match tree(here)
        case Missing =>
        case Failing =>
        case Directory(_) =>
          GroundedStep(tree, dir, name);
          WalkArrives(tree, here, rest, last, links);
        case File(_, _) =>
          GroundedStep(tree, dir, name);
          WalkArrives(tree, here, rest, last, links);
        case Link(target) =>
          if links > 0 && !IsAbsolute(target) {
            WalkArrives(tree, dir, Split(target), last && rest == [], links - 1);
            var first := Walk(tree, false, dir, Split(target), last && rest == [], links - 1);
            if first.Reached? {
              WalkArrives(tree, first.path, rest, last, first.left);
            }
          }
      }
    }
  }

  /**
   A lenient walk that arrives is the POSIX walk exactly when each `.` and `..` on the way
   follows a directory; otherwise POSIX stops there with "not a directory".
   */
  lemma {:induction false} LenientIsPosixIff(tree: Tree, dir: Path, names: Path, last: bool, links: nat)
    requires Consistent(tree) && Walk(tree, false, dir, names, last, links).Reached?
    requires Grounded(tree, dir) || (names == [] && ArrivedAt(tree, dir, last))
    ensures Walk(tree, true, dir, names, last, links) ==
      if DotsFollowDirectories(tree, dir, names, last, links)
      then Walk(tree, false, dir, names, last, links) else Stopped(NotADirectory)
    decreases links, |names|
  {
    if names != [] {
      var name, rest := names[0], names[1..];
      var here := dir + [name];
      assert dir[..|dir|] == dir;
      assert Standing(tree(dir));
      if Skipped(name) {
        LenientIsPosixIff(tree, dir, rest, last, links);
      } else if name == ".." {
        GroundedParent(tree, dir);
        LenientIsPosixIff(tree, Parent(dir), rest, last, links);
      } else {
        assert tree(dir).File? ==> tree(here).Failing?;
        match tree(here)
        case Missing =>
        case Directory(_) =>
          GroundedStep(tree, dir, name);
          LenientIsPosixIff(tree, here, rest, last, links);
        case File(_, _) =>
          GroundedStep(tree, dir, name);
          LenientIsPosixIff(tree, here, rest, last, links);
        case Link(target) =>
          LenientIsPosixIff(tree, dir, Split(target), last && rest == [], links - 1);
          WalkArrives(tree, dir, Split(target), last && rest == [], links - 1);
          var first := Walk(tree, false, dir, Split(target), last && rest == [], links - 1);
          LenientIsPosixIff(tree, first.path, rest, last, first.left);
      }
    }
  }

  /** Where the lenient walk stops, POSIX stops for the same reason or at a non-directory before. */
  lemma {:induction false} LenientStops(tree: Tree, dir: Path, names: Path, last: bool, links: nat)
    requires Walk(tree, false, dir, names, last, links).Stopped?
    ensures var strict := Walk(tree, true, dir, names, last, links);
      strict == Walk(tree, false, dir, names, last, links) || strict == Stopped(NotADirectory)
    decreases links, |names|
  {
    if names != [] {
      var name, rest := names[0], names[1..];
      var here := dir + [name];
      if Skipped(name) {
        LenientStops(tree, dir, rest, last, links);
      } else if name == ".." {
        if dir != [] {
          LenientStops(tree, Parent(dir), rest, last, links);
        }
      } else {
        match tree(here)
        case Missing =>
        case Failing =>
        case Directory(_) => LenientStops(tree, here, rest, last, links);
        case File(_, _) => LenientStops(tree, here, rest, last, links);
        case Link(target) =>
          if links > 0 && !IsAbsolute(target) {
            var first := Walk(tree, false, dir, Split(target), last && rest == [], links - 1);
            var strict := Walk(tree, true, dir, Split(target), last && rest == [], links - 1);
            if first.Stopped? {
              LenientStops(tree, dir, Split(target), last && rest == [], links - 1);
            } else {
              LenientStops(tree, first.path, rest, last, first.left);
              LenientReaches(tree, dir, Split(target), last && rest == [], links - 1);
            }
          }
      }
    }
  }

  /**
   The same where the lenient walk stops, unless something could not be inspected: below a file
   the file system refuses that inspection, and POSIX names the file.
   */
  lemma {:induction false} LenientStopIsPosixIff(tree: Tree, dir: Path, names: Path, last: bool, links: nat)
    requires Consistent(tree) && Grounded(tree, dir)
    requires var r := Walk(tree, false, dir, names, last, links); r.Stopped? && !r.why.Unreadable?
    ensures Walk(tree, true, dir, names, last, links) ==
      if DotsFollowDirectories(tree, dir, names, last, links)
      then Walk(tree, false, dir, names, last, links) else Stopped(NotADirectory)
    decreases links, |names|
  {
    var name, rest := names[0], names[1..];
    var here := dir + [name];
    assert dir[..|dir|] == dir;
    assert Standing(tree(dir));
    if Skipped(name) {
      LenientStopIsPosixIff(tree, dir, rest, last, links);
    } else if name == ".." {
      if dir != [] {
        GroundedParent(tree, dir);
        LenientStopIsPosixIff(tree, Parent(dir), rest, last, links);
      }
    } else {
      assert tree(dir).File? ==> tree(here).Failing?;
      match tree(here)
      case Missing =>
      case Directory(_) =>
        GroundedStep(tree, dir, name);
        LenientStopIsPosixIff(tree, here, rest, last, links);
      case File(_, _) =>
        GroundedStep(tree, dir, name);
        LenientStopIsPosixIff(tree, here, rest, last, links);
      case Link(target) =>
        if links > 0 && !IsAbsolute(target) {
          var first := Walk(tree, false, dir, Split(target), last && rest == [], links - 1);
          if first.Stopped? {
            LenientStopIsPosixIff(tree, dir, Split(target), last && rest == [], links - 1);
          } else {
            LenientIsPosixIff(tree, dir, Split(target), last && rest == [], links - 1);
            WalkArrives(tree, dir, Split(target), last && rest == [], links - 1);
            ArrivedAmid(tree, first.path, last && rest == [], rest);
            LenientStopIsPosixIff(tree, first.path, rest, last, first.left);
          }
        }
    }
  }

  /** A target after which more names follow was found, not left missing. */
  lemma ArrivedAmid(tree: Tree, path: Path, final: bool, rest: Path)
    requires ArrivedAt(tree, path, final) && (final ==> rest == []) && rest != []
    ensures Grounded(tree, path)
  {
  }

  /** Where the lenient walk arrives, POSIX arrives too or stops at a non-directory. */
  lemma {:induction false} LenientReaches(tree: Tree, dir: Path, names: Path, last: bool, links: nat)
    requires Walk(tree, false, dir, names, last, links).Reached?
    ensures var strict := Walk(tree, true, dir, names, last, links);
      strict == Walk(tree, false, dir, names, last, links) || strict == Stopped(NotADirectory)
    decreases links, |names|
  {
    if names != [] {
      var name, rest := names[0], names[1..];
      var here := dir + [name];
      if Skipped(name) {
        LenientReaches(tree, dir, rest, last, links);
      } else if name == ".." {
        LenientReaches(tree, Parent(dir), rest, last, links);
      } else {
        match tree(here)
        case Missing =>
        case Directory(_) => LenientReaches(tree, here, rest, last, links);
        case File(_, _) => LenientReaches(tree, here, rest, last, links);
        case Link(target) =>
          LenientReaches(tree, dir, Split(target), last && rest == [], links - 1);
          var first := Walk(tree, false, dir, Split(target), last && rest == [], links - 1);
          LenientReaches(tree, first.path, rest, last, first.left);
      }
    }
  }

  /** A path the loop returns is the POSIX result, exactly when every `.` and `..` follows a directory. */
  lemma ResolvedIsPosixIff(world: World, tree: Tree, relative: Path)
    requires Unchanging(world, tree) && Consistent(tree) && tree([]).Directory?
    requires Resolve(world, 0, [], relative, 0).Resolved?
    ensures var path := Resolve(world, 0, [], relative, 0).path;
      var posix := Walk(tree, true, [], relative, true, MAX_SYMLINK_HOPS);
      if DotsFollowDirectories(tree, [], relative, true, MAX_SYMLINK_HOPS)
      then posix.Reached? && posix.path == path
      else posix == Stopped(NotADirectory)
  {
    LoopIsRecursiveWalk(world, tree, relative);
    LenientIsPosixIff(tree, [], relative, true, MAX_SYMLINK_HOPS);
  }

  /** The cases in which the two differ: `file/..` and `file/.` resolve here and not in POSIX. */
  lemma FileDotDotDiffers(world: World, tree: Tree)
    requires Unchanging(world, tree) && tree([]).Directory? && tree(["file"]).File?
    ensures Resolve(world, 0, [], ["file", ".."], 0) == Resolved([])
    ensures Walk(tree, true, [], ["file", ".."], true, MAX_SYMLINK_HOPS) == Stopped(NotADirectory)
    ensures Resolve(world, 0, [], ["file", "."], 0) == Resolved(["file"])
    ensures Walk(tree, true, [], ["file", "."], true, MAX_SYMLINK_HOPS) == Stopped(NotADirectory)
  {
    assert [] + ["file"] == ["file"];
    assert Parent(["file"]) == [];
    assert ["file", ".."][1..] == [".."] && [".."][1..] == [];
    assert ["file", "."][1..] == ["."] && ["."][1..] == [];
  }

  /**
   On an unchanging tree every component above the returned path is a directory, and the path
   itself is no link: a component-wise open that refuses links meets the same nodes.
   */
  lemma ResolvedBelowDirectories(world: World, tree: Tree, relative: Path)
    requires Unchanging(world, tree) && Consistent(tree) && tree([]).Directory?
    requires Resolve(world, 0, [], relative, 0).Resolved?
    ensures var path := Resolve(world, 0, [], relative, 0).path;
      && (forall i :: 0 <= i < |path| ==> tree(path[..i]).Directory?)
      && (Standing(tree(path)) || (path != [] && tree(path).Missing?))
  {
    LoopIsRecursiveWalk(world, tree, relative);
    WalkArrives(tree, [], relative, true, MAX_SYMLINK_HOPS);
    var path := Resolve(world, 0, [], relative, 0).path;
    assert path[..|path|] == path;
    forall i | 0 <= i < |path| ensures tree(path[..i]).Directory? {
      var above, below := path[..i], path[..i + 1];
      assert below == above + [path[i]];
      assert Parent(path)[..i] == above;
      assert i + 1 < |path| ==> Parent(path)[..i + 1] == below;
      assert tree(above).File? ==> tree(below).Failing?;
    }
  }

  // ---- The same file on the host and in the container --------------------------------------------

  /**
   The kernel's walk in a whole namespace: `..` at the top stays there, an absolute link
   starts again at the top, and nothing stops the walk from leaving a subtree.
   */
  function KernelWalk(namespace: Tree, dir: Path, names: Path, last: bool, links: nat): (r: Arrival)
    ensures r.Reached? ==> r.left <= links
    decreases links, |names|
  {
    if names == [] then Reached(dir, links)
    else if !namespace(dir).Directory? then Stopped(NotADirectory)
    else
      var name, rest := names[0], names[1..];
      if Skipped(name) then KernelWalk(namespace, dir, rest, last, links)
      else if name == ".." then
        KernelWalk(namespace, if dir == [] then [] else Parent(dir), rest, last, links)
      else
        var here := dir + [name];
        match namespace(here)
        case Missing => if rest == [] && last then Reached(here, links) else Stopped(MissingAbove)
        case Failing => Stopped(Unreadable)
        case Directory(_) => KernelWalk(namespace, here, rest, last, links)
        case File(_, _) => KernelWalk(namespace, here, rest, last, links)
        case Link(target) =>
          if links == 0 then Stopped(TooManyLinks)
          else
            match KernelWalk(namespace, if IsAbsolute(target) then [] else dir, Split(target),
                             last && rest == [], links - 1)
            case Stopped(why) => Stopped(why)
            case Reached(there, left) => KernelWalk(namespace, there, rest, last, left)
  }

  /** One name of the kernel's walk from a directory. */
  lemma KernelStep(namespace: Tree, dir: Path, names: Path, last: bool, links: nat)
    requires names != [] && PhysicalName(names[0]) && namespace(dir).Directory?
    ensures var here, rest := dir + [names[0]], names[1..];
      KernelWalk(namespace, dir, names, last, links) ==
      match namespace(here)
      case Missing => if rest == [] && last then Reached(here, links) else Stopped(MissingAbove)
      case Failing => Stopped(Unreadable)
      case Directory(_) => KernelWalk(namespace, here, rest, last, links)
      case File(_, _) => KernelWalk(namespace, here, rest, last, links)
      case Link(target) =>
        if links == 0 then Stopped(TooManyLinks)
        else
          var first := KernelWalk(namespace, if IsAbsolute(target) then [] else dir, Split(target),
                                  last && rest == [], links - 1);
          if first.Stopped? then first else KernelWalk(namespace, first.path, rest, last, first.left)
  {
  }

  lemma KernelDone(namespace: Tree, dir: Path, last: bool, links: nat)
    ensures KernelWalk(namespace, dir, [], last, links) == Reached(dir, links)
  {
  }

  lemma KernelSkip(namespace: Tree, dir: Path, names: Path, last: bool, links: nat)
    requires names != [] && Skipped(names[0]) && namespace(dir).Directory?
    ensures KernelWalk(namespace, dir, names, last, links) == KernelWalk(namespace, dir, names[1..], last, links)
  {
  }

  lemma KernelUp(namespace: Tree, dir: Path, names: Path, last: bool, links: nat)
    requires names != [] && names[0] == ".." && namespace(dir).Directory? && dir != []
    ensures KernelWalk(namespace, dir, names, last, links)
      == KernelWalk(namespace, Parent(dir), names[1..], last, links)
  {
  }

  /** The namespace shows the tree at `mountPoint`, at the places where `shown` says so. */
  ghost predicate ShowsWhere(namespace: Tree, mountPoint: Path, tree: Tree, shown: Path -> bool) {
    forall p: Path :: shown(p) ==> namespace(mountPoint + p) == tree(p)
  }

  /** The strict walk looks at such places only, and arrives at one. */
  ghost predicate StaysIn(tree: Tree, shown: Path -> bool, dir: Path, names: Path, last: bool, links: nat)
    decreases links, |names|
  {
    && shown(dir)
    && (names != [] && tree(dir).Directory? ==>
      var name, rest := names[0], names[1..];
      if Skipped(name) then StaysIn(tree, shown, dir, rest, last, links)
      else if name == ".." then dir == [] || StaysIn(tree, shown, Parent(dir), rest, last, links)
      else
        var here := dir + [name];
        && shown(here)
        && match tree(here)
           case Directory(_) => StaysIn(tree, shown, here, rest, last, links)
           case File(_, _) => StaysIn(tree, shown, here, rest, last, links)
           case Link(target) =>
             links == 0 || IsAbsolute(target) || (
               && StaysIn(tree, shown, dir, Split(target), last && rest == [], links - 1)
               && match Walk(tree, true, dir, Split(target), last && rest == [], links - 1)
                  case Stopped(_) => true
                  case Reached(there, left) => StaysIn(tree, shown, there, rest, last, left))
           case _ => true)
  }

  lemma {:induction false} WalkBelowMountPoint(namespace: Tree, mountPoint: Path, tree: Tree, shown: Path -> bool,
      dir: Path, names: Path, last: bool, links: nat)
    requires ShowsWhere(namespace, mountPoint, tree, shown) && StaysIn(tree, shown, dir, names, last, links)
    ensures var r := Walk(tree, true, dir, names, last, links);
      match r
      case Reached(path, left) =>
        && KernelWalk(namespace, mountPoint + dir, names, last, links) == Reached(mountPoint + path, left)
        && shown(path)
      case Stopped(why) =>
        why == Outside || why == AbsoluteLink || KernelWalk(namespace, mountPoint + dir, names, last, links) == r
    decreases links, |names|
  {
    if names != [] && tree(dir).Directory? {
      var name, rest := names[0], names[1..];
      var here := dir + [name];
      assert mountPoint + dir + [name] == mountPoint + here;
      if Skipped(name) {
        WalkBelowMountPoint(namespace, mountPoint, tree, shown, dir, rest, last, links);
      } else if name == ".." {
        if dir != [] {
          assert Parent(mountPoint + dir) == mountPoint + Parent(dir);
          WalkBelowMountPoint(namespace, mountPoint, tree, shown, Parent(dir), rest, last, links);
        }
      } else {
        assert namespace(mountPoint + here) == tree(here);
        match tree(here)
        case Missing =>
        case Failing =>
        case Directory(_) => WalkBelowMountPoint(namespace, mountPoint, tree, shown, here, rest, last, links);
        case File(_, _) => WalkBelowMountPoint(namespace, mountPoint, tree, shown, here, rest, last, links);
        case Link(target) =>
          if links > 0 && !IsAbsolute(target) {
            WalkBelowMountPoint(namespace, mountPoint, tree, shown, dir, Split(target), last && rest == [], links - 1);
            var first := Walk(tree, true, dir, Split(target), last && rest == [], links - 1);
            if first.Reached? {
              WalkBelowMountPoint(namespace, mountPoint, tree, shown, first.path, rest, last, first.left);
            }
          }
      }
    }
  }

  /** What a namespace may be that shows the tree there: elsewhere nothing can be inspected. */
  ghost function Masked(mountPoint: Path, tree: Tree, shown: Path -> bool): Tree {
    place =>
      if mountPoint <= place && shown(place[|mountPoint|..]) then tree(place[|mountPoint|..]) else Failing
  }

  lemma MaskedShows(mountPoint: Path, tree: Tree, shown: Path -> bool)
    ensures ShowsWhere(Masked(mountPoint, tree, shown), mountPoint, tree, shown)
  {
    forall p: Path | shown(p) ensures Masked(mountPoint, tree, shown)(mountPoint + p) == tree(p) {
      assert (mountPoint + p)[|mountPoint|..] == p;
    }
  }

  /** The walk stopped where something cannot be inspected, or arrived there. */
  ghost predicate Lost(namespace: Tree, arrival: Arrival) {
    match arrival
    case Stopped(why) => why == Unreadable || why == NotADirectory
    case Reached(path, _) => namespace(path).Failing?
  }

  /** A walk that leaves those places is lost in that namespace. */
  lemma {:induction false} LeavingIsLost(mountPoint: Path, tree: Tree, shown: Path -> bool, dir: Path, names: Path,
      last: bool, links: nat)
    requires !StaysIn(tree, shown, dir, names, last, links)
    ensures var namespace := Masked(mountPoint, tree, shown);
      Lost(namespace, KernelWalk(namespace, mountPoint + dir, names, last, links))
    decreases links, |names|
  {
    var namespace := Masked(mountPoint, tree, shown);
    assert (mountPoint + dir)[|mountPoint|..] == dir;
    if shown(dir) {
      var name, rest := names[0], names[1..];
      var here := dir + [name];
      assert mountPoint + dir + [name] == mountPoint + here && (mountPoint + here)[|mountPoint|..] == here;
      if Skipped(name) {
        LeavingIsLost(mountPoint, tree, shown, dir, rest, last, links);
      } else if name == ".." {
        assert Parent(mountPoint + dir) == mountPoint + Parent(dir);
        LeavingIsLost(mountPoint, tree, shown, Parent(dir), rest, last, links);
      } else if shown(here) {
        match tree(here)
        case Directory(_) => LeavingIsLost(mountPoint, tree, shown, here, rest, last, links);
        case File(_, _) => LeavingIsLost(mountPoint, tree, shown, here, rest, last, links);
        case Link(target) => LinkLeaves(mountPoint, tree, shown, dir, names, last, links);
      }
    }
  }

  lemma {:induction false} LinkLeaves(mountPoint: Path, tree: Tree, shown: Path -> bool, dir: Path, names: Path,
      last: bool, links: nat)
    requires names != [] && PhysicalName(names[0]) && tree(dir + [names[0]]).Link? && shown(dir + [names[0]])
    requires shown(dir) && tree(dir).Directory? && !StaysIn(tree, shown, dir, names, last, links)
    ensures var namespace := Masked(mountPoint, tree, shown);
      Lost(namespace, KernelWalk(namespace, mountPoint + dir, names, last, links))
    decreases links, |names|, 0
  {
    var namespace := Masked(mountPoint, tree, shown);
    var rest, target := names[1..], tree(dir + [names[0]]).target;
    assert mountPoint + dir + [names[0]] == mountPoint + (dir + [names[0]]);
    assert (mountPoint + dir)[|mountPoint|..] == dir;
    assert (mountPoint + (dir + [names[0]]))[|mountPoint|..] == dir + [names[0]];
    if StaysIn(tree, shown, dir, Split(target), last && rest == [], links - 1) {
      MaskedShows(mountPoint, tree, shown);
      WalkBelowMountPoint(namespace, mountPoint, tree, shown, dir, Split(target), last && rest == [], links - 1);
      var first := Walk(tree, true, dir, Split(target), last && rest == [], links - 1);
      LeavingIsLost(mountPoint, tree, shown, first.path, rest, last, first.left);
    } else {
      LeavingIsLost(mountPoint, tree, shown, dir, Split(target), last && rest == [], links - 1);
    }
  }

  /**
   What is resolved on the host is what the container sees: in any two namespaces that show the
   mounted tree where the walk looks at it, wherever they show it, the kernel's own unrestricted
   walk of the same relative path ends at the returned path below the respective mount point.
   */
  lemma SameFileInBothNamespaces(world: World, tree: Tree, relative: Path, shown: Path -> bool, host: Tree,
      source: Path, container: Tree, target: Path)
    requires Unchanging(world, tree) && Consistent(tree) && tree([]).Directory?
    requires ShowsWhere(host, source, tree, shown) && ShowsWhere(container, target, tree, shown)
    requires StaysIn(tree, shown, [], relative, true, MAX_SYMLINK_HOPS)
    requires Resolve(world, 0, [], relative, 0).Resolved?
    requires DotsFollowDirectories(tree, [], relative, true, MAX_SYMLINK_HOPS)
    ensures var path := Resolve(world, 0, [], relative, 0).path;
      var there, here := KernelWalk(host, source, relative, true, MAX_SYMLINK_HOPS),
                         KernelWalk(container, target, relative, true, MAX_SYMLINK_HOPS);
      && there.Reached? && there.path == source + path
      && here.Reached? && here.path == target + path
      && host(there.path) == container(here.path)
  {
    ResolvedIsPosixIff(world, tree, relative);
    WalkBelowMountPoint(host, source, tree, shown, [], relative, true, MAX_SYMLINK_HOPS);
    WalkBelowMountPoint(container, target, tree, shown, [], relative, true, MAX_SYMLINK_HOPS);
    assert source + [] == source && target + [] == target;
  }
}
