/**
 The static file search against the file systems it is about: what is mounted, as this host has
 it, and what the kernel finds inside the container.
 */
module SearchInContainer {
  import opened Options
  import opened Mounts
  import opened StaticSearch
  import opened WrittenPath
  import P = PathResolver

  /** What a bind mount shows: a directory of this host that does not change meanwhile. */
  datatype Source = Source(world: P.World, tree: P.Tree)

  /** Where, below its own target, the mount is the one in effect. */
  ghost function InEffect(mounts: seq<Mount>, mount: Mount): P.Path -> bool {
    below => KernelMount(mounts, mount.target + below) == Some(mount)
  }

  /** Where it is in effect, the mount shows the host's directory; what is below it is measured by the resolver. */
  ghost predicate ShownAndMeasured(container: P.Tree, mounts: seq<Mount>, mount: Mount, path: ContainerPath,
      node: Node, source: Source)
    requires mount.target <= path
  {
    var relative := path[|mount.target|..];
    && P.Unchanging(source.world, source.tree) && P.Consistent(source.tree) && source.tree([]).Directory?
    && P.ShowsWhere(container, mount.target, source.tree, InEffect(mounts, mount))
    && Plain(container, [], mount.target)
    && node.measured(mount, relative) == BindPresence(source.world, source.tree, relative)
    && DotsFollow(source.tree, relative) && WayStaysIn(source.tree, InEffect(mounts, mount), relative)
  }

  /** The container is as its mounts say where the candidate lies. */
  ghost predicate AsMounted(container: P.Tree, cwd: P.Path, text: string, first: bool, mounts: seq<Mount>,
      node: Node, sources: Mount -> Source)
  {
    var place := Normalized(text);
    match LocatePlace(mounts, place)
    case None => KernelHas(container, cwd, text) ==> first
    case Some(mount) =>
      && DotsUndoSteps(container, [], [], [], P.Split(text), P.MAX_SYMLINK_HOPS)
      && if mount.kind.Config? || (mount.kind.Bind? && place.path == mount.target)
         then PlaceThere(container, cwd, place)
         else mount.kind.Bind? && node.here && mount.target <= place.path ==>
           ShownAndMeasured(container, mounts, mount, place.path, node, sources(mount))
  }

  /** What is measured below a bind mount is what the kernel finds. */
  lemma MeasuredIsFound(container: P.Tree, cwd: P.Path, mounts: seq<Mount>, mount: Mount, path: ContainerPath,
      node: Node, source: Source)
    requires mount.target <= path && ShownAndMeasured(container, mounts, mount, path, node, source)
    ensures node.measured(mount, path[|mount.target|..]).Present? ==> PlaceThere(container, cwd, At(path))
    ensures node.measured(mount, path[|mount.target|..]).Absent? ==> !PlaceThere(container, cwd, At(path))
  {
    var target, relative := mount.target, path[|mount.target|..];
    assert path == target + relative && [] + target == target;
    WalkOverPlain(container, [], target, relative, P.MAX_SYMLINK_HOPS);
    if !node.measured(mount, relative).Unknown? {
      MeasuredIff(source.world, source.tree, relative, container, target, InEffect(mounts, mount));
    }
    hide P.KernelWalk, DotsFollow, WayStaysIn, BindPresence;
  }

  predicate MustBeThere(mounts: seq<Mount>, node: Node, place: Place) {
    LocatePlace(mounts, place).Some? && PresenceAt(LocatePlace(mounts, place).value, place, node).Present?
  }

  /** A candidate at this place that the kernel finds, opening it as it is written. */
  ghost predicate SomeTextThere(container: P.Tree, cwd: P.Path, paths: seq<string>, place: Place) {
    exists i :: 0 <= i < |paths| && place == Normalized(paths[i]) && KernelHas(container, cwd, paths[i])
  }

  /** The kernel's answer at the candidates; elsewhere, where nobody asks, what must be there. */
  ghost function Answers(container: P.Tree, cwd: P.Path, paths: seq<string>, mounts: seq<Mount>, node: Node)
    : Place -> bool
  {
    place =>
      if exists i :: 0 <= i < |paths| && place == Normalized(paths[i])
      then SomeTextThere(container, cwd, paths, place) else MustBeThere(mounts, node, place)
  }

  lemma AnswersAreAllowed(container: P.Tree, cwd: P.Path, paths: seq<string>, explicit: bool, mounts: seq<Mount>,
      node: Node, sources: Mount -> Source)
    requires forall i :: 0 <= i < |paths| ==>
      AsMounted(container, cwd, paths[i], explicit && i == 0, mounts, node, sources)
    ensures Allowed(Answers(container, cwd, paths, mounts, node), paths, explicit, mounts, node)
  {
    var there := Answers(container, cwd, paths, mounts, node);
    hide KernelHas, PresenceAt, LocatePlace, Normalized, AsMounted;
    forall place: Place
      ensures match LocatePlace(mounts, place)
        case None => there(place) ==> explicit && paths != [] && place == Normalized(paths[0])
        case Some(mount) =>
          && (PresenceAt(mount, place, node).Present? ==> there(place))
          && (PresenceAt(mount, place, node).Absent? ==> !there(place))
    {
      forall i | 0 <= i < |paths| && place == Normalized(paths[i])
        ensures Answered(container, cwd, paths[i], explicit && i == 0, mounts, node)
      {
        CandidateAnswered(container, cwd, paths[i], explicit && i == 0, mounts, node, sources);
      }
    }
  }

  /** What the kernel finds, opening the text, is what the search takes to be there. */
  ghost predicate Answered(container: P.Tree, cwd: P.Path, text: string, first: bool, mounts: seq<Mount>,
      node: Node)
  {
    var place := Normalized(text);
    match LocatePlace(mounts, place)
    case None => KernelHas(container, cwd, text) ==> first
    case Some(mount) =>
      && (PresenceAt(mount, place, node).Present? ==> KernelHas(container, cwd, text))
      && (PresenceAt(mount, place, node).Absent? ==> !KernelHas(container, cwd, text))
  }

  lemma CandidateAnswered(container: P.Tree, cwd: P.Path, text: string, first: bool, mounts: seq<Mount>,
      node: Node, sources: Mount -> Source)
    requires AsMounted(container, cwd, text, first, mounts, node, sources)
    ensures Answered(container, cwd, text, first, mounts, node)
  {
    var place := Normalized(text);
    var mount := LocatePlace(mounts, place);
    if mount.Some? {
      WrittenIsThere(container, cwd, text);
      if mount.value.kind.Bind? && place.path != mount.value.target && node.here
        && mount.value.target <= place.path {
        MeasuredIsFound(container, cwd, mounts, mount.value, place.path, node, sources(mount.value));
      }
    }
    hide KernelHas, PlaceThere, ShownAndMeasured, Normalized, DotsUndoSteps;
  }

  /**
   In a container that is as its mounts say at the candidates: the file the search locates is the
   first candidate that the kernel finds there, opening each as it is written; no file means that
   it finds none; and the search gives up only behind candidates that it does not find.
   */
  lemma SearchFindsWhatTheKernelFinds(container: P.Tree, cwd: P.Path, paths: seq<string>, explicit: bool,
      mounts: seq<Mount>, node: Node, sources: Mount -> Source)
    requires forall i :: 0 <= i < |paths| ==>
      AsMounted(container, cwd, paths[i], explicit && i == 0, mounts, node, sources)
    ensures match SearchFrom(paths, 0, explicit, mounts, node)
      case Found(i, mount) =>
        && i < |paths| && KernelHas(container, cwd, paths[i])
        && forall k :: 0 <= k < i ==> !KernelHas(container, cwd, paths[k])
      case Undecidable(i) => i < |paths| && forall k :: 0 <= k < i ==> !KernelHas(container, cwd, paths[k])
      case NoFile => forall k :: 0 <= k < |paths| ==> !KernelHas(container, cwd, paths[k])
      case RelativeFile => false
  {
    var there := Answers(container, cwd, paths, mounts, node);
    AnswersAreAllowed(container, cwd, paths, explicit, mounts, node, sources);
    SearchIsSound(there, paths, 0, explicit, mounts, node);
    hide KernelHas, PresenceAt, LocatePlace, Normalized, SearchFrom, AsMounted, Allowed;
    forall k | 0 <= k < |paths| && KernelHas(container, cwd, paths[k]) ensures there(Normalized(paths[k])) {
      assert SomeTextThere(container, cwd, paths, Normalized(paths[k]));
    }
    var r := SearchFrom(paths, 0, explicit, mounts, node);
    if r.Found? {
      SameAnswer(container, cwd, paths, r.index, explicit, mounts, node, sources);
    }
  }

  /** Candidates written differently for one mounted place get one answer. */
  lemma SameAnswer(container: P.Tree, cwd: P.Path, paths: seq<string>, i: nat, explicit: bool, mounts: seq<Mount>,
      node: Node, sources: Mount -> Source)
    requires i < |paths| && LocatePlace(mounts, Normalized(paths[i])).Some?
    requires forall k :: 0 <= k < |paths| ==>
      AsMounted(container, cwd, paths[k], explicit && k == 0, mounts, node, sources)
    requires SomeTextThere(container, cwd, paths, Normalized(paths[i]))
    ensures KernelHas(container, cwd, paths[i])
  {
    var k :| 0 <= k < |paths| && Normalized(paths[i]) == Normalized(paths[k]) && KernelHas(container, cwd, paths[k]);
    assert AsMounted(container, cwd, paths[k], explicit && k == 0, mounts, node, sources);
    assert AsMounted(container, cwd, paths[i], explicit && i == 0, mounts, node, sources);
    WrittenIsThere(container, cwd, paths[i]);
    WrittenIsThere(container, cwd, paths[k]);
    hide KernelHas, PlaceThere, Normalized, DotsUndoSteps, ShownAndMeasured;
  }
}
