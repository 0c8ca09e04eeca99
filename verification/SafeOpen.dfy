/**
 Reading a host file component by component through descriptors, while other processes may
 change the file system between any two system calls.
 */
module SafeOpen {
  import opened Options
  import opened PathResolver

  const MAX_FILE_BYTES: nat := 1024 * 1024

  /** The file system at one instant: directory entries and file contents by inode. */
  datatype Snapshot = Snapshot(root: Node, entries: map<(nat, string), Node>, contents: map<nat, seq<bv8>>,
    ioError: bool)

  function Entry(s: Snapshot, dir: nat, name: string): Node {
    if (dir, name) in s.entries then s.entries[(dir, name)] else Missing
  }

  function Content(s: Snapshot, inode: nat): seq<bv8> {
    if inode in s.contents then s.contents[inode] else []
  }

  /** The node at a path, where no component above it is a link. */
  function Lookup(s: Snapshot, path: Path): Node {
    if path == [] then s.root
    else
      match Lookup(s, Parent(path))
      case Directory(dir) => Entry(s, dir, path[|path| - 1])
      case Missing => Missing
      case _ => Failing
  }

  // ---- What the opens amount to ---------------------------------------------------------------

  /** One open per instant, each relative to the directory opened just before. */
  function Descend(world: nat -> Snapshot, now: nat, dir: nat, parts: Path): Option<Node>
    requires parts != []
    decreases |parts|
  {
    var node := Entry(world(now), dir, parts[0]);
    if |parts| == 1 then
      if Standing(node) then Some(node) else None
    else if node.Directory? then Descend(world, now + 1, node.inode, parts[1..])
    else None
  }

  function Opens(world: nat -> Snapshot, now: nat, parts: Path): Option<Node> {
    var root := world(now).root;
    if parts == [] then
      if Standing(root) then Some(root) else None
    else if root.Directory? then Descend(world, now + 1, root.inode, parts)
    else None
  }

  /**
   `node` was reached component by component: each one was, at the instant it was opened, a
   non-link entry of the very directory opened before it.
   */
  ghost predicate ReachedFrom(world: nat -> Snapshot, start: nat, dir: nat, parts: Path, node: Node)
    decreases |parts|
  {
    parts != [] && exists t: nat ::
      && start <= t
      && Standing(Entry(world(t), dir, parts[0]))
      && if |parts| == 1 then Entry(world(t), dir, parts[0]) == node
         else && Entry(world(t), dir, parts[0]).Directory?
              && ReachedFrom(world, t + 1, Entry(world(t), dir, parts[0]).inode, parts[1..], node)
  }

  lemma {:induction false} DescendIsChain(world: nat -> Snapshot, now: nat, dir: nat, parts: Path)
    requires parts != [] && Descend(world, now, dir, parts).Some?
    ensures ReachedFrom(world, now, dir, parts, Descend(world, now, dir, parts).value)
    decreases |parts|
  {
    var node := Entry(world(now), dir, parts[0]);
    if |parts| > 1 {
      DescendIsChain(world, now + 1, node.inode, parts[1..]);
    }
    assert Standing(Entry(world(now), dir, parts[0]));
  }

  // ---- Without interference -----------------------------------------------------------------

  ghost predicate Still(world: nat -> Snapshot, s: Snapshot) {
    forall t: nat :: world(t) == s
  }

  lemma LookupConsistent(s: Snapshot)
    ensures Consistent(p => Lookup(s, p))
  {
    var tree: Tree := p => Lookup(s, p);
    forall p: Path, name: string ensures tree(p).File? ==> tree(p + [name]).Failing? {
      assert Parent(p + [name]) == p;
    }
  }

  lemma {:induction false} DescendIsLookup(world: nat -> Snapshot, s: Snapshot, now: nat, above: Path, parts: Path)
    requires Still(world, s) && parts != []
    requires forall i :: 0 <= i < |above| + |parts| ==> Lookup(s, (above + parts)[..i]).Directory?
    requires Lookup(s, above).Directory?
    ensures var node := Lookup(s, above + parts);
      Descend(world, now, Lookup(s, above).inode, parts) == if Standing(node) then Some(node) else None
    decreases |parts|
  {
    var here := above + [parts[0]];
    assert Parent(here) == above;
    if |parts| > 1 {
      assert here + parts[1..] == above + parts;
      assert (above + parts)[..|here|] == here;
      DescendIsLookup(world, s, now + 1, here, parts[1..]);
    } else {
      assert here == above + parts;
    }
  }

  /**
   On an unchanging file system the descriptors lead to the node the resolver's path names;
   only a missing final component fails, with the ordinary error.
   */
  lemma OpenReachesResolvedNode(world: nat -> Snapshot, s: Snapshot, seen: World, relative: Path, now: nat)
    requires Still(world, s) && s.root.Directory?
    requires Unchanging(seen, p => Lookup(s, p))
    requires Resolve(seen, 0, [], relative, 0).Resolved?
    ensures var path := Resolve(seen, 0, [], relative, 0).path;
      Opens(world, now, path) == if Lookup(s, path).Missing? then None else Some(Lookup(s, path))
  {
    var tree: Tree := p => Lookup(s, p);
    LookupConsistent(s);
    ResolvedBelowDirectories(seen, tree, relative);
    var path := Resolve(seen, 0, [], relative, 0).path;
    if path != [] {
      var top: Path := [];
      assert top + path == path;
      forall i | 0 <= i < |top| + |path| ensures Lookup(s, (top + path)[..i]).Directory? {
        assert tree(path[..i]).Directory?;
      }
      assert Standing(tree(path)) || tree(path).Missing?;
      DescendIsLookup(world, s, now + 1, top, path);
    }
  }

  // ---- The process and its descriptors -----------------------------------------------------------

  /** Every descriptor open before still is, and the only new one is the one returned. */
  ghost predicate OnlyAdds(before: map<nat, Node>, after: map<nat, Node>, fd: Option<nat>) {
    match fd
    case None => after == before
    case Some(n) => n !in before && n in after && after == before[n := after[n]]
  }

  /** Closing the directory leaves what was open before, and the descriptor below it if any. */
  lemma CloseAbove(before: map<nat, Node>, directory: nat, node: Node, below: Option<nat>, reached: Node)
    requires directory !in before && (below.Some? ==> below.value != directory && below.value !in before)
    ensures before[directory := node] - {directory} == before
    ensures below.Some? ==>
      before[directory := node][below.value := reached] - {directory} == before[below.value := reached]
  {
  }

  datatype ReadResult = Text(data: seq<bv8>) | Unread

  /** A regular file of at most a mebibyte, at an instant at which reading works. */
  ghost predicate Readable(s: Snapshot, node: Node) {
    !s.ioError && node.File? && node.regular && |Content(s, node.inode)| <= 1_048_576
  }

  /** The content of a file that was readable at this instant and still is at the next, as it is then. */
  ghost function ReadAt(world: nat -> Snapshot, t: nat, node: Option<Node>): ReadResult {
    if node.Some? && Readable(world(t), node.value) && Readable(world(t + 1), node.value)
    then Text(Content(world(t + 1), node.value.inode)) else Unread
  }

  /** What reading a path has to give where nothing changes. */
  ghost predicate RightText(s: Snapshot, seen: World, relative: Path, r: ReadResult) {
    match Resolve(seen, 0, [], relative, 0)
    case Refused(_) => r.Unread?
    case Resolved(path) =>
      r == if Readable(s, Lookup(s, path)) then Text(Content(s, Lookup(s, path).inode)) else Unread
  }

  /** Opening what the resolver names, on an unchanging file system: a bind source that is a file included. */
  lemma OpenReachesNode(world: nat -> Snapshot, s: Snapshot, seen: World, relative: Path, now: nat)
    requires Still(world, s) && (s.root.Directory? || (relative == [] && Standing(s.root)))
    requires Unchanging(seen, p => Lookup(s, p))
    requires Resolve(seen, 0, [], relative, 0).Resolved?
    ensures var path := Resolve(seen, 0, [], relative, 0).path;
      Opens(world, now, path) == if Lookup(s, path).Missing? then None else Some(Lookup(s, path))
  {
    if s.root.Directory? {
      OpenReachesResolvedNode(world, s, seen, relative, now);
    }
  }

  class Process {
    const world: nat -> Snapshot
    var now: nat
    var open: map<nat, Node>   // open descriptors, and the node behind each
    var next: nat              // descriptors are numbered in the order they are opened

    ghost predicate Valid()
      reads this
    {
      forall fd :: fd in open ==> fd < next
    }

    constructor (world: nat -> Snapshot)
      ensures Valid() && open == map[] && this.world == world
    {
      this.world := world;
      now, open, next := 0, map[], 0;
    }

    method Register(node: Node) returns (fd: nat)
      requires Valid()
      modifies this`open, this`next
      ensures Valid() && fd !in old(open) && open == old(open)[fd := node]
    {
      fd := next;
      open := open[fd := node];
      next := next + 1;
    }

    method OpenRoot(directoryOnly: bool) returns (fd: Option<nat>)
      requires Valid()
      modifies this
      ensures Valid() && OnlyAdds(old(open), open, fd) && now == old(now) + 1
      ensures var root := world(old(now)).root;
        && (fd.Some? <==> Standing(root) && (directoryOnly ==> root.Directory?))
        && (fd.Some? ==> open[fd.value] == root)
    {
      var root := world(now).root;
      now := now + 1;
      if !Standing(root) || (directoryOnly && !root.Directory?) {
        return None;
      }
      var n := Register(root);
      return Some(n);
    }

    /** `openat` with O_NOFOLLOW: a link is refused, whatever it points to. */
    method OpenComponent(name: string, directoryOnly: bool, directory: nat) returns (fd: Option<nat>)
      requires Valid() && directory in open && open[directory].Directory?
      modifies this
      ensures Valid() && OnlyAdds(old(open), open, fd) && now == old(now) + 1
      ensures var node := Entry(world(old(now)), old(open)[directory].inode, name);
        && (fd.Some? <==> Standing(node) && (directoryOnly ==> node.Directory?))
        && (fd.Some? ==> open[fd.value] == node)
    {
      var node := Entry(world(now), open[directory].inode, name);
      now := now + 1;
      if !Standing(node) || (directoryOnly && !node.Directory?) {
        return None;
      }
      var n := Register(node);
      return Some(n);
    }

    /** Closing asks that the descriptor is open, so nothing is closed twice. */
    method Close(fd: nat)
      requires Valid() && fd in open
      modifies this`open
      ensures Valid() && open == old(open) - {fd}
    {
      open := open - {fd};
    }

    /**
     The descriptor of root/parts.  On every path, successful or not, each descriptor opened on
     the way is closed again except the one returned.
     */
    method OpenBelowRoot(parts: Path) returns (fd: Option<nat>)
      requires Valid()
      modifies this
      ensures Valid() && OnlyAdds(old(open), open, fd) && old(now) <= now
      ensures fd.Some? <==> Opens(world, old(now), parts).Some?
      ensures fd.Some? ==> open[fd.value] == Opens(world, old(now), parts).value
    {
      if parts == [] {
        fd := OpenRoot(false);
        return;
      }
      ghost var before := open;
      ghost var expected := Opens(world, now, parts);
      var root := OpenRoot(true);
      if root.None? {
        return None;
      }
      var directory := root.value;
      var index := 0;
      while index < |parts| - 1
        invariant Valid() && 0 <= index < |parts| && old(now) <= now
        invariant directory !in before && directory in open && open[directory].Directory?
        invariant open == before[directory := open[directory]]
        invariant expected == Descend(world, now, open[directory].inode, parts[index..])
      {
        ghost var node := open[directory];
        ghost var todo := parts[index..];
        assert todo[0] == parts[index] && todo[1..] == parts[index + 1..];
        var below := OpenComponent(parts[index], true, directory);
        if below.None? {
          Close(directory);
          CloseAbove(before, directory, node, None, Missing);
          return None;
        }
        CloseAbove(before, directory, node, below, open[below.value]);
        Close(directory);
        directory := below.value;
        index := index + 1;
      }
      ghost var node := open[directory];
      assert parts[index..] == [parts[index]];
      fd := OpenComponent(parts[index], false, directory);
      CloseAbove(before, directory, node, fd, if fd.Some? then open[fd.value] else Missing);
      Close(directory);
    }

    /**
     The bytes of a contained regular file, or nothing.  No descriptor outlives the call, and
     what is returned is the whole file as it was at one instant, never a truncated one.  Where
     nothing changes meanwhile, exactly the readable files are returned.
     */
    method ReadHostFile(seen: World, relative: Path) returns (r: ReadResult)
      requires Valid()
      modifies this
      ensures Valid() && open == old(open)
      ensures match Resolve(seen, 0, [], relative, 0)
        case Refused(_) => r.Unread?
        case Resolved(path) => exists t: nat :: old(now) <= t && r == ReadAt(world, t, Opens(world, old(now), path))
      ensures var s := world(old(now));
        Still(world, s) && (s.root.Directory? || (relative == [] && Standing(s.root)))
          && Unchanging(seen, p => Lookup(s, p)) ==>
        RightText(s, seen, relative, r)
    {
      var resolution := ResolveComponents(seen, relative);
      if resolution.Refused? {
        return Unread;
      }
      ghost var before, s := open, world(now);
      if Still(world, s) && (s.root.Directory? || (relative == [] && Standing(s.root)))
        && Unchanging(seen, p => Lookup(s, p)) {
        OpenReachesNode(world, s, seen, relative, now);
      }
      hide Resolve, Lookup, Opens, Unchanging;
      var fd := OpenBelowRoot(resolution.path);
      if fd.None? {
        r := Unread;
        assert r == ReadAt(world, now, None);
        return;
      }
      ghost var reached, t := open[fd.value], now;
      r := ReadDescriptor(fd.value);
      assert r == ReadAt(world, t, Some(reached));
      Close(fd.value);
      assert open == before;
    }

    /** Exactly what is a readable file both when it is checked and when it is read: as it is then. */
    method ReadDescriptor(fd: nat) returns (r: ReadResult)
      requires Valid() && fd in open
      modifies this`now
      ensures old(now) <= now
      ensures var checked, read := world(old(now)), world(old(now) + 1);
        && (r.Text? <==> Readable(checked, open[fd]) && Readable(read, open[fd]))
        && (r.Text? ==> r.data == Content(read, open[fd].inode))
    {
      var node := open[fd];
      var info := world(now);
      now := now + 1;
      if info.ioError || !node.File? || !node.regular {
        return Unread;
      }
      if |Content(info, node.inode)| > MAX_FILE_BYTES {
        return Unread;
      }
      var state := world(now);
      now := now + 1;
      if state.ioError {
        return Unread;
      }
      // The file may have grown since fstat: one byte beyond the limit is asked for.
      var content := Content(state, node.inode);
      var data := if |content| <= MAX_FILE_BYTES + 1 then content else content[..MAX_FILE_BYTES + 1];
      if |data| > MAX_FILE_BYTES {
        return Unread;
      }
      return Text(data);
    }
  }
}
