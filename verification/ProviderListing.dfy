/** The listing of a directory provider over all mounts of the container. */
module ProviderListing {
  import opened Options
  import opened Sorting
  import opened TextOrder
  import opened Mounts
  import opened ProviderWalk
  import opened ProviderWalkFacts

  datatype SourceState = StatFails | NotDirectory | IsDirectory

  /**
   What this node can see.  `tree(mount, base)` is the directory the bind mount shows at the
   container path `base`, as scanning its host path finds it.
   */
  datatype Host = Host(here: bool, stat: Mount -> SourceState, tree: (Mount, ContainerPath) -> Dir)

  datatype Provider = InDirectory(directory: ContainerPath) | SingleFile(filename: ContainerPath) | Neither

  predicate Inside(directory: ContainerPath, target: ContainerPath) {
    Covers(directory, target) && target != directory
  }

  // ---- One mount -----------------------------------------------------------------------------

  function Noted(p: Progress, where: ContainerPath, cause: Cause): Progress {
    p.(notes := p.notes + [Note(where, cause)], found := [])
  }

  function FromMount(mounts: seq<Mount>, mount: Mount, directory: ContainerPath, host: Host, p: Progress): Progress {
    var inside := Inside(directory, mount.target);
    if mount.kind.Config? then
      p.(found := if inside && Dynamic(mount.target) then [Locate(mounts, mount.target)] else [])
    else if !mount.kind.Bind? then
      if inside then Noted(p, mount.target, OtherMount) else p.(found := [])
    else if inside then
      if Dynamic(mount.target) then p.(found := [Locate(mounts, mount.target)])
      else if !host.here then Noted(p, mount.target, NotHere)
      else
        match host.stat(mount)
        case StatFails => Noted(p, mount.target, NotListed)
        case NotDirectory => p.(found := [])
        case IsDirectory => Walked(mounts, mount, host.tree(mount, mount.target), mount.target, p)
    else if Covers(mount.target, directory) then
      if Locate(mounts, directory).mount != Some(mount) then p.(found := [])
      else if !host.here then Noted(p, directory, NotHere)
      else Walked(mounts, mount, host.tree(mount, directory), directory, p)
    else p.(found := [])
  }

  method FilesFromMount(mounts: seq<Mount>, mount: Mount, directory: ContainerPath, host: Host, listing: Listing,
      scan: Scan)
    returns (found: seq<Located>)
    modifies listing`notes, scan
    ensures Progress(scan.Value(), listing.notes, found)
         == FromMount(mounts, mount, directory, host, Progress(old(scan.Value()), old(listing.notes), []))
  {
    var target := mount.target;
    var inside := Covers(directory, target) && target != directory;
    if mount.kind.Config? {
      if inside && Dynamic(target) {
        var located := LocateInOrder(mounts, target);
        return [located];
      }
      return [];
    }
    if !mount.kind.Bind? {
      if inside {
        listing.notes := listing.notes + [Note(target, OtherMount)];
      }
      return [];
    }
    if inside {
      if Dynamic(target) {
        var located := LocateInOrder(mounts, target);
        return [located];
      }
      found := NestedBindFiles(mounts, mount, host, listing, scan);
      return;
    }
    if Covers(target, directory) {
      found := CoveringBindFiles(mounts, mount, directory, host, listing, scan);
      return;
    }
    return [];
  }

  method NestedBindFiles(mounts: seq<Mount>, mount: Mount, host: Host, listing: Listing, scan: Scan)
    returns (found: seq<Located>)
    modifies listing`notes, scan
    ensures var p := Progress(old(scan.Value()), old(listing.notes), []);
      Progress(scan.Value(), listing.notes, found) ==
        if !host.here then Noted(p, mount.target, NotHere)
        else match host.stat(mount)
             case StatFails => Noted(p, mount.target, NotListed)
             case NotDirectory => p
             case IsDirectory => Walked(mounts, mount, host.tree(mount, mount.target), mount.target, p)
  {
    if !host.here {
      listing.notes := listing.notes + [Note(mount.target, NotHere)];
      return [];
    }
    var info := host.stat(mount);
    if info.StatFails? {
      listing.notes := listing.notes + [Note(mount.target, NotListed)];
      return [];
    }
    if info.NotDirectory? {
      return [];
    }
    found := Walk(mounts, mount, host.tree(mount, mount.target), mount.target, listing, scan);
  }

  method CoveringBindFiles(mounts: seq<Mount>, mount: Mount, directory: ContainerPath, host: Host,
      listing: Listing, scan: Scan)
    returns (found: seq<Located>)
    modifies listing`notes, scan
    ensures var p := Progress(old(scan.Value()), old(listing.notes), []);
      Progress(scan.Value(), listing.notes, found) ==
        if Locate(mounts, directory).mount != Some(mount) then p
        else if !host.here then Noted(p, directory, NotHere)
        else Walked(mounts, mount, host.tree(mount, directory), directory, p)
  {
    var base := LocateInOrder(mounts, directory);
    if base.mount != Some(mount) {
      return [];
    }
    if !host.here {
      listing.notes := listing.notes + [Note(directory, NotHere)];
      return [];
    }
    found := Walk(mounts, mount, host.tree(mount, directory), directory, listing, scan);
  }

  // ---- All mounts ------------------------------------------------------------------------------

  /** The files found so far, in the order in which they were found, each path once. */
  function Merge(found: seq<Located>, more: seq<Located>): seq<Located>
    decreases |more|
  {
    if more == [] then found
    else Merge(if Lists(found, more[0].path) then found else found + [more[0]], more[1..])
  }

  /** One more mount: the file count starts from what is known, and known paths stay. */
  function Gather(mounts: seq<Mount>, mount: Mount, directory: ContainerPath, host: Host, p: Progress): Progress {
    var q := FromMount(mounts, mount, directory, host, p.(counters := p.counters.(files := |p.found|), found := []));
    q.(found := Merge(p.found, q.found))
  }

  /** After the first k mounts. */
  function Gathered(mounts: seq<Mount>, directory: ContainerPath, host: Host, k: nat): Progress
    requires k <= |mounts|
  {
    if k == 0 then Progress(Counters(0, 0, false), [], [])
    else Gather(mounts, mounts[k - 1], directory, host, Gathered(mounts, directory, host, k - 1))
  }

  function Texts(located: seq<Located>): (texts: seq<string>)
    ensures |texts| == |located|
  {
    seq(|located|, i requires 0 <= i < |located| => Render(located[i].path))
  }

  function WithText(located: seq<Located>, text: string): Located
    requires text in Texts(located)
  {
    if Render(located[0].path) == text then located[0]
    else
      assert exists i :: 0 < i < |located| && Texts(located[1..])[i - 1] == Texts(located)[i] == text;
      WithText(located[1..], text)
  }

  /** The files in the order of their path texts. */
  function InPathOrder(found: seq<Located>): seq<Located> {
    var texts := Sorted(Less, Texts(found));
    MembersByMultiset(Texts(found), texts);
    seq(|texts|, i requires 0 <= i < |texts| => WithText(found, texts[i]))
  }

  function OwnerNote(mounts: seq<Mount>, directory: ContainerPath): seq<Note> {
    var owner := Locate(mounts, directory).mount;
    if owner.None? || owner.value.kind.Bind? || owner.value.kind.Config? then [] else [Note(directory, OtherMount)]
  }

  function UnmountedNote(mounts: seq<Mount>, directory: ContainerPath): seq<Note> {
    if Locate(mounts, directory).mount.Some? then []
    else if exists i :: 0 <= i < |mounts| && Covers(directory, mounts[i].target) then []
    else [Note(directory, NotMounted)]
  }

  function FirstNote(mounts: seq<Mount>, directory: ContainerPath): seq<Note> {
    var note := OwnerNote(mounts, directory);
    if note != [] then note else UnmountedNote(mounts, directory)
  }

  function ListedFiles(mounts: seq<Mount>, directory: ContainerPath, host: Host): seq<Located> {
    var ordered := InPathOrder(Gathered(mounts, directory, host, |mounts|).found);
    if |ordered| <= MAX_PROVIDER_FILES then ordered else ordered[..MAX_PROVIDER_FILES]
  }

  function ListedNotes(mounts: seq<Mount>, directory: ContainerPath, host: Host): seq<Note> {
    var gathered := Gathered(mounts, directory, host, |mounts|);
    FirstNote(mounts, directory) + gathered.notes
      + if |InPathOrder(gathered.found)| <= MAX_PROVIDER_FILES then [] else [Note(directory, TooManyFiles)]
  }

  method ProviderFiles(mounts: seq<Mount>, provider: Provider, host: Host) returns (listing: Listing)
    ensures fresh(listing)
    ensures match provider
      case Neither => listing.files == [] && listing.notes == []
      case SingleFile(filename) => listing.files == [Locate(mounts, filename)] && listing.notes == []
      case InDirectory(directory) =>
        && listing.files == ListedFiles(mounts, directory, host)
        && listing.notes == ListedNotes(mounts, directory, host)
  {
    listing := new Listing();
    if provider.Neither? {
      return;
    }
    if provider.SingleFile? {
      var located := LocateInOrder(mounts, provider.filename);
      listing.files := [located];
      return;
    }
    var directory := provider.directory;
    var found := CollectFiles(mounts, directory, host, listing);
    var ordered := InPathOrder(found);
    if |ordered| > MAX_PROVIDER_FILES {
      listing.notes := listing.notes + [Note(directory, TooManyFiles)];
      ordered := ordered[..MAX_PROVIDER_FILES];
    }
    listing.files := ordered;
    listing.notes := FirstNote(mounts, directory) + listing.notes;
  }

  method CollectFiles(mounts: seq<Mount>, directory: ContainerPath, host: Host, listing: Listing)
    returns (found: seq<Located>)
    requires listing.notes == []
    modifies listing`notes
    ensures var gathered := Gathered(mounts, directory, host, |mounts|);
      found == gathered.found && listing.notes == gathered.notes
  {
    found := [];
    var scan := new Scan();
    var k := 0;
    while k < |mounts|
      invariant 0 <= k <= |mounts|
      invariant Progress(scan.Value(), listing.notes, found) == Gathered(mounts, directory, host, k)
    {
      scan.files := |found|;
      var more := FilesFromMount(mounts, mounts[k], directory, host, listing, scan);
      found := Merge(found, more);
      k := k + 1;
    }
  }
}
