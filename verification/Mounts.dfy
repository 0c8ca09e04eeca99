/**
 Which mount of the container a path comes from.  Container paths are absolute and
 normalized; a path is its list of names, `Render` is its text.
 */
module Mounts {
  import opened Options

  type ContainerPath = seq<string>

  datatype Kind = Bind | Volume | Config | Elsewhere   // Elsewhere: tmpfs, npipe, cluster, unknown

  datatype Mount = Mount(kind: Kind, target: ContainerPath, source: string)

  /** A container path and the mount it comes from; for a bind, where below its source. */
  datatype Located = Located(path: ContainerPath, mount: Option<Mount>, below: Option<seq<string>>)

  // ---- Paths as text -----------------------------------------------------------------------

  predicate ProperName(name: string) {
    name != "" && '/' !in name
  }

  ghost predicate Proper(path: ContainerPath) {
    forall i :: 0 <= i < |path| ==> ProperName(path[i])
  }

  function Slashed(path: ContainerPath): string {
    if path == [] then "" else "/" + path[0] + Slashed(path[1..])
  }

  function Render(path: ContainerPath): string {
    if path == [] then "/" else Slashed(path)
  }

  function WithoutTrailingSlashes(text: string): string {
    if text != "" && text[|text| - 1] == '/' then WithoutTrailingSlashes(text[..|text| - 1]) else text
  }

  /** The test the code makes on the two texts. */
  predicate TextCovers(target: string, path: string) {
    path == target || WithoutTrailingSlashes(target) + "/" <= path
  }

  predicate Covers(target: ContainerPath, path: ContainerPath) {
    target <= path
  }

  lemma FirstSlash(a: string, b: string, x: string, y: string)
    requires '/' !in a && '/' !in b
    requires x == "" || x[0] == '/'
    requires y == "" || y[0] == '/'
    requires a + x <= b + y && x != ""
    ensures a == b && x <= y
  {
    var s, t := a + x, b + y;
    assert forall i :: 0 <= i < |s| ==> s[i] == t[i];
    assert s[|a|] == '/';
    assert forall i :: 0 <= i < |b| ==> t[i] == b[i] && t[i] != '/';
    assert forall i :: 0 <= i < |a| ==> s[i] == a[i] && s[i] != '/';
    assert |b| <= |a|;
    assert y != "" && t[|b|] == '/';
    assert a == s[..|a|] && b == t[..|b|];
    assert x == s[|a|..] && y == t[|b|..];
  }

  lemma {:induction false} SlashedPrefix(target: ContainerPath, path: ContainerPath)
    requires Proper(target) && Proper(path)
    ensures Slashed(target) + "/" <= Slashed(path) <==> target < path
    ensures Slashed(target) == Slashed(path) <==> target == path
  {
    if target == [] {
      assert path != [] ==> Slashed(path)[0] == '/';
    } else if path == [] {
    } else {
      var t, p := target[0], path[0];
      var x, y := Slashed(target[1..]), Slashed(path[1..]);
      assert ProperName(t) && ProperName(p);
      SlashedPrefix(target[1..], path[1..]);
      assert target == [t] + target[1..] && path == [p] + path[1..];
      assert Slashed(target) + "/" == "/" + (t + (x + "/"));
      assert Slashed(target) == "/" + (t + x);
      assert Slashed(path) == "/" + (p + y);
      if Slashed(target) + "/" <= Slashed(path) {
        SameRest("/", t + (x + "/"), p + y);
        FirstSlash(t, p, x + "/", y);
        assert target < path;
      }
      if target < path {
        assert t == p && target[1..] < path[1..];
        assert x + "/" <= y;
        assert t + (x + "/") <= p + y;
      }
      if Slashed(target) == Slashed(path) {
        SameRest("/", t + x, p + y);
        SameText(t, p, x, y);
      }
    }
  }

  lemma SameRest(head: string, a: string, b: string)
    requires head + a <= head + b
    ensures a <= b
    ensures head + a == head + b ==> a == b
  {
    assert (head + a)[|head|..] == a && (head + b)[|head|..] == b;
  }

  lemma SameText(a: string, b: string, x: string, y: string)
    requires '/' !in a && '/' !in b
    requires x == "" || x[0] == '/'
    requires y == "" || y[0] == '/'
    requires a + x == b + y
    ensures a == b && x == y
  {
    if x != "" {
      FirstSlash(a, b, x, y);
    } else if y != "" {
      FirstSlash(b, a, y, x);
    } else {
      assert a + x == a && b + y == b;
    }
    assert |x| == |y|;
  }

  lemma RenderInjective(a: ContainerPath, b: ContainerPath)
    requires Proper(a) && Proper(b) && Render(a) == Render(b)
    ensures a == b
  {
    SlashedPrefix(a, b);
    AtLeastTwo(a);
    AtLeastTwo(b);
  }

  lemma AtLeastTwo(path: ContainerPath)
    requires Proper(path)
    ensures path != [] ==> |Slashed(path)| >= 2
  {
    assert path != [] ==> ProperName(path[0]);
  }

  lemma {:induction false} NoTrailingSlash(path: ContainerPath)
    requires Proper(path) && path != []
    ensures Slashed(path) != "" && Slashed(path)[|Slashed(path)| - 1] != '/'
  {
    assert ProperName(path[0]);
    if |path| > 1 {
      NoTrailingSlash(path[1..]);
    } else {
      assert Slashed(path) == "/" + path[0];
    }
  }

  /** The test on the texts is the prefix test on the names. */
  lemma CoversIsTextual(target: ContainerPath, path: ContainerPath)
    requires Proper(target) && Proper(path)
    ensures TextCovers(Render(target), Render(path)) <==> Covers(target, path)
  {
    SlashedPrefix(target, path);
    if target == [] {
      assert WithoutTrailingSlashes("/") == "" by {
        assert "/"[..0] == "";
      }
      assert "" + "/" == "/";
      assert path != [] ==> Slashed(path)[0] == '/';
    } else {
      NoTrailingSlash(target);
      assert WithoutTrailingSlashes(Render(target)) == Slashed(target);
      assert ProperName(target[0]);
      if path == [] {
        assert |Slashed(target) + "/"| > |"/"|;
      }
    }
  }

  lemma {:induction false} SlashedConcat(a: ContainerPath, b: ContainerPath)
    ensures Slashed(a + b) == Slashed(a) + Slashed(b)
  {
    if a == [] {
      assert a + b == b;
    } else {
      SlashedConcat(a[1..], b);
      assert (a + b)[1..] == a[1..] + b;
    }
  }

  /** Of two targets that cover a path, the one with more names has the longer text. */
  lemma LongerTextIsDeeper(a: ContainerPath, b: ContainerPath, path: ContainerPath)
    requires Proper(path) && a <= path && b <= path
    ensures |Render(a)| < |Render(b)| <==> |a| < |b|
  {
    DeeperIsLonger(a, b, path);
    DeeperIsLonger(b, a, path);
  }

  lemma DeeperIsLonger(a: ContainerPath, b: ContainerPath, path: ContainerPath)
    requires Proper(path) && a <= path && b <= path
    ensures |a| < |b| ==> |Render(a)| < |Render(b)|
    ensures |a| == |b| ==> a == b
  {
    if |a| < |b| {
      var rest := b[|a|..];
      assert b == a + rest;
      SlashedConcat(a, rest);
      assert rest[0] == path[|a|] && ProperName(rest[0]);
      assert |Slashed(rest)| >= 2;
    }
  }

  // ---- The lookup -----------------------------------------------------------------------------

  predicate Matches(mount: Mount, path: ContainerPath) {
    if mount.kind.Config? then path == mount.target else Covers(mount.target, path)
  }

  predicate Better(mount: Mount, best: Option<Mount>) {
    best.None? || |Render(mount.target)| > |Render(best.value.target)|
  }

  /** The mount kept after the mounts have been looked at in order. */
  function Owner(mounts: seq<Mount>, path: ContainerPath): Option<Mount> {
    if mounts == [] then None
    else
      var best := Owner(mounts[..|mounts| - 1], path);
      var mount := mounts[|mounts| - 1];
      if Matches(mount, path) && Better(mount, best) then Some(mount) else best
  }

  function Below(mount: Option<Mount>, path: ContainerPath): Option<seq<string>> {
    if mount.Some? && mount.value.kind.Bind? && mount.value.target <= path
    then Some(path[|mount.value.target|..]) else None
  }

  function Locate(mounts: seq<Mount>, path: ContainerPath): Located {
    var owner := Owner(mounts, path);
    Located(path, owner, Below(owner, path))
  }

  method LocateInOrder(mounts: seq<Mount>, path: ContainerPath) returns (located: Located)
    ensures located == Locate(mounts, path)
  {
    var best: Option<Mount> := None;
    var i := 0;
    while i < |mounts|
      invariant 0 <= i <= |mounts| && best == Owner(mounts[..i], path)
    {
      assert mounts[..i + 1][..i] == mounts[..i];
      var mount := mounts[i];
      if Matches(mount, path) && Better(mount, best) {
        best := Some(mount);
      }
      i := i + 1;
    }
    assert mounts[..|mounts|] == mounts;
    return Located(path, best, Below(best, path));
  }

  // ---- What the lookup returns -----------------------------------------------------------------

  ghost predicate DistinctTargets(mounts: seq<Mount>) {
    forall i, k :: 0 <= i < k < |mounts| ==> mounts[i].target != mounts[k].target
  }

  /** No other mount that matches the path has a deeper target. */
  ghost predicate Deepest(mounts: seq<Mount>, path: ContainerPath, mount: Mount) {
    && mount in mounts && Matches(mount, path)
    && forall other :: other in mounts && Matches(other, path) ==> |other.target| <= |mount.target|
  }

  lemma {:induction false} OwnerIsDeepest(mounts: seq<Mount>, path: ContainerPath)
    requires Proper(path)
    ensures match Owner(mounts, path)
      case None => forall mount :: mount in mounts ==> !Matches(mount, path)
      case Some(mount) => Deepest(mounts, path, mount)
  {
    if mounts != [] {
      var front, mount := mounts[..|mounts| - 1], mounts[|mounts| - 1];
      OwnerIsDeepest(front, path);
      assert forall other :: other in mounts <==> other in front || other == mount;
      var best := Owner(front, path);
      if best.Some? && Matches(mount, path) {
        LongerTextIsDeeper(best.value.target, mount.target, path);
      }
    }
  }

  /** For a bind mount the lookup also tells where below its source the path lies, and for no other. */
  lemma LocatedBelow(mounts: seq<Mount>, path: ContainerPath)
    requires Proper(path)
    ensures var l := Locate(mounts, path);
      && l.path == path
      && (l.below.Some? <==> l.mount.Some? && l.mount.value.kind.Bind?)
      && (l.below.Some? ==> l.mount.value.target + l.below.value == path)
  {
    OwnerIsDeepest(mounts, path);
    hide Owner;
  }

  /** With distinct targets, the owner is the one matching mount no other is deeper than. */
  lemma OwnerIffDeepest(mounts: seq<Mount>, path: ContainerPath, mount: Mount)
    requires Proper(path) && DistinctTargets(mounts)
    ensures Owner(mounts, path) == Some(mount) <==> Deepest(mounts, path, mount)
  {
    OwnerIsDeepest(mounts, path);
    if Deepest(mounts, path, mount) {
      var owner := Owner(mounts, path);
      assert owner.Some?;
      assert owner.value.target == path[..|owner.value.target|];
      assert mount.target == path[..|mount.target|];
      assert mount.target == owner.value.target;
      var i :| 0 <= i < |mounts| && mounts[i] == mount;
      var k :| 0 <= k < |mounts| && mounts[k] == owner.value;
      assert i == k;
    }
  }

  // ---- The kernel's own lookup ------------------------------------------------------------------

  function MountedAt(mounts: seq<Mount>, point: ContainerPath): Option<Mount> {
    if mounts == [] then None
    else if mounts[0].target == point then Some(mounts[0])
    else MountedAt(mounts[1..], point)
  }

  /** The mount in effect at a path: the one at the path itself, else the one in effect above it. */
  function KernelMount(mounts: seq<Mount>, path: ContainerPath): Option<Mount> {
    var here := MountedAt(mounts, path);
    if here.Some? then here
    else if path == [] then None
    else KernelMount(mounts, path[..|path| - 1])
  }

  lemma {:induction false} MountedAtFinds(mounts: seq<Mount>, point: ContainerPath)
    ensures match MountedAt(mounts, point)
      case None => forall mount :: mount in mounts ==> mount.target != point
      case Some(mount) => mount in mounts && mount.target == point
  {
    if mounts != [] {
      MountedAtFinds(mounts[1..], point);
      assert forall mount :: mount in mounts <==> mount == mounts[0] || mount in mounts[1..];
    }
  }

  lemma {:induction false} KernelMountIsDeepest(mounts: seq<Mount>, path: ContainerPath)
    ensures match KernelMount(mounts, path)
      case None => forall mount :: mount in mounts ==> !(mount.target <= path)
      case Some(mount) =>
        && mount in mounts && mount.target <= path
        && forall other :: other in mounts && other.target <= path ==> |other.target| <= |mount.target|
    decreases |path|
  {
    MountedAtFinds(mounts, path);
    if MountedAt(mounts, path).None? {
      if path == [] {
        assert forall mount: Mount :: mount in mounts && mount.target <= path ==> mount.target == path;
      } else {
        var above := path[..|path| - 1];
        KernelMountIsDeepest(mounts, above);
        forall mount | mount in mounts && mount.target <= path ensures mount.target <= above {
          assert mount.target != path;
        }
      }
    }
  }

  /** The mount in effect is a config above the path: a file, so for the kernel nothing lies below it. */
  predicate UnderConfig(mounts: seq<Mount>, path: ContainerPath) {
    var kernel := KernelMount(mounts, path);
    kernel.Some? && kernel.value.kind.Config? && kernel.value.target != path
  }

  /**
   The lookup is the kernel's, "by longest target", except where the mount in effect is a
   config above the path: a config is a file, so the kernel finds nothing below it, while the
   lookup goes on to the mount around it.
   */
  lemma LocateIsKernelLookupIff(mounts: seq<Mount>, path: ContainerPath)
    requires Proper(path) && DistinctTargets(mounts)
    ensures (Owner(mounts, path) == KernelMount(mounts, path)) <==> !UnderConfig(mounts, path)
  {
    KernelMountIsDeepest(mounts, path);
    OwnerIsDeepest(mounts, path);
    var kernel := KernelMount(mounts, path);
    if kernel.Some? && !UnderConfig(mounts, path) {
      OwnerIffDeepest(mounts, path, kernel.value);
    }
  }

  /** The case that fails: below a config `/a` in a bind at `/`, the lookup of `/a/b` finds the bind. */
  lemma BelowConfigDiffers(root: Mount, file: Mount)
    requires root.kind == Bind && root.target == [] && file.kind == Config && file.target == ["a"]
    ensures Owner([root, file], ["a", "b"]) == Some(root)
    ensures KernelMount([root, file], ["a", "b"]) == Some(file)
  {
    var mounts, path := [root, file], ["a", "b"];
    assert ProperName("a") && ProperName("b");
    assert [] <= path && path != ["a"];
    assert mounts[..1] == [root] && mounts[..0] == [];
    assert Owner([root], path) == Some(root) by {
      assert [root][..0] == [];
    }
    KernelMountIsDeepest(mounts, path);
    assert file in mounts && file.target <= path;
  }
}
