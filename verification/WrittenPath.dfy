/**
 A path text as the program opens it, component by component, against the normalized path that
 the search looks at instead.
 */
module WrittenPath {
  import opened Mounts
  import opened StaticSearch
  import P = PathResolver

  /** The kernel's walk of the names from a directory of the container. */
  function Kernel(container: P.Tree, dir: P.Path, names: P.Path, links: nat): P.Arrival {
    P.KernelWalk(container, dir, names, true, links)
  }

  /** Opening the text inside the container, from its working directory, gets to an existing node. */
  ghost predicate KernelHas(container: P.Tree, cwd: P.Path, text: string) {
    ThereFor(container, Kernel(container, if P.IsAbsolute(text) then [] else cwd, P.Split(text), P.MAX_SYMLINK_HOPS))
  }

  /** Opening the place the search looks at. */
  ghost predicate PlaceThere(container: P.Tree, cwd: P.Path, place: Place) {
    match place
    case At(path) => ThereFor(container, Kernel(container, [], path, P.MAX_SYMLINK_HOPS))
    case Nowhere(text) => KernelHas(container, cwd, text)
  }

  /**
   Each `.` and empty name is met in a directory, and each `..` undoes a step into a plain
   directory or is met at the top; names that no `..` undoes may be anything.  The normalized path
   read so far is `above + done`; the kernel stands at `base + done`, where `done` are plain
   directories.
   */
  ghost predicate DotsUndoSteps(container: P.Tree, above: P.Path, base: P.Path, done: P.Path, pieces: P.Path,
      links: nat)
    decreases links, |pieces|
  {
    P.Physical(pieces) || (
      var here, name, rest := base + done, pieces[0], pieces[1..];
      && container(here).Directory?
      && if P.Skipped(name) then DotsUndoSteps(container, above, base, done, rest, links)
         else if name == ".." then
           if done != [] then DotsUndoSteps(container, above, base, P.Parent(done), rest, links)
           else above == base == [] && DotsUndoSteps(container, [], [], [], rest, links)
         else
           match container(here + [name])
           case Directory(_) => DotsUndoSteps(container, above, base, done + [name], rest, links)
           case Link(target) =>
             links > 0 && (
               var dir := if P.IsAbsolute(target) then [] else here;
               match P.KernelWalk(container, dir, P.Split(target), false, links - 1)
               case Stopped(_) => false
               case Reached(there, left) => DotsUndoSteps(container, above + done + [name], there, [], rest, left))
           case _ => false)
  }

  lemma {:induction false} ClimbedIsPhysical(pieces: seq<string>, above: ContainerPath)
    requires P.Physical(above)
    ensures P.Physical(Climbed(pieces, above))
    decreases |pieces|
  {
    if pieces != [] {
      if P.Skipped(pieces[0]) {
        ClimbedIsPhysical(pieces[1..], above);
      } else if pieces[0] == ".." {
        ClimbedIsPhysical(pieces[1..], if above == [] then [] else above[..|above| - 1]);
      } else {
        ClimbedIsPhysical(pieces[1..], above + [pieces[0]]);
      }
    }
  }

  lemma {:induction false} ClimbedNames(pieces: seq<string>, above: ContainerPath)
    requires P.Physical(pieces)
    ensures Climbed(pieces, above) == above + pieces
    decreases |pieces|
  {
    if pieces != [] {
      assert P.PhysicalName(pieces[0]);
      ClimbedNames(pieces[1..], above + [pieces[0]]);
      assert above + [pieces[0]] + pieces[1..] == above + pieces;
    }
  }

  /** Every step from `base` along `done` is a directory. */
  ghost predicate Plain(container: P.Tree, base: P.Path, done: P.Path) {
    P.Physical(done) && (done != [] ==> forall i :: 0 <= i <= |done| ==> container(base + done[..i]).Directory?)
  }

  /** Over plain directories the walk goes on below them. */
  lemma {:induction false} WalkOverPlain(container: P.Tree, base: P.Path, done: P.Path, names: P.Path, links: nat)
    requires Plain(container, base, done)
    ensures Kernel(container, base, done + names, links) == Kernel(container, base + done, names, links)
    decreases |done|
  {
    if done == [] {
      assert done + names == names && base + done == base;
    } else {
      var step, rest := base + [done[0]], done[1..];
      assert done[..0] == [] && done[..1] == [done[0]] && base + [] == base;
      assert P.PhysicalName(done[0]);
      assert container(base + done[..0]).Directory? && container(base + done[..1]).Directory?;
      assert (done + names)[1..] == rest + names && step + rest == base + done;
      forall i | 0 <= i <= |rest| ensures container(step + rest[..i]).Directory? {
        assert step + rest[..i] == base + done[..i + 1];
      }
      WalkOverPlain(container, step, rest, names, links);
    }
  }

  /** Walking `above` from the top leads to `base` with `links` left, whatever follows. */
  ghost predicate LeadsTo(container: P.Tree, above: P.Path, base: P.Path, links: nat) {
    forall names: P.Path ::
      Kernel(container, [], above + names, P.MAX_SYMLINK_HOPS) == Kernel(container, base, names, links)
  }

  /** A walk that arrives before more names also arrives as the last one. */
  lemma {:induction false} LastArrivesToo(container: P.Tree, dir: P.Path, names: P.Path, links: nat)
    requires P.KernelWalk(container, dir, names, false, links).Reached?
    ensures P.KernelWalk(container, dir, names, true, links) == P.KernelWalk(container, dir, names, false, links)
    decreases links, |names|
  {
    if names != [] {
      var name, rest := names[0], names[1..];
      if P.Skipped(name) {
        LastArrivesToo(container, dir, rest, links);
      } else if name == ".." {
        LastArrivesToo(container, if dir == [] then [] else P.Parent(dir), rest, links);
      } else {
        var here := dir + [name];
        match container(here)
        case Directory(_) => LastArrivesToo(container, here, rest, links);
        case File(_, _) => LastArrivesToo(container, here, rest, links);
        case Link(target) =>
          var from := if P.IsAbsolute(target) then [] else dir;
          LastArrivesToo(container, from, P.Split(target), links - 1);
          var first := P.KernelWalk(container, from, P.Split(target), false, links - 1);
          LastArrivesToo(container, first.path, rest, first.left);
      }
    }
  }

  lemma LeadsOverLink(container: P.Tree, above: P.Path, base: P.Path, done: P.Path, name: string, links: nat)
    requires LeadsTo(container, above, base, links) && Plain(container, base, done) && P.PhysicalName(name)
    requires container(base + done).Directory? && container(base + done + [name]).Link? && links > 0
    requires var target := container(base + done + [name]).target;
      P.KernelWalk(container, if P.IsAbsolute(target) then [] else base + done, P.Split(target), false,
        links - 1).Reached?
    ensures var target := container(base + done + [name]).target;
      var first := P.KernelWalk(container, if P.IsAbsolute(target) then [] else base + done, P.Split(target), false,
        links - 1);
      LeadsTo(container, above + done + [name], first.path, first.left)
  {
    var here, target := base + done, container(base + done + [name]).target;
    var from := if P.IsAbsolute(target) then [] else here;
    var first := P.KernelWalk(container, from, P.Split(target), false, links - 1);
    LastArrivesToo(container, from, P.Split(target), links - 1);
    forall names: P.Path
      ensures Kernel(container, [], above + done + [name] + names, P.MAX_SYMLINK_HOPS)
        == Kernel(container, first.path, names, first.left)
    {
      var todo := [name] + names;
      assert above + done + [name] + names == above + (done + todo);
      assert Kernel(container, base, done + todo, links)
        == Kernel(container, [], above + (done + todo), P.MAX_SYMLINK_HOPS);
      WalkOverPlain(container, base, done, todo, links);
      assert todo[0] == name && todo[1..] == names;
    }
  }

  /** Then walking the text as written is walking the normalized path. */
  lemma {:induction false} WrittenIsNormalized(container: P.Tree, above: P.Path, base: P.Path, done: P.Path,
      pieces: P.Path, links: nat)
    requires DotsUndoSteps(container, above, base, done, pieces, links)
    requires LeadsTo(container, above, base, links) && Plain(container, base, done)
    ensures Kernel(container, base + done, pieces, links)
      == Kernel(container, [], Climbed(pieces, above + done), P.MAX_SYMLINK_HOPS)
    decreases links, |pieces|
  {
    var here := base + done;
    if P.Physical(pieces) {
      ClimbedNames(pieces, above + done);
      assert above + done + pieces == above + (done + pieces);
      assert Kernel(container, base, done + pieces, links)
        == Kernel(container, [], above + (done + pieces), P.MAX_SYMLINK_HOPS);
      WalkOverPlain(container, base, done, pieces, links);
    } else {
      var name, rest := pieces[0], pieces[1..];
      if P.Skipped(name) {
        WrittenIsNormalized(container, above, base, done, rest, links);
      } else if name == ".." {
        hide LeadsTo;
        if done != [] {
          var up := P.Parent(done);
          assert P.Parent(here) == base + up && (above + done)[..|above + done| - 1] == above + up;
          assert forall i :: 0 <= i <= |up| ==> up[..i] == done[..i];
          WrittenIsNormalized(container, above, base, up, rest, links);
        } else {
          WrittenIsNormalized(container, [], [], [], rest, links);
        }
      } else {
        NameIsNormalized(container, above, base, done, pieces, links);
      }
    }
  }

  lemma {:induction false} NameIsNormalized(container: P.Tree, above: P.Path, base: P.Path, done: P.Path,
      pieces: P.Path, links: nat)
    requires DotsUndoSteps(container, above, base, done, pieces, links)
    requires LeadsTo(container, above, base, links) && Plain(container, base, done)
    requires !P.Physical(pieces) && P.PhysicalName(pieces[0])
    ensures Kernel(container, base + done, pieces, links)
      == Kernel(container, [], Climbed(pieces, above + done), P.MAX_SYMLINK_HOPS)
    decreases links, |pieces|, 0
  {
    var here, name, rest := base + done, pieces[0], pieces[1..];
    P.KernelStep(container, here, pieces, true, links);
    assert rest != [];
    if container(here + [name]).Directory? {
      var further := done + [name];
      assert base + further == here + [name] && above + further == above + done + [name];
      PlainGrows(container, base, done, name);
      hide LeadsTo, Plain;
      WrittenIsNormalized(container, above, base, further, rest, links);
    } else {
      LeadsOverLink(container, above, base, done, name, links);
      var target := container(here + [name]).target;
      var first := P.KernelWalk(container, if P.IsAbsolute(target) then [] else here, P.Split(target), false,
        links - 1);
      assert first.path + [] == first.path && above + done + [name] + [] == above + done + [name];
      hide LeadsTo;
      WrittenIsNormalized(container, above + done + [name], first.path, [], rest, first.left);
    }
  }

  lemma PlainGrows(container: P.Tree, base: P.Path, done: P.Path, name: string)
    requires Plain(container, base, done) && P.PhysicalName(name)
    requires container(base + done).Directory? && container(base + done + [name]).Directory?
    ensures Plain(container, base, done + [name])
  {
    var further := done + [name];
    assert base + further == base + done + [name] && done[..|done|] == done;
    forall i | 0 <= i <= |further| ensures container(base + further[..i]).Directory? {
      assert further[..i] == if i <= |done| then done[..i] else further;
      assert i == |done| ==> further[..i] == done;
    }
  }

  /** The text as written leads where the search looks, if its dots only undo plain steps. */
  lemma WrittenIsThere(container: P.Tree, cwd: P.Path, text: string)
    requires Normalized(text).At? ==>
      DotsUndoSteps(container, [], [], [], P.Split(text), P.MAX_SYMLINK_HOPS)
    ensures KernelHas(container, cwd, text) <==> PlaceThere(container, cwd, Normalized(text))
  {
    if Normalized(text).At? {
      forall names: P.Path
        ensures Kernel(container, [], [] + names, P.MAX_SYMLINK_HOPS)
          == Kernel(container, [], names, P.MAX_SYMLINK_HOPS)
      {
        assert [] + names == names;
      }
      WrittenIsNormalized(container, [], [], [], P.Split(text), P.MAX_SYMLINK_HOPS);
    }
  }

  /**
   The case that fails: with a link `/l` to `o/p`, opening `/l/../t` looks for `/o/t`; the search
   looks at `/t`.
   */
  lemma DotDotAfterLinkDiffers(container: P.Tree, cwd: P.Path)
    requires container([]).Directory? && container(["o"]).Directory? && container(["o", "p"]).Directory?
    requires container(["l"]) == P.Link("o/p") && container(["t"]).File? && container(["o", "t"]).Missing?
    ensures PlaceThere(container, cwd, Normalized("/l/../t")) && !KernelHas(container, cwd, "/l/../t")
  {
    SplitsHere();
    NamesHere();
    hide P.KernelWalk, P.Split, Normalized, P.PhysicalName;
    var hops := P.MAX_SYMLINK_HOPS;
    assert [] + ["t"] == ["t"] && ["t"][1..] == [] && ["", "l", "..", "t"][1..] == ["l", "..", "t"];
    P.KernelStep(container, [], ["t"], true, hops);
    P.KernelDone(container, ["t"], true, hops);
    KernelGoesElsewhere(container);
    P.KernelSkip(container, [], ["", "l", "..", "t"], true, hops);
  }

  lemma NamesHere()
    ensures P.PhysicalName("l") && P.PhysicalName("o") && P.PhysicalName("p") && P.PhysicalName("t")
  {
    assert "l"[0] == 'l' && "o"[0] == 'o' && "p"[0] == 'p' && "t"[0] == 't' && "."[0] == '.';
  }

  lemma KernelGoesElsewhere(container: P.Tree)
    requires container([]).Directory? && container(["o"]).Directory? && container(["o", "p"]).Directory?
    requires container(["l"]) == P.Link("o/p") && container(["o", "t"]).Missing? && P.Split("o/p") == ["o", "p"]
    ensures Kernel(container, [], ["l", "..", "t"], P.MAX_SYMLINK_HOPS)
      == P.Reached(["o", "t"], P.MAX_SYMLINK_HOPS - 1)
  {
    NamesHere();
    hide P.KernelWalk, P.Split, P.PhysicalName;
    var hops := P.MAX_SYMLINK_HOPS;
    assert [] + ["l"] == ["l"] && ["l", "..", "t"][1..] == ["..", "t"];
    P.KernelStep(container, [], ["l", "..", "t"], true, hops);
    LinkFollowed(container, hops - 1);
    assert P.Parent(["o", "p"]) == ["o"] && ["..", "t"][1..] == ["t"];
    P.KernelUp(container, ["o", "p"], ["..", "t"], true, hops - 1);
    assert ["o"] + ["t"] == ["o", "t"] && ["t"][1..] == [];
    P.KernelStep(container, ["o"], ["t"], true, hops - 1);
    assert !P.IsAbsolute("o/p");
  }

  lemma LinkFollowed(container: P.Tree, links: nat)
    requires container([]).Directory? && container(["o"]).Directory? && container(["o", "p"]).Directory?
    ensures P.KernelWalk(container, [], ["o", "p"], false, links) == P.Reached(["o", "p"], links)
  {
    NamesHere();
    hide P.KernelWalk, P.PhysicalName;
    assert [] + ["o"] == ["o"] && ["o"] + ["p"] == ["o", "p"] && ["o", "p"][1..] == ["p"] && ["p"][1..] == [];
    P.KernelStep(container, [], ["o", "p"], false, links);
    P.KernelStep(container, ["o"], ["p"], false, links);
    P.KernelDone(container, ["o", "p"], false, links);
  }

  lemma SplitsHere()
    ensures P.Split("/l/../t") == ["", "l", "..", "t"] && P.Split("o/p") == ["o", "p"]
    ensures Normalized("/l/../t") == At(["t"])
  {
    P.SplitInTwo('o', 'p');
    assert ['o', '/', 'p'] == "o/p" && ['o'] == "o" && ['p'] == "p";
    SplitDots();
    P.SplitStep('l', "/../t");
    P.SplitStep('/', "l/../t");
    assert ['l'] + "/../t" == "l/../t" && ['/'] + "l/../t" == "/l/../t" && ['l'] + "" == "l";
    hide P.Split;
    assert "/l/../t"[1] == 'l' && !("//" <= "/l/../t");
    ClimbedHere();
  }

  lemma ClimbedHere()
    ensures Climbed(["", "l", "..", "t"], []) == ["t"]
  {
    var pieces: seq<string> := ["", "l", "..", "t"];
    assert pieces[1..] == ["l", "..", "t"] && pieces[1..][1..] == ["..", "t"] && pieces[1..][1..][1..] == ["t"];
    assert ["t"][1..] == [];
    assert Climbed(["t"], []) == ["t"];
    assert Climbed(["..", "t"], ["l"]) == ["t"];
    assert Climbed(["l", "..", "t"], []) == ["t"];
  }

  lemma SplitDots()
    ensures P.Split("/../t") == ["", "..", "t"]
  {
    P.SplitStep('t', "");
    P.SplitStep('/', "t");
    P.SplitStep('.', "/t");
    P.SplitStep('.', "./t");
    P.SplitStep('/', "../t");
    assert ['t'] + "" == "t" && ['/'] + "t" == "/t" && ['.'] + "/t" == "./t" && ['.'] + "./t" == "../t";
    assert ['/'] + "../t" == "/../t" && ['.'] + "" == "." && ['.'] + "." == "..";
  }
}
