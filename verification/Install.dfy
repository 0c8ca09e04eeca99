/** The installer: a profile file that is rewritten in place, run after run. */
module Install {
  import opened Options
  import opened ManagedBlock

  const OPENING := " >>> terminal-status-panel >>>"
  const CLOSING := " <<< terminal-status-panel <<<"
  const MARKS: Marks := Marks("#" + OPENING, "#" + CLOSING)

  datatype Panel = Full | Server | Docker | Health | Traefik | Trouble {
    function Command(): string {
      match this
      case Full => "status-full"
      case Server => "status-server"
      case Docker => "status-docker"
      case Health => "status-health"
      case Traefik => "status-traefik"
      case Trouble => "status-trouble"
    }

    function Line(): string {
      "command -v " + Command() + " >/dev/null 2>&1 && " + Command()
    }
  }

  /** The lines joined with a text between them. */
  function Joined(panels: seq<Panel>, between: string): string {
    if panels == [] then ""
    else if |panels| == 1 then panels[0].Line()
    else panels[0].Line() + between + Joined(panels[1..], between)
  }

  const HEAD := "# terminal-status-panel login banner (managed by 'install-panel')\n"
    + "# Runs on interactive login shells, at full terminal width.\n"
    + "case $- in *i*) ;; *) return ;; esac\n"

  /** A profile file of the installer's own. */
  function ProfileFile(panels: seq<Panel>): string {
    HEAD + Joined(panels, "\n") + if panels == [] then "" else "\n"
  }

  /** What stands between the marks. */
  function Body(panels: seq<Panel>): string {
    "\ncase $- in *i*) " + Joined(panels, " ; ") + " ;; esac\n"
  }

  /** A file of the installer's own, or a block in a file of the user's. */
  datatype Kind = OwnFile | BlockIn

  /** What a file holds after a run, or that there is none. */
  function Applied(kind: Kind, content: Option<string>, panels: seq<Panel>, uninstall: bool): Option<string> {
    match kind
    case OwnFile => if uninstall then None else Some(ProfileFile(panels))
    case BlockIn =>
      if !uninstall then Some(Installed(MARKS, TextOf(content), Body(panels)))
      else if content.None? then None
      else Some(Stripped(MARKS, content.value))
  }

  function TextOf(content: Option<string>): string {
    if content.None? then "" else content.value
  }

  class Profile {
    const kind: Kind
    var content: Option<string>

    constructor (kind: Kind, content: Option<string>)
      ensures this.kind == kind && this.content == content
    {
      this.kind, this.content := kind, content;
    }

    /** One run of the installer; a dry run writes nothing. */
    method Apply(panels: seq<Panel>, uninstall: bool, dryRun: bool)
      modifies `content
      ensures content == if dryRun then old(content) else Applied(kind, old(content), panels, uninstall)
    {
      if uninstall {
        if kind == OwnFile {
          if content.Some? && !dryRun {
            content := None;
          }
        } else if content.Some? {
          var stripped := Stripped(MARKS, content.value);
          if !dryRun {
            content := Some(stripped);
          }
        }
        return;
      }
      if kind == OwnFile {
        if !dryRun {
          content := Some(ProfileFile(panels));
        }
      } else {
        var existing := if content.Some? then content.value else "";
        var own := TrimEnd(Stripped(MARKS, existing));
        var updated := (if own != "" then own + "\n\n" else "") + Block(MARKS, Body(panels));
        if !dryRun {
          content := Some(updated);
        }
      }
    }

    /** Any number of installs in a row. */
    method ApplyAll(runs: seq<seq<Panel>>)
      requires kind == BlockIn && runs != []
      requires !Occurs(Own(MARKS, TextOf(content)), MARKS.begin)
      modifies `content
      ensures content == Some(Installed(MARKS, old(TextOf(content)), Body(runs[|runs| - 1])))
    {
      ghost var text := TextOf(content);
      MarksAreApart();
      for i := 0 to |runs|
        invariant i == 0 ==> content == old(content)
        invariant i > 0 ==> content == Some(Installed(MARKS, text, Body(runs[i - 1])))
      {
        Apply(runs[i], false, false);
        if i > 0 {
          BodyIsClean(runs[i - 1]);
          BodyIsClean(runs[i]);
          ReinstallIff(MARKS, text, Body(runs[i - 1]), Body(runs[i]));
        }
      }
    }
  }

  lemma {:induction false} JoinedSplits(a: seq<Panel>, b: seq<Panel>, between: string)
    requires a != [] && b != []
    ensures Joined(a + b, between) == Joined(a, between) + between + Joined(b, between)
    decreases |a|
  {
    hide Panel.Line;
    if |a| == 1 {
      assert (a + b)[1..] == b;
    } else {
      JoinedSplits(a[1..], b, between);
      assert (a + b)[1..] == a[1..] + b;
      var first, more := a[0].Line(), Joined(a[1..], between);
      assert first + between + (more + between + Joined(b, between))
        == (first + between + more) + between + Joined(b, between);
    }
  }

  /** The joined text before a panel's line, and behind it. */
  function JoinedBefore(panels: seq<Panel>, between: string, k: nat): string
    requires k < |panels|
  {
    if k == 0 then "" else Joined(panels[..k], between) + between
  }

  function JoinedBehind(panels: seq<Panel>, between: string, k: nat): string
    requires k < |panels|
  {
    if k == |panels| - 1 then "" else between + Joined(panels[k + 1..], between)
  }

  lemma LineAndBehind(panels: seq<Panel>, between: string, k: nat)
    requires k < |panels|
    ensures Joined(panels[k..], between) == panels[k].Line() + JoinedBehind(panels, between, k)
  {
    var here, rest := [panels[k]], panels[k + 1..];
    assert panels[k..] == here + rest;
    assert Joined(here, between) == panels[k].Line();
    hide Panel.Line;
    if rest != [] {
      JoinedSplits(here, rest, between);
      hide Joined;
      Associates(panels[k].Line(), between, Joined(rest, between));
    } else {
      assert panels[k..] == here;
    }
  }

  lemma Associates(a: string, b: string, c: string)
    ensures a + b + c == a + (b + c)
  {
  }

  /** Every panel's line stands in the joined text, between those before it and those behind it. */
  lemma EachPanelStands(panels: seq<Panel>, between: string, k: nat)
    requires k < |panels|
    ensures Joined(panels, between)
      == JoinedBefore(panels, between, k) + (panels[k].Line() + JoinedBehind(panels, between, k))
  {
    hide Panel.Line, Joined, JoinedBehind;
    LineAndBehind(panels, between, k);
    if k == 0 {
      assert panels[0..] == panels;
      assert "" + Joined(panels, between) == Joined(panels, between);
    } else {
      JoinedSplits(panels[..k], panels[k..], between);
      assert panels[..k] + panels[k..] == panels;
    }
  }

  /** The line begins at position `i`, behind a line end, and is ended by one. */
  predicate LineAt(text: string, line: string, i: nat) {
    0 < i <= |text| && text[i - 1] == '\n' && line + "\n" <= text[i..]
  }

  lemma LineStands(before: string, line: string, behind: string)
    requires before != "" && before[|before| - 1] == '\n' && behind != "" && behind[0] == '\n'
    ensures LineAt(before + (line + behind), line, |before|)
  {
    var text := before + (line + behind);
    assert text[|before|..] == line + behind;
    assert behind == "\n" + behind[1..];
    assert line + behind == (line + "\n") + behind[1..];
  }

  /** A file of the installer's own holds every panel on a line of its own, and an uninstall takes it away. */
  lemma OwnFileHolds(content: Option<string>, panels: seq<Panel>, k: nat)
    requires k < |panels|
    ensures Applied(OwnFile, content, panels, true) == None
    ensures var file := Applied(OwnFile, content, panels, false);
      file.Some? && exists i: nat :: LineAt(file.value, panels[k].Line(), i)
  {
    assert ProfileFile(panels) == HEAD + Joined(panels, "\n") + "\n";
    EachPanelStands(panels, "\n", k);
    HeadEndsLine();
    BeforeEndsLine(panels, k);
    hide Panel.Line, Joined, ProfileFile, HEAD, JoinedBefore, JoinedBehind;
    LineInFile(HEAD, JoinedBefore(panels, "\n", k), panels[k].Line(), JoinedBehind(panels, "\n", k));
  }

  lemma BeforeEndsLine(panels: seq<Panel>, k: nat)
    requires k < |panels|
    ensures var before := JoinedBefore(panels, "\n", k); before == "" || before[|before| - 1] == '\n'
    ensures var behind := JoinedBehind(panels, "\n", k); behind == "" || behind[0] == '\n'
  {
    hide Joined;
  }

  lemma LineInFile(head: string, before: string, line: string, behind: string)
    requires head != "" && head[|head| - 1] == '\n'
    requires (before == "" || before[|before| - 1] == '\n') && (behind == "" || behind[0] == '\n')
    ensures exists i: nat :: LineAt(head + (before + (line + behind)) + "\n", line, i)
  {
    var start, rest := head + before, behind + "\n";
    LineStands(start, line, rest);
    assert head + (before + (line + behind)) + "\n" == start + (line + rest);
    assert LineAt(head + (before + (line + behind)) + "\n", line, |start|);
  }

  lemma HeadEndsLine()
    ensures HEAD != "" && HEAD[|HEAD| - 1] == '\n'
  {
  }

  lemma MarksAreApart()
    ensures MARKS.Apart()
  {
    OpeningIsPlain();
    ClosingIsPlain();
    hide OPENING, CLOSING;
    HashedTexts(OPENING, CLOSING);
  }

  lemma OpeningIsPlain()
    ensures |OPENING| == 30 && '#' !in OPENING && '\n' !in OPENING && OPENING[1] == '>'
  {
  }

  lemma ClosingIsPlain()
    ensures |CLOSING| == 30 && '#' !in CLOSING && '\n' !in CLOSING && CLOSING[1] == '<'
  {
  }

  lemma HashedTexts(opening: string, closing: string)
    requires |opening| == |closing| > 1 && opening[1] != closing[1]
    requires '#' !in opening && '#' !in closing && '\n' !in opening && '\n' !in closing
    ensures Marks("#" + opening, "#" + closing).Apart()
  {
    var begin, end := "#" + opening, "#" + closing;
    assert forall k :: 0 < k < |begin| ==> begin[k] == opening[k - 1] && begin[k] in opening;
    assert forall k :: 0 < k < |end| ==> end[k] == closing[k - 1] && end[k] in closing;
    assert begin[2] != end[2];
  }

  lemma {:induction false} JoinedIsClean(panels: seq<Panel>, between: string)
    requires Clean(between)
    ensures Clean(Joined(panels, between))
    decreases |panels|
  {
    if panels != [] {
      assert '#' !in panels[0].Command();
      assert '#' !in panels[0].Line();
      JoinedIsClean(panels[1..], between);
    }
  }

  lemma BodyIsClean(panels: seq<Panel>)
    ensures Clean(Body(panels))
  {
    JoinedIsClean(panels, " ; ");
  }

  /**
   Installing panels and then others writes what installing the others alone writes, exactly when
   the stripped text of the file holds no begin mark.
   */
  lemma ReinstallReplaces(content: Option<string>, first: seq<Panel>, second: seq<Panel>)
    ensures Applied(BlockIn, Applied(BlockIn, content, first, false), second, false)
      == Applied(BlockIn, content, second, false)
      <==> !Occurs(Own(MARKS, TextOf(content)), MARKS.begin)
  {
    MarksAreApart();
    BodyIsClean(first);
    BodyIsClean(second);
    ReinstallIff(MARKS, TextOf(content), Body(first), Body(second));
  }

  /** Uninstalling gives the user's own text back, up to trailing newlines, exactly then. */
  lemma UninstallRestores(content: Option<string>, panels: seq<Panel>)
    ensures var after := Applied(BlockIn, Applied(BlockIn, content, panels, false), panels, true);
      after.Some? && (TrimEnd(after.value) == Own(MARKS, TextOf(content)) <==>
        !Occurs(Own(MARKS, TextOf(content)), MARKS.begin))
  {
    MarksAreApart();
    BodyIsClean(panels);
    UninstallIff(MARKS, TextOf(content), Body(panels));
  }

  /** A profile that holds a lone begin mark and more: an uninstall after an install leaves nothing of it. */
  lemma LoneMarkIsLost(panels: seq<Panel>)
    ensures var content := Some(MARKS.begin + "\nexport EDITOR=vi");
      && Own(MARKS, content.value) == content.value
      && Applied(BlockIn, Applied(BlockIn, content, panels, false), panels, true) == Some("")
  {
    MarksAreApart();
    BodyIsClean(panels);
    var rest := "\nexport EDITOR=vi";
    assert Clean(rest);
    var own := MARKS.begin + rest;
    assert own[|own| - 1] == 'i';
    LoneMarkTakesText(MARKS, rest, Body(panels));
  }

  /** A second uninstall changes nothing exactly when no block that the first one cuts out joins to a new block. */
  lemma UninstallTwiceIff(content: Option<string>, panels: seq<Panel>)
    ensures var once := Applied(BlockIn, content, panels, true);
      Applied(BlockIn, once, panels, true) == once <==> !SomeCutJoins(MARKS, TextOf(content))
  {
    MarksAreApart();
    StrippingTwiceIff(MARKS, TextOf(content));
    if content.None? {
      LineStartsNeverJoin(MARKS, "");
    }
  }

  /** So it changes nothing where every begin mark starts a line. */
  lemma UninstallTwice(content: Option<string>, panels: seq<Panel>)
    requires MarksStartLines(MARKS, TextOf(content))
    ensures var once := Applied(BlockIn, content, panels, true); Applied(BlockIn, once, panels, true) == once
  {
    MarksAreApart();
    LineStartsNeverJoin(MARKS, TextOf(content));
    UninstallTwiceIff(content, panels);
  }

  /** A block inside a mark: the first uninstall leaves a whole block, which a second one removes. */
  lemma UninstallTwiceDiffers(panels: seq<Panel>)
    ensures var m := MARKS;
      var content := Some("#" + Block(m, Body(panels)) + (m.begin[1..] + m.end));
      Applied(BlockIn, content, panels, true) == Some(m.begin + m.end)
        && Applied(BlockIn, Some(m.begin + m.end), panels, true) == Some("")
  {
    MarksAreApart();
    BodyIsClean(panels);
    StrippingExposesBlock(MARKS, Body(panels));
  }
}
