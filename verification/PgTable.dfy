/** What the verdict says of a table as `pg_autoctl show state` prints it, from its text on. */
module PgTable {
  import opened Options
  import opened Text
  import opened Cells
  import opened Lsn
  import opened PgState

  // ---- The printed table ------------------------------------------------------------------------

  /** What a line tells: seven cells, of which the fourth is `timeline: position` or the position alone. */
  datatype Node = Node(name: string, number: string, host: string, timeline: Option<string>, position: string,
                       connection: string, reported: string, goal: string)

  function Fourth(node: Node): string {
    match node.timeline
    case None => node.position
    case Some(timeline) => timeline + ": " + node.position
  }

  function CellTexts(node: Node): seq<string> {
    [node.name, node.number, node.host, Fourth(node), node.connection, node.reported, node.goal]
  }

  /** Nothing to strip at its ends, and no bar. */
  predicate Tidy(text: string) {
    Strip(text) == text && '|' !in text
  }

  /** A line that is no heading; without a timeline the position has no colon. */
  ghost predicate Printable(node: Node) {
    && node.name != "Name"
    && (forall i :: 0 <= i < 7 ==> Tidy(CellTexts(node)[i])) && Tidy(node.position)
    && match node.timeline
       case None => ':' !in node.position
       case Some(timeline) => timeline != "" && Strip(timeline) == timeline && ':' !in timeline
  }

  /** The line of a node, with some number of spaces around every cell. */
  ghost predicate PrintsNode(line: string, node: Node) {
    exists cells: seq<Padded> ::
      |cells| == 7 && Contents(cells) == CellTexts(node) && line == Printed(cells)
  }

  /** The heading: seven cells, the first of which is `Name`. */
  ghost predicate PrintsHeading(line: string) {
    exists cells: seq<Padded> ::
      |cells| == 7 && AllPlain(cells) && cells[0].cell == "Name" && line == Printed(cells)
  }

  /** A heading, a line without bars below it, and one line for each node. */
  ghost predicate PrintsTable(lines: seq<string>, nodes: seq<Node>) {
    && |lines| == |nodes| + 2
    && PrintsHeading(lines[0]) && '|' !in lines[1]
    && forall k :: 0 <= k < |nodes| ==> Printable(nodes[k]) && PrintsNode(lines[k + 2], nodes[k])
  }

  // ---- It reads back ----------------------------------------------------------------------------

  function AsRow(node: Node): Row {
    Row(node.name, node.timeline, node.position, node.reported, node.goal)
  }

  lemma FourthReadsBack(node: Node)
    requires Printable(node)
    ensures SplitTimeline(Fourth(node)) == (node.timeline, node.position)
  {
    match node.timeline {
      case None =>
        NoMark(node.position, ':');
      case Some(timeline) =>
        assert Fourth(node) == timeline + [':'] + (" " + node.position);
        PartitionAt(timeline, ':', " " + node.position);
        assert Spaces(1) == " ";
        StripSpacesLeft(1, node.position);
    }
  }

  lemma {:induction false} NoMark(text: string, mark: char)
    requires mark !in text
    ensures Partition(text, mark) == (text, false, "")
    decreases |text|
  {
    if text != "" {
      NoMark(text[1..], mark);
      assert text[0] != mark && [text[0]] + text[1..] == text;
    }
  }

  /** The line of a node gives that node's row, column by column. */
  lemma NodeReadsBack(line: string, node: Node)
    requires Printable(node) && PrintsNode(line, node)
    ensures RowOf(line) == Some(AsRow(node))
  {
    var cells: seq<Padded> :| |cells| == 7 && Contents(cells) == CellTexts(node) && line == Printed(cells);
    forall i | 0 <= i < 7 ensures cells[i].Plain() {
      assert cells[i].cell == CellTexts(node)[i];
    }
    LineReadsBack(cells);
    FourthReadsBack(node);
    hide SplitTimeline, CellsOf, Fourth, Printed;
  }

  lemma HeadingIsNoRow(line: string)
    requires PrintsHeading(line)
    ensures RowOf(line) == None
  {
    var cells: seq<Padded> :|
      |cells| == 7 && AllPlain(cells) && cells[0].cell == "Name" && line == Printed(cells);
    LineReadsBack(cells);
    hide CellsOf, Printed, SplitTimeline;
  }

  function AsRows(nodes: seq<Node>): (rows: seq<Row>)
    ensures |rows| == |nodes| && forall k :: 0 <= k < |nodes| ==> rows[k] == AsRow(nodes[k])
  {
    seq(|nodes|, k requires 0 <= k < |nodes| => AsRow(nodes[k]))
  }

  lemma OneMoreLine(lines: seq<string>, line: string)
    ensures Rows(lines + [line]) == Rows(lines) + match RowOf(line) case None => [] case Some(row) => [row]
  {
    assert (lines + [line])[..|lines|] == lines;
  }

  /** A printed table reads back as exactly its nodes, in their order. */
  lemma {:induction false} TableReadsBack(lines: seq<string>, nodes: seq<Node>)
    requires PrintsTable(lines, nodes)
    ensures Rows(lines) == AsRows(nodes)
    decreases |nodes|
  {
    hide RowOf, Rows, PrintsNode, Printable;
    if nodes == [] {
      assert lines == [] + [lines[0]] + [lines[1]];
      OneMoreLine([], lines[0]);
      OneMoreLine([] + [lines[0]], lines[1]);
      HeadingIsNoRow(lines[0]);
      NoBarsNoRow(lines[1]);
    } else {
      var n := |nodes| - 1;
      TableReadsBack(lines[..n + 2], nodes[..n]);
      NodeReadsBack(lines[n + 2], nodes[n]);
      OneMoreLine(lines[..n + 2], lines[n + 2]);
      assert lines == lines[..n + 2] + [lines[n + 2]];
      assert AsRows(nodes) == AsRows(nodes[..n]) + [AsRow(nodes[n])];
    }
  }

  lemma NoBarsNoRow(line: string)
    requires '|' !in line
    ensures RowOf(line) == None && Rows([]) == []
  {
    hide CellsOf, SplitTimeline;
  }

  // ---- The verdict on it --------------------------------------------------------------------------

  /** The last node that reports to be the primary, if any does. */
  ghost predicate LastPrimary(nodes: seq<Node>, primary: Option<Node>) {
    match primary
    case None => forall k :: 0 <= k < |nodes| ==> nodes[k].reported != "primary"
    case Some(p) => exists i :: LastPrimaryAt(nodes, i) && nodes[i] == p
  }

  ghost predicate LastPrimaryAt(nodes: seq<Node>, i: int) {
    0 <= i < |nodes| && nodes[i].reported == "primary" && forall k :: i < k < |nodes| ==> nodes[k].reported != "primary"
  }

  lemma {:induction false} ReferenceIsLast(nodes: seq<Node>, primary: Option<Node>)
    requires LastPrimary(nodes, primary)
    ensures ReferenceOf(AsRows(nodes)) == match primary
      case None => Reference(None, None)
      case Some(p) => Reference(p.timeline, Some(p.position))
    decreases |nodes|
  {
    if nodes != [] {
      var n, rows := |nodes| - 1, AsRows(nodes);
      assert rows[..n] == AsRows(nodes[..n]) && rows[n] == AsRow(nodes[n]);
      if nodes[n].reported != "primary" {
        if primary.Some? {
          var i :| LastPrimaryAt(nodes, i) && nodes[i] == primary.value;
          assert LastPrimaryAt(nodes[..n], i) && nodes[..n][i] == primary.value;
        }
        ReferenceIsLast(nodes[..n], primary);
      }
    }
  }

  /** On a timeline known to differ from the primary's. */
  predicate Foreign(node: Node, primary: Option<Node>) {
    && node.timeline.Some? && primary.Some? && primary.value.timeline.Some?
    && node.timeline.value != primary.value.timeline.value
  }

  predicate InService(node: Node, primary: Option<Node>) {
    (node.reported == "primary" || node.reported == "secondary") && !Foreign(node, primary)
  }

  ghost function NodesInService(nodes: seq<Node>, primary: Option<Node>): set<nat> {
    set k: nat | k < |nodes| && InService(nodes[k], primary)
  }

  lemma SameInService(nodes: seq<Node>, primary: Option<Node>, reference: Reference)
    requires reference == match primary
      case None => Reference(None, None)
      case Some(p) => Reference(p.timeline, Some(p.position))
    ensures HealthyRows(AsRows(nodes), reference) == NodesInService(nodes, primary)
  {
    forall k: nat ensures k in HealthyRows(AsRows(nodes), reference) <==> k in NodesInService(nodes, primary) {
      assert k < |nodes| ==> AsRows(nodes)[k] == AsRow(nodes[k]);
    }
  }

  /** Quorum holds exactly when a strict majority of the printed nodes is in service. */
  lemma PrintedQuorum(lines: seq<string>, nodes: seq<Node>, primary: Option<Node>)
    requires PrintsTable(lines, nodes) && LastPrimary(nodes, primary) && nodes != []
    ensures var service := Verdict(Rows(lines));
      service.Reachable? && (service.quorum <==> 2 * |NodesInService(nodes, primary)| > |nodes|)
  {
    TableReadsBack(lines, nodes);
    ReferenceIsLast(nodes, primary);
    var rows := AsRows(nodes);
    hide Verdict, PrintsTable, ReferenceOf, HealthyRows, NodesInService, LastPrimary;
    QuorumIsMajority(rows);
    SameInService(nodes, primary, ReferenceOf(rows));
  }

  /** What has to be said of a node, next to that primary. */
  function WarningFor(node: Node, primary: Option<Node>): Option<Warning> {
    var moving := node.reported != node.goal;
    if Foreign(node, primary) then
      var (mine, theirs) := (node.timeline.value, primary.value.timeline.value);
      Some(if moving then TimelineAndTransition(mine, theirs, node.goal) else Timeline(mine, theirs))
    else if moving then Some(Transition(node.goal))
    else if node.reported == "secondary" && primary.Some? && primary.value.position != ""
      && node.position != primary.value.position
    then Some(Lag)
    else None
  }

  /** A member tells its node as it is next to that primary. */
  ghost predicate Tells(m: Member, node: Node, primary: Option<Node>) {
    && m.name == node.name && m.role == node.reported
    && (m.healthy <==> InService(node, primary))
    && m.detail == (if Foreign(node, primary) then None else Some(node.position))
    && m.warning == WarningFor(node, primary)
    && (m.lagBytes.Some? ==> m.warning == Some(Lag))
  }

  lemma MemberTells(node: Node, primary: Option<Node>, reference: Reference)
    requires reference == match primary
      case None => Reference(None, None)
      case Some(p) => Reference(p.timeline, Some(p.position))
    ensures Tells(MemberOf(AsRow(node), reference), node, primary)
  {
    hide NodeOf, LagDistance;
  }

  /**
   Every printed node is a member, in order: its name, its role, whether it is in service, its
   position unless it is on a foreign timeline, and what has to be said of it.  Nothing is
   measured only where no node is printed.
   */
  lemma PrintedMembers(lines: seq<string>, nodes: seq<Node>, primary: Option<Node>)
    requires PrintsTable(lines, nodes) && LastPrimary(nodes, primary)
    ensures var service := Verdict(Rows(lines));
      if nodes == [] then service.Unreachable?
      else
        && service.Reachable? && |service.members| == |nodes|
        && forall k :: 0 <= k < |nodes| ==> Tells(service.members[k], nodes[k], primary)
  {
    TableReadsBack(lines, nodes);
    ReferenceIsLast(nodes, primary);
    var rows := AsRows(nodes);
    var reference := ReferenceOf(rows);
    hide PrintsTable, ReferenceOf, CountHealthy, LeaderOf, MemberOf, LastPrimary, Rows, Tells;
    forall k | 0 <= k < |nodes| ensures Tells(MembersOf(rows, reference)[k], nodes[k], primary) {
      MemberTells(nodes[k], primary, reference);
    }
  }

  /** The lag of a printed secondary is the distance of its position from the primary's. */
  lemma PrintedLag(lines: seq<string>, nodes: seq<Node>, primary: Node, k: nat, hi: nat, lo: nat, hi': nat, lo': nat)
    requires PrintsTable(lines, nodes) && LastPrimary(nodes, Some(primary)) && k < |nodes|
    requires nodes[k].reported == nodes[k].goal == "secondary" && !Foreign(nodes[k], Some(primary))
    requires nodes[k].position == Written(hi, lo) && primary.position == Written(hi', lo')
    requires lo < 0x1_0000_0000 && lo' < 0x1_0000_0000
    ensures var service := Verdict(Rows(lines));
      && service.Reachable? && |service.members| == |nodes|
      && service.members[k].lagBytes
         == if hi < hi' || (hi == hi' && lo < lo') then Some((hi' - hi) * 0x1_0000_0000 + lo' - lo) else None
  {
    TableReadsBack(lines, nodes);
    ReferenceIsLast(nodes, Some(primary));
    hide PrintsTable, ReferenceOf, Written, Verdict, LastPrimary, Rows;
    assert AsRows(nodes)[k] == AsRow(nodes[k]);
    LagOfWrittenPositions(AsRows(nodes), k, hi, lo, hi', lo');
  }

  /** The leader is the first printed node that reports to be the primary. */
  lemma {:induction false} LeaderIsFirst(nodes: seq<Node>, i: nat)
    requires i < |nodes| && nodes[i].reported == "primary" && forall k :: 0 <= k < i ==> nodes[k].reported != "primary"
    ensures LeaderOf(AsRows(nodes)) == Some(nodes[i].name)
    decreases |nodes|
  {
    if i > 0 {
      LeaderIsFirst(nodes[1..], i - 1);
      assert AsRows(nodes)[1..] == AsRows(nodes[1..]);
    }
  }

  lemma {:induction false} NoLeader(nodes: seq<Node>)
    requires forall k :: 0 <= k < |nodes| ==> nodes[k].reported != "primary"
    ensures LeaderOf(AsRows(nodes)) == None
    decreases |nodes|
  {
    if nodes != [] {
      NoLeader(nodes[1..]);
      assert AsRows(nodes)[1..] == AsRows(nodes[1..]);
    }
  }

  /** The verdict names the first printed primary as the leader, or none. */
  lemma PrintedLeader(lines: seq<string>, nodes: seq<Node>, i: nat)
    requires PrintsTable(lines, nodes) && nodes != [] && i <= |nodes|
    requires forall k :: 0 <= k < i ==> nodes[k].reported != "primary"
    requires i < |nodes| ==> nodes[i].reported == "primary"
    ensures Verdict(Rows(lines)).Reachable?
    ensures Verdict(Rows(lines)).leader == if i < |nodes| then Some(nodes[i].name) else None
  {
    TableReadsBack(lines, nodes);
    if i < |nodes| {
      LeaderIsFirst(nodes, i);
    } else {
      NoLeader(nodes);
    }
    hide PrintsTable, LeaderOf, ReferenceOf, MembersOf, CountHealthy, Rows;
  }

  // ---- The node of a member -----------------------------------------------------------------------

  predicate AllDigits(text: string) {
    forall i :: 0 <= i < |text| ==> '0' <= text[i] <= '9'
  }

  lemma {:induction false} DigitsSkipped(digits: string, rest: string)
    requires AllDigits(digits) && (rest == "" || !('0' <= rest[0] <= '9'))
    ensures SkipDigits(digits + rest) == rest
    decreases |digits|
  {
    if digits == "" {
      assert digits + rest == rest;
    } else {
      DigitsSkipped(digits[1..], rest);
      assert (digits + rest)[1..] == digits[1..] + rest;
    }
  }

  /** `pg`, digits and a dash in front of a name are left out; a name that is nothing else has no node. */
  lemma PrefixIsTaken(digits: string, node: string)
    requires AllDigits(digits)
    ensures NodeOf("pg" + digits + "-" + node) == if node == "" then None else Some(node)
  {
    var name := "pg" + digits + "-" + node;
    assert name[2..] == digits + ("-" + node);
    DigitsSkipped(digits, "-" + node);
    assert ("-" + node)[1..] == node;
  }

  /** Any other name is its node's. */
  lemma OtherNamesStay(name: string)
    requires name != ""
    requires forall digits: string, node: string :: AllDigits(digits) ==> name != "pg" + digits + "-" + node
    ensures NodeOf(name) == Some(name)
  {
    if "pg" <= name {
      var digits := LeadingDigits(name[2..]);
      var rest := SkipDigits(name[2..]);
      if rest != "" && rest[0] == '-' {
        assert name == "pg" + digits + "-" + rest[1..];
      }
    }
  }

  lemma {:induction false} LeadingDigits(text: string) returns (digits: string)
    ensures AllDigits(digits) && text == digits + SkipDigits(text)
    decreases |text|
  {
    digits := "";
    if text != "" && '0' <= text[0] <= '9' {
      var more := LeadingDigits(text[1..]);
      digits := [text[0]] + more;
      assert text == [text[0]] + text[1..];
    }
  }
}
