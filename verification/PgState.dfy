/** The verdict on a PostgreSQL cluster from the table of `pg_autoctl show state`. */
module PgState {
  import opened Options
  import opened Sorting
  import opened Text
  import opened Cells
  import opened Lsn

  // ---- The table --------------------------------------------------------------------------------

  datatype Row = Row(name: string, timeline: Option<string>, lsn: string, reported: string, goal: string)

  function NoneIfEmpty(text: string): Option<string> {
    if text == "" then None else Some(text)
  }

  /** `5: 0/23942800` is a timeline and a position; older versions write the position alone. */
  function SplitTimeline(text: string): (Option<string>, string) {
    var (timeline, found, lsn) := Partition(text, ':');
    if found then (NoneIfEmpty(Strip(timeline)), Strip(lsn)) else (None, Strip(text))
  }

  /** A line without bars, of too few columns, or the heading, is no row. */
  function RowOf(line: string): Option<Row> {
    var columns := CellsOf(line);
    if '|' !in line || |columns| < 7 || columns[0] == "Name" then None
    else
      var (timeline, lsn) := SplitTimeline(columns[3]);
      Some(Row(columns[0], timeline, lsn, columns[5], columns[6]))
  }

  function Rows(lines: seq<string>): seq<Row> {
    if lines == [] then []
    else
      Rows(lines[..|lines| - 1])
        + match RowOf(lines[|lines| - 1])
          case None => []
          case Some(row) => [row]
  }

  // ---- The judgement ----------------------------------------------------------------------------

  datatype Warning =
    | Transition(goal: string)
    | Timeline(mine: string, primary: string)
    | TimelineAndTransition(mine: string, primary: string, goal: string)
    | Lag

  datatype Member = Member(name: string, node: Option<string>, role: string, healthy: bool,
                           detail: Option<string>, warning: Option<Warning>, lagBytes: Option<int>)

  datatype Service = Unreachable | Reachable(leader: Option<string>, quorum: bool, members: seq<Member>)

  /** What the members are compared with: the primary's timeline and position, if there is a primary. */
  datatype Reference = Reference(timeline: Option<string>, lsn: Option<string>)

  predicate IsPrimary(row: Row) {
    row.reported == "primary"
  }

  /** The last primary row counts. */
  function ReferenceOf(rows: seq<Row>): Reference {
    if rows == [] then Reference(None, None)
    else
      var last := rows[|rows| - 1];
      if IsPrimary(last) then Reference(last.timeline, Some(last.lsn)) else ReferenceOf(rows[..|rows| - 1])
  }

  /** The first primary row names the leader. */
  function LeaderOf(rows: seq<Row>): Option<string> {
    if rows == [] then None
    else if IsPrimary(rows[0]) then Some(rows[0].name)
    else LeaderOf(rows[1..])
  }

  /** On a timeline known to differ from the primary's. */
  predicate Diverged(timeline: Option<string>, primary: Option<string>) {
    timeline.Some? && primary.Some? && timeline != primary
  }

  function WarningOf(row: Row, primary: Option<string>): Option<Warning> {
    var transition := row.reported != row.goal;
    if Diverged(row.timeline, primary) then
      Some(if transition then TimelineAndTransition(row.timeline.value, primary.value, row.goal)
           else Timeline(row.timeline.value, primary.value))
    else if transition then Some(Transition(row.goal))
    else None
  }

  predicate Healthy(row: Row, primary: Option<string>) {
    !Diverged(row.timeline, primary) && (row.reported == "primary" || row.reported == "secondary")
  }

  function SkipDigits(text: string): string {
    if text != "" && '0' <= text[0] <= '9' then SkipDigits(text[1..]) else text
  }

  /** `pg18-node-b` is on `node-b`. */
  function NodeOf(name: string): Option<string> {
    var rest := if "pg" <= name then SkipDigits(name[2..]) else "";
    NoneIfEmpty(if rest != "" && rest[0] == '-' then rest[1..] else name)
  }

  /** A member before lag is looked at. */
  function Judged(row: Row, reference: Reference): Member {
    Member(row.name, NodeOf(row.name), row.reported, Healthy(row, reference.timeline),
           if Diverged(row.timeline, reference.timeline) then None else Some(row.lsn),
           WarningOf(row, reference.timeline), None)
  }

  /** A secondary elsewhere than at the primary's position lags, unless something else is said of it. */
  function Lagged(m: Member, reference: Reference): Member {
    if m.role == "secondary" && reference.lsn.Some? && reference.lsn.value != "" && m.detail != reference.lsn
       && m.warning.None?
    then m.(warning := Some(Lag),
            lagBytes := LagDistance(if m.detail.Some? then m.detail.value else "", reference.lsn.value))
    else m
  }

  function MemberOf(row: Row, reference: Reference): Member {
    Lagged(Judged(row, reference), reference)
  }

  function MembersOf(rows: seq<Row>, reference: Reference): (members: seq<Member>)
    ensures |members| == |rows| && forall k :: 0 <= k < |rows| ==> members[k] == MemberOf(rows[k], reference)
  {
    seq(|rows|, k requires 0 <= k < |rows| => MemberOf(rows[k], reference))
  }

  function CountHealthy(members: seq<Member>): nat {
    if members == [] then 0
    else CountHealthy(members[..|members| - 1]) + if members[|members| - 1].healthy then 1 else 0
  }

  function Verdict(rows: seq<Row>): Service {
    if rows == [] then Unreachable
    else
      var members := MembersOf(rows, ReferenceOf(rows));
      Reachable(LeaderOf(rows), CountHealthy(members) * 2 > |members|, members)
  }

  /** The first pass collects the rows; the primary can be on any of them. */
  method ReadTable(lines: seq<string>) returns (raw: seq<Row>, reference: Reference)
    ensures raw == Rows(lines) && reference == ReferenceOf(raw)
  {
    hide SplitTimeline, CellsOf;
    raw := [];
    reference := Reference(None, None);
    for i := 0 to |lines|
      invariant raw == Rows(lines[..i]) && reference == ReferenceOf(raw)
    {
      assert lines[..i + 1][..i] == lines[..i];
      if '|' !in lines[i] {
        continue;
      }
      var columns := CellsOf(lines[i]);
      if |columns| >= 7 && columns[0] != "Name" {
        var (timeline, lsn) := SplitTimeline(columns[3]);
        var row := Row(columns[0], timeline, lsn, columns[5], columns[6]);
        if IsPrimary(row) {
          reference := Reference(timeline, Some(lsn));
        }
        assert (raw + [row])[..|raw|] == raw;
        raw := raw + [row];
      }
    }
    assert lines[..|lines|] == lines;
  }

  /** The second pass judges them. */
  method Judge(raw: seq<Row>, reference: Reference) returns (members: seq<Member>)
    ensures |members| == |raw| && forall k :: 0 <= k < |raw| ==> members[k] == Judged(raw[k], reference)
  {
    hide Judged;
    members := [];
    for i := 0 to |raw|
      invariant |members| == i && forall k :: 0 <= k < i ==> members[k] == Judged(raw[k], reference)
    {
      members := members + [Judged(raw[i], reference)];
    }
  }

  /** A last pass, over the members, marks those that lag. */
  method MarkLag(judged: seq<Member>, reference: Reference) returns (members: seq<Member>)
    ensures |members| == |judged| && forall k :: 0 <= k < |judged| ==> members[k] == Lagged(judged[k], reference)
  {
    hide LagDistance;
    members := judged;
    for i := 0 to |members|
      invariant |members| == |judged|
      invariant forall k :: 0 <= k < |judged| ==>
        members[k] == if k < i then Lagged(judged[k], reference) else judged[k]
    {
      var m := members[i];
      if m.role == "secondary" && reference.lsn.Some? && reference.lsn.value != "" && m.detail != reference.lsn {
        if m.warning.None? {
          var here := if m.detail.Some? then m.detail.value else "";
          members := members[i := m.(warning := Some(Lag), lagBytes := LagDistance(here, reference.lsn.value))];
        }
      }
    }
  }

  method ParsePgState(lines: seq<string>) returns (service: Service)
    ensures service == Verdict(Rows(lines))
  {
    hide Judged, Lagged, Rows, ReferenceOf, LeaderOf;
    var raw, reference := ReadTable(lines);
    var judged := Judge(raw, reference);
    if judged == [] {
      return Unreachable;
    }
    var leader := FirstPrimary(raw, reference, judged);
    var members := MarkLag(judged, reference);
    assert members == MembersOf(raw, reference);
    var healthy := 0;
    for i := 0 to |members|
      invariant healthy == CountHealthy(members[..i])
    {
      assert members[..i + 1][..i] == members[..i];
      if members[i].healthy {
        healthy := healthy + 1;
      }
    }
    assert members[..|members|] == members;
    service := Reachable(leader, healthy * 2 > |members|, members);
  }

  method FirstPrimary(raw: seq<Row>, reference: Reference, members: seq<Member>) returns (leader: Option<string>)
    requires |members| == |raw| && forall k :: 0 <= k < |raw| ==> members[k] == Judged(raw[k], reference)
    ensures leader == LeaderOf(raw)
  {
    for i := 0 to |members|
      invariant LeaderOf(raw) == LeaderOf(raw[i..])
    {
      assert raw[i..][0] == raw[i] && raw[i..][1..] == raw[i + 1..];
      if members[i].role == "primary" {
        return Some(members[i].name);
      }
    }
    return None;
  }

  // ---- Quorum -------------------------------------------------------------------------------------

  function HealthyRows(rows: seq<Row>, reference: Reference): set<nat> {
    set k: nat | k < |rows| && Healthy(rows[k], reference.timeline)
  }

  lemma HealthOfMember(row: Row, reference: Reference)
    ensures MemberOf(row, reference).healthy <==> Healthy(row, reference.timeline)
  {
  }

  lemma OneMoreHealthyRow(rows: seq<Row>, reference: Reference)
    requires rows != []
    ensures var n := |rows| - 1;
      |HealthyRows(rows, reference)|
        == |HealthyRows(rows[..n], reference)| + if Healthy(rows[n], reference.timeline) then 1 else 0
  {
    hide Healthy;
    var n := |rows| - 1;
    var before := HealthyRows(rows[..n], reference);
    assert HealthyRows(rows, reference) == before + if Healthy(rows[n], reference.timeline) then {n} else {};
    assert n !in before;
  }

  lemma {:induction false} HealthyAreCounted(rows: seq<Row>, reference: Reference)
    ensures CountHealthy(MembersOf(rows, reference)) == |HealthyRows(rows, reference)|
    decreases |rows|
  {
    hide MemberOf, Healthy, ReferenceOf;
    if rows != [] {
      var n := |rows| - 1;
      HealthOfMember(rows[n], reference);
      HealthyAreCounted(rows[..n], reference);
      OneMoreHealthyRow(rows, reference);
      var members := MembersOf(rows, reference);
      assert members[..n] == MembersOf(rows[..n], reference) && members[n] == MemberOf(rows[n], reference);
      hide MembersOf, HealthyRows;
    } else {
      assert HealthyRows(rows, reference) == {};
    }
  }

  /**
   Quorum holds exactly when a strict majority of the rows reports primary or secondary and is
   not on a timeline known to differ from the primary's.
   */
  lemma QuorumIsMajority(rows: seq<Row>)
    requires rows != []
    ensures var service := Verdict(rows);
      service.Reachable? && (service.quorum <==> |HealthyRows(rows, ReferenceOf(rows))| > |rows| / 2)
  {
    HealthyAreCounted(rows, ReferenceOf(rows));
  }

  // ---- Lag ----------------------------------------------------------------------------------------

  /**
   A lag figure is exactly the primary's offset minus the member's, and positive.  It is given for
   a secondary in no transition and on no foreign timeline, and for no one else.
   */
  lemma LagIsExact(row: Row, reference: Reference)
    ensures var lag := MemberOf(row, reference).lagBytes;
      && (lag.Some? <==>
            && row.reported == row.goal == "secondary"
            && !Diverged(row.timeline, reference.timeline)
            && reference.lsn.Some? && Position(row.lsn).Some? && Position(reference.lsn.value).Some?
            && Position(row.lsn).value < Position(reference.lsn.value).value)
      && (lag.Some? ==> lag.value == Position(reference.lsn.value).value - Position(row.lsn).value > 0)
  {
    hide Position;
    if reference.lsn.Some? {
      EmptyIsNoPosition();
      assert LagDistance(row.lsn, row.lsn).None?;
    }
  }

  /**
   In the verdict, for positions as they are written: the lag of a secondary on the primary's
   timeline is the distance of the two positions, and is given when the member's words are behind.
   */
  lemma LagOfWrittenPositions(rows: seq<Row>, k: nat, hi: nat, lo: nat, hi': nat, lo': nat)
    requires k < |rows| && rows[k].reported == rows[k].goal == "secondary" && rows[k].lsn == Written(hi, lo)
    requires ReferenceOf(rows).lsn == Some(Written(hi', lo'))
      && !Diverged(rows[k].timeline, ReferenceOf(rows).timeline)
    requires lo < 0x1_0000_0000 && lo' < 0x1_0000_0000
    ensures var service := Verdict(rows);
      && service.Reachable? && |service.members| == |rows|
      && service.members[k].lagBytes
         == if hi < hi' || (hi == hi' && lo < lo') then Some((hi' - hi) * 0x1_0000_0000 + lo' - lo) else None
  {
    hide Position, Written, ReferenceOf, LeaderOf, CountHealthy;
    LagIsExact(rows[k], ReferenceOf(rows));
    PositionsCompareByWords(hi, lo, hi', lo');
  }

  lemma EmptyIsNoPosition()
    ensures Position("").None?
  {
  }

  // ---- The order of the rows --------------------------------------------------------------------

  /** All primary rows name the same leader, timeline and position; always so with one primary. */
  ghost predicate PrimariesAgree(rows: seq<Row>) {
    forall a, b :: a in rows && b in rows && IsPrimary(a) && IsPrimary(b) ==>
      a.name == b.name && a.timeline == b.timeline && a.lsn == b.lsn
  }

  ghost predicate SomePrimary(rows: seq<Row>) {
    exists row :: row in rows && IsPrimary(row)
  }

  /** The leader and the reference come from some primary row, if there is one. */
  lemma {:induction false} ReferenceIsPrimary(rows: seq<Row>)
    ensures if SomePrimary(rows)
      then exists row :: row in rows && IsPrimary(row) && ReferenceOf(rows) == Reference(row.timeline, Some(row.lsn))
      else ReferenceOf(rows) == Reference(None, None)
    decreases |rows|
  {
    if rows != [] {
      var front, last := rows[..|rows| - 1], rows[|rows| - 1];
      assert rows == front + [last];
      ReferenceIsPrimary(front);
      assert last in rows;
      assert SomePrimary(front) ==> SomePrimary(rows);
      if IsPrimary(last) {
        assert SomePrimary(rows);
      }
    }
  }

  lemma {:induction false} LeaderIsPrimary(rows: seq<Row>)
    ensures if SomePrimary(rows)
      then exists row :: row in rows && IsPrimary(row) && LeaderOf(rows) == Some(row.name)
      else LeaderOf(rows) == None
    decreases |rows|
  {
    if rows != [] {
      var first, rest := rows[0], rows[1..];
      assert rows == [first] + rest;
      LeaderIsPrimary(rest);
      assert first in rows;
      assert SomePrimary(rest) ==> SomePrimary(rows);
      if IsPrimary(first) {
        assert SomePrimary(rows);
      }
    }
  }

  /** The leader, and what the members are compared with. */
  function Basis(rows: seq<Row>): (Option<string>, Reference) {
    (LeaderOf(rows), ReferenceOf(rows))
  }

  lemma SameRows(rows: seq<Row>, other: seq<Row>)
    requires multiset(rows) == multiset(other)
    ensures forall row :: row in rows <==> row in other
  {
    forall row ensures row in rows <==> row in other {
      assert row in rows <==> row in multiset(rows);
      assert row in other <==> row in multiset(other);
    }
  }

  lemma AgreeingBasis(rows: seq<Row>, other: seq<Row>)
    requires PrimariesAgree(rows) && multiset(rows) == multiset(other)
    ensures Basis(rows) == Basis(other)
  {
    SameRows(rows, other);
    ReferenceIsPrimary(rows);
    ReferenceIsPrimary(other);
    LeaderIsPrimary(rows);
    LeaderIsPrimary(other);
    assert SomePrimary(rows) <==> SomePrimary(other);
  }

  /** The same rows with the k-th one moved to the front, or to the end. */
  function ToFront(rows: seq<Row>, k: nat): (r: seq<Row>)
    requires k < |rows|
    ensures multiset(r) == multiset(rows)
  {
    assert rows == rows[..k] + [rows[k]] + rows[k + 1..];
    [rows[k]] + rows[..k] + rows[k + 1..]
  }

  function ToEnd(rows: seq<Row>, k: nat): (r: seq<Row>)
    requires k < |rows|
    ensures multiset(r) == multiset(rows)
  {
    assert rows == rows[..k] + [rows[k]] + rows[k + 1..];
    rows[..k] + rows[k + 1..] + [rows[k]]
  }

  ghost predicate OrderFree(rows: seq<Row>) {
    forall other :: multiset(other) == multiset(rows) ==> Basis(other) == Basis(rows)
  }

  /**
   The order of the rows does not matter for the leader and the reference exactly when all
   primary rows agree.
   */
  lemma OrderFreeIff(rows: seq<Row>)
    ensures OrderFree(rows) <==> PrimariesAgree(rows)
  {
    if PrimariesAgree(rows) {
      forall other | multiset(other) == multiset(rows) ensures Basis(other) == Basis(rows) {
        AgreeingBasis(rows, other);
      }
    }
    if OrderFree(rows) {
      forall a, b | a in rows && b in rows && IsPrimary(a) && IsPrimary(b)
        ensures a.name == b.name && a.timeline == b.timeline && a.lsn == b.lsn
      {
        var i :| 0 <= i < |rows| && rows[i] == a;
        var k :| 0 <= k < |rows| && rows[k] == b;
        assert Basis(ToFront(rows, i)).0 == Some(a.name);
        assert Basis(ToFront(rows, k)).0 == Some(b.name);
        assert Basis(ToEnd(rows, i)).1 == Reference(a.timeline, Some(a.lsn));
        assert Basis(ToEnd(rows, k)).1 == Reference(b.timeline, Some(b.lsn));
      }
    }
  }

  lemma MembersConcat(a: seq<Row>, b: seq<Row>, reference: Reference)
    ensures MembersOf(a + b, reference) == MembersOf(a, reference) + MembersOf(b, reference)
  {
    hide MemberOf;
  }

  lemma {:induction false} MembersPermute(rows: seq<Row>, other: seq<Row>, reference: Reference)
    requires multiset(rows) == multiset(other)
    ensures multiset(MembersOf(rows, reference)) == multiset(MembersOf(other, reference))
    decreases |rows|
  {
    assert |multiset(rows)| == |rows| && |multiset(other)| == |other|;
    hide MemberOf, MembersOf;
    if rows != [] {
      var last, front := rows[|rows| - 1], rows[..|rows| - 1];
      assert rows == front + [last];
      assert last in multiset(other);
      var k :| 0 <= k < |other| && other[k] == last;
      var left, right := other[..k], other[k + 1..];
      assert other == left + [last] + right;
      WithoutOne(front, last, left, right, other);
      MembersPermute(front, left + right, reference);
      MembersConcat(front, [last], reference);
      MembersConcat(left, right, reference);
      MembersConcat(left + [last], right, reference);
      MembersConcat(left, [last], reference);
    }
  }

  lemma {:induction false} CountConcat(a: seq<Member>, b: seq<Member>)
    ensures CountHealthy(a + b) == CountHealthy(a) + CountHealthy(b)
    decreases |b|
  {
    if b == [] {
      assert a + b == a;
    } else {
      CountConcat(a, b[..|b| - 1]);
      assert (a + b)[..|a + b| - 1] == a + b[..|b| - 1];
    }
  }

  lemma {:induction false} CountPermutes(a: seq<Member>, b: seq<Member>)
    requires multiset(a) == multiset(b)
    ensures CountHealthy(a) == CountHealthy(b)
    decreases |a|
  {
    assert |multiset(a)| == |a| && |multiset(b)| == |b|;
    if a != [] {
      var last, front := a[|a| - 1], a[..|a| - 1];
      assert a == front + [last];
      assert last in multiset(b);
      var k :| 0 <= k < |b| && b[k] == last;
      var left, right := b[..k], b[k + 1..];
      assert b == left + [last] + right;
      WithoutOne(front, last, left, right, b);
      CountPermutes(front, left + right);
      CountConcat(left, right);
      CountConcat(left + [last], right);
      CountConcat(left, [last]);
      CountConcat(front, [last]);
    }
  }

  // ---- The verdict and the order of the rows --------------------------------------------------------

  /** The reference that a primary row gives. */
  function AsReference(row: Row): Reference {
    Reference(row.timeline, Some(row.lsn))
  }

  /** All primary rows name one leader, and every row is judged alike against each of them. */
  ghost predicate JudgedAlike(rows: seq<Row>) {
    forall a, b :: a in rows && b in rows && IsPrimary(a) && IsPrimary(b) ==>
      a.name == b.name && SameMembers(rows, AsReference(a), AsReference(b))
  }

  ghost predicate SameMembers(rows: seq<Row>, p: Reference, q: Reference) {
    forall row :: row in rows ==> MemberOf(row, p) == MemberOf(row, q)
  }

  /** The same leader, quorum and members, in whatever order. */
  ghost predicate SameVerdict(a: Service, b: Service) {
    match (a, b)
    case (Unreachable, Unreachable) => true
    case (Reachable(l, q, m), Reachable(l', q', m')) => l == l' && q == q' && multiset(m) == multiset(m')
    case _ => false
  }

  ghost predicate VerdictFree(rows: seq<Row>) {
    forall other :: multiset(other) == multiset(rows) ==> SameVerdict(Verdict(other), Verdict(rows))
  }

  /** A row is on a timeline known to differ from the reference's. */
  ghost predicate SomeDiverged(rows: seq<Row>, reference: Reference) {
    exists row :: row in rows && Diverged(row.timeline, reference.timeline)
  }

  lemma MembersCome(rows: seq<Row>, reference: Reference, m: Member)
    ensures m in multiset(MembersOf(rows, reference)) <==> exists row :: row in rows && MemberOf(row, reference) == m
  {
    hide MemberOf;
    var members := MembersOf(rows, reference);
    if m in members {
      var k :| 0 <= k < |members| && members[k] == m;
      assert rows[k] in rows;
    }
    if row :| row in rows && MemberOf(row, reference) == m {
      var k :| 0 <= k < |rows| && rows[k] == row;
      assert members[k] in members;
    }
  }

  /** Every member under one reference is one under the other, so a divergence shows the other's timeline. */
  lemma DivergenceNamesTimeline(rows: seq<Row>, p: Reference, q: Reference)
    requires multiset(MembersOf(rows, p)) == multiset(MembersOf(rows, q)) && SomeDiverged(rows, p)
    ensures p.timeline == q.timeline
  {
    var row :| row in rows && Diverged(row.timeline, p.timeline);
    var m := MemberOf(row, p);
    MembersCome(rows, p, m);
    MembersCome(rows, q, m);
    hide MembersOf;
    var row' :| row' in rows && MemberOf(row', q) == m;
    DivergenceTellsTimeline(row, p);
    TimelineTold(row', q);
    hide MemberOf;
  }

  /** The timeline warning of a member, if it has one. */
  function TimelineOf(m: Member): Option<string> {
    match m.warning
    case Some(Timeline(_, primary)) => Some(primary)
    case Some(TimelineAndTransition(_, primary, _)) => Some(primary)
    case _ => None
  }

  lemma DivergenceTellsTimeline(row: Row, reference: Reference)
    requires Diverged(row.timeline, reference.timeline)
    ensures TimelineOf(MemberOf(row, reference)) == reference.timeline
  {
    hide NodeOf;
  }

  lemma TimelineTold(row: Row, reference: Reference)
    ensures TimelineOf(MemberOf(row, reference)).Some? ==>
      TimelineOf(MemberOf(row, reference)) == reference.timeline
  {
    hide NodeOf;
  }

  lemma SameJudgement(rows: seq<Row>, p: Reference, q: Reference)
    requires multiset(MembersOf(rows, p)) == multiset(MembersOf(rows, q))
    ensures forall row :: row in rows ==> Judged(row, p) == Judged(row, q)
  {
    if SomeDiverged(rows, p) {
      DivergenceNamesTimeline(rows, p, q);
    } else if SomeDiverged(rows, q) {
      DivergenceNamesTimeline(rows, q, p);
    }
    hide MembersOf, MemberOf, NodeOf;
  }

  /** A member without what a lag adds to it. */
  function Unlagged(m: Member): Member {
    m.(warning := if m.warning == Some(Lag) then None else m.warning, lagBytes := None)
  }

  lemma LagIsAdded(row: Row, reference: Reference)
    ensures Unlagged(MemberOf(row, reference)) == Judged(row, reference)
  {
    hide NodeOf;
  }

  /** So equal members in all mean equal members row by row. */
  lemma SameRowByRow(rows: seq<Row>, p: Reference, q: Reference)
    requires multiset(MembersOf(rows, p)) == multiset(MembersOf(rows, q))
    ensures SameMembers(rows, p, q)
  {
    SameJudgement(rows, p, q);
    hide MembersOf, Judged, Lagged;
    forall row | row in rows ensures MemberOf(row, p) == MemberOf(row, q) {
      MembersCome(rows, p, MemberOf(row, p));
      MembersCome(rows, q, MemberOf(row, p));
      var row' :| row' in rows && MemberOf(row', q) == MemberOf(row, p);
      LagIsAdded(row, p);
      LagIsAdded(row', q);
      assert Judged(row', q) == Judged(row, q);
    }
  }

  lemma SomeReference(rows: seq<Row>) returns (row: Row)
    requires SomePrimary(rows)
    ensures row in rows && IsPrimary(row) && ReferenceOf(rows) == AsReference(row)
  {
    ReferenceIsPrimary(rows);
    row :| row in rows && IsPrimary(row) && ReferenceOf(rows) == Reference(row.timeline, Some(row.lsn));
  }

  lemma SomeLeader(rows: seq<Row>) returns (row: Row)
    requires SomePrimary(rows)
    ensures row in rows && IsPrimary(row) && LeaderOf(rows) == Some(row.name)
  {
    LeaderIsPrimary(rows);
    row :| row in rows && IsPrimary(row) && LeaderOf(rows) == Some(row.name);
  }

  lemma NoPrimary(rows: seq<Row>)
    requires !SomePrimary(rows)
    ensures ReferenceOf(rows) == Reference(None, None) && LeaderOf(rows) == None
  {
    ReferenceIsPrimary(rows);
    LeaderIsPrimary(rows);
  }

  lemma AlikePair(rows: seq<Row>, a: Row, b: Row)
    requires JudgedAlike(rows) && a in rows && b in rows && IsPrimary(a) && IsPrimary(b)
    ensures a.name == b.name && SameMembers(rows, AsReference(a), AsReference(b))
  {
  }

  /** The leader, and whichever primary is the reference, make no difference. */
  lemma AlikeBasis(rows: seq<Row>, other: seq<Row>)
    requires JudgedAlike(rows) && multiset(rows) == multiset(other)
    ensures LeaderOf(rows) == LeaderOf(other)
    ensures SameMembers(rows, ReferenceOf(rows), ReferenceOf(other))
  {
    hide MemberOf, ReferenceOf, LeaderOf, SameMembers, JudgedAlike;
    SameRows(rows, other);
    assert SomePrimary(rows) <==> SomePrimary(other);
    hide SomePrimary;
    if SomePrimary(rows) {
      var a := SomeReference(rows);
      var b := SomeReference(other);
      AlikePair(rows, a, b);
      var c := SomeLeader(rows);
      var d := SomeLeader(other);
      AlikePair(rows, c, d);
    } else {
      NoPrimary(rows);
      NoPrimary(other);
      SameAsItself(rows, ReferenceOf(rows));
    }
  }

  lemma SameAsItself(rows: seq<Row>, reference: Reference)
    ensures SameMembers(rows, reference, reference)
  {
  }

  /** Against whichever primary the members are judged, they are the same. */
  lemma AlikeMembers(rows: seq<Row>, other: seq<Row>)
    requires multiset(rows) == multiset(other) && SameMembers(rows, ReferenceOf(rows), ReferenceOf(other))
    ensures multiset(MembersOf(other, ReferenceOf(other))) == multiset(MembersOf(rows, ReferenceOf(rows)))
  {
    var p, q := ReferenceOf(rows), ReferenceOf(other);
    hide MemberOf, ReferenceOf;
    assert MembersOf(rows, p) == MembersOf(rows, q);
    MembersPermute(rows, other, q);
  }

  lemma SameMembersSameQuorum(a: seq<Member>, b: seq<Member>)
    requires multiset(a) == multiset(b)
    ensures CountHealthy(a) == CountHealthy(b) && |a| == |b|
  {
    assert |multiset(a)| == |a| && |multiset(b)| == |b|;
    CountPermutes(a, b);
  }

  /**
   The order of the rows does not matter for the verdict, its leader, its quorum and its members,
   exactly when all primary rows carry one name and every row is judged alike against each of them.
   */
  lemma VerdictFreeIff(rows: seq<Row>)
    ensures VerdictFree(rows) <==> JudgedAlike(rows)
  {
    if JudgedAlike(rows) {
      forall other | multiset(other) == multiset(rows) ensures SameVerdict(Verdict(other), Verdict(rows)) {
        assert |multiset(rows)| == |rows| && |multiset(other)| == |other|;
        AlikeBasis(rows, other);
        hide MembersOf, CountHealthy, ReferenceOf, LeaderOf, JudgedAlike;
        AlikeMembers(rows, other);
        SameMembersSameQuorum(MembersOf(rows, ReferenceOf(rows)), MembersOf(other, ReferenceOf(other)));
      }
    }
    if VerdictFree(rows) {
      forall a, b | a in rows && b in rows && IsPrimary(a) && IsPrimary(b)
        ensures a.name == b.name && SameMembers(rows, AsReference(a), AsReference(b))
      {
        FreeIsAlike(rows, a, b);
      }
    }
  }

  lemma Ends(rows: seq<Row>, k: nat)
    requires k < |rows| && IsPrimary(rows[k])
    ensures ToFront(rows, k) != [] && LeaderOf(ToFront(rows, k)) == Some(rows[k].name)
    ensures ToEnd(rows, k) != [] && ReferenceOf(ToEnd(rows, k)) == AsReference(rows[k])
  {
  }

  /** Any primary row can come first, and any can come last. */
  lemma FreeIsAlike(rows: seq<Row>, a: Row, b: Row)
    requires VerdictFree(rows) && a in rows && b in rows && IsPrimary(a) && IsPrimary(b)
    ensures a.name == b.name && SameMembers(rows, AsReference(a), AsReference(b))
  {
    var i :| 0 <= i < |rows| && rows[i] == a;
    var k :| 0 <= k < |rows| && rows[k] == b;
    Ends(rows, i);
    Ends(rows, k);
    LastIsReference(rows, i);
    LastIsReference(rows, k);
    hide MembersOf, CountHealthy, ReferenceOf, LeaderOf, ToFront, ToEnd, SameMembers;
    assert SameVerdict(Verdict(ToFront(rows, i)), Verdict(rows));
    assert SameVerdict(Verdict(ToFront(rows, k)), Verdict(rows));
    SameRowByRow(rows, AsReference(a), AsReference(b));
  }

  /** With that row last, the members are those judged against it. */
  lemma LastIsReference(rows: seq<Row>, k: nat)
    requires VerdictFree(rows) && k < |rows| && IsPrimary(rows[k])
    ensures Verdict(rows).Reachable?
    ensures multiset(MembersOf(rows, AsReference(rows[k]))) == multiset(Verdict(rows).members)
  {
    Ends(rows, k);
    var last := ToEnd(rows, k);
    MembersPermute(rows, last, AsReference(rows[k]));
    hide MembersOf, CountHealthy, ReferenceOf, LeaderOf, ToFront, ToEnd;
    assert SameVerdict(Verdict(last), Verdict(rows));
  }

  /** In particular where the primary rows agree, so always with one primary. */
  lemma VerdictIgnoresRowOrder(rows: seq<Row>, other: seq<Row>)
    requires PrimariesAgree(rows) && multiset(rows) == multiset(other)
    ensures SameVerdict(Verdict(other), Verdict(rows))
  {
    VerdictFreeIff(rows);
    hide MemberOf, Verdict;
  }

  /** And with primary rows of one name and timeline, whatever their positions, where no row is a secondary. */
  lemma NoSecondaryNoOrder(rows: seq<Row>)
    requires forall a, b :: a in rows && b in rows && IsPrimary(a) && IsPrimary(b) ==>
      a.name == b.name && a.timeline == b.timeline
    requires forall row :: row in rows ==> row.reported != "secondary"
    ensures VerdictFree(rows)
  {
    VerdictFreeIff(rows);
    hide Verdict, NodeOf;
  }

  /** The case that fails: of two primary rows the first names the leader, so their order decides. */
  lemma TwoPrimariesDiffer(a: Row, b: Row)
    requires IsPrimary(a) && IsPrimary(b) && a.name != b.name
    ensures Verdict([a, b]).Reachable? && Verdict([b, a]).Reachable?
    ensures Verdict([a, b]).leader == Some(a.name) && Verdict([b, a]).leader == Some(b.name)
    ensures !OrderFree([a, b]) && !VerdictFree([a, b])
  {
    hide MembersOf, ReferenceOf, CountHealthy, SameMembers, JudgedAlike, OrderFree, VerdictFree;
    var rows := [a, b];
    assert a in rows && b in rows;
    OrderFreeIff(rows);
    VerdictFreeIff(rows);
    if JudgedAlike(rows) {
      AlikePair(rows, a, b);
    }
  }
}
