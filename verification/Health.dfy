/**
 The health checks of one run: which tasks the budget gets, and how its report becomes one
 entry per enabled kind.
 */
module Health {
  import opened Budget
  import opened Sorting

  const HOST_KINDS: set<string> := {"vrrp", "apache", "systemd"}

  /** Kinds probed on the host itself, without a Docker client. */
  const HOST_RUN_KINDS: set<string> := {"glusterfs"}

  // ---- The enabled kinds ------------------------------------------------------------------------

  method Deduplicate(kinds: seq<string>) returns (r: seq<string>)
    ensures r == Distinctly(kinds)
  {
    r := [];
    for i := 0 to |kinds|
      invariant r == Distinctly(kinds[..i])
    {
      DistinctlyKeeps(kinds[..i]);
      assert kinds[..i + 1][..i] == kinds[..i];
      if kinds[i] !in r {
        r := r + [kinds[i]];
      }
    }
    assert kinds[..|kinds|] == kinds;
  }

  /** The members that satisfy a condition, in order. */
  function Select(kinds: seq<string>, keep: string -> bool): seq<string> {
    if kinds == [] then []
    else if keep(kinds[0]) then [kinds[0]] + Select(kinds[1..], keep) else Select(kinds[1..], keep)
  }

  lemma {:induction false} SelectKeeps(kinds: seq<string>, keep: string -> bool)
    ensures forall kind :: kind in Select(kinds, keep) <==> kind in kinds && keep(kind)
    ensures Distinct(kinds) ==> Distinct(Select(kinds, keep))
    decreases |kinds|
  {
    if kinds != [] {
      SelectKeeps(kinds[1..], keep);
      assert kinds == [kinds[0]] + kinds[1..];
      if Distinct(kinds) {
        assert kinds[0] !in kinds[1..];
      }
    }
  }

  /** What was configured, and what this host has. */
  datatype Setting = Setting(enabled: seq<string>, client: bool, dockerPresent: bool) {
    function Kinds(): seq<string> {
      Distinctly(enabled)
    }

    predicate Runs(kind: string) {
      kind !in HOST_KINDS && (client || kind in HOST_RUN_KINDS)
    }

    predicate Unchecks(kind: string) {
      kind !in HOST_KINDS && !Runs(kind) && dockerPresent
    }

    function RunsTest(): string -> bool {
      (kind: string) => Runs(kind)
    }

    function UnchecksTest(): string -> bool {
      (kind: string) => Unchecks(kind)
    }

    function Runnable(): seq<string> {
      Select(Kinds(), RunsTest())
    }

    function Unchecked(): seq<string> {
      Select(Kinds(), UnchecksTest())
    }
  }

  // ---- The tasks --------------------------------------------------------------------------------

  function ClusterKey(kind: string): string {
    "cluster:" + kind
  }

  const SYSTEMD_KEY := "host:systemd"

  function ClusterKeys(kinds: seq<string>): (keys: seq<string>)
    ensures |keys| == |kinds| && forall k :: 0 <= k < |kinds| ==> keys[k] == ClusterKey(kinds[k])
  {
    seq(|kinds|, k requires 0 <= k < |kinds| => ClusterKey(kinds[k]))
  }

  /** The task names, in the order the tasks are registered. */
  function TaskNames(setting: Setting): seq<string> {
    ClusterKeys(setting.Runnable())
      + (if "systemd" in setting.Kinds() then [SYSTEMD_KEY] else [])
      + ["peers", "dns"]
  }

  method BuildTasks(setting: Setting) returns (tasks: seq<string>, runnable: seq<string>, unchecked: seq<string>)
    ensures tasks == TaskNames(setting)
    ensures runnable == setting.Runnable() && unchecked == setting.Unchecked()
  {
    var kinds := Deduplicate(setting.enabled);
    runnable := Select(kinds, setting.RunsTest());
    unchecked := Select(kinds, setting.UnchecksTest());
    tasks := [];
    for i := 0 to |runnable|
      invariant tasks == ClusterKeys(runnable)[..i]
    {
      tasks := tasks + [ClusterKey(runnable[i])];
    }
    if "systemd" in kinds {
      tasks := tasks + [SYSTEMD_KEY];
    }
    tasks := tasks + ["peers"];
    tasks := tasks + ["dns"];
  }

  lemma ClusterKeyIsItsOwn(kind: string, other: string)
    ensures ClusterKey(kind) == ClusterKey(other) <==> kind == other
    ensures ClusterKey(kind) !in {SYSTEMD_KEY, "peers", "dns"}
  {
    assert ClusterKey(kind)[0] == 'c';
    assert ClusterKey(kind)[8..] == kind;
    assert ClusterKey(other)[8..] == other;
  }

  /** However the kinds repeat in the configuration, no two tasks share a name. */
  lemma TaskNamesAreDistinct(setting: Setting)
    ensures Distinct(TaskNames(setting))
  {
    DistinctlyKeeps(setting.enabled);
    SelectKeeps(setting.Kinds(), setting.RunsTest());
    var runnable := setting.Runnable();
    var names := TaskNames(setting);
    var keys := ClusterKeys(runnable);
    hide Select, Distinctly;
    forall i, k | 0 <= i < k < |names| ensures names[i] != names[k] {
      if i < |keys| {
        ClusterKeyIsItsOwn(runnable[i], if k < |keys| then runnable[k] else "");
        assert names[i] == ClusterKey(runnable[i]);
      }
    }
  }

  // ---- The report -------------------------------------------------------------------------------

  /** What a check said, that it failed, or that it was not made. */
  datatype Verdict<V> = Answered(value: V) | Failed(text: string) | NotChecked

  datatype Entry<V> = Entry(kind: string, verdict: Verdict<V>)

  /** The report of a budgeted run by task name. */
  datatype Outcome<V> = Outcome(results: map<string, V>, failed: map<string, string>, truncated: seq<string>)

  ghost predicate OutcomeOf<V(!new)>(names: seq<string>, report: Report<V>, outcome: Outcome<V>) {
    && (forall i :: 0 <= i < |names| ==>
          && (i in report.results <==> names[i] in outcome.results)
          && (i in report.failed <==> names[i] in outcome.failed)
          && (i in report.truncated <==> names[i] in outcome.truncated)
          && (i in report.results ==> outcome.results[names[i]] == report.results[i])
          && (i in report.failed ==> outcome.failed[names[i]] == report.failed[i]))
  }

  /** The entry a kind gets under a task name, if its task came out. */
  function Reply<V>(outcome: Outcome<V>, key: string, kind: string): seq<Entry<V>> {
    if key in outcome.results then [Entry(kind, Answered(outcome.results[key]))]
    else if key in outcome.failed then [Entry(kind, Failed(outcome.failed[key]))]
    else []
  }

  function Replies<V>(outcome: Outcome<V>, kinds: seq<string>): seq<Entry<V>> {
    if kinds == [] then []
    else Replies(outcome, kinds[..|kinds| - 1]) + Reply(outcome, ClusterKey(kinds[|kinds| - 1]), kinds[|kinds| - 1])
  }

  function NotCheckedEntries<V>(kinds: seq<string>): (r: seq<Entry<V>>)
    ensures |r| == |kinds| && forall k :: 0 <= k < |r| ==> r[k] == Entry(kinds[k], NotChecked)
  {
    seq(|kinds|, k requires 0 <= k < |kinds| => Entry(kinds[k], NotChecked))
  }

  /** The cluster entries: what was probed, then what could not be for lack of a client. */
  method ClustersFrom<V>(setting: Setting, outcome: Outcome<V>) returns (clusters: seq<Entry<V>>)
    ensures clusters == Clusters(setting, outcome)
  {
    var tasks, runnable, unchecked := BuildTasks(setting);
    var probed := runnable != [] || unchecked != [];
    clusters := [];
    var kinds := if probed then runnable else [];
    for i := 0 to |kinds|
      invariant clusters == Replies(outcome, kinds[..i])
    {
      assert kinds[..i + 1][..i] == kinds[..i];
      var key := ClusterKey(kinds[i]);
      if key in outcome.results {
        clusters := clusters + [Entry(kinds[i], Answered(outcome.results[key]))];
      } else if key in outcome.failed {
        clusters := clusters + [Entry(kinds[i], Failed(outcome.failed[key]))];
      }
    }
    assert kinds[..|kinds|] == kinds == runnable;
    clusters := clusters + NotCheckedEntries(unchecked);
  }

  function Clusters<V>(setting: Setting, outcome: Outcome<V>): seq<Entry<V>> {
    Replies(outcome, setting.Runnable()) + NotCheckedEntries(setting.Unchecked())
  }

  function KindsOf<V>(entries: seq<Entry<V>>): (r: seq<string>)
    ensures |r| == |entries| && forall k :: 0 <= k < |r| ==> r[k] == entries[k].kind
  {
    seq(|entries|, k requires 0 <= k < |entries| => entries[k].kind)
  }

  // ---- Every kind exactly once --------------------------------------------------------------------

  predicate CameOut<V>(outcome: Outcome<V>, key: string) {
    key in outcome.results || key in outcome.failed
  }

  function Out<V>(outcome: Outcome<V>): string -> bool {
    (kind: string) => CameOut(outcome, ClusterKey(kind))
  }

  /** The entries are those of the kinds whose task came out, each with its own reply. */
  lemma {:induction false} RepliesAreExact<V>(outcome: Outcome<V>, kinds: seq<string>)
    ensures KindsOf(Replies(outcome, kinds)) == Select(kinds, Out(outcome))
    ensures forall e :: e in Replies(outcome, kinds) ==> [e] == Reply(outcome, ClusterKey(e.kind), e.kind)
    decreases |kinds|
  {
    if kinds != [] {
      var last := kinds[|kinds| - 1];
      var before := kinds[..|kinds| - 1];
      RepliesAreExact(outcome, before);
      SelectLast(kinds, Out(outcome));
      var reply := Reply(outcome, ClusterKey(last), last);
      assert KindsOf(Replies(outcome, kinds)) == KindsOf(Replies(outcome, before)) + KindsOf(reply);
    }
  }

  lemma {:induction false} SelectLast(kinds: seq<string>, keep: string -> bool)
    requires kinds != []
    ensures Select(kinds, keep)
      == Select(kinds[..|kinds| - 1], keep) + if keep(kinds[|kinds| - 1]) then [kinds[|kinds| - 1]] else []
    decreases |kinds|
  {
    if |kinds| > 1 {
      SelectLast(kinds[1..], keep);
      assert kinds[1..][..|kinds| - 2] == kinds[..|kinds| - 1][1..];
    }
  }

  /** A run of the tasks that a setting asks for. */
  ghost predicate RunOf<V(!new)>(setting: Setting, plan: Plan, states: seq<State<V>>, outcome: Outcome<V>) {
    && plan.names == TaskNames(setting) && plan.Ordered() && Run(plan, states)
    && var last := states[|states| - 1];
       last.joiner.Done? && OutcomeOf(plan.names, last.joiner.report, outcome)
  }

  /** A task of the run is truncated exactly when it did not come out. */
  lemma TruncatedOrCameOut<V(!new)>(setting: Setting, plan: Plan, states: seq<State<V>>, outcome: Outcome<V>,
      key: string)
    requires RunOf(setting, plan, states, outcome) && key in TaskNames(setting)
    ensures key in outcome.truncated <==> !CameOut(outcome, key)
  {
    var i :| 0 <= i < |plan.names| && plan.names[i] == key;
    hide Run, plan.Ordered, TaskNames, Inv;
    ReportedExactlyOnce(plan, states, |states| - 1, i);
  }

  /** The kinds of the entries: the runnable ones that came out, then the unchecked ones. */
  lemma KindsListed<V>(setting: Setting, outcome: Outcome<V>)
    ensures KindsOf(Clusters(setting, outcome)) == Select(setting.Runnable(), Out(outcome)) + setting.Unchecked()
    ensures Distinct(KindsOf(Clusters(setting, outcome)))
    ensures forall kind :: kind in KindsOf(Clusters(setting, outcome)) <==>
      && kind in setting.enabled
      && ((setting.Runs(kind) && CameOut(outcome, ClusterKey(kind))) || setting.Unchecks(kind))
  {
    DistinctlyKeeps(setting.enabled);
    SelectKeeps(setting.Kinds(), setting.RunsTest());
    SelectKeeps(setting.Kinds(), setting.UnchecksTest());
    RepliesAreExact(outcome, setting.Runnable());
    SelectKeeps(setting.Runnable(), Out(outcome));
    hide Select, Distinctly, Replies;
    var out, unchecked := Select(setting.Runnable(), Out(outcome)), setting.Unchecked();
    assert KindsOf(Clusters(setting, outcome)) == out + unchecked;
    assert forall kind :: kind in out ==> kind !in unchecked;
    assert forall k :: 0 <= k < |out| ==> out[k] in out;
  }

  lemma KindTruncatedOrOut<V(!new)>(setting: Setting, plan: Plan, states: seq<State<V>>, outcome: Outcome<V>,
      kind: string)
    requires RunOf(setting, plan, states, outcome) && kind in setting.enabled && setting.Runs(kind)
    ensures ClusterKey(kind) in outcome.truncated <==> !CameOut(outcome, ClusterKey(kind))
  {
    var runnable := setting.Runnable();
    assert kind in runnable by {
      DistinctlyKeeps(setting.enabled);
      SelectKeeps(setting.Kinds(), setting.RunsTest());
    }
    var k :| 0 <= k < |runnable| && runnable[k] == kind;
    assert TaskNames(setting)[k] == ClusterKeys(runnable)[k];
    TruncatedOrCameOut(setting, plan, states, outcome, ClusterKey(kind));
  }

  /**
   Over all interleavings, every distinct cluster kind that can run gets one entry or one
   truncated task, never both; a kind that could not be probed gets one entry; no other kind
   appears, and none twice, even when kinds repeat in the configuration.
   */
  lemma EveryKindOnce<V(!new)>(setting: Setting, plan: Plan, states: seq<State<V>>, outcome: Outcome<V>)
    requires RunOf(setting, plan, states, outcome)
    ensures var kinds := KindsOf(Clusters(setting, outcome));
      && Distinct(kinds)
      && (forall kind :: kind in setting.enabled && setting.Runs(kind) ==>
            (kind in kinds <==> ClusterKey(kind) !in outcome.truncated))
      && (forall kind :: kind in setting.enabled && setting.Unchecks(kind) ==> kind in kinds)
      && (forall kind :: kind in kinds ==> kind in setting.enabled && (setting.Runs(kind) || setting.Unchecks(kind)))
  {
    KindsListed(setting, outcome);
    forall kind | kind in setting.enabled && setting.Runs(kind)
      ensures ClusterKey(kind) in outcome.truncated <==> !CameOut(outcome, ClusterKey(kind))
    {
      KindTruncatedOrOut(setting, plan, states, outcome, kind);
    }
    hide RunOf, Clusters, CameOut;
  }

  /** An entry is the reply of its own kind's task: its answer, or else the text of its failure. */
  lemma EntryIsItsOwnReply<V>(setting: Setting, outcome: Outcome<V>, e: Entry<V>)
    requires e in Clusters(setting, outcome) && !e.verdict.NotChecked?
    ensures var key := "cluster:" + e.kind;
      if key in outcome.results then e.verdict == Answered(outcome.results[key])
      else key in outcome.failed && e.verdict == Failed(outcome.failed[key])
  {
    RepliesAreExact(outcome, setting.Runnable());
    assert [e] == Reply(outcome, ClusterKey(e.kind), e.kind);
    assert [e][0] == Reply(outcome, ClusterKey(e.kind), e.kind)[0];
  }

  /** Which kinds are probed, and which are listed as not checked, from the configuration and the host alone. */
  lemma KindsSorted(setting: Setting, kind: string)
    ensures "peers" in TaskNames(setting) && "dns" in TaskNames(setting)
    ensures "host:systemd" in TaskNames(setting) <==> "systemd" in setting.enabled
    ensures "cluster:" + kind in TaskNames(setting) <==>
      kind in setting.enabled && kind !in {"vrrp", "apache", "systemd"} && (setting.client || kind == "glusterfs")
    ensures kind in setting.Unchecked() <==>
      && kind in setting.enabled && kind !in {"vrrp", "apache", "systemd"}
      && !setting.client && kind != "glusterfs" && setting.dockerPresent
  {
    DistinctlyKeeps(setting.enabled);
    SelectKeeps(setting.Kinds(), setting.RunsTest());
    SelectKeeps(setting.Kinds(), setting.UnchecksTest());
    hide Select, Distinctly;
    var runnable, names := setting.Runnable(), TaskNames(setting);
    assert "cluster:" + kind == ClusterKey(kind);
    ClusterKeyIsItsOwn(kind, "");
    if ClusterKey(kind) in names {
      var i :| 0 <= i < |names| && names[i] == ClusterKey(kind);
      assert i < |runnable|;
      ClusterKeyIsItsOwn(kind, runnable[i]);
    }
    if kind in runnable {
      var i :| 0 <= i < |runnable| && runnable[i] == kind;
      assert names[i] == ClusterKey(kind);
    }
    OtherTasks(setting);
  }

  lemma OtherTasks(setting: Setting)
    ensures "peers" in TaskNames(setting) && "dns" in TaskNames(setting)
    ensures "host:systemd" in TaskNames(setting) <==> "systemd" in setting.enabled
  {
    DistinctlyKeeps(setting.enabled);
    hide Select, Distinctly;
    var names, n := TaskNames(setting), |setting.Runnable()|;
    assert names[|names| - 2] == "peers" && names[|names| - 1] == "dns";
    assert "systemd" in setting.Kinds() ==> names[n] == SYSTEMD_KEY;
    forall i | 0 <= i < n ensures names[i] != SYSTEMD_KEY {
      ClusterKeyIsItsOwn(setting.Runnable()[i], "");
      assert names[i] == ClusterKey(setting.Runnable()[i]);
    }
    assert "peers"[0] == 'p' && "dns"[0] == 'd' && SYSTEMD_KEY[0] == 'h';
  }

  /** What is selected keeps its order. */
  lemma {:induction false} SelectInOrder(kinds: seq<string>, keep: string -> bool, i: nat, k: nat)
    returns (p: nat, q: nat)
    requires i < k < |Select(kinds, keep)|
    ensures p < q < |kinds| && kinds[p] == Select(kinds, keep)[i] && kinds[q] == Select(kinds, keep)[k]
    decreases |kinds|
  {
    var rest := kinds[1..];
    if !keep(kinds[0]) {
      p, q := SelectInOrder(rest, keep, i, k);
      p, q := p + 1, q + 1;
    } else if i == 0 {
      SelectKeeps(rest, keep);
      assert Select(rest, keep)[k - 1] in Select(rest, keep);
      q :| 0 <= q < |rest| && rest[q] == Select(rest, keep)[k - 1];
      p, q := 0, q + 1;
    } else {
      p, q := SelectInOrder(rest, keep, i - 1, k - 1);
      p, q := p + 1, q + 1;
    }
  }

  // ---- Their order ------------------------------------------------------------------------------

  function In(listed: seq<string>): string -> bool {
    (kind: string) => kind in listed
  }

  /** The kinds listed come in the order in which the configuration first mentions them. */
  ghost predicate InConfiguredOrder(setting: Setting, listed: seq<string>) {
    listed == Select(setting.Kinds(), In(listed))
  }

  /** Some unchecked kind is mentioned before a kind that ran and came out. */
  ghost predicate UncheckedFirst<V(!new)>(setting: Setting, outcome: Outcome<V>) {
    SomeBefore(setting.Kinds(), setting.UnchecksTest(), Answers(setting, outcome))
  }

  ghost predicate SomeBefore(kinds: seq<string>, first: string -> bool, then_: string -> bool) {
    exists i, k :: 0 <= i < k < |kinds| && first(kinds[i]) && then_(kinds[k])
  }

  function Answers<V>(setting: Setting, outcome: Outcome<V>): string -> bool {
    (kind: string) => setting.Runs(kind) && CameOut(outcome, ClusterKey(kind))
  }

  function Either(p: string -> bool, q: string -> bool): string -> bool {
    (kind: string) => p(kind) || q(kind)
  }

  lemma {:induction false} SelectTwice(kinds: seq<string>, p: string -> bool, q: string -> bool, both: string -> bool)
    requires forall kind :: both(kind) <==> p(kind) && q(kind)
    ensures Select(Select(kinds, p), q) == Select(kinds, both)
    decreases |kinds|
  {
    if kinds != [] {
      SelectTwice(kinds[1..], p, q, both);
      var rest := Select(kinds[1..], p);
      assert ([kinds[0]] + rest)[1..] == rest;
    }
  }

  lemma {:induction false} SelectEqual(kinds: seq<string>, p: string -> bool, q: string -> bool)
    requires forall kind :: kind in kinds ==> (p(kind) <==> q(kind))
    ensures Select(kinds, p) == Select(kinds, q)
    decreases |kinds|
  {
    if kinds != [] {
      SelectEqual(kinds[1..], p, q);
    }
  }

  /** Listing the ones and then the others is listing all in order, unless one of the others comes first. */
  lemma {:induction false} OnesThenOthers(kinds: seq<string>, ones: string -> bool, others: string -> bool,
      all: string -> bool)
    requires forall kind :: all(kind) <==> ones(kind) || others(kind)
    requires forall kind :: !(ones(kind) && others(kind))
    ensures Select(kinds, ones) + Select(kinds, others) == Select(kinds, all) <==> !SomeBefore(kinds, others, ones)
    decreases |kinds|
  {
    if kinds != [] {
      var rest := kinds[1..];
      OnesThenOthers(rest, ones, others, all);
      SelectKeeps(rest, ones);
      var a, b, c := Select(rest, ones), Select(rest, others), Select(rest, all);
      assert SomeBefore(kinds, others, ones) <==>
        SomeBefore(rest, others, ones) || (others(kinds[0]) && exists kind :: kind in rest && ones(kind))
      by {
        assert forall i :: 0 < i < |kinds| ==> kinds[i] == rest[i - 1];
      }
      if ones(kinds[0]) {
        assert ([kinds[0]] + a) + b == [kinds[0]] + (a + b);
        assert ([kinds[0]] + (a + b))[1..] == a + b && ([kinds[0]] + c)[1..] == c;
      } else if others(kinds[0]) {
        if a == [] {
          assert a + ([kinds[0]] + b) == [kinds[0]] + (a + b);
          assert forall kind :: kind in rest ==> !ones(kind);
        } else {
          assert (a + ([kinds[0]] + b))[0] == a[0] && a[0] in a;
          assert a[0] in rest && ones(a[0]);
        }
      }
    }
  }

  lemma OrderOf(kinds: seq<string>, ones: string -> bool, others: string -> bool, listed: seq<string>)
    requires listed == Select(kinds, ones) + Select(kinds, others)
    requires forall kind :: kind in kinds ==> (kind in listed <==> ones(kind) || others(kind))
    requires forall kind :: !(ones(kind) && others(kind))
    ensures listed == Select(kinds, In(listed)) <==> !SomeBefore(kinds, others, ones)
  {
    SelectEqual(kinds, Either(ones, others), In(listed));
    OnesThenOthers(kinds, ones, others, Either(ones, others));
  }

  /** What is listed: the kinds that ran and came out, then the unchecked ones. */
  lemma ListedInTwoParts<V>(setting: Setting, outcome: Outcome<V>)
    ensures KindsOf(Clusters(setting, outcome))
      == Select(setting.Kinds(), Answers(setting, outcome)) + Select(setting.Kinds(), setting.UnchecksTest())
    ensures forall kind :: kind in setting.Kinds() ==>
      (kind in KindsOf(Clusters(setting, outcome)) <==>
         Answers(setting, outcome)(kind) || setting.UnchecksTest()(kind))
  {
    KindsListed(setting, outcome);
    DistinctlyKeeps(setting.enabled);
    hide Select, Clusters, Distinctly;
    SelectTwice(setting.Kinds(), setting.RunsTest(), Out(outcome), Answers(setting, outcome));
  }

  /**
   The entries are in configured order exactly when no unchecked kind is mentioned before one
   that came out: the unchecked ones are listed last.  With a Docker client none is unchecked.
   */
  lemma ConfiguredOrderIff<V(!new)>(setting: Setting, outcome: Outcome<V>)
    ensures InConfiguredOrder(setting, KindsOf(Clusters(setting, outcome))) <==> !UncheckedFirst(setting, outcome)
    ensures setting.client || !setting.dockerPresent ==> !UncheckedFirst(setting, outcome)
  {
    ListedInTwoParts(setting, outcome);
    hide Select, Clusters, Distinctly, CameOut;
    OrderOf(setting.Kinds(), Answers(setting, outcome), setting.UnchecksTest(), KindsOf(Clusters(setting, outcome)));
  }

  /** The case that fails: a kind that cannot be checked, enabled before one that came out, is listed behind it. */
  lemma UncheckedListedLast<V(!new)>(setting: Setting, outcome: Outcome<V>, a: string, b: string)
    requires setting.enabled == [a, b] && a != b
    requires setting.Unchecks(a) && setting.Runs(b) && CameOut(outcome, ClusterKey(b))
    ensures KindsOf(Clusters(setting, outcome)) == [b, a]
    ensures !InConfiguredOrder(setting, [b, a])
  {
    TwoKinds(a, b);
    ListedInTwoParts(setting, outcome);
    hide Clusters, Distinctly, Replies, Select;
    SelectFromTwo(a, b, Answers(setting, outcome));
    SelectFromTwo(a, b, setting.UnchecksTest());
    SelectFromTwo(a, b, In([b, a]));
    hide CameOut;
    assert [b, a][0] != [a, b][0];
  }

  /** Such kinds are `postgres` and `glusterfs` on a host with Docker but without a client. */
  lemma PostgresBehindGluster()
    ensures var setting := Setting(["postgres", "glusterfs"], false, true);
      setting.Unchecks("postgres") && setting.Runs("glusterfs") && "postgres" != "glusterfs"
  {
    assert |"postgres"| != |"glusterfs"|;
  }

  lemma TwoKinds(a: string, b: string)
    requires a != b
    ensures Distinctly([a, b]) == [a, b]
  {
    var kinds := [a, b];
    assert kinds[..1] == [a] && [a][..0] == [];
    assert Distinctly([a]) == [] + [a] == [a];
    assert b !in [a];
  }

  lemma SelectFromTwo(a: string, b: string, keep: string -> bool)
    ensures Select([a, b], keep) == if keep(a) then (if keep(b) then [a, b] else [a]) else if keep(b) then [b] else []
  {
    assert [a, b][1..] == [b] && [b][1..] == [];
    assert Select([b], keep) == if keep(b) then [b] else [] by {
      assert Select([], keep) == [] && [b] + [] == [b];
    }
    assert [a] + [b] == [a, b] && [a] + [] == [a];
  }
}
