/** The patterns of the host events, and the server-side filter that goes with them. */
module JournalPatterns {
  import opened Options
  import opened Journal

  predicate Contains(text: string, part: string) {
    part <= text || (text != "" && Contains(text[1..], part))
  }

  function Message(e: Entry): string {
    match e.message
    case None => ""
    case Some(text) => text
  }

  predicate Matches(kind: Kind, e: Entry) {
    match kind
    case OomKill => e.transport == Some("kernel") && Contains(Message(e), "Killed process")
    case VrrpState =>
      && e.identifier == Some("Keepalived_vrrp")
      && (|| Contains(Message(e), "Entering MASTER STATE")
          || Contains(Message(e), "Entering BACKUP STATE")
          || Contains(Message(e), "Entering FAULT STATE"))
    case ApacheSlotsFull =>
      && (e.unit == Some("apache2.service") || e.unit == Some("httpd.service"))
      && Contains(Message(e), "AH03490")
    case UnitFailed => e.pid == Some("1") && Contains(Message(e), "Failed with result")
    case ApacheReload =>
      && e.pid == Some("1")
      && ("Reloading apache2.service" <= Message(e) || "Reloading httpd.service" <= Message(e))
  }

  /** One server-side match: a field and its value. */
  datatype Source = Transport(value: string) | Identifier(value: string) | Unit(value: string) | Pid(value: string)

  function Sources(kind: Kind): seq<Source> {
    match kind
    case OomKill => [Transport("kernel")]
    case VrrpState => [Identifier("Keepalived_vrrp")]
    case ApacheSlotsFull => [Unit("apache2.service"), Unit("httpd.service")]
    case UnitFailed => [Pid("1")]
    case ApacheReload => [Pid("1")]
  }

  const KINDS: seq<Kind> := [OomKill, VrrpState, ApacheSlotsFull, UnitFailed, ApacheReload]

  predicate Meets(source: Source, e: Entry) {
    match source
    case Transport(value) => e.transport == Some(value)
    case Identifier(value) => e.identifier == Some(value)
    case Unit(value) => e.unit == Some(value)
    case Pid(value) => e.pid == Some(value)
  }

  /** The server-side filter: all the matches of all the kinds, ORed. */
  predicate Passes(e: Entry) {
    exists kind, i :: kind in KINDS && 0 <= i < |Sources(kind)| && Meets(Sources(kind)[i], e)
  }

  lemma MatchedPasses(kind: Kind, e: Entry)
    requires Matches(kind, e)
    ensures Passes(e)
  {
    assert kind in KINDS;
    var i := if kind.ApacheSlotsFull? && e.unit == Some("httpd.service") then 1 else 0;
    assert Meets(Sources(kind)[i], e);
  }

  // ---- What counts ------------------------------------------------------------------------------

  /** The wordings of a kind, one of which a message has to hold. */
  function Wordings(kind: Kind): seq<string> {
    match kind
    case OomKill => ["Killed process"]
    case VrrpState => ["Entering MASTER STATE", "Entering BACKUP STATE", "Entering FAULT STATE"]
    case ApacheSlotsFull => ["AH03490"]
    case UnitFailed => ["Failed with result"]
    case ApacheReload => ["Reloading apache2.service", "Reloading httpd.service"]
  }

  /** The part stands in the text from position `i` on. */
  predicate StandsAt(text: string, part: string, i: nat) {
    i <= |text| && part <= text[i..]
  }

  lemma {:induction false} ContainsIff(text: string, part: string)
    ensures Contains(text, part) <==> exists i: nat :: StandsAt(text, part, i)
    decreases |text|
  {
    assert text[0..] == text;
    assert part <= text ==> StandsAt(text, part, 0);
    if text != "" {
      ContainsIff(text[1..], part);
      if i: nat :| StandsAt(text[1..], part, i) {
        assert text[1..][i..] == text[i + 1..];
        assert StandsAt(text, part, i + 1);
      }
      if i: nat :| StandsAt(text, part, i) && i > 0 {
        assert text[1..][i - 1..] == text[i..];
        assert StandsAt(text[1..], part, i - 1);
      }
    }
  }

  /** One of the wordings stands in the message; a reload at its beginning. */
  ghost predicate Worded(kind: Kind, e: Entry) {
    exists k: nat, i: nat ::
      k < |Wordings(kind)| && StandsAt(Message(e), Wordings(kind)[k], i) && (kind.ApacheReload? ==> i == 0)
  }

  ghost predicate FromSource(kind: Kind, e: Entry) {
    exists k: nat :: k < |Sources(kind)| && Meets(Sources(kind)[k], e)
  }

  /** A kind counts exactly the entries of its sources that hold one of its wordings. */
  lemma MatchesIff(kind: Kind, e: Entry)
    ensures Matches(kind, e) <==> FromSource(kind, e) && Worded(kind, e)
  {
    SourceIff(kind, e);
    WordedIff(kind, e);
    hide Contains, StandsAt, Message;
  }

  lemma SourceIff(kind: Kind, e: Entry)
    ensures FromSource(kind, e) <==>
      match kind
      case OomKill => e.transport == Some("kernel")
      case VrrpState => e.identifier == Some("Keepalived_vrrp")
      case ApacheSlotsFull => e.unit == Some("apache2.service") || e.unit == Some("httpd.service")
      case UnitFailed => e.pid == Some("1")
      case ApacheReload => e.pid == Some("1")
  {
    assert FromSource(kind, e) <==> Meets(Sources(kind)[0], e) || (|Sources(kind)| == 2 && Meets(Sources(kind)[1], e));
  }

  /** Whether one wording stands in the message, where the kind looks for it. */
  predicate Says(kind: Kind, e: Entry, wording: string) {
    if kind.ApacheReload? then wording <= Message(e) else Contains(Message(e), wording)
  }

  lemma SaysIff(kind: Kind, e: Entry, wording: string)
    ensures Says(kind, e, wording) <==>
      exists i: nat :: StandsAt(Message(e), wording, i) && (kind.ApacheReload? ==> i == 0)
  {
    ContainsIff(Message(e), wording);
    assert Message(e)[0..] == Message(e);
    assert StandsAt(Message(e), wording, 0) <==> wording <= Message(e);
    hide Contains;
  }

  lemma WordedIff(kind: Kind, e: Entry)
    ensures Worded(kind, e) <==>
      exists k: nat :: k < |Wordings(kind)| && Says(kind, e, Wordings(kind)[k])
    ensures (exists k: nat :: k < |Wordings(kind)| && Says(kind, e, Wordings(kind)[k])) <==>
      || Says(kind, e, Wordings(kind)[0])
      || (|Wordings(kind)| > 1 && Says(kind, e, Wordings(kind)[1]))
      || (|Wordings(kind)| > 2 && Says(kind, e, Wordings(kind)[2]))
  {
    forall k: nat | k < |Wordings(kind)|
      ensures Says(kind, e, Wordings(kind)[k]) <==>
        exists i: nat :: StandsAt(Message(e), Wordings(kind)[k], i) && (kind.ApacheReload? ==> i == 0)
    {
      SaysIff(kind, e, Wordings(kind)[k]);
    }
    assert |Wordings(kind)| <= 3;
    hide Says, StandsAt, Wordings;
  }

  function Journald(): Rules {
    Rules((kind: Kind, e: Entry) => Matches(kind, e), (e: Entry) => Passes(e))
  }

  lemma FilterLosesNothing()
    ensures Lossless(Journald())
  {
    forall kind: Kind, e: Entry | Matches(kind, e) ensures Passes(e) {
      MatchedPasses(kind, e);
    }
  }
}
