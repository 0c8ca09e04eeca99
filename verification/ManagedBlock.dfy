/** The marker-delimited block that the installer keeps in a shell's profile. */
module ManagedBlock {
  import opened Options

  // ---- Finding the block --------------------------------------------------------------------------

  /** What opens and what closes a block. */
  datatype Marks = Marks(begin: string, end: string) {
    /** `#` only at the start of either mark, no newline, and neither mark hidden in the other. */
    ghost predicate Apart() {
      && |begin| == |end| > 2
      && begin[0] == '#' && (forall k :: 0 < k < |begin| ==> begin[k] != '#')
      && end[0] == '#' && (forall k :: 0 < k < |end| ==> end[k] != '#')
      && '\n' !in begin && '\n' !in end && begin != end
    }
  }

  predicate OccursAt(text: string, needle: string, k: nat) {
    k + |needle| <= |text| && text[k..k + |needle|] == needle
  }

  ghost predicate Occurs(text: string, needle: string) {
    exists k: nat :: OccursAt(text, needle, k)
  }

  /** The first place where `needle` occurs. */
  function Find(text: string, needle: string): Option<nat> {
    if OccursAt(text, needle, 0) then Some(0)
    else if text == "" then None
    else
      match Find(text[1..], needle)
      case None => None
      case Some(k) => Some(k + 1)
  }

  /** The first block with the line end behind it: from its begin mark to the next end mark. */
  function FirstBlock(m: Marks, text: string): Option<(nat, nat)> {
    match Find(text, m.begin)
    case None => None
    case Some(i) =>
      if i + |m.begin| > |text| then None
      else
        match Find(text[i + |m.begin|..], m.end)
        case None => None
        case Some(k) => Some((i, Behind(text, i + |m.begin| + k + |m.end|)))
  }

  function Behind(text: string, k: nat): nat {
    if k < |text| && text[k] == '\n' then k + 1 else k
  }

  /** Every block removed, as `re.sub` with a shortest match does it. */
  function Stripped(m: Marks, text: string): string
    requires m.begin != ""
    decreases |text|
  {
    match FirstBlock(m, text)
    case None => text
    case Some((i, j)) =>
      BlockInBounds(m, text);
      text[..i] + Stripped(m, text[j..])
  }

  // ---- Leftmost and shortest ----------------------------------------------------------------------

  lemma {:induction false} FindIsFirst(text: string, needle: string)
    ensures match Find(text, needle)
      case None => !Occurs(text, needle)
      case Some(k) => OccursAt(text, needle, k) && forall i: nat :: OccursAt(text, needle, i) ==> k <= i
    decreases |text|
  {
    if !OccursAt(text, needle, 0) && text != "" {
      FindIsFirst(text[1..], needle);
      forall i: nat | OccursAt(text, needle, i) ensures i > 0 && OccursAt(text[1..], needle, i - 1) {
        assert text[1..][i - 1..i - 1 + |needle|] == text[i..i + |needle|];
      }
      if Find(text[1..], needle).Some? {
        var k := Find(text[1..], needle).value;
        assert text[1..][k..k + |needle|] == text[k + 1..k + 1 + |needle|];
      }
    }
  }

  /** `text[i..j]` is a begin mark, anything, an end mark at `k`, and the line end if there is one. */
  ghost predicate Matches(m: Marks, text: string, i: nat, k: nat, j: nat) {
    OccursAt(text, m.begin, i) && i + |m.begin| <= k && OccursAt(text, m.end, k) && j == Behind(text, k + |m.end|)
  }

  /** The leftmost match and, of those starting there, the shortest. */
  ghost predicate MatchesFirst(m: Marks, text: string, i: nat, k: nat, j: nat) {
    && Matches(m, text, i, k, j)
    && forall i', k', j' :: Matches(m, text, i', k', j') ==> i < i' || (i == i' && k <= k')
  }

  /** The next end mark from a place on. */
  lemma NextEnd(text: string, from: nat, needle: string)
    requires from <= |text|
    ensures match Find(text[from..], needle)
      case None => forall k: nat :: from <= k ==> !OccursAt(text, needle, k)
      case Some(n) =>
        OccursAt(text, needle, from + n) && forall k: nat :: from <= k && OccursAt(text, needle, k) ==> from + n <= k
  {
    var rest := text[from..];
    FindIsFirst(rest, needle);
    hide Find;
    forall k: nat | from <= k ensures OccursAt(rest, needle, k - from) <==> OccursAt(text, needle, k) {
      if k + |needle| <= |text| {
        assert rest[k - from..k - from + |needle|] == text[k..k + |needle|];
      }
    }
  }

  /** What is removed first is the leftmost, shortest match. */
  lemma FirstBlockIsLeftmostShortest(m: Marks, text: string)
    ensures match FirstBlock(m, text)
      case None => forall i, k, j :: !Matches(m, text, i, k, j)
      case Some((i, j)) => exists k :: MatchesFirst(m, text, i, k, j)
  {
    FindIsFirst(text, m.begin);
    hide Find, Behind;
    match Find(text, m.begin)
    case None =>
    case Some(i) =>
      var from := i + |m.begin|;
      NextEnd(text, from, m.end);
      match Find(text[from..], m.end)
      case None =>
      case Some(n) =>
        assert MatchesFirst(m, text, i, from + n, Behind(text, from + n + |m.end|));
  }

  lemma BlockInBounds(m: Marks, text: string)
    requires m.begin != "" && FirstBlock(m, text).Some?
    ensures var (i, j) := FirstBlock(m, text).value; i + |m.begin| + |m.end| <= j <= |text|
  {
    FirstBlockIsLeftmostShortest(m, text);
  }

  // ---- What the installer writes ------------------------------------------------------------------

  function TrimEnd(text: string): string {
    if text != "" && text[|text| - 1] == '\n' then TrimEnd(text[..|text| - 1]) else text
  }

  /** A body without `#`, which the commands of every panel give. */
  predicate Clean(body: string) {
    '#' !in body
  }

  function Block(m: Marks, body: string): string {
    m.begin + body + m.end + "\n"
  }

  /** The user's own text, with a blank line behind it unless it is empty. */
  function Lead(own: string): string {
    if own == "" then "" else own + "\n\n"
  }

  function Own(m: Marks, text: string): string
    requires m.begin != ""
  {
    TrimEnd(Stripped(m, text))
  }

  function Installed(m: Marks, text: string, body: string): string
    requires m.begin != ""
  {
    Lead(Own(m, text)) + Block(m, body)
  }

  // ---- Where marks can be -------------------------------------------------------------------------

  /** A mark that starts before a `#` does not reach across it. */
  lemma NoStraddling(text: string, mark: string, k: nat, at: nat)
    requires OccursAt(text, mark, k) && k < at < |text| && text[at] == '#'
    requires forall i :: 0 < i < |mark| ==> mark[i] != '#'
    ensures k + |mark| <= at
  {
    var found := text[k..k + |mark|];
    assert forall p :: k <= p < k + |mark| ==> text[p] == found[p - k];
  }

  /** In `x` followed by a text that starts with `#`, marks lie in `x` or behind it. */
  lemma OccursInFront(x: string, b: string, mark: string, k: nat)
    requires b != "" && b[0] == '#' && (forall i :: 0 < i < |mark| ==> mark[i] != '#')
    requires k < |x|
    ensures OccursAt(x + b, mark, k) <==> OccursAt(x, mark, k)
  {
    if OccursAt(x + b, mark, k) {
      NoStraddling(x + b, mark, k, |x|);
      assert (x + b)[k..k + |mark|] == x[k..k + |mark|];
    }
    if OccursAt(x, mark, k) {
      assert (x + b)[k..k + |mark|] == x[k..k + |mark|];
    }
  }

  /** In a block only the marks start with `#`. */
  lemma HashesOfBlock(m: Marks, body: string, k: nat)
    requires m.Apart() && Clean(body) && k < |Block(m, body)| && Block(m, body)[k] == '#'
    ensures k == 0 || k == |m.begin| + |body|
  {
    var b, close := Block(m, body), |m.begin| + |body|;
    assert forall i :: 0 < i < |m.begin| ==> b[i] == m.begin[i];
    assert forall i :: |m.begin| <= i < close ==> b[i] == body[i - |m.begin|] && b[i] in body;
    assert forall i :: close < i < close + |m.end| ==> b[i] == m.end[i - close];
    assert b[close + |m.end|] == '\n';
  }

  lemma OccursBehind(x: string, b: string, needle: string, k: nat)
    requires |x| <= k
    ensures OccursAt(x + b, needle, k) <==> OccursAt(b, needle, k - |x|)
  {
    if k + |needle| <= |x| + |b| {
      assert (x + b)[k..k + |needle|] == b[k - |x|..k - |x| + |needle|];
    }
  }

  /** The only end mark of a block is its own. */
  lemma EndOfBlock(m: Marks, body: string, k: nat)
    requires m.Apart() && Clean(body) && OccursAt(Block(m, body), m.end, k)
    ensures k == |m.begin| + |body|
  {
    var text := Block(m, body);
    assert text[k..k + |m.end|][0] == text[k];
    HashesOfBlock(m, body, k);
    assert text[..|m.begin|] == m.begin;
    assert text[0..|m.end|] == text[..|m.begin|];
  }

  // ---- Stripping what was installed -----------------------------------------------------------------

  /** The leftmost begin mark is the first one of `x`, if it has one, and else that of the block. */
  lemma FirstMarkInFront(m: Marks, x: string, b: string, i: nat, k: nat, j: nat, close: nat)
    requires m.Apart() && b != "" && b[0] == '#' && |x| + |m.begin| <= close
    requires OccursAt(x + b, m.begin, |x|) && OccursAt(x + b, m.end, close) && MatchesFirst(m, x + b, i, k, j)
    ensures if Occurs(x, m.begin) then i + |m.begin| <= |x| && OccursAt(x, m.begin, i) else i == |x|
    ensures k <= close
  {
    var text := x + b;
    assert Matches(m, text, |x|, close, Behind(text, close + |m.end|));
    if Occurs(x, m.begin) {
      var n: nat :| OccursAt(x, m.begin, n);
      OccursInFront(x, b, m.begin, n);
      assert Matches(m, text, n, close, Behind(text, close + |m.end|));
    }
    if i < |x| {
      OccursInFront(x, b, m.begin, i);
    }
    assert Matches(m, text, i, close, Behind(text, close + |m.end|));
  }

  /** Where the block's own marks are, behind `x`. */
  lemma MarksBehind(m: Marks, x: string, body: string)
    requires m.Apart()
    ensures var text, close := x + Block(m, body), |x| + |m.begin| + |body|;
      && OccursAt(text, m.begin, |x|) && OccursAt(text, m.end, close)
      && Behind(text, close + |m.end|) == |text|
  {
    var b := Block(m, body);
    var text, close := x + b, |m.begin| + |body|;
    assert text[|x|..|x| + |m.begin|] == b[..|m.begin|] == m.begin;
    assert text[|x| + close..|x| + close + |m.end|] == b[close..close + |m.end|] == m.end;
  }

  /** The first block of `x` followed by a block: in `x`, from `x` into the block, or the block. */
  lemma FirstBlockOfAppended(m: Marks, x: string, body: string)
    requires m.Apart() && Clean(body)
    ensures FirstBlock(m, x + Block(m, body)).Some?
    ensures var (i, j) := FirstBlock(m, x + Block(m, body)).value;
      if Occurs(x, m.begin) then
        && i + |m.begin| <= |x| && OccursAt(x, m.begin, i)
        && (i + |m.begin| + |m.end| <= j <= |x| || j == |x| + |Block(m, body)|)
      else i == |x| && j == |x| + |Block(m, body)|
  {
    hide FirstBlock, Find;
    var b := Block(m, body);
    assert b[0] == '#';
    var text, close := x + b, |x| + |m.begin| + |body|;
    MarksBehind(m, x, body);
    FirstBlockIsLeftmostShortest(m, text);
    assert Matches(m, text, |x|, close, |text|);
    var (i, j) := FirstBlock(m, text).value;
    var k: nat :| MatchesFirst(m, text, i, k, j);
    FirstMarkInFront(m, x, b, i, k, j, close);
    EndInFrontOrOwn(m, x, body, k, close);
  }

  /** An end mark of `x` followed by a block lies in `x` or is the block's own. */
  lemma EndInFrontOrOwn(m: Marks, x: string, body: string, k: nat, close: nat)
    requires m.Apart() && Clean(body)
    requires OccursAt(x + Block(m, body), m.end, k) && close == |x| + |m.begin| + |body|
    ensures k + |m.end| <= |x| || k == close
    ensures k + |m.end| <= |x| ==> Behind(x + Block(m, body), k + |m.end|) <= |x|
  {
    var b := Block(m, body);
    var text := x + b;
    assert b[0] == '#' == text[|x|];
    if k < |x| {
      NoStraddling(text, m.end, k, |x|);
    } else {
      OccursBehind(x, b, m.end, k);
      EndOfBlock(m, body, k - |x|);
    }
  }

  ghost predicate StripsTo(m: Marks, x: string, body: string)
    requires m.begin != ""
  {
    var rest := Stripped(m, x + Block(m, body));
    if Occurs(x, m.begin) then |rest| + |m.begin| <= |x| else rest == x
  }

  /** Stripping takes a block off again, and more than that if a begin mark stands before it. */
  lemma {:induction false} StripTakesBlock(m: Marks, x: string, body: string)
    requires m.Apart() && Clean(body)
    ensures StripsTo(m, x, body)
    decreases |x|
  {
    hide FirstBlock, Find;
    var b := Block(m, body);
    var text := x + b;
    FirstBlockOfAppended(m, x, body);
    hide Block;
    var (i, j) := FirstBlock(m, text).value;
    assert text[..i] == x[..i];
    if j == |text| {
      assert text[j..] == "" && Stripped(m, "") == "" by {
        BlocklessStays(m, "");
      }
      assert Stripped(m, text) == x[..i] + "";
    } else {
      assert text[j..] == x[j..] + b;
      StripTakesBlock(m, x[j..], body);
      assert |Stripped(m, text[j..])| <= |x[j..]|;
    }
  }

  lemma BlocklessStays(m: Marks, text: string)
    requires m.begin != "" && !Occurs(text, m.begin)
    ensures Stripped(m, text) == text
  {
    FindIsFirst(text, m.begin);
  }

  lemma {:induction false} TrimEndTrims(text: string)
    ensures TrimEnd(TrimEnd(text)) == TrimEnd(text) && TrimEnd(text) <= text
    ensures TrimEnd(text + "\n") == TrimEnd(text)
    decreases |text|
  {
    assert (text + "\n")[..|text|] == text;
    if text != "" && text[|text| - 1] == '\n' {
      TrimEndTrims(text[..|text| - 1]);
    }
  }

  /** The blank line put behind the user's text holds no part of a mark. */
  lemma MarkInLead(m: Marks, own: string)
    requires m.Apart()
    ensures Occurs(Lead(own), m.begin) <==> Occurs(own, m.begin)
  {
    var lead := Lead(own);
    forall k: nat | OccursAt(lead, m.begin, k) ensures OccursAt(own, m.begin, k) {
      var last := |m.begin| - 1;
      assert lead[k..k + |m.begin|][last] == m.begin[last] && m.begin[last] in m.begin;
      assert lead[k + last] != '\n';
      assert lead[k..k + |m.begin|] == own[k..k + |m.begin|];
    }
    forall k: nat | OccursAt(own, m.begin, k) ensures OccursAt(lead, m.begin, k) {
      assert lead[k..k + |m.begin|] == own[k..k + |m.begin|];
    }
  }

  lemma TrimmedLead(own: string)
    requires TrimEnd(own) == own
    ensures TrimEnd(Lead(own)) == own
  {
    TrimEndTrims(own);
    TrimEndTrims(own + "\n");
    assert own + "\n" + "\n" == own + "\n\n";
  }

  /** What is the user's own after an install: the same as before, unless it holds a begin mark. */
  lemma OwnAfterInstall(m: Marks, text: string, body: string)
    requires m.Apart() && Clean(body)
    ensures var own, after := Own(m, text), Stripped(m, Installed(m, text, body));
      if Occurs(own, m.begin) then |TrimEnd(after)| < |own| else after == Lead(own) && TrimEnd(after) == own
  {
    var own := Own(m, text);
    TrimEndTrims(Stripped(m, text));
    TrimmedLead(own);
    MarkInLead(m, own);
    StripTakesBlock(m, Lead(own), body);
    TrimEndTrims(Stripped(m, Installed(m, text, body)));
  }

  // ---- The theorems -------------------------------------------------------------------------------

  /**
   Installing one body and then another is installing the other alone, exactly when the stripped
   text holds no begin mark (one without an end mark behind it, say).
   */
  lemma ReinstallIff(m: Marks, text: string, first: string, second: string)
    requires m.Apart() && Clean(first) && Clean(second)
    ensures Installed(m, Installed(m, text, first), second) == Installed(m, text, second)
      <==> !Occurs(Own(m, text), m.begin)
  {
    OwnAfterInstall(m, text, first);
  }

  /** Stripping after an install gives the stripped text back up to trailing newlines, exactly then. */
  lemma UninstallIff(m: Marks, text: string, body: string)
    requires m.Apart() && Clean(body)
    ensures TrimEnd(Stripped(m, Installed(m, text, body))) == TrimEnd(Stripped(m, text))
      <==> !Occurs(Own(m, text), m.begin)
    ensures !Occurs(Own(m, text), m.begin) ==> Stripped(m, Installed(m, text, body)) == Lead(Own(m, text))
  {
    OwnAfterInstall(m, text, body);
  }

  function InstalledAll(m: Marks, text: string, bodies: seq<string>): string
    requires m.begin != ""
  {
    if bodies == [] then text else Installed(m, InstalledAll(m, text, bodies[..|bodies| - 1]), bodies[|bodies| - 1])
  }

  /** However often the installer ran, the file is as if only the last run had been made. */
  lemma {:induction false} LastInstallWins(m: Marks, text: string, bodies: seq<string>)
    requires m.Apart() && bodies != [] && forall k :: 0 <= k < |bodies| ==> Clean(bodies[k])
    requires !Occurs(Own(m, text), m.begin)
    ensures InstalledAll(m, text, bodies) == Installed(m, text, bodies[|bodies| - 1])
    decreases |bodies|
  {
    if |bodies| > 1 {
      var front := bodies[..|bodies| - 1];
      LastInstallWins(m, text, front);
      ReinstallIff(m, text, front[|front| - 1], bodies[|bodies| - 1]);
    }
  }

  /** A begin mark without an end mark: all that stands behind it is lost with the next block. */
  lemma LoneMarkTakesText(m: Marks, rest: string, body: string)
    requires m.Apart() && Clean(rest) && Clean(body) && TrimEnd(m.begin + rest) == m.begin + rest
    ensures var own := m.begin + rest;
      Own(m, own) == own && Occurs(own, m.begin) && Stripped(m, Installed(m, own, body)) == ""
  {
    var own := m.begin + rest;
    OneHash(m, rest);
    OneHashNoBlock(m, own);
    MarkInLead(m, own);
    hide FirstBlock, Block;
    OneHashTakesAll(m, Lead(own), body);
  }

  /** The begin mark's own `#` is the only one. */
  ghost predicate HashFirst(text: string) {
    forall p :: 0 < p < |text| ==> text[p] != '#'
  }

  lemma OneHash(m: Marks, rest: string)
    requires m.Apart() && Clean(rest)
    ensures HashFirst(m.begin + rest) && HashFirst(Lead(m.begin + rest)) && Occurs(m.begin + rest, m.begin)
  {
    var own := m.begin + rest;
    assert OccursAt(own, m.begin, 0);
    forall p | 0 < p < |own| ensures own[p] != '#' {
      if p >= |m.begin| {
        assert own[p] == rest[p - |m.begin|] && own[p] in rest;
      }
    }
    var x := Lead(own);
    assert forall p :: 0 < p < |x| ==> x[p] == if p < |own| then own[p] else '\n';
  }

  lemma OneHashNoBlock(m: Marks, text: string)
    requires m.Apart() && HashFirst(text)
    ensures FirstBlock(m, text).None?
  {
    FirstBlockIsLeftmostShortest(m, text);
    hide FirstBlock, Find;
    if FirstBlock(m, text).Some? {
      var i, k, j := SomeMatch(m, text);
      MarkStarts(text, m.end, k);
    }
  }

  lemma OneHashTakesAll(m: Marks, x: string, body: string)
    requires m.Apart() && Clean(body) && Occurs(x, m.begin) && HashFirst(x)
    ensures Stripped(m, x + Block(m, body)) == ""
  {
    var text := x + Block(m, body);
    FirstBlockTakesAll(m, x, body);
    StripStep(m, text, 0, |text|);
    BlocklessStays(m, "");
    hide FirstBlock, Stripped, Block;
    assert text[..0] == "" && text[|text|..] == "";
  }

  lemma FirstBlockTakesAll(m: Marks, x: string, body: string)
    requires m.Apart() && Clean(body) && Occurs(x, m.begin) && HashFirst(x)
    ensures FirstBlock(m, x + Block(m, body)).Some?
    ensures var (i, j) := FirstBlock(m, x + Block(m, body)).value; i == 0 && j == |x| + |Block(m, body)| > 0
  {
    var text := x + Block(m, body);
    assert forall p :: 0 < p < |x| ==> text[p] == x[p] && text[p] != '#';
    FirstBlockOfAppended(m, x, body);
    var k := MatchEnd(m, text);
    MarkStarts(x, m.begin, FirstBlock(m, text).value.0);
    MarkStarts(text, m.end, k);
    hide FirstBlock, Block, OccursAt, Occurs;
  }

  lemma MatchEnd(m: Marks, text: string) returns (k: nat)
    requires m.begin != "" && FirstBlock(m, text).Some?
    ensures OccursAt(text, m.end, k) && k + |m.end| <= FirstBlock(m, text).value.1 <= k + |m.end| + 1
    ensures FirstBlock(m, text).value.0 + |m.begin| <= k
  {
    FirstBlockIsLeftmostShortest(m, text);
    var (i, j) := FirstBlock(m, text).value;
    k :| MatchesFirst(m, text, i, k, j);
  }

  // ---- Stripping twice ----------------------------------------------------------------------------

  /** `a` ends in the first `p` characters of a begin mark, and `b` goes on with the rest and an end mark. */
  ghost predicate JoinsAt(m: Marks, a: string, b: string, p: nat) {
    && 0 < p < |m.begin| && p <= |a| && |m.begin| - p <= |b|
    && a[|a| - p..] == m.begin[..p] && b[..|m.begin| - p] == m.begin[p..]
    && exists k: nat :: |m.begin| - p <= k && OccursAt(b, m.end, k)
  }

  ghost predicate Joins(m: Marks, a: string, b: string) {
    exists p: nat :: JoinsAt(m, a, b, p)
  }

  /** At some place where a block is cut out, what is left joins to a new block. */
  ghost predicate SomeCutJoins(m: Marks, text: string)
    requires m.begin != ""
    decreases |text|
  {
    match FirstBlock(m, text)
    case None => false
    case Some((i, j)) =>
      BlockInBounds(m, text);
      Joins(m, text[..i], Stripped(m, text[j..])) || SomeCutJoins(m, text[j..])
  }

  lemma NothingBefore(text: string, needle: string, i: nat)
    requires i <= |text| && needle != "" && forall k: nat :: OccursAt(text, needle, k) ==> i <= k
    ensures !Occurs(text[..i], needle)
  {
    forall k: nat ensures OccursAt(text[..i], needle, k) ==> OccursAt(text, needle, k) {
      if k + |needle| <= i {
        assert text[..i][k..k + |needle|] == text[k..k + |needle|];
      }
    }
  }

  /** A block of two texts put together, none starting in the first: one of the second, or one across the seam. */
  lemma BlockOfBehindOrJoined(m: Marks, a: string, b: string, i: nat, k: nat, j: nat)
    requires m.begin != "" && !Occurs(a, m.begin) && Matches(m, a + b, i, k, j)
    ensures |a| <= k && OccursAt(b, m.end, k - |a|)
    ensures if |a| <= i then Matches(m, b, i - |a|, k - |a|, Behind(b, k - |a| + |m.end|))
            else JoinsAt(m, a, b, |a| - i)
  {
    OccursWithin(a, b, m.begin, i);
    assert !OccursAt(a, m.begin, i);
    if |a| <= i {
      OccursBehind(a, b, m.begin, i);
    } else {
      SeamSplits(a, b, m.begin, i);
    }
    OccursBehind(a, b, m.end, k);
  }

  lemma OccursWithin(a: string, b: string, needle: string, i: nat)
    ensures i + |needle| <= |a| ==> (OccursAt(a + b, needle, i) <==> OccursAt(a, needle, i))
  {
    if i + |needle| <= |a| {
      assert (a + b)[i..i + |needle|] == a[i..i + |needle|];
    }
  }

  lemma SeamSplits(a: string, b: string, mark: string, i: nat)
    requires i < |a| < i + |mark| <= |a| + |b|
    ensures OccursAt(a + b, mark, i) <==> a[i..] == mark[..|a| - i] && b[..|mark| - (|a| - i)] == mark[|a| - i..]
  {
    var p := |a| - i;
    assert (a + b)[i..i + |mark|] == a[i..] + b[..|mark| - p];
    assert mark == mark[..p] + mark[p..];
    if a[i..] + b[..|mark| - p] == mark {
      assert (a[i..] + b[..|mark| - p])[..p] == a[i..];
      assert (a[i..] + b[..|mark| - p])[p..] == b[..|mark| - p];
    }
  }

  lemma JoinedIsBlock(m: Marks, a: string, b: string, p: nat, k: nat)
    requires JoinsAt(m, a, b, p) && |m.begin| - p <= k && OccursAt(b, m.end, k)
    ensures Matches(m, a + b, |a| - p, |a| + k, Behind(a + b, |a| + k + |m.end|))
  {
    var i := |a| - p;
    SeamSplits(a, b, m.begin, i);
    OccursBehind(a, b, m.end, |a| + k);
  }

  lemma BlockMovesBack(m: Marks, a: string, b: string, i: nat, k: nat, j: nat)
    requires Matches(m, b, i, k, j)
    ensures Matches(m, a + b, |a| + i, |a| + k, Behind(a + b, |a| + k + |m.end|))
  {
    OccursBehind(a, b, m.begin, |a| + i);
    OccursBehind(a, b, m.end, |a| + k);
  }

  /** Putting a text with no begin mark in front makes a block exactly where the seam joins to one. */
  lemma BlockAcrossSeamIff(m: Marks, a: string, b: string)
    requires m.begin != "" && !Occurs(a, m.begin)
    ensures FirstBlock(m, a + b).Some? <==> FirstBlock(m, b).Some? || Joins(m, a, b)
  {
    FirstBlockIsLeftmostShortest(m, a + b);
    FirstBlockIsLeftmostShortest(m, b);
    hide FirstBlock, Matches, MatchesFirst, Occurs;
    if FirstBlock(m, a + b).Some? {
      var i, k, j := SomeMatch(m, a + b);
      BlockOfBehindOrJoined(m, a, b, i, k, j);
      hide JoinsAt;
    }
    if FirstBlock(m, b).Some? {
      var i, k, j := SomeMatch(m, b);
      BlockMovesBack(m, a, b, i, k, j);
    }
    if Joins(m, a, b) {
      var p: nat :| JoinsAt(m, a, b, p);
      var k: nat :| |m.begin| - p <= k && OccursAt(b, m.end, k);
      JoinedIsBlock(m, a, b, p, k);
    }
  }

  lemma SomeMatch(m: Marks, text: string) returns (i: nat, k: nat, j: nat)
    requires FirstBlock(m, text).Some?
    ensures Matches(m, text, i, k, j)
  {
    FirstBlockIsLeftmostShortest(m, text);
    i, j := FirstBlock(m, text).value.0, FirstBlock(m, text).value.1;
    k :| MatchesFirst(m, text, i, k, j);
  }

  /** One stripping leaves a block exactly when some cut joins to one. */
  lemma {:induction false} StripLeavesBlockIff(m: Marks, text: string)
    requires m.begin != ""
    ensures FirstBlock(m, Stripped(m, text)).Some? <==> SomeCutJoins(m, text)
    decreases |text|
  {
    if FirstBlock(m, text).Some? {
      var (i, j) := FirstBlock(m, text).value;
      BlockInBounds(m, text);
      StripLeavesBlockIff(m, text[j..]);
      FrontHasNoMark(m, text);
      BlockAcrossSeamIff(m, text[..i], Stripped(m, text[j..]));
      StripStep(m, text, i, j);
    }
  }

  lemma FrontHasNoMark(m: Marks, text: string)
    requires m.begin != "" && FirstBlock(m, text).Some?
    ensures FirstBlock(m, text).value.0 <= |text| && !Occurs(text[..FirstBlock(m, text).value.0], m.begin)
  {
    BlockInBounds(m, text);
    FindIsFirst(text, m.begin);
    NothingBefore(text, m.begin, FirstBlock(m, text).value.0);
  }

  lemma StripStep(m: Marks, text: string, i: nat, j: nat)
    requires m.begin != "" && FirstBlock(m, text).Some? && FirstBlock(m, text).value == (i, j) && i < j <= |text|
    ensures Stripped(m, text) == text[..i] + Stripped(m, text[j..])
  {
  }

  lemma {:induction false} StrippedIsShorter(m: Marks, text: string)
    requires m.begin != ""
    ensures |Stripped(m, text)| <= |text| && (FirstBlock(m, text).Some? ==> |Stripped(m, text)| < |text|)
    decreases |text|
  {
    if FirstBlock(m, text).Some? {
      var (i, j) := FirstBlock(m, text).value;
      BlockInBounds(m, text);
      StrippedIsShorter(m, text[j..]);
    }
  }

  /** A second stripping changes nothing exactly when no cut of the first one joins to a block. */
  lemma StrippingTwiceIff(m: Marks, text: string)
    requires m.begin != ""
    ensures Stripped(m, Stripped(m, text)) == Stripped(m, text) <==> !SomeCutJoins(m, text)
  {
    StripLeavesBlockIff(m, text);
    StrippedIsShorter(m, Stripped(m, text));
  }

  /** Every begin mark starts a line. */
  ghost predicate MarksStartLines(m: Marks, text: string) {
    forall k: nat :: OccursAt(text, m.begin, k) ==> k == 0 || text[k - 1] == '\n'
  }

  lemma SuffixStartsLines(m: Marks, text: string, j: nat)
    requires MarksStartLines(m, text) && j <= |text|
    ensures MarksStartLines(m, text[j..])
  {
    forall k: nat | OccursAt(text[j..], m.begin, k) ensures k == 0 || text[j..][k - 1] == '\n' {
      assert text[j..][k..k + |m.begin|] == text[j + k..j + k + |m.begin|];
      assert OccursAt(text, m.begin, j + k);
    }
  }

  /** Where begin marks start lines, as the installer writes them, no cut joins to anything. */
  lemma {:induction false} LineStartsNeverJoin(m: Marks, text: string)
    requires m.Apart() && MarksStartLines(m, text)
    ensures !SomeCutJoins(m, text)
    decreases |text|
  {
    if FirstBlock(m, text).Some? {
      var (i, j) := FirstBlock(m, text).value;
      BlockInBounds(m, text);
      SuffixStartsLines(m, text, j);
      LineStartsNeverJoin(m, text[j..]);
      FindIsFirst(text, m.begin);
      assert OccursAt(text, m.begin, i);
      NewlineNeverJoins(m, text[..i], Stripped(m, text[j..]));
      hide FirstBlock, Stripped, Joins, MarksStartLines, Find;
    }
  }

  lemma NewlineNeverJoins(m: Marks, a: string, b: string)
    requires m.Apart() && (a == "" || a[|a| - 1] == '\n')
    ensures !Joins(m, a, b)
  {
    forall p: nat ensures !JoinsAt(m, a, b, p) {
      if 0 < p < |m.begin| && p <= |a| {
        assert a[|a| - p..][p - 1] == '\n';
        assert m.begin[..p][p - 1] in m.begin;
      }
    }
  }

  /** So there a second stripping changes nothing. */
  lemma StrippingTwice(m: Marks, text: string)
    requires m.Apart() && MarksStartLines(m, text)
    ensures Stripped(m, Stripped(m, text)) == Stripped(m, text)
  {
    LineStartsNeverJoin(m, text);
    StrippingTwiceIff(m, text);
  }

  /** In general it does: taking a block out of the middle of a mark leaves that mark whole. */
  lemma StrippingExposesBlock(m: Marks, body: string)
    requires m.Apart() && Clean(body)
    ensures var text := "#" + Block(m, body) + (m.begin[1..] + m.end);
      Stripped(m, text) == m.begin + m.end && Stripped(m, m.begin + m.end) == ""
  {
    var tail, block := m.begin[1..] + m.end, Block(m, body);
    hide FirstBlock, Block, Stripped, Occurs;
    BlockBehindHash(m, body, tail);
    OneEndMark(m, tail);
    BlocklessStays(m, tail);
    EmptyBlockStripped(m);
    StripCuts(m, "#", block, tail);
    assert "#" + tail == m.begin + m.end;
  }

  lemma StripCuts(m: Marks, x: string, block: string, tail: string)
    requires m.begin != "" && block != "" && FirstBlock(m, x + block + tail).Some?
    requires var (i, j) := FirstBlock(m, x + block + tail).value; i == |x| && j == |x| + |block|
    ensures Stripped(m, x + block + tail) == x + Stripped(m, tail)
  {
    hide FirstBlock, Stripped;
    StripStep(m, x + block + tail, |x|, |x| + |block|);
    Slices(x, block, tail);
  }

  lemma Slices(x: string, block: string, tail: string)
    ensures var text := x + block + tail; text[..|x|] == x && text[|x| + |block|..] == tail
  {
  }

  lemma EmptyBlockStripped(m: Marks)
    requires m.Apart()
    ensures Stripped(m, m.begin + m.end) == ""
  {
    var both := m.begin + m.end;
    assert OccursAt(both, m.begin, 0) && OccursAt(both, m.end, |m.begin|);
    FirstBlockIsLeftmostShortest(m, both);
    assert Matches(m, both, 0, |m.begin|, |both|);
    BlockInBounds(m, both);
    BlocklessStays(m, "");
    hide FirstBlock, Find;
    var (i, j) := FirstBlock(m, both).value;
    assert both[..i] == "" && both[j..] == "";
  }

  /** Where the marks and the `#` are in a block with a `#` before it. */
  lemma MarksBehindHash(m: Marks, body: string, tail: string)
    requires m.Apart() && Clean(body)
    ensures var b := Block(m, body);
      var text, close := "#" + b + tail, 1 + |m.begin| + |body|;
      && OccursAt(text, m.begin, 1) && OccursAt(text, m.end, close) && Behind(text, close + |m.end|) == 1 + |b|
      && text[1] == '#' && forall p :: 1 + |m.begin| <= p < close ==> text[p] != '#'
  {
    var b := Block(m, body);
    var text, close := "#" + b + tail, 1 + |m.begin| + |body|;
    assert text[1..1 + |m.begin|] == b[..|m.begin|] == m.begin;
    assert text[close..close + |m.end|] == b[close - 1..close - 1 + |m.end|] == m.end;
    assert forall p :: 1 + |m.begin| <= p < close ==> text[p] == body[p - 1 - |m.begin|] && text[p] in body;
  }

  lemma BlockBehindHash(m: Marks, body: string, tail: string)
    requires m.Apart() && Clean(body)
    ensures FirstBlock(m, "#" + Block(m, body) + tail).Some?
    ensures var (i, j) := FirstBlock(m, "#" + Block(m, body) + tail).value; i == 1 && j == 1 + |Block(m, body)|
  {
    MarksBehindHash(m, body, tail);
    hide FirstBlock, Block;
    BlockFromOne(m, "#" + Block(m, body) + tail, 1 + |m.begin| + |body|);
  }

  lemma BlockFromOne(m: Marks, text: string, close: nat)
    requires m.Apart() && OccursAt(text, m.begin, 1) && 1 + |m.begin| <= close && OccursAt(text, m.end, close)
    requires forall p :: 1 + |m.begin| <= p < close ==> text[p] != '#'
    ensures FirstBlock(m, text).Some?
    ensures var (i, j) := FirstBlock(m, text).value; i == 1 && j == Behind(text, close + |m.end|)
  {
    FirstBlockIsLeftmostShortest(m, text);
    hide FirstBlock, Find;
    assert Matches(m, text, 1, close, Behind(text, close + |m.end|));
    var (i, j) := FirstBlock(m, text).value;
    var k: nat :| MatchesFirst(m, text, i, k, j);
    MarkStarts(text, m.begin, 1);
    MarkStarts(text, m.begin, i);
    MarkStarts(text, m.end, k);
    hide OccursAt;
  }

  lemma MarkStarts(text: string, mark: string, k: nat)
    requires OccursAt(text, mark, k) && |mark| > 1
    ensures k + 1 < |text| && text[k] == mark[0] && text[k + 1] == mark[1]
  {
    assert text[k..k + |mark|] == mark;
    assert text[k..k + |mark|][0] == text[k] && text[k..k + |mark|][1] == text[k + 1];
  }

  /** The rest of a begin mark and an end mark hold no begin mark. */
  lemma OneEndMark(m: Marks, tail: string)
    requires m.Apart() && tail == m.begin[1..] + m.end
    ensures !Occurs(tail, m.begin)
  {
    forall k: nat ensures !OccursAt(tail, m.begin, k) {
      if k + |m.begin| <= |tail| {
        var found := tail[k..k + |m.begin|];
        assert found[0] == tail[k];
        if k == |m.begin| - 1 {
          assert found == m.end;
        } else {
          assert tail[k] == m.begin[k + 1];
        }
      }
    }
  }

  /** A file that never held a begin mark meets the condition. */
  lemma FreshTextQualifies(m: Marks, text: string)
    requires m.begin != "" && !Occurs(text, m.begin)
    ensures !Occurs(Own(m, text), m.begin)
  {
    BlocklessStays(m, text);
    TrimEndTrims(text);
    var own := TrimEnd(text);
    forall k: nat | OccursAt(own, m.begin, k) ensures OccursAt(text, m.begin, k) {
      assert text[k..k + |m.begin|] == own[k..k + |m.begin|];
    }
  }
}
