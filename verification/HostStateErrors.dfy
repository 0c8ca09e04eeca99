/** Which exception a malformed host state dictionary is refused with. */
module HostStateErrors {
  import opened Options
  import opened HostState

  /** A block that is no object or has a known field of the wrong type. */
  ghost predicate WrongTyped(shape: Shape, value: Json) {
    !value.Object? || exists key :: key in shape && key in value.fields && !Fits(value.fields[key], shape[key].kinds)
  }

  ghost predicate HasRequired(shape: Shape, value: Json) {
    value.Object? ==> forall key :: key in shape && shape[key].required ==> key in value.fields
  }

  /** Nothing wrong-typed, but a required field is not there. */
  ghost predicate Lacks(shape: Shape, value: Json) {
    !WrongTyped(shape, value) && !HasRequired(shape, value)
  }

  ghost predicate Good(shape: Shape, value: Json) {
    !WrongTyped(shape, value) && HasRequired(shape, value)
  }

  ghost predicate AllGood(shape: Shape, values: seq<Json>) {
    forall k :: 0 <= k < |values| ==> Good(shape, values[k])
  }

  /** The first block that is not good lacks a required field. */
  ghost predicate FirstLacks(shape: Shape, values: seq<Json>) {
    exists k :: 0 <= k < |values| && Lacks(shape, values[k]) && AllGood(shape, values[..k])
  }

  lemma EntryOutcome(shape: Shape, value: Json)
    ensures Entry(shape, value).Ok? <==> Good(shape, value)
    ensures Entry(shape, value) == Err(TypeError) <==> Lacks(shape, value)
    ensures Entry(shape, value) == Err(ValueError) <==> WrongTyped(shape, value)
  {
    hide Fits;
  }

  ghost predicate Outcome<T(!new)>(result: Result<T>, good: bool, lacks: bool) {
    && (result.Ok? <==> good) && (result == Err(TypeError) <==> lacks)
    && (result.Err? ==> result.error == TypeError || result.error == ValueError)
  }

  lemma {:induction false} EntriesOutcome(shape: Shape, values: seq<Json>)
    ensures Outcome(Entries(shape, values), AllGood(shape, values), FirstLacks(shape, values))
    decreases |values|
  {
    hide Entry, WrongTyped, HasRequired;
    if values != [] {
      EntryOutcome(shape, values[0]);
      EntriesOutcome(shape, values[1..]);
      var rest := values[1..];
      assert AllGood(shape, values) <==> Good(shape, values[0]) && AllGood(shape, rest) by {
        assert forall k :: 0 < k < |values| ==> values[k] == rest[k - 1];
      }
      FirstLacksCons(shape, values);
    }
  }

  lemma FirstLacksCons(shape: Shape, values: seq<Json>)
    requires values != []
    ensures FirstLacks(shape, values) <==>
      Lacks(shape, values[0]) || (Good(shape, values[0]) && FirstLacks(shape, values[1..]))
  {
    hide WrongTyped, HasRequired;
    var rest := values[1..];
    if FirstLacks(shape, values) {
      var k :| 0 <= k < |values| && Lacks(shape, values[k]) && AllGood(shape, values[..k]);
      if k > 0 {
        assert values[..k][0] == values[0];
        assert forall i :: 0 <= i < k - 1 ==> rest[i] == values[..k][i + 1];
        assert rest[k - 1] == values[k] && AllGood(shape, rest[..k - 1]);
      }
    }
    if Lacks(shape, values[0]) {
      assert AllGood(shape, values[..0]);
    }
    if Good(shape, values[0]) && FirstLacks(shape, rest) {
      var k :| 0 <= k < |rest| && Lacks(shape, rest[k]) && AllGood(shape, rest[..k]);
      assert forall i :: 0 < i < k + 1 ==> values[i] == rest[..k][i - 1];
      assert values[k + 1] == rest[k] && AllGood(shape, values[..k + 1]);
    }
  }

  ghost predicate VrrpListed(value: Json) {
    value.Object? && Get(value.fields, "instances", List([])).List?
  }

  ghost predicate VrrpLacksSource(value: Json) {
    VrrpListed(value) && "source" !in value.fields
  }

  ghost predicate VrrpHasSource(value: Json) {
    VrrpListed(value) && "source" in value.fields && value.fields["source"].Text?
  }

  ghost predicate VrrpLacksField(value: Json) {
    VrrpHasSource(value) && FirstLacks(VRRP_INSTANCE, Get(value.fields, "instances", List([])).items)
  }

  ghost predicate VrrpGood(value: Json) {
    VrrpHasSource(value) && AllGood(VRRP_INSTANCE, Get(value.fields, "instances", List([])).items)
  }

  lemma VrrpOutcome(value: Json)
    ensures ReadVrrp(value).Ok? <==> VrrpGood(value)
    ensures ReadVrrp(value) == Err(KeyError) <==> VrrpLacksSource(value)
    ensures ReadVrrp(value) == Err(TypeError) <==> VrrpLacksField(value)
    ensures ReadVrrp(value).Err? ==> ReadVrrp(value).error in {KeyError, TypeError, ValueError}
  {
    if VrrpListed(value) {
      EntriesOutcome(VRRP_INSTANCE, Get(value.fields, "instances", List([])).items);
    }
    hide Entries, AllGood, FirstLacks, VRRP_INSTANCE;
  }

  /** The schema and the four fields that are no blocks are as they must be. */
  ghost predicate HeadTyped(fields: map<string, Json>) {
    && IsOne(Get(fields, SCHEMA, Null))
    && WRITTEN_AT in fields && Is(fields[WRITTEN_AT], FloatKind)
    && Get(fields, COLLECTOR, Text("")).Text?
    && Get(fields, EVENTS_WINDOW, Int(DEFAULT_WINDOW)).Int?
  }

  predicate OnlyCodes(codes: map<string, Json>) {
    forall name :: name in codes ==> codes[name].Text? || codes[name].Null?
  }

  /** Everything that is checked before the blocks is as it must be. */
  ghost predicate ReachesBlocks(fields: map<string, Json>) {
    && HeadTyped(fields)
    && (Falsy(Get(fields, EVENTS, Null)) || Get(fields, EVENTS, Null).Object?)
    && var codes := Get(fields, ERRORS, Null);
       Falsy(codes) || (codes.Object? && OnlyCodes(codes.fields))
  }

  ghost predicate VrrpPasses(fields: map<string, Json>) {
    Get(fields, VRRP_BLOCK, Null).Null? || VrrpGood(Get(fields, VRRP_BLOCK, Null))
  }

  ghost predicate ApachePasses(fields: map<string, Json>) {
    VrrpPasses(fields) && (Get(fields, APACHE_BLOCK, Null).Null? || Good(APACHE, Get(fields, APACHE_BLOCK, Null)))
  }

  ghost predicate UpdatesPass(fields: map<string, Json>) {
    && ApachePasses(fields)
    && (Get(fields, UPDATES_BLOCK, Null).Null? || Good(UPDATES, Get(fields, UPDATES_BLOCK, Null)))
  }

  function EventsIn(fields: map<string, Json>): map<string, Json> {
    if Get(fields, EVENTS, Null).Object? then Get(fields, EVENTS, Null).fields else map[]
  }

  /** In the order vrrp, apache, updates, events, the first block that is not good lacks a required field. */
  ghost predicate FirstBlockLacks(fields: map<string, Json>, order: seq<string>) {
    || VrrpLacksField(Get(fields, VRRP_BLOCK, Null))
    || (VrrpPasses(fields) && Lacks(APACHE, Get(fields, APACHE_BLOCK, Null)))
    || (ApachePasses(fields) && Lacks(UPDATES, Get(fields, UPDATES_BLOCK, Null)))
    || (UpdatesPass(fields) && FirstLacks(EVENT, Listed(EventsIn(fields), order)))
  }

  lemma HeadOutcome(fields: map<string, Json>)
    ensures HeadError(fields).None? <==> HeadTyped(fields)
    ensures HeadError(fields) == Some(KeyError) <==> IsOne(Get(fields, SCHEMA, Null)) && WRITTEN_AT !in fields
    ensures HeadError(fields) != Some(TypeError)
  {
    hide FitsFloat;
  }

  lemma CodesOutcome(codes: map<string, Json>)
    ensures ErrorCodes(codes).Ok? <==> OnlyCodes(codes)
    ensures ErrorCodes(codes).Err? ==> ErrorCodes(codes).error == ValueError
  {
    forall name | name in codes
      ensures Fits(codes[name], {TextKind, NoneKind}) <==> codes[name].Text? || codes[name].Null?
    {
      assert codes[name].Text? ==> Is(codes[name], TextKind);
      assert codes[name].Null? ==> Is(codes[name], NoneKind);
    }
  }

  lemma OptionalOutcome(shape: Shape, value: Json)
    ensures Outcome(OptionalEntry(shape, value), value.Null? || Good(shape, value), Lacks(shape, value))
  {
    EntryOutcome(shape, value);
    hide Entry;
  }

  lemma NamedOutcome(values: map<string, Json>, order: seq<string>)
    ensures Outcome(NamedEntries(EVENT, values, order), AllGood(EVENT, Listed(values, order)),
      FirstLacks(EVENT, Listed(values, order)))
  {
    EntriesOutcome(EVENT, Listed(values, order));
    hide Entries, AllGood, FirstLacks, Listed, EVENT;
  }

  lemma AssembledOutcome(fields: map<string, Json>, codes: map<string, Json>, order: seq<string>)
    requires HeadError(fields).None? && ErrorCodes(codes).Ok?
    ensures var r := Assembled(fields, EventsIn(fields), codes, order);
      && (r == Err(KeyError) <==> VrrpLacksSource(Get(fields, VRRP_BLOCK, Null)))
      && (r == Err(TypeError) <==> FirstBlockLacks(fields, order))
  {
    VrrpOutcome(Get(fields, VRRP_BLOCK, Null));
    OptionalOutcome(APACHE, Get(fields, APACHE_BLOCK, Null));
    OptionalOutcome(UPDATES, Get(fields, UPDATES_BLOCK, Null));
    NamedOutcome(EventsIn(fields), order);
    hide ReadVrrp, OptionalEntry, NamedEntries, ErrorCodes, HeadError, EventsIn, AllGood, FirstLacks, Listed,
      Good, Lacks;
    hide VRRP_INSTANCE, APACHE, UPDATES, EVENT, FitsFloat, Get;
    assert VrrpLacksField(Get(fields, VRRP_BLOCK, Null)) ==> !Get(fields, VRRP_BLOCK, Null).Null?;
  }

  ghost predicate RaisesKeyError(fields: map<string, Json>) {
    || (IsOne(Get(fields, SCHEMA, Null)) && WRITTEN_AT !in fields)
    || (ReachesBlocks(fields) && VrrpLacksSource(Get(fields, VRRP_BLOCK, Null)))
  }

  ghost predicate RaisesTypeError(fields: map<string, Json>, order: seq<string>) {
    ReachesBlocks(fields) && FirstBlockLacks(fields, order)
  }

  /** Exactly when each of the two exceptions that are not documented is raised. */
  lemma UndocumentedExceptionIff(data: Json, order: seq<string>)
    ensures FromDict(data, order) == Err(KeyError) <==> data.Object? && RaisesKeyError(data.fields)
    ensures FromDict(data, order) == Err(TypeError) <==> data.Object? && RaisesTypeError(data.fields, order)
  {
    if data.Object? {
      var fields := data.fields;
      HeadOutcome(fields);
      var codes := ObjectOrEmpty(Get(fields, ERRORS, Null));
      if codes.Ok? {
        CodesOutcome(codes.value);
        if HeadError(fields).None? && ErrorCodes(codes.value).Ok? {
          AssembledOutcome(fields, codes.value, order);
        }
      }
      FalsyIsEmpty(fields);
      hide HeadError, HeadTyped, FirstBlockLacks, VrrpLacksSource, Get, Falsy, ErrorCodes, VRRP_INSTANCE, APACHE,
        UPDATES, EVENT;
    }
  }

  lemma FalsyIsEmpty(fields: map<string, Json>)
    ensures ObjectOrEmpty(Get(fields, EVENTS, Null)).Ok? ==>
      ObjectOrEmpty(Get(fields, EVENTS, Null)).value == EventsIn(fields)
    ensures Get(fields, ERRORS, Null).Object? ==>
      ObjectOrEmpty(Get(fields, ERRORS, Null)) == Ok(Get(fields, ERRORS, Null).fields)
  {
  }

  /** The file of a foreign schema is told apart from all others. */
  lemma UnknownSchemaIff(data: Json, order: seq<string>)
    ensures FromDict(data, order) == Err(UnknownSchema) <==> data.Object? && !IsOne(Get(data.fields, SCHEMA, Null))
  {
    if data.Object? {
      var fields := data.fields;
      VrrpOutcome(Get(fields, VRRP_BLOCK, Null));
      OptionalOutcome(APACHE, Get(fields, APACHE_BLOCK, Null));
      OptionalOutcome(UPDATES, Get(fields, UPDATES_BLOCK, Null));
      NamedOutcome(EventsIn(fields), order);
      FalsyIsEmpty(fields);
      hide ReadVrrp, OptionalEntry, NamedEntries, EventsIn, AllGood, FirstLacks, Listed, Good, Lacks, Get, Falsy;
      hide VRRP_INSTANCE, APACHE, UPDATES, EVENT, FitsFloat, VrrpGood, VrrpLacksSource, VrrpLacksField;
    }
  }

  /** A refusal is one of the documented two exactly when neither of those cases is met. */
  lemma DocumentedIff(data: Json, order: seq<string>)
    requires FromDict(data, order).Err?
    ensures FromDict(data, order).error == UnknownSchema || FromDict(data, order).error == ValueError <==>
      !(data.Object? && (RaisesKeyError(data.fields) || RaisesTypeError(data.fields, order)))
  {
    UndocumentedExceptionIff(data, order);
    hide FromDict, RaisesKeyError, RaisesTypeError;
  }

  ghost predicate VrrpComplete(value: Json) {
    value.Object? ==>
      && "source" in value.fields
      && var instances := Get(value.fields, "instances", List([]));
         instances.List? ==> forall k :: 0 <= k < |instances.items| ==> HasRequired(VRRP_INSTANCE, instances.items[k])
  }

  /** Nothing that must be there is missing, on any level. */
  ghost predicate Complete(fields: map<string, Json>) {
    && WRITTEN_AT in fields
    && VrrpComplete(Get(fields, VRRP_BLOCK, Null))
    && HasRequired(APACHE, Get(fields, APACHE_BLOCK, Null))
    && HasRequired(UPDATES, Get(fields, UPDATES_BLOCK, Null))
    && forall name :: name in EventsIn(fields) ==> HasRequired(EVENT, EventsIn(fields)[name])
  }

  lemma {:induction false} ListedAreMembers(values: map<string, Json>, order: seq<string>, k: nat)
    returns (name: string)
    requires k < |Listed(values, order)|
    ensures name in values && Listed(values, order)[k] == values[name]
    decreases |order|
  {
    if order[0] in values && k == 0 {
      name := order[0];
    } else {
      name := ListedAreMembers(values, order[1..], if order[0] in values then k - 1 else k);
    }
  }

  /** So with nothing missing a refusal is always one of the documented two. */
  lemma CompleteRefusals(data: Json, order: seq<string>)
    requires data.Object? ==> Complete(data.fields)
    ensures FromDict(data, order).Err? ==>
      FromDict(data, order).error == UnknownSchema || FromDict(data, order).error == ValueError
  {
    if data.Object? {
      UndocumentedExceptionIff(data, order);
      NothingLacks(data.fields, order);
      hide FromDict;
    }
  }

  lemma NothingLacks(fields: map<string, Json>, order: seq<string>)
    requires Complete(fields)
    ensures !RaisesKeyError(fields) && !RaisesTypeError(fields, order)
  {
    hide WrongTyped, ReachesBlocks, VRRP_INSTANCE, APACHE, UPDATES, EVENT, HasRequired;
    forall k | 0 <= k < |Listed(EventsIn(fields), order)|
      ensures HasRequired(EVENT, Listed(EventsIn(fields), order)[k])
    {
      var name := ListedAreMembers(EventsIn(fields), order, k);
    }
  }

  /** With the known schema and no time it is a `KeyError`, whatever else the dictionary holds. */
  lemma MissingTimeIsKeyError(fields: map<string, Json>, order: seq<string>)
    requires IsOne(Get(fields, SCHEMA, Null)) && WRITTEN_AT !in fields
    ensures FromDict(Object(fields), order) == Err(KeyError)
  {
    UndocumentedExceptionIff(Object(fields), order);
    hide FromDict, Get;
  }

  /** A state whose VRRP block lost its source is refused with a `KeyError`. */
  lemma MissingSourceIsKeyError(s: State, order: seq<string>)
    requires WellTyped(s) && s.vrrp.Some?
    ensures var dict := VrrpDict(s.vrrp.value);
      FromDict(Object(ToDict(s).fields[VRRP_BLOCK := Object(dict.fields - {"source"})]), order) == Err(KeyError)
  {
    var without := Object(VrrpDict(s.vrrp.value).fields - {"source"});
    var fields := ToDict(s).fields[VRRP_BLOCK := without];
    assert VrrpLacksSource(without) by {
      assert |"source"| != |"instances"|;
      assert "instances" in without.fields;
    }
    WrittenReachesBlocks(s, VRRP_BLOCK, without);
    UndocumentedExceptionIff(Object(fields), order);
    hide FromDict, ToDict, ReachesBlocks, VrrpLacksSource, VrrpDict;
  }

  /** A state whose Apache block lost a required field is refused with a `TypeError`. */
  lemma MissingFieldIsTypeError(s: State, order: seq<string>, block: Json)
    requires WellTyped(s) && Lacks(APACHE, block)
    ensures FromDict(Object(ToDict(s).fields[APACHE_BLOCK := block]), order) == Err(TypeError)
  {
    var fields := ToDict(s).fields[APACHE_BLOCK := block];
    WrittenReachesBlocks(s, APACHE_BLOCK, block);
    KeysAreApart();
    DictHoldsParts(s);
    if s.vrrp.Some? {
      VrrpRoundTrip(s.vrrp.value);
      VrrpOutcome(VrrpDict(s.vrrp.value));
    }
    UndocumentedExceptionIff(Object(fields), order);
    hide FromDict, ToDict, ReachesBlocks, VrrpGood, VrrpDict, VrrpLacksField, ReadVrrp, Lacks, APACHE, UPDATES, EVENT;
    hide SCHEMA, WRITTEN_AT, COLLECTOR, VRRP_BLOCK, APACHE_BLOCK, UPDATES_BLOCK, EVENTS, EVENTS_WINDOW, ERRORS,
      HeadError;
  }

  /** Replacing a block in what was written changes nothing about what is checked before the blocks. */
  lemma WrittenReachesBlocks(s: State, key: string, block: Json)
    requires key in {VRRP_BLOCK, APACHE_BLOCK, UPDATES_BLOCK}
    ensures ReachesBlocks(ToDict(s).fields[key := block])
  {
    KeysAreApart();
    DictHoldsParts(s);
    HeadOutcome(ToDict(s).fields);
    CodesRoundTrip(s.errors);
    CodesOutcome(map name | name in s.errors :: OptionalText(s.errors[name]));
    hide SCHEMA, WRITTEN_AT, COLLECTOR, VRRP_BLOCK, APACHE_BLOCK, UPDATES_BLOCK, EVENTS, EVENTS_WINDOW, ERRORS;
    hide ToDict, HeadError, FitsFloat, VrrpDict;
  }

  /** The schema numbers `true` and `1.0` are read as well as `1`. */
  lemma SchemaTrueIsRead(s: State, order: seq<string>, schema: Json)
    requires WellTyped(s) && schema in {Bool(true), Float(Finite(1.0))}
    ensures FromDict(Object(ToDict(s).fields[SCHEMA := schema]), order) == Ok(s)
  {
    RoundTrip(s, order);
    KeysAreApart();
    DictHoldsParts(s);
    SameButSchema(ToDict(s).fields, schema, order);
  }

  lemma SameButSchema(fields: map<string, Json>, schema: Json, order: seq<string>)
    requires IsOne(Get(fields, SCHEMA, Null)) && IsOne(schema)
    ensures FromDict(Object(fields[SCHEMA := schema]), order) == FromDict(Object(fields), order)
  {
    KeysAreApart();
    hide SCHEMA, WRITTEN_AT, COLLECTOR, VRRP_BLOCK, APACHE_BLOCK, UPDATES_BLOCK, EVENTS, EVENTS_WINDOW, ERRORS;
    hide FitsFloat, OptionalVrrp, OptionalEntry, NamedEntries, ErrorCodes, APACHE, UPDATES, EVENT, ObjectOrEmpty;
  }

  /** With the blocks before them in order, the events alone decide. */
  lemma EventsDecide(fields: map<string, Json>, order: seq<string>)
    requires ReachesBlocks(fields) && UpdatesPass(fields)
    ensures FromDict(Object(fields), order) == Err(TypeError) <==> FirstLacks(EVENT, Listed(EventsIn(fields), order))
  {
    UndocumentedExceptionIff(Object(fields), order);
    assert !VrrpLacksField(Get(fields, VRRP_BLOCK, Null));
    hide FromDict, ReachesBlocks, VrrpLacksField, VrrpGood, FirstLacks, AllGood, WrongTyped, HasRequired, Listed,
      EventsIn;
    hide APACHE, UPDATES, EVENT, Get;
  }

  lemma NoEventIsGoodHere()
    ensures Lacks(EVENT, Object(map[])) && WrongTyped(EVENT, Int(3))
  {
    assert "count" in EVENT && EVENT["count"].required;
  }

  /** Which of two malformed events comes first decides between the two exceptions. */
  lemma EventOrderDecides(fields: map<string, Json>)
    requires ReachesBlocks(fields) && UpdatesPass(fields)
    requires Get(fields, EVENTS, Null) == Object(map["a" := Object(map[]), "b" := Int(3)])
    ensures FromDict(Object(fields), ["a", "b"]) == Err(TypeError)
    ensures FromDict(Object(fields), ["b", "a"]) != Err(TypeError)
  {
    var events := EventsIn(fields);
    EventsDecide(fields, ["a", "b"]);
    EventsDecide(fields, ["b", "a"]);
    NoEventIsGoodHere();
    assert Listed(events, ["a", "b"]) == [Object(map[]), Int(3)] by {
      assert ["a", "b"][1..] == ["b"] && ["b"][1..] == [];
    }
    assert Listed(events, ["b", "a"]) == [Int(3), Object(map[])] by {
      assert ["b", "a"][1..] == ["a"] && ["a"][1..] == [];
    }
    hide FromDict, ReachesBlocks, UpdatesPass, WrongTyped, HasRequired, Get, EventsIn, Listed, EVENT, FirstLacks;
    FirstLacksCons(EVENT, [Object(map[]), Int(3)]);
    FirstLacksCons(EVENT, [Int(3), Object(map[])]);
  }
}
