/** The host state file: what the collector writes as a dictionary, and what the panel reads back. */
module HostState {
  import opened Options
  import opened Bits

  // ---- Dictionaries -------------------------------------------------------------------------------

  datatype Number = Finite(r: real) | NotFinite

  datatype Json =
    | Null
    | Bool(b: bool)
    | Int(n: int)
    | Float(f: Number)
    | Text(s: string)
    | List(items: seq<Json>)
    | Object(fields: map<string, Json>)

  /** How reading a dictionary can fail, by the exception that is raised. */
  datatype Error = UnknownSchema | ValueError | KeyError | TypeError

  datatype Result<T> = Ok(value: T) | Err(error: Error)

  // ---- Scalars ------------------------------------------------------------------------------------

  datatype Kind = NoneKind | IntKind | FloatKind | TextKind

  /** Whether an integer rounds to a finite double. */
  predicate FitsFloat(n: int) {
    var limit := Pow2(1024) - Pow2(970);
    -limit < n < limit
  }

  /** A truth value is no number; an integer is a float if it fits one; only finite floats count. */
  predicate Is(value: Json, kind: Kind) {
    match kind
    case NoneKind => value.Null?
    case IntKind => value.Int?
    case FloatKind => (value.Int? && FitsFloat(value.n)) || (value.Float? && value.f.Finite?)
    case TextKind => value.Text?
  }

  predicate Fits(value: Json, kinds: set<Kind>) {
    exists kind :: kind in kinds && Is(value, kind)
  }

  // ---- Blocks of a fixed shape ----------------------------------------------------------------------

  datatype Field = Field(kinds: set<Kind>, required: bool)

  type Shape = map<string, Field>

  /** Every field of its shape; a field that was left out is null. */
  type Block = map<string, Json>

  const VRRP_INSTANCE: Shape := map[
    "name" := Field({TextKind}, true),
    "state" := Field({TextKind}, true),
    "base_priority" := Field({IntKind, NoneKind}, false),
    "effective_priority" := Field({IntKind, NoneKind}, false),
    "master_priority" := Field({IntKind, NoneKind}, false)
  ]

  const APACHE: Shape := map[
    "window_s" := Field({FloatKind}, true),
    "requests_per_s" := Field({FloatKind, NoneKind}, false),
    "slots_busy" := Field({FloatKind, NoneKind}, false),
    "workers_busy" := Field({FloatKind, NoneKind}, false),
    "slots_finishing" := Field({IntKind, NoneKind}, false)
  ]

  const UPDATES: Shape := map[
    "checked_at" := Field({FloatKind}, true),
    "available" := Field({IntKind}, true),
    "security" := Field({IntKind}, true),
    "source" := Field({TextKind}, true)
  ]

  const EVENT: Shape := map[
    "count" := Field({IntKind}, true),
    "last" := Field({FloatKind, NoneKind}, false)
  ]

  /** Fields that may be left out may be null, as in all four shapes. */
  predicate Sound(shape: Shape) {
    forall key :: key in shape && !shape[key].required ==> NoneKind in shape[key].kinds
  }

  function Restricted(fields: map<string, Json>, keys: set<string>): map<string, Json> {
    map key | key in fields && key in keys :: fields[key]
  }

  /** One block: unknown keys dropped, known ones checked, then the missing ones looked for. */
  function Entry(shape: Shape, value: Json): Result<Block> {
    if !value.Object? then Err(ValueError)
    else
      var kept := Restricted(value.fields, shape.Keys);
      if exists key :: key in kept && !Fits(kept[key], shape[key].kinds) then Err(ValueError)
      else if exists key :: key in shape && shape[key].required && key !in kept then Err(TypeError)
      else Ok(map key | key in shape :: if key in kept then kept[key] else Null)
  }

  /** No shape takes a truth value, a list, an object or a number that is not finite for a known field. */
  lemma NoScalarNoField(shape: Shape, fields: map<string, Json>, key: string)
    requires key in shape && key in fields
    requires match fields[key]
      case Bool(_) => true
      case List(_) => true
      case Object(_) => true
      case Float(f) => f.NotFinite? || FloatKind !in shape[key].kinds
      case Int(n) => shape[key].kinds <= {TextKind, NoneKind}
      case Text(_) => TextKind !in shape[key].kinds
      case Null => NoneKind !in shape[key].kinds
    ensures Entry(shape, Object(fields)) == Err(ValueError)
  {
    var kept := Restricted(fields, shape.Keys);
    assert key in kept && !Fits(kept[key], shape[key].kinds);
  }

  /** A list of blocks, up to the first that is refused. */
  function Entries(shape: Shape, values: seq<Json>): Result<seq<Block>> {
    if values == [] then Ok([])
    else
      match Entry(shape, values[0])
      case Err(error) => Err(error)
      case Ok(block) =>
        match Entries(shape, values[1..])
        case Err(error) => Err(error)
        case Ok(blocks) => Ok([block] + blocks)
  }

  /** The values in the order in which a dictionary lists its names. */
  function Listed(values: map<string, Json>, order: seq<string>): seq<Json> {
    if order == [] then []
    else (if order[0] in values then [values[order[0]]] else []) + Listed(values, order[1..])
  }

  /** Blocks by name, read in the dictionary's own order, up to the first that is refused. */
  function NamedEntries(shape: Shape, values: map<string, Json>, order: seq<string>): Result<map<string, Block>> {
    match Entries(shape, Listed(values, order))
    case Err(error) => Err(error)
    case Ok(_) => Ok(map name | name in values && Entry(shape, values[name]).Ok? :: Entry(shape, values[name]).value)
  }

  // ---- The state ------------------------------------------------------------------------------------

  datatype Vrrp = Vrrp(source: string, instances: seq<Block>)

  datatype State = State(
    writtenAt: real,
    collector: string,
    vrrp: Option<Vrrp>,
    apache: Option<Block>,
    updates: Option<Block>,
    events: map<string, Block>,
    eventsWindow: int,
    errors: map<string, Option<string>>)

  const DEFAULT_WINDOW := 12 * 3600

  const SCHEMA := "schema"
  const WRITTEN_AT := "written_at"
  const COLLECTOR := "collector"
  const VRRP_BLOCK := "vrrp"
  const APACHE_BLOCK := "apache"
  const UPDATES_BLOCK := "updates"
  const EVENTS := "events"
  const EVENTS_WINDOW := "events_window_s"
  const ERRORS := "errors"

  const TOP_KEYS: set<string> :=
    {SCHEMA, WRITTEN_AT, COLLECTOR, VRRP_BLOCK, APACHE_BLOCK, UPDATES_BLOCK, EVENTS, EVENTS_WINDOW, ERRORS}

  const VRRP_KEYS: set<string> := {"source", "instances"}

  function OptionalObject(block: Option<Block>): Json {
    if block.None? then Null else Object(block.value)
  }

  function Objects(blocks: seq<Block>): (r: seq<Json>)
    ensures |r| == |blocks| && forall k :: 0 <= k < |r| ==> r[k] == Object(blocks[k])
  {
    seq(|blocks|, k requires 0 <= k < |blocks| => Object(blocks[k]))
  }

  function VrrpDict(vrrp: Vrrp): Json {
    Object(map["source" := Text(vrrp.source), "instances" := List(Objects(vrrp.instances))])
  }

  function OptionalText(text: Option<string>): Json {
    if text.None? then Null else Text(text.value)
  }

  function ToDict(s: State): Json {
    Object(map[
      WRITTEN_AT := Float(Finite(s.writtenAt)),
      COLLECTOR := Text(s.collector),
      VRRP_BLOCK := if s.vrrp.None? then Null else VrrpDict(s.vrrp.value),
      APACHE_BLOCK := OptionalObject(s.apache),
      UPDATES_BLOCK := OptionalObject(s.updates),
      EVENTS := Object(map name | name in s.events :: Object(s.events[name])),
      EVENTS_WINDOW := Int(s.eventsWindow),
      ERRORS := Object(map name | name in s.errors :: OptionalText(s.errors[name])),
      SCHEMA := Int(1)
    ])
  }

  function Get(fields: map<string, Json>, key: string, default: Json): Json {
    if key in fields then fields[key] else default
  }

  /** Equal to 1, as Python compares. */
  predicate IsOne(value: Json) {
    value == Int(1) || value == Bool(true) || value == Float(Finite(1.0))
  }

  predicate Falsy(value: Json) {
    value in {Null, Bool(false), Int(0), Float(Finite(0.0)), Text(""), List([]), Object(map[])}
  }

  /** `value or {}`, refused if that is no object. */
  function ObjectOrEmpty(value: Json): Result<map<string, Json>> {
    if Falsy(value) then Ok(map[])
    else if value.Object? then Ok(value.fields)
    else Err(ValueError)
  }

  function ErrorCodes(fields: map<string, Json>): Result<map<string, Option<string>>> {
    if exists name :: name in fields && !Fits(fields[name], {TextKind, NoneKind}) then Err(ValueError)
    else Ok(map name | name in fields :: if fields[name].Text? then Some(fields[name].s) else None)
  }

  function ReadVrrp(value: Json): Result<Vrrp> {
    if !value.Object? then Err(ValueError)
    else
      var instances := Get(value.fields, "instances", List([]));
      if !instances.List? then Err(ValueError)
      else if "source" !in value.fields then Err(KeyError)
      else if !Is(value.fields["source"], TextKind) then Err(ValueError)
      else
        match Entries(VRRP_INSTANCE, instances.items)
        case Err(error) => Err(error)
        case Ok(blocks) => Ok(Vrrp(value.fields["source"].s, blocks))
  }

  function OptionalVrrp(value: Json): Result<Option<Vrrp>> {
    if value.Null? then Ok(None)
    else
      match ReadVrrp(value)
      case Err(error) => Err(error)
      case Ok(vrrp) => Ok(Some(vrrp))
  }

  function OptionalEntry(shape: Shape, value: Json): Result<Option<Block>> {
    if value.Null? then Ok(None)
    else
      match Entry(shape, value)
      case Err(error) => Err(error)
      case Ok(block) => Ok(Some(block))
  }

  function AsReal(value: Json): real
    requires Is(value, FloatKind)
  {
    if value.Int? then value.n as real else value.f.r
  }

  /** The four top-level fields that are no blocks, or the first exception. */
  function HeadError(fields: map<string, Json>): Option<Error> {
    if !IsOne(Get(fields, SCHEMA, Null)) then Some(UnknownSchema)
    else if WRITTEN_AT !in fields then Some(KeyError)
    else if !Is(fields[WRITTEN_AT], FloatKind) then Some(ValueError)
    else if !Is(Get(fields, COLLECTOR, Text("")), TextKind) then Some(ValueError)
    else if !Is(Get(fields, EVENTS_WINDOW, Int(DEFAULT_WINDOW)), IntKind) then Some(ValueError)
    else None
  }

  /**
   The state a dictionary holds.  `order` is the order in which its events are listed, which
   decides which of two malformed events is met first.
   */
  function FromDict(data: Json, order: seq<string>): Result<State> {
    if !data.Object? then Err(ValueError)
    else
      var fields := data.fields;
      if HeadError(fields).Some? then Err(HeadError(fields).value)
      else
        match ObjectOrEmpty(Get(fields, EVENTS, Null))
        case Err(error) => Err(error)
        case Ok(named) =>
          match ObjectOrEmpty(Get(fields, ERRORS, Null))
          case Err(error) => Err(error)
          case Ok(codes) => Assembled(fields, named, codes, order)
  }

  /** The codes are checked first, then the blocks built in this order. */
  function Assembled(fields: map<string, Json>, named: map<string, Json>, codes: map<string, Json>,
      order: seq<string>)
    : Result<State>
    requires HeadError(fields).None?
  {
    match ErrorCodes(codes)
    case Err(error) => Err(error)
    case Ok(errors) =>
      match OptionalVrrp(Get(fields, VRRP_BLOCK, Null))
      case Err(error) => Err(error)
      case Ok(vrrp) =>
        match OptionalEntry(APACHE, Get(fields, APACHE_BLOCK, Null))
        case Err(error) => Err(error)
        case Ok(apache) =>
          match OptionalEntry(UPDATES, Get(fields, UPDATES_BLOCK, Null))
          case Err(error) => Err(error)
          case Ok(updates) =>
            match NamedEntries(EVENT, named, order)
            case Err(error) => Err(error)
            case Ok(events) =>
              Ok(State(AsReal(fields[WRITTEN_AT]), Get(fields, COLLECTOR, Text("")).s, vrrp, apache, updates, events,
                       Get(fields, EVENTS_WINDOW, Int(DEFAULT_WINDOW)).n, errors))
  }

  // ---- Well-typed states ------------------------------------------------------------------------------

  ghost predicate WellTypedBlock(shape: Shape, block: Block) {
    block.Keys == shape.Keys && forall key :: key in shape ==> Fits(block[key], shape[key].kinds)
  }

  ghost predicate WellTyped(s: State) {
    && (s.vrrp.Some? ==> forall k :: 0 <= k < |s.vrrp.value.instances| ==>
      WellTypedBlock(VRRP_INSTANCE, s.vrrp.value.instances[k]))
    && (s.apache.Some? ==> WellTypedBlock(APACHE, s.apache.value))
    && (s.updates.Some? ==> WellTypedBlock(UPDATES, s.updates.value))
    && (forall name :: name in s.events ==> WellTypedBlock(EVENT, s.events[name]))
  }

  /** No two keys of the top level are alike. */
  ghost predicate KeysApart() {
    && WRITTEN_AT !in {COLLECTOR, VRRP_BLOCK, APACHE_BLOCK, UPDATES_BLOCK, EVENTS, EVENTS_WINDOW, ERRORS, SCHEMA}
    && COLLECTOR !in {VRRP_BLOCK, APACHE_BLOCK, UPDATES_BLOCK, EVENTS, EVENTS_WINDOW, ERRORS, SCHEMA}
    && VRRP_BLOCK !in {APACHE_BLOCK, UPDATES_BLOCK, EVENTS, EVENTS_WINDOW, ERRORS, SCHEMA}
    && APACHE_BLOCK !in {UPDATES_BLOCK, EVENTS, EVENTS_WINDOW, ERRORS, SCHEMA}
    && UPDATES_BLOCK !in {EVENTS, EVENTS_WINDOW, ERRORS, SCHEMA}
    && EVENTS !in {EVENTS_WINDOW, ERRORS, SCHEMA}
    && EVENTS_WINDOW !in {ERRORS, SCHEMA}
    && ERRORS != SCHEMA
  }

  lemma KeysAreApart()
    ensures KeysApart()
  {
    assert APACHE_BLOCK[0] == 'a' && EVENTS[1] == 'v' && ERRORS[1] == 'r' && SCHEMA[0] == 's';
  }

  lemma ShapesAreSound()
    ensures Sound(VRRP_INSTANCE) && Sound(APACHE) && Sound(UPDATES) && Sound(EVENT)
  {
  }

  // ---- Round trip -------------------------------------------------------------------------------------

  lemma EntryRoundTrip(shape: Shape, block: Block)
    requires WellTypedBlock(shape, block)
    ensures Entry(shape, Object(block)) == Ok(block)
  {
    hide Fits;
    assert Restricted(block, shape.Keys) == block;
    assert Entry(shape, Object(block)).value == block;
  }

  lemma {:induction false} EntriesRoundTrip(shape: Shape, blocks: seq<Block>)
    requires forall k :: 0 <= k < |blocks| ==> WellTypedBlock(shape, blocks[k])
    ensures Entries(shape, Objects(blocks)) == Ok(blocks)
    decreases |blocks|
  {
    hide Entry, WellTypedBlock;
    if blocks != [] {
      EntryRoundTrip(shape, blocks[0]);
      EntriesRoundTrip(shape, blocks[1..]);
      assert Objects(blocks)[1..] == Objects(blocks[1..]);
      assert [blocks[0]] + blocks[1..] == blocks;
    }
  }

  lemma NamedRoundTrip(shape: Shape, blocks: map<string, Block>, order: seq<string>)
    requires forall name :: name in blocks ==> WellTypedBlock(shape, blocks[name])
    ensures NamedEntries(shape, map name | name in blocks :: Object(blocks[name]), order) == Ok(blocks)
  {
    hide Entry, WellTypedBlock;
    var values := map name | name in blocks :: Object(blocks[name]);
    forall name | name in blocks ensures Entry(shape, values[name]) == Ok(blocks[name]) {
      EntryRoundTrip(shape, blocks[name]);
    }
    AllRead(shape, values, order);
    assert NamedEntries(shape, values, order).value == blocks;
  }

  lemma {:induction false} AllRead(shape: Shape, values: map<string, Json>, order: seq<string>)
    requires forall name :: name in values ==> Entry(shape, values[name]).Ok?
    ensures Entries(shape, Listed(values, order)).Ok?
    decreases |order|
  {
    hide Entry;
    if order != [] {
      AllRead(shape, values, order[1..]);
      var rest := Listed(values, order[1..]);
      if order[0] in values {
        assert ([values[order[0]]] + rest)[1..] == rest;
      } else {
        assert [] + rest == rest;
      }
    }
  }

  lemma VrrpRoundTrip(vrrp: Vrrp)
    requires forall k :: 0 <= k < |vrrp.instances| ==> WellTypedBlock(VRRP_INSTANCE, vrrp.instances[k])
    ensures ReadVrrp(VrrpDict(vrrp)) == Ok(vrrp)
  {
    hide Entries, WellTypedBlock;
    EntriesRoundTrip(VRRP_INSTANCE, vrrp.instances);
  }

  lemma CodesRoundTrip(errors: map<string, Option<string>>)
    ensures ErrorCodes(map name | name in errors :: OptionalText(errors[name])) == Ok(errors)
  {
    var fields := map name | name in errors :: OptionalText(errors[name]);
    forall name | name in fields ensures Fits(fields[name], {TextKind, NoneKind}) {
      assert Is(fields[name], if errors[name].None? then NoneKind else TextKind);
    }
    assert ErrorCodes(fields).value == errors;
  }

  /** Every part of the dictionary is found under its key. */
  lemma DictHoldsParts(s: State)
    ensures var fields := ToDict(s).fields;
      && HeadError(fields).None?
      && fields[WRITTEN_AT] == Float(Finite(s.writtenAt))
      && Get(fields, COLLECTOR, Text("")) == Text(s.collector)
      && Get(fields, VRRP_BLOCK, Null) == (if s.vrrp.None? then Null else VrrpDict(s.vrrp.value))
      && Get(fields, APACHE_BLOCK, Null) == OptionalObject(s.apache)
      && Get(fields, UPDATES_BLOCK, Null) == OptionalObject(s.updates)
      && Get(fields, EVENTS, Null) == Object(map name | name in s.events :: Object(s.events[name]))
      && Get(fields, EVENTS_WINDOW, Int(DEFAULT_WINDOW)) == Int(s.eventsWindow)
      && Get(fields, ERRORS, Null) == Object(map name | name in s.errors :: OptionalText(s.errors[name]))
  {
    KeysAreApart();
    hide SCHEMA, WRITTEN_AT, COLLECTOR, VRRP_BLOCK, APACHE_BLOCK, UPDATES_BLOCK, EVENTS, EVENTS_WINDOW, ERRORS;
    hide FitsFloat, VrrpDict;
  }

  lemma ObjectIsItself(fields: map<string, Json>)
    ensures ObjectOrEmpty(Object(fields)) == Ok(fields)
  {
  }

  lemma WrittenIsAssembled(s: State, order: seq<string>)
    ensures var fields := ToDict(s).fields;
      HeadError(fields).None? &&
      FromDict(ToDict(s), order) == Assembled(fields, map name | name in s.events :: Object(s.events[name]),
                                              map name | name in s.errors :: OptionalText(s.errors[name]), order)
  {
    DictHoldsParts(s);
    ObjectIsItself(map name | name in s.events :: Object(s.events[name]));
    ObjectIsItself(map name | name in s.errors :: OptionalText(s.errors[name]));
    var data := ToDict(s);
    assert data.Object?;
    hide HeadError, ToDict, Get, ObjectOrEmpty, Assembled, OptionalText;
  }

  lemma BlocksRoundTrip(s: State)
    requires WellTyped(s)
    ensures OptionalVrrp(if s.vrrp.None? then Null else VrrpDict(s.vrrp.value)) == Ok(s.vrrp)
    ensures OptionalEntry(APACHE, OptionalObject(s.apache)) == Ok(s.apache)
    ensures OptionalEntry(UPDATES, OptionalObject(s.updates)) == Ok(s.updates)
  {
    hide Entry, ReadVrrp, WellTypedBlock, APACHE, UPDATES, VRRP_INSTANCE, EVENT;
    if s.vrrp.Some? {
      VrrpRoundTrip(s.vrrp.value);
    }
    if s.apache.Some? {
      EntryRoundTrip(APACHE, s.apache.value);
    }
    if s.updates.Some? {
      EntryRoundTrip(UPDATES, s.updates.value);
    }
  }

  /** What the collector writes the panel reads back as it was. */
  lemma RoundTrip(s: State, order: seq<string>)
    requires WellTyped(s)
    ensures FromDict(ToDict(s), order) == Ok(s)
  {
    WrittenIsAssembled(s, order);
    DictHoldsParts(s);
    BlocksRoundTrip(s);
    NamedRoundTrip(EVENT, s.events, order);
    CodesRoundTrip(s.errors);
    hide OptionalEntry, OptionalVrrp, NamedEntries, ErrorCodes, WellTyped, FitsFloat, HeadError, ToDict, FromDict,
      Get;
    hide APACHE, UPDATES, VRRP_INSTANCE, EVENT, OptionalText, VrrpDict, OptionalObject;
  }

  // ---- What is accepted -------------------------------------------------------------------------------

  lemma AcceptedEntry(shape: Shape, value: Json)
    requires Sound(shape) && Entry(shape, value).Ok?
    ensures WellTypedBlock(shape, Entry(shape, value).value)
  {
    var kept := Restricted(value.fields, shape.Keys);
    forall key | key in shape ensures Fits(Entry(shape, value).value[key], shape[key].kinds) {
      if key !in kept {
        assert Is(Null, NoneKind);
      }
    }
  }

  lemma {:induction false} AcceptedEntries(shape: Shape, values: seq<Json>)
    requires Sound(shape) && Entries(shape, values).Ok?
    ensures forall k :: 0 <= k < |Entries(shape, values).value| ==>
      WellTypedBlock(shape, Entries(shape, values).value[k])
    decreases |values|
  {
    if values != [] {
      AcceptedEntry(shape, values[0]);
      AcceptedEntries(shape, values[1..]);
      hide Entry, WellTypedBlock;
    }
  }

  /** Every accepted dictionary gives a state whose fields all have their declared types. */
  lemma AcceptedIsWellTyped(data: Json, order: seq<string>)
    requires FromDict(data, order).Ok?
    ensures WellTyped(FromDict(data, order).value)
  {
    ShapesAreSound();
    hide Entry, WellTypedBlock, Entries, FitsFloat, VRRP_INSTANCE, APACHE, UPDATES, EVENT;
    var fields := data.fields;
    var vrrp := Get(fields, VRRP_BLOCK, Null);
    if !vrrp.Null? {
      AcceptedEntries(VRRP_INSTANCE, Get(vrrp.fields, "instances", List([])).items);
    }
    if !Get(fields, APACHE_BLOCK, Null).Null? {
      AcceptedEntry(APACHE, Get(fields, APACHE_BLOCK, Null));
    }
    if !Get(fields, UPDATES_BLOCK, Null).Null? {
      AcceptedEntry(UPDATES, Get(fields, UPDATES_BLOCK, Null));
    }
    var named := ObjectOrEmpty(Get(fields, EVENTS, Null)).value;
    forall name | name in named && Entry(EVENT, named[name]).Ok?
      ensures WellTypedBlock(EVENT, Entry(EVENT, named[name]).value)
    {
      AcceptedEntry(EVENT, named[name]);
    }
  }

  /** Writing an accepted state again and reading that changes nothing more. */
  lemma RewritingIsStable(data: Json, order: seq<string>)
    requires FromDict(data, order).Ok?
    ensures FromDict(ToDict(FromDict(data, order).value), order) == FromDict(data, order)
  {
    AcceptedIsWellTyped(data, order);
    RoundTrip(FromDict(data, order).value, order);
  }

  /** Every listed event of an accepted dictionary is in the state. */
  lemma AcceptedKeepsEvents(data: Json, order: seq<string>, name: string)
    requires FromDict(data, order).Ok? && name in order
    requires var events := Get(data.fields, EVENTS, Null); events.Object? && name in events.fields
    ensures name in FromDict(data, order).value.events
  {
    var events := Get(data.fields, EVENTS, Null).fields;
    hide Entry, ReadVrrp, EVENT, APACHE, UPDATES, FitsFloat;
    ListedIsRead(EVENT, events, order, name);
  }

  lemma {:induction false} ListedIsRead(shape: Shape, values: map<string, Json>, order: seq<string>, name: string)
    requires Entries(shape, Listed(values, order)).Ok? && name in order && name in values
    ensures Entry(shape, values[name]).Ok?
    decreases |order|
  {
    hide Entry;
    var rest := Listed(values, order[1..]);
    if order[0] in values {
      assert ([values[order[0]]] + rest)[1..] == rest;
    } else {
      assert [] + rest == rest;
    }
    if name != order[0] {
      ListedIsRead(shape, values, order[1..], name);
    }
  }

  // ---- Unknown keys -----------------------------------------------------------------------------------

  function PrunedBlock(shape: Shape, value: Json): Json {
    if value.Object? then Object(Restricted(value.fields, shape.Keys)) else value
  }

  function PrunedBlocks(shape: Shape, values: seq<Json>): (r: seq<Json>)
    ensures |r| == |values| && forall k :: 0 <= k < |r| ==> r[k] == PrunedBlock(shape, values[k])
  {
    seq(|values|, k requires 0 <= k < |values| => PrunedBlock(shape, values[k]))
  }

  function PrunedVrrp(value: Json): Json {
    if !value.Object? then value
    else
      Object(map key | key in value.fields && key in VRRP_KEYS ::
        var field := value.fields[key];
        if key == "instances" && field.List? then List(PrunedBlocks(VRRP_INSTANCE, field.items)) else field)
  }

  function PrunedEvents(value: Json): Json {
    if value.Object? then Object(map name | name in value.fields :: PrunedBlock(EVENT, value.fields[name])) else value
  }

  function PrunedField(key: string, field: Json): Json {
    if key == VRRP_BLOCK then PrunedVrrp(field)
    else if key == APACHE_BLOCK then PrunedBlock(APACHE, field)
    else if key == UPDATES_BLOCK then PrunedBlock(UPDATES, field)
    else if key == EVENTS then PrunedEvents(field)
    else field
  }

  /** A dictionary without the keys no version this code knows has, on every level of a fixed shape. */
  function Pruned(data: Json): Json {
    if !data.Object? then data
    else Object(map key | key in data.fields && key in TOP_KEYS :: PrunedField(key, data.fields[key]))
  }

  lemma EntryIgnoresUnknown(shape: Shape, value: Json)
    ensures Entry(shape, PrunedBlock(shape, value)) == Entry(shape, value)
  {
    if value.Object? {
      var kept := Restricted(value.fields, shape.Keys);
      assert Restricted(kept, shape.Keys) == kept;
    }
  }

  lemma {:induction false} EntriesIgnoreUnknown(shape: Shape, values: seq<Json>)
    ensures Entries(shape, PrunedBlocks(shape, values)) == Entries(shape, values)
    decreases |values|
  {
    hide Entry, PrunedBlock;
    if values != [] {
      EntryIgnoresUnknown(shape, values[0]);
      EntriesIgnoreUnknown(shape, values[1..]);
      assert PrunedBlocks(shape, values)[1..] == PrunedBlocks(shape, values[1..]);
    }
  }

  lemma VrrpIgnoresUnknown(value: Json)
    ensures ReadVrrp(PrunedVrrp(value)) == ReadVrrp(value)
  {
    hide Entries, PrunedBlocks;
    if value.Object? {
      var instances := Get(value.fields, "instances", List([]));
      if instances.List? {
        EntriesIgnoreUnknown(VRRP_INSTANCE, instances.items);
      }
    }
  }

  lemma {:induction false} ListedIgnoresUnknown(shape: Shape, values: map<string, Json>, order: seq<string>)
    ensures Listed(map name | name in values :: PrunedBlock(shape, values[name]), order)
      == PrunedBlocks(shape, Listed(values, order))
    decreases |order|
  {
    hide PrunedBlock;
    if order != [] {
      ListedIgnoresUnknown(shape, values, order[1..]);
    }
  }

  lemma NamedIgnoreUnknown(shape: Shape, values: map<string, Json>, order: seq<string>)
    ensures NamedEntries(shape, map name | name in values :: PrunedBlock(shape, values[name]), order)
      == NamedEntries(shape, values, order)
  {
    hide Entry, PrunedBlock;
    var pruned := map name | name in values :: PrunedBlock(shape, values[name]);
    forall name | name in values ensures Entry(shape, pruned[name]) == Entry(shape, values[name]) {
      EntryIgnoresUnknown(shape, values[name]);
    }
    ListedIgnoresUnknown(shape, values, order);
    EntriesIgnoreUnknown(shape, Listed(values, order));
    hide Listed, Entries, PrunedBlocks;
    if NamedEntries(shape, values, order).Ok? {
      assert NamedEntries(shape, pruned, order).value == NamedEntries(shape, values, order).value;
    }
  }

  lemma EventsIgnoreUnknown(value: Json, order: seq<string>)
    ensures var a, b := ObjectOrEmpty(PrunedEvents(value)), ObjectOrEmpty(value);
      a.Ok? == b.Ok? && (b.Err? ==> a == b)
        && (b.Ok? ==> NamedEntries(EVENT, a.value, order) == NamedEntries(EVENT, b.value, order))
  {
    if value.Object? {
      NamedIgnoreUnknown(EVENT, value.fields, order);
      var pruned := map name | name in value.fields :: PrunedBlock(EVENT, value.fields[name]);
      assert pruned.Keys == value.fields.Keys;
      hide NamedEntries, PrunedBlock, EVENT;
      assert pruned == map[] <==> value.fields == map[] by {
        assert value.fields == map[] <==> value.fields.Keys == {};
        assert pruned == map[] <==> pruned.Keys == {};
      }
    }
  }

  /** Every known key leads to the pruned field. */
  lemma PrunedHoldsParts(fields: map<string, Json>, default: Json)
    ensures var pruned := Pruned(Object(fields)).fields;
      && (forall key :: key in {SCHEMA, WRITTEN_AT, COLLECTOR, EVENTS_WINDOW, ERRORS} ==>
            (key in pruned <==> key in fields) && Get(pruned, key, default) == Get(fields, key, default))
  {
    KeysAreApart();
    hide SCHEMA, WRITTEN_AT, COLLECTOR, VRRP_BLOCK, APACHE_BLOCK, UPDATES_BLOCK, EVENTS, EVENTS_WINDOW, ERRORS;
    hide PrunedVrrp, PrunedBlock, PrunedEvents;
  }

  lemma PrunedHoldsBlocks(fields: map<string, Json>)
    ensures var pruned := Pruned(Object(fields)).fields;
      && Get(pruned, VRRP_BLOCK, Null) == PrunedVrrp(Get(fields, VRRP_BLOCK, Null))
      && Get(pruned, APACHE_BLOCK, Null) == PrunedBlock(APACHE, Get(fields, APACHE_BLOCK, Null))
      && Get(pruned, UPDATES_BLOCK, Null) == PrunedBlock(UPDATES, Get(fields, UPDATES_BLOCK, Null))
      && Get(pruned, EVENTS, Null) == PrunedEvents(Get(fields, EVENTS, Null))
  {
    KeysAreApart();
    hide SCHEMA, WRITTEN_AT, COLLECTOR, VRRP_BLOCK, APACHE_BLOCK, UPDATES_BLOCK, EVENTS, EVENTS_WINDOW, ERRORS;
    hide APACHE, UPDATES;
  }

  lemma HeadIgnoresUnknown(fields: map<string, Json>)
    ensures HeadError(Pruned(Object(fields)).fields) == HeadError(fields)
  {
    PrunedHoldsParts(fields, Null);
    PrunedHoldsParts(fields, Text(""));
    PrunedHoldsParts(fields, Int(DEFAULT_WINDOW));
    var pruned := Pruned(Object(fields)).fields;
    hide Pruned, FitsFloat, SCHEMA, WRITTEN_AT, COLLECTOR, EVENTS_WINDOW, ERRORS;
    assert WRITTEN_AT in fields ==> Get(pruned, WRITTEN_AT, Null) == Get(fields, WRITTEN_AT, Null);
  }

  lemma BlocksIgnoreUnknown(fields: map<string, Json>)
    ensures var pruned := Pruned(Object(fields)).fields;
      && OptionalVrrp(Get(pruned, VRRP_BLOCK, Null)) == OptionalVrrp(Get(fields, VRRP_BLOCK, Null))
      && OptionalEntry(APACHE, Get(pruned, APACHE_BLOCK, Null))
        == OptionalEntry(APACHE, Get(fields, APACHE_BLOCK, Null))
      && OptionalEntry(UPDATES, Get(pruned, UPDATES_BLOCK, Null))
        == OptionalEntry(UPDATES, Get(fields, UPDATES_BLOCK, Null))
  {
    PrunedHoldsBlocks(fields);
    VrrpIgnoresUnknown(Get(fields, VRRP_BLOCK, Null));
    EntryIgnoresUnknown(APACHE, Get(fields, APACHE_BLOCK, Null));
    EntryIgnoresUnknown(UPDATES, Get(fields, UPDATES_BLOCK, Null));
    hide Pruned, Entry, ReadVrrp, Get, APACHE, UPDATES;
  }

  /** Unknown keys, at the top or in any block, change nothing about what is read. */
  lemma UnknownKeysIgnored(data: Json, order: seq<string>)
    ensures FromDict(Pruned(data), order) == FromDict(data, order)
  {
    if data.Object? {
      var fields := data.fields;
      var pruned := Pruned(data).fields;
      HeadIgnoresUnknown(fields);
      BlocksIgnoreUnknown(fields);
      PrunedHoldsParts(fields, Null);
      PrunedHoldsParts(fields, Text(""));
      PrunedHoldsParts(fields, Int(DEFAULT_WINDOW));
      PrunedHoldsBlocks(fields);
      EventsIgnoreUnknown(Get(fields, EVENTS, Null), order);
      assert Pruned(data).Object?;
      assert HeadError(fields).None? ==> pruned[WRITTEN_AT] == fields[WRITTEN_AT] by {
        assert Get(pruned, WRITTEN_AT, Null) == Get(fields, WRITTEN_AT, Null);
      }
      hide Pruned, OptionalEntry, OptionalVrrp, NamedEntries, ErrorCodes, HeadError, Get, ObjectOrEmpty, PrunedEvents;
      hide SCHEMA, WRITTEN_AT, COLLECTOR, VRRP_BLOCK, APACHE_BLOCK, UPDATES_BLOCK, EVENTS, EVENTS_WINDOW, ERRORS;
      hide APACHE, UPDATES, EVENT, FitsFloat;
    }
  }
}
