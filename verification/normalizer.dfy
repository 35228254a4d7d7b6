/** `prepare_REST_event`: turning the parsed Zabbix fields into a SignifAI
    incident. Known Zabbix macros are renamed through `ATTR_MAP` (and, for
    status and severity, translated through `MORE_MAPS`); every other macro
    becomes a `zabbix/`-prefixed attribute; `EVENT.DATE` and `EVENT.TIME`
    set the timestamp; the API-key override is dropped. */
module Normalizer {
  import opened Wrappers
  import opened Text
  import opened Fields
  import opened KeyRewrite
  import opened Calendar

  /** `ATTR_MAP`: the Zabbix macros every incident must carry, and the
      SignifAI field each becomes. */
  const AttrMap: map<string, string> := map[
    "TRIGGER.DESCRIPTION" := "annotations/description",
    "TRIGGER.ID" := "application",
    "TRIGGER.NAME" := "event_description",
    "TRIGGER.NSEVERITY" := "value",
    "HOST.NAME" := "host",
    "TRIGGER.STATUS" := "state",
    "TRIGGER.EXPRESSION" := "alert/condition"
  ]

  /** `BARE_ATTRS`: slash-free destinations that still go under
      `attributes`. */
  const BareAttrs: set<string> := {"state"}

  const StatusMap: map<string, string> := map["PROBLEM" := "alarm", "OK" := "ok"]

  const SeverityMap: map<string, string> := map[
    "0" := "low", "1" := "low", "2" := "medium", "3" := "medium", "4" := "high", "5" := "critical"
  ]

  /** `MORE_MAPS`: the macros whose (upper-cased) value is translated. */
  const MoreMaps: map<string, map<string, string>> := map[
    "TRIGGER.STATUS" := StatusMap,
    "TRIGGER.NSEVERITY" := SeverityMap
  ]

  const DateKey := "EVENT.DATE"
  const TimeKey := "EVENT.TIME"
  const ApiKeyKey := "_API_KEY"

  /** The namespace of attributes the adapter does not know. */
  const Prefix := "zabbix/"

  const EventSource := "zabbix"

  /** The top-level fields `ATTR_MAP` can produce. */
  const TopFields: set<string> := {"application", "event_description", "value", "host"}

  /** The `attributes` fields `ATTR_MAP` can produce. */
  const MappedAttributes: set<string> := {"annotations/description", "state", "alert/condition"}

  /** Where a mapped field goes: `attributes` when its name has a slash or
      is listed in `BARE_ATTRS`, the top of the event otherwise. */
  predicate InAttributes(dst: string) {
    '/' in dst || dst in BareAttrs
  }

  /** When the incident happened: `datetime.now()` when no usable date was
      given, otherwise the given local date at the given time (midnight
      when none was usable). `int(time.mktime(...))` of it is the event's
      `timestamp`. */
  datatype Timestamp = Now | Local(date: Date, time: TimeOfDay)

  /** The REST event: the `attributes` object, the top-level string fields,
      the timestamp and `event_source`. */
  datatype Event = Event(attributes: Dict, top: Dict, timestamp: Timestamp, eventSource: string)

  /** What escapes `prepare_REST_event`: a `KeyError` naming the value
      `MORE_MAPS` has no entry for, the `OverflowError` of a date or time
      field too large for a C `int`, or the `ValueError` listing the
      missing macros. */
  datatype NormalizeError =
    | UnmappedValue(key: string, value: string)
    | IntOverflow
    | MissingAttributes(missing: set<string>)

  /** A macro the adapter does not know, which becomes a `zabbix/`
      attribute. */
  predicate CatchAll(k: string) {
    k !in AttrMap && k != DateKey && k != TimeKey && k != ApiKeyKey
  }

  /** The attribute an unknown macro becomes. */
  function CatchAllName(k: string): string {
    Prefix + ZabbixKeyToSignifaiKey(k)
  }

  /** The value a mapped macro contributes: translated through `MORE_MAPS`
      where it has a table, as given otherwise. */
  function Mapped(k: string, v: string): string {
    if k in MoreMaps && Upper(v) in MoreMaps[k] then MoreMaps[k][Upper(v)] else v
  }

  function DateOf(v: string): Option<Date> {
    match ParseDate(v)
    case Converted(d) => Some(d)
    case _ => None
  }

  function TimeOf(v: string): Option<TimeOfDay> {
    match ParseTime(v)
    case Converted(t) => Some(t)
    case _ => None
  }

  /** What the body of the loop does with one field. */
  datatype Action =
    | MapTo(dst: string, value: string)
    | SetDate(date: Date)
    | SetTime(time: TimeOfDay)
    | Ignore
    | Extra(name: string, value: string)
    | Raise(error: NormalizeError)

  datatype Effect = Effect(key: string, action: Action)

  /** The shape of the effect of field `k: v`: mapped macros write their
      destination (or raise), the date and time macros set only the date
      and the time, unknown macros and only they write their `zabbix/`
      name. */
  predicate Describes(e: Effect, k: string, v: string) {
    && e.key == k
    && (e.action.MapTo? ==> k in AttrMap && e.action.dst == AttrMap[k])
    && (k in AttrMap ==> e.action.MapTo? || e.action.Raise?)
    && (e.action.SetDate? ==> k == DateKey)
    && (e.action.SetTime? ==> k == TimeKey)
    && (e.action.Extra? <==> CatchAll(k))
    && (e.action.Extra? ==> e.action.name == CatchAllName(k) && e.action.value == v)
    && (e.action.Raise? ==> !e.action.error.MissingAttributes?)
  }

  /** The body of the loop for one field `k: v`. */
  function Classify(k: string, v: string): (e: Effect)
    ensures Describes(e, k, v)
  {
    Effect(k,
      if k in AttrMap then
        if k in MoreMaps && Upper(v) !in MoreMaps[k] then Raise(UnmappedValue(k, Upper(v)))
        else MapTo(AttrMap[k], if k in MoreMaps then MoreMaps[k][Upper(v)] else v)
      else if k == DateKey then
        match ParseDate(v)
        case Converted(d) => SetDate(d)
        case Rejected => Ignore
        case Overflow => Raise(IntOverflow)
      else if k == TimeKey then
        match ParseTime(v)
        case Converted(t) => SetTime(t)
        case Rejected => Ignore
        case Overflow => Raise(IntOverflow)
      else if k == ApiKeyKey then
        Ignore
      else
        Extra(CatchAllName(k), v))
  }

  /** The effects of the first `n` items, in order. */
  function Effects(items: seq<(string, string)>, n: nat): (es: seq<Effect>)
    requires n <= |items|
    ensures |es| == n
    ensures forall i :: 0 <= i < n ==> Describes(es[i], items[i].0, items[i].1)
  {
    if n == 0 then [] else Effects(items, n - 1) + [Classify(items[n - 1].0, items[n - 1].1)]
  }

  lemma {:induction false} EffectAt(items: seq<(string, string)>, n: nat, i: nat)
    requires i < n <= |items|
    ensures Effects(items, n)[i] == Classify(items[i].0, items[i].1)
  {
    if i < n - 1 {
      EffectAt(items, n - 1, i);
    }
  }

  /** The effects of all of `parsed_data.items()`. */
  function EffectsOf(d: Dict): (es: seq<Effect>)
    requires Valid(d)
    ensures |es| == |d.keys|
    ensures forall i :: 0 <= i < |d.keys| ==> Describes(es[i], d.keys[i], d.values[d.keys[i]])
  {
    Effects(Items(d), |d.keys|)
  }

  /** The effect of the `i`-th item is its classification. */
  lemma EffectOfAt(d: Dict, i: nat)
    requires Valid(d) && i < |d.keys|
    ensures EffectsOf(d)[i] == Classify(d.keys[i], d.values[d.keys[i]])
  {
    EffectAt(Items(d), |d.keys|, i);
  }

  /** The state the `for k, v in parsed_data.items()` loop carries. */
  datatype Acc = Acc(attributes: Dict, top: Dict, missing: set<string>, date: Option<Date>, time: Option<TimeOfDay>)

  const Start: Acc := Acc(Empty, Empty, AttrMap.Keys, None, None)

  /** Carrying out one effect: only a raising effect stops the loop; a
      mapped macro is no longer missing; a write lands in `attributes` for
      an extra or a name that belongs there and at the top otherwise, and
      every other field, the date and the time keep their values. */
  function Apply(acc: Acc, e: Effect): (r: Result<Acc, NormalizeError>)
    ensures r.Err? <==> e.action.Raise?
    ensures r.Err? ==> r.error == e.action.error
    ensures r.Ok? ==> r.value.missing == if e.action.MapTo? then acc.missing - {e.key} else acc.missing
    ensures r.Ok? ==> r.value.date == if e.action.SetDate? then Some(e.action.date) else acc.date
    ensures r.Ok? ==> r.value.time == if e.action.SetTime? then Some(e.action.time) else acc.time
    ensures r.Ok? ==> forall name ::
              Get(r.value.attributes, name)
              == if Writes(e.action, name) && (e.action.Extra? || InAttributes(name)) then Some(e.action.value)
                 else Get(acc.attributes, name)
    ensures r.Ok? ==> forall name ::
              Get(r.value.top, name)
              == if Writes(e.action, name) && e.action.MapTo? && !InAttributes(name) then Some(e.action.value)
                 else Get(acc.top, name)
  {
    match e.action
    case MapTo(dst, w) =>
      var missing := acc.missing - {e.key};
      if InAttributes(dst) then Ok(acc.(attributes := Put(acc.attributes, dst, w), missing := missing))
      else Ok(acc.(top := Put(acc.top, dst, w), missing := missing))
    case SetDate(d) => Ok(acc.(date := Some(d)))
    case SetTime(t) => Ok(acc.(time := Some(t)))
    case Ignore => Ok(acc)
    case Extra(name, w) => Ok(acc.(attributes := Put(acc.attributes, name, w)))
    case Raise(err) => Err(err)
  }

  /** The loop over the first `n` effects. */
  function Run(es: seq<Effect>, n: nat): Result<Acc, NormalizeError>
    requires n <= |es|
  {
    if n == 0 then Ok(Start)
    else match Run(es, n - 1)
      case Err(err) => Err(err)
      case Ok(acc) => Apply(acc, es[n - 1])
  }

  /** What follows the loop: the timestamp, the missing-macro check and
      `event_source`. */
  function Finish(acc: Acc): (r: Result<Event, NormalizeError>)
    ensures r.Err? <==> acc.missing != {}
    ensures r.Err? ==> r.error == MissingAttributes(acc.missing)
    ensures r.Ok? ==> r.value.attributes == acc.attributes && r.value.top == acc.top
    ensures r.Ok? ==> r.value.eventSource == "zabbix"
    ensures r.Ok? ==> (r.value.timestamp.Now? <==> acc.date.None?)
  {
    var timestamp := match acc.date
      case None => Now
      case Some(d) => Local(d, match acc.time case None => Midnight case Some(t) => t);
    if acc.missing != {} then Err(MissingAttributes(acc.missing))
    else Ok(Event(acc.attributes, acc.top, timestamp, EventSource))
  }

  /** `prepare_REST_event(parsed_data)`. */
  function PrepareRestEvent(d: Dict): (r: Result<Event, NormalizeError>)
    requires Valid(d)
    ensures r.Ok? <==> !AnyError(d) && AttrMap.Keys <= d.values.Keys
    ensures r.Ok? ==> r.value.eventSource == "zabbix"
  {
    RunErrorOf(d);
    RunState(EffectsOf(d), |d.keys|);
    DifferenceEmpty(AttrMap.Keys, d.values.Keys);
    match Run(EffectsOf(d), |d.keys|)
    case Err(e) => Err(e)
    case Ok(acc) =>
      MappedKeysOf(d);
      Finish(acc)
  }

  /** The mapped macros among the first `n` effects. */
  function MappedKeys(es: seq<Effect>, n: nat): (ks: set<string>)
    requires n <= |es|
    ensures forall k :: k in ks <==> exists i :: 0 <= i < n && es[i].action.MapTo? && es[i].key == k
  {
    if n == 0 then {}
    else
      var ks := MappedKeys(es, n - 1) + (if es[n - 1].action.MapTo? then {es[n - 1].key} else {});
      assert forall k :: k in ks ==> exists i :: 0 <= i < n && es[i].action.MapTo? && es[i].key == k;
      ks
  }

  /** Whether an action writes the field `name`. */
  predicate Writes(a: Action, name: string) {
    (a.MapTo? && a.dst == name) || (a.Extra? && a.name == name)
  }

  /** The value written last to `name` by the first `n` effects. */
  function LastWrite(es: seq<Effect>, n: nat, name: string): Option<string>
    requires n <= |es|
  {
    if n == 0 then None
    else if Writes(es[n - 1].action, name) then Some(es[n - 1].action.value)
    else LastWrite(es, n - 1, name)
  }

  /** The date set last by the first `n` effects. */
  function LastDate(es: seq<Effect>, n: nat): Option<Date>
    requires n <= |es|
  {
    if n == 0 then None
    else if es[n - 1].action.SetDate? then Some(es[n - 1].action.date)
    else LastDate(es, n - 1)
  }

  /** The time set last by the first `n` effects. */
  function LastTime(es: seq<Effect>, n: nat): Option<TimeOfDay>
    requires n <= |es|
  {
    if n == 0 then None
    else if es[n - 1].action.SetTime? then Some(es[n - 1].action.time)
    else LastTime(es, n - 1)
  }

  /** Effect `i` is the first of the first `n` to raise. */
  predicate FirstRaise(es: seq<Effect>, n: nat, i: int)
    requires n <= |es|
  {
    0 <= i < n && es[i].action.Raise? && forall j :: 0 <= j < i ==> !es[j].action.Raise?
  }

  /** The loop stops at the first effect that raises, with its exception,
      and runs to the end exactly when none does. */
  lemma {:induction false} RunError(es: seq<Effect>, n: nat)
    requires n <= |es|
    ensures Run(es, n).Err? <==> exists i :: 0 <= i < n && es[i].action.Raise?
    ensures Run(es, n).Err? ==> exists i :: FirstRaise(es, n, i) && es[i].action.error == Run(es, n).error
  {
    if n > 0 {
      RunError(es, n - 1);
      if Run(es, n - 1).Err? {
        var i :| FirstRaise(es, n - 1, i) && es[i].action.error == Run(es, n - 1).error;
        assert FirstRaise(es, n, i);
        assert Run(es, n) == Run(es, n - 1);
      } else if es[n - 1].action.Raise? {
        assert FirstRaise(es, n, n - 1);
      } else {
        assert Run(es, n).Ok?;
        assert forall i :: 0 <= i < n - 1 ==> !es[i].action.Raise?;
      }
    }
  }

  /** What the loop has gathered after `n` effects: the mapped macros no
      longer missing, and the last date and time set. */
  lemma {:induction false} RunState(es: seq<Effect>, n: nat)
    requires n <= |es|
    ensures Run(es, n).Ok? ==>
              && Run(es, n).value.missing == AttrMap.Keys - MappedKeys(es, n)
              && Run(es, n).value.date == LastDate(es, n)
              && Run(es, n).value.time == LastTime(es, n)
  {
    RunMissing(es, n);
    RunDate(es, n);
    RunTime(es, n);
  }

  lemma {:induction false} RunMissing(es: seq<Effect>, n: nat)
    requires n <= |es|
    ensures Run(es, n).Ok? ==> Run(es, n).value.missing == Start.missing - MappedKeys(es, n)
  {
    if n > 0 && Run(es, n).Ok? {
      RunMissing(es, n - 1);
      var acc := Run(es, n - 1).value;
      assert Run(es, n) == Apply(acc, es[n - 1]);
      assert MappedKeys(es, n) == MappedKeys(es, n - 1) + (if es[n - 1].action.MapTo? then {es[n - 1].key} else {});
    }
  }

  lemma {:induction false} RunDate(es: seq<Effect>, n: nat)
    requires n <= |es|
    ensures Run(es, n).Ok? ==> Run(es, n).value.date == LastDate(es, n)
  {
    if n > 0 && Run(es, n).Ok? {
      RunDate(es, n - 1);
      assert Run(es, n) == Apply(Run(es, n - 1).value, es[n - 1]);
    }
  }

  lemma {:induction false} RunTime(es: seq<Effect>, n: nat)
    requires n <= |es|
    ensures Run(es, n).Ok? ==> Run(es, n).value.time == LastTime(es, n)
  {
    if n > 0 && Run(es, n).Ok? {
      RunTime(es, n - 1);
      assert Run(es, n) == Apply(Run(es, n - 1).value, es[n - 1]);
    }
  }

  /** The two objects the loop fills stay proper dicts. */
  lemma {:induction false} RunValid(es: seq<Effect>, n: nat)
    requires n <= |es|
    ensures Run(es, n).Ok? ==> Valid(Run(es, n).value.attributes) && Valid(Run(es, n).value.top)
  {
    if n > 0 && Run(es, n).Ok? {
      RunValid(es, n - 1);
      var acc := Run(es, n - 1).value;
      match es[n - 1].action
      case MapTo(dst, w) =>
        PutValid(acc.attributes, dst, w);
        PutValid(acc.top, dst, w);
      case Extra(name, w) =>
        PutValid(acc.attributes, name, w);
      case _ =>
    }
  }

  /** Every `zabbix/` name an effect writes belongs under `attributes`. */
  predicate ExtrasInAttributes(es: seq<Effect>) {
    forall i :: 0 <= i < |es| ==> es[i].action.Extra? ==> InAttributes(es[i].action.name)
  }

  /** After `n` effects every field holds the value written to it last, in
      `attributes` or at the top according to its name, and the other
      object does not have it. */
  lemma {:induction false} RunWrites(es: seq<Effect>, n: nat, name: string)
    requires n <= |es| && ExtrasInAttributes(es)
    ensures Run(es, n).Ok? ==>
              && Get(Run(es, n).value.attributes, name) == (if InAttributes(name) then LastWrite(es, n, name) else None)
              && Get(Run(es, n).value.top, name) == (if InAttributes(name) then None else LastWrite(es, n, name))
  {
    if n > 0 && Run(es, n).Ok? {
      RunWrites(es, n - 1, name);
    }
  }

  /** When a single effect writes `name`, its value is the one left. */
  lemma {:induction false} LastWriteOnly(es: seq<Effect>, n: nat, name: string, i: nat)
    requires i < n <= |es| && Writes(es[i].action, name)
    requires forall j :: 0 <= j < n && j != i ==> !Writes(es[j].action, name)
    ensures LastWrite(es, n, name) == Some(es[i].action.value)
  {
    if i < n - 1 {
      LastWriteOnly(es, n - 1, name, i);
    }
  }

  /** When no effect writes `name`, nothing is left there. */
  lemma {:induction false} LastWriteNone(es: seq<Effect>, n: nat, name: string)
    requires n <= |es|
    requires forall j :: 0 <= j < n ==> !Writes(es[j].action, name)
    ensures LastWrite(es, n, name) == None
  {
    if n > 0 {
      LastWriteNone(es, n - 1, name);
    }
  }

  /** Something is left at `name` exactly when one of the effects wrote
      it. */
  lemma {:induction false} LastWriteFrom(es: seq<Effect>, n: nat, name: string)
    requires n <= |es|
    ensures LastWrite(es, n, name).Some? <==> exists i :: 0 <= i < n && Writes(es[i].action, name)
  {
    if n > 0 {
      LastWriteFrom(es, n - 1, name);
    }
  }

  /** When at most effect `i` sets the date, the date left is its. */
  lemma {:induction false} LastDateOnly(es: seq<Effect>, n: nat, i: nat)
    requires i < n <= |es|
    requires forall j :: 0 <= j < n && j != i ==> !es[j].action.SetDate?
    ensures LastDate(es, n) == if es[i].action.SetDate? then Some(es[i].action.date) else None
  {
    if i < n - 1 {
      LastDateOnly(es, n - 1, i);
    } else {
      LastDateNone(es, n - 1);
    }
  }

  lemma {:induction false} LastDateNone(es: seq<Effect>, n: nat)
    requires n <= |es|
    requires forall j :: 0 <= j < n ==> !es[j].action.SetDate?
    ensures LastDate(es, n) == None
  {
    if n > 0 {
      LastDateNone(es, n - 1);
    }
  }

  lemma {:induction false} LastTimeOnly(es: seq<Effect>, n: nat, i: nat)
    requires i < n <= |es|
    requires forall j :: 0 <= j < n && j != i ==> !es[j].action.SetTime?
    ensures LastTime(es, n) == if es[i].action.SetTime? then Some(es[i].action.time) else None
  {
    if i < n - 1 {
      LastTimeOnly(es, n - 1, i);
    } else {
      LastTimeNone(es, n - 1);
    }
  }

  lemma {:induction false} LastTimeNone(es: seq<Effect>, n: nat)
    requires n <= |es|
    requires forall j :: 0 <= j < n ==> !es[j].action.SetTime?
    ensures LastTime(es, n) == None
  {
    if n > 0 {
      LastTimeNone(es, n - 1);
    }
  }

  /** No destination lies in the `zabbix/` namespace. */
  lemma DestinationsOutsidePrefix()
    ensures forall k :: k in AttrMap ==> |AttrMap[k]| > 0 && AttrMap[k][0] != 'z'
  {
  }

  /** The destinations split between the top level and `attributes` as
      the two lists say. */
  lemma DestinationsPlaced()
    ensures forall k :: k in AttrMap ==> AttrMap[k] in TopFields + MappedAttributes
    ensures forall k :: k in AttrMap ==> (InAttributes(AttrMap[k]) <==> AttrMap[k] in MappedAttributes)
  {
  }

  /** No two mapped macros share a destination. */
  lemma AttrMapInjective()
    ensures forall k1, k2 :: k1 in AttrMap && k2 in AttrMap && AttrMap[k1] == AttrMap[k2] ==> k1 == k2
  {
  }

  lemma PrefixInjective(a: string, b: string)
    requires Prefix + a == Prefix + b
    ensures a == b
  {
    assert a == (Prefix + a)[|Prefix|..];
    assert b == (Prefix + b)[|Prefix|..];
  }

  /** The exception one field raises on its own, if any: a `KeyError` for
      a status or severity `MORE_MAPS` cannot translate, an
      `OverflowError` for a date or time with a field too large for a C
      `int`. */
  function ItemError(k: string, v: string): Option<NormalizeError> {
    if k in AttrMap then
      if k in MoreMaps && Upper(v) !in MoreMaps[k] then Some(UnmappedValue(k, Upper(v))) else None
    else if k == DateKey then
      if ParseDate(v).Overflow? then Some(IntOverflow) else None
    else if k == TimeKey then
      if ParseTime(v).Overflow? then Some(IntOverflow) else None
    else None
  }

  /** A field's effect raises exactly the exception `ItemError` names. */
  lemma ClassifyError(k: string, v: string)
    ensures Classify(k, v).action.Raise? <==> ItemError(k, v).Some?
    ensures Classify(k, v).action.Raise? ==> Classify(k, v).action.error == ItemError(k, v).value
  {
    if k !in AttrMap && k == DateKey {
      assert Classify(k, v).action.Raise? <==> ParseDate(v).Overflow?;
    } else if k !in AttrMap && k == TimeKey {
      assert Classify(k, v).action.Raise? <==> ParseTime(v).Overflow?;
    }
  }

  /** A mapped macro that raises nothing writes its destination with its
      (translated) value. */
  lemma ClassifyMapped(k: string, v: string)
    requires k in AttrMap && ItemError(k, v).None?
    ensures Classify(k, v).action == MapTo(AttrMap[k], Mapped(k, v))
  {
  }

  /** `EVENT.DATE` sets the date exactly when its value converts. */
  lemma ClassifyDate(v: string)
    ensures Classify(DateKey, v).action.SetDate? <==> DateOf(v).Some?
    ensures DateOf(v).Some? ==> Classify(DateKey, v).action.date == DateOf(v).value
  {
    assert DateKey !in AttrMap;
  }

  /** `EVENT.TIME` sets the time exactly when its value converts. */
  lemma ClassifyTime(v: string)
    ensures Classify(TimeKey, v).action.SetTime? <==> TimeOf(v).Some?
    ensures TimeOf(v).Some? ==> Classify(TimeKey, v).action.time == TimeOf(v).value
  {
    assert TimeKey !in AttrMap;
  }

  /** The `zabbix/` names are all `attributes` names. */
  lemma ExtrasOfInAttributes(d: Dict)
    requires Valid(d)
    ensures ExtrasInAttributes(EffectsOf(d))
  {
    forall k ensures InAttributes(CatchAllName(k)) {
      assert CatchAllName(k)[6] == '/';
    }
  }

  lemma DifferenceEmpty(a: set<string>, b: set<string>)
    ensures a - b == {} <==> a <= b
  {
    if a - b == {} {
      forall x | x in a ensures x in b {
        assert x !in a - b;
      }
    }
  }

  /** Some field raises. */
  predicate AnyError(d: Dict) {
    exists k :: k in d.values && ItemError(k, d.values[k]).Some?
  }

  /** The loop stops early exactly when some field raises. */
  lemma RunErrorOf(d: Dict)
    requires Valid(d)
    ensures Run(EffectsOf(d), |d.keys|).Err? <==> AnyError(d)
  {
    var es, n := EffectsOf(d), |d.keys|;
    RunError(es, n);
    if Run(es, n).Err? {
      var i :| 0 <= i < n && es[i].action.Raise?;
      EffectOfAt(d, i);
      ClassifyError(d.keys[i], d.values[d.keys[i]]);
    }
    if AnyError(d) {
      var k :| k in d.values && ItemError(k, d.values[k]).Some?;
      var i := IndexOf(d.keys, k);
      EffectOfAt(d, i);
      ClassifyError(k, d.values[k]);
    }
  }

  /** When nothing raises, the mapped macros the loop saw are exactly the
      mapped macros present. */
  lemma MappedKeysOf(d: Dict)
    requires Valid(d) && !AnyError(d)
    ensures AttrMap.Keys - MappedKeys(EffectsOf(d), |d.keys|) == AttrMap.Keys - d.values.Keys
  {
    var es, n := EffectsOf(d), |d.keys|;
    forall k | k in AttrMap && k in d.values
      ensures k in MappedKeys(es, n)
    {
      var i := IndexOf(d.keys, k);
      EffectOfAt(d, i);
      ClassifyError(k, d.values[k]);
    }
  }

    /** The fields whose effects do not raise raise nothing. */
  lemma NoErrorBefore(d: Dict, i: nat)
    requires Valid(d) && i <= |d.keys|
    requires forall j :: 0 <= j < i ==> !EffectsOf(d)[j].action.Raise?
    ensures forall j :: 0 <= j < i ==> ItemError(d.keys[j], d.values[d.keys[j]]).None?
  {
    forall j | 0 <= j < i
      ensures ItemError(d.keys[j], d.values[d.keys[j]]).None?
    {
      EffectOfAt(d, j);
      ClassifyError(d.keys[j], d.values[d.keys[j]]);
    }
  }

  /** When it raises while reading the fields, the exception is that of
      the first field, in `items()` order, that raises. */
  lemma PrepareFirstError(d: Dict)
    requires Valid(d)
    ensures PrepareRestEvent(d).Err? && !PrepareRestEvent(d).error.MissingAttributes? ==>
              exists i :: && 0 <= i < |d.keys|
                          && ItemError(d.keys[i], d.values[d.keys[i]]) == Some(PrepareRestEvent(d).error)
                          && forall j :: 0 <= j < i ==> ItemError(d.keys[j], d.values[d.keys[j]]).None?
  {
    var es, n := EffectsOf(d), |d.keys|;
    RunError(es, n);
    if Run(es, n).Err? {
      var i :| FirstRaise(es, n, i) && es[i].action.error == Run(es, n).error;
      assert PrepareRestEvent(d) == Err(es[i].action.error);
      EffectOfAt(d, i);
      ClassifyError(d.keys[i], d.values[d.keys[i]]);
      NoErrorBefore(d, i);
      assert ItemError(d.keys[i], d.values[d.keys[i]]) == Some(PrepareRestEvent(d).error);
    }
  }

  /** When no field raises, the only possible failure is the `ValueError`
      listing exactly the absent mapped macros. */
  lemma PrepareMissing(d: Dict)
    requires Valid(d) && !AnyError(d)
    ensures PrepareRestEvent(d).Err? <==> !(AttrMap.Keys <= d.values.Keys)
    ensures PrepareRestEvent(d).Err? ==> PrepareRestEvent(d).error == MissingAttributes(AttrMap.Keys - d.values.Keys)
  {
    var r := Run(EffectsOf(d), |d.keys|);
    RunErrorOf(d);
    RunState(EffectsOf(d), |d.keys|);
    MappedKeysOf(d);
    assert r.value.missing == AttrMap.Keys - d.values.Keys;
    assert PrepareRestEvent(d) == Finish(r.value);
    DifferenceEmpty(AttrMap.Keys, d.values.Keys);
  }

  /** The missing-macro `ValueError` is raised only when no field raised
      first. */
  lemma MissingOnlyWithoutError(d: Dict)
    requires Valid(d)
    ensures PrepareRestEvent(d).Err? && PrepareRestEvent(d).error.MissingAttributes? ==> !AnyError(d)
  {
    var es, n := EffectsOf(d), |d.keys|;
    if AnyError(d) {
      RunErrorOf(d);
      RunError(es, n);
      var i :| FirstRaise(es, n, i) && es[i].action.error == Run(es, n).error;
      assert PrepareRestEvent(d) == Err(es[i].action.error);
    }
  }


  /** Only the mapped macro `k` writes its destination. */
  lemma OnlyWriter(d: Dict, k: string, i: nat)
    requires Valid(d) && k in AttrMap && i < |d.keys| && d.keys[i] == k
    ensures forall j :: 0 <= j < |d.keys| && j != i ==> !Writes(EffectsOf(d)[j].action, AttrMap[k])
  {
    var es := EffectsOf(d);
    AttrMapInjective();
    DestinationsOutsidePrefix();
    forall j | 0 <= j < |d.keys| && j != i
      ensures !Writes(es[j].action, AttrMap[k])
    {
      if es[j].action.Extra? {
        assert es[j].action.name[0] == 'z';
      }
    }
  }

  /** In the event, each `ATTR_MAP` destination holds the (translated)
      value of its macro, at the top level or under `attributes` as the
      destination's name decides. */
  lemma PrepareMapped(d: Dict, k: string)
    requires Valid(d) && k in AttrMap
    ensures PrepareRestEvent(d).Ok? ==> k in d.values
    ensures PrepareRestEvent(d).Ok? && k in d.values ==>
              Get(if InAttributes(AttrMap[k]) then PrepareRestEvent(d).value.attributes else PrepareRestEvent(d).value.top,
                  AttrMap[k])
                == Some(Mapped(k, d.values[k]))
  {
    var es, n := EffectsOf(d), |d.keys|;
    if PrepareRestEvent(d).Ok? {
      var i := IndexOf(d.keys, k);
      EffectOfAt(d, i);
      assert ItemError(k, d.values[k]).None?;
      ClassifyMapped(k, d.values[k]);
      OnlyWriter(d, k, i);
      LastWriteOnly(es, n, AttrMap[k], i);
      ExtrasOfInAttributes(d);
      RunWrites(es, n, AttrMap[k]);
    }
  }

  /** The macro a top-level field comes from. */
  lemma TopFieldSource(f: string) returns (k: string)
    requires f in TopFields
    ensures k in AttrMap && AttrMap[k] == f && !InAttributes(f)
  {
    if f == "application" {
      k := "TRIGGER.ID";
    } else if f == "event_description" {
      k := "TRIGGER.NAME";
    } else if f == "value" {
      k := "TRIGGER.NSEVERITY";
    } else {
      k := "HOST.NAME";
    }
  }

  /** Each of the four top-level `ATTR_MAP` fields is in the event. */
  lemma PrepareTopFieldsPresent(d: Dict)
    requires Valid(d)
    ensures PrepareRestEvent(d).Ok? ==> forall f :: f in TopFields ==> f in PrepareRestEvent(d).value.top.values
  {
    if PrepareRestEvent(d).Ok? {
      var e := PrepareRestEvent(d).value;
      forall f | f in TopFields ensures f in e.top.values {
        var k := TopFieldSource(f);
        PrepareMapped(d, k);
      }
    }
  }

  /** Nothing but the four top-level `ATTR_MAP` fields reaches the top of
      the event. */
  lemma PrepareTopFieldsOnly(d: Dict)
    requires Valid(d)
    ensures PrepareRestEvent(d).Ok? ==> forall f :: f in PrepareRestEvent(d).value.top.values ==> f in TopFields
  {
    if PrepareRestEvent(d).Ok? {
      var e := PrepareRestEvent(d).value;
      var es, n := EffectsOf(d), |d.keys|;
      DestinationsPlaced();
      ExtrasOfInAttributes(d);
      forall f | f in e.top.values ensures f in TopFields {
        RunWrites(es, n, f);
        LastWriteFrom(es, n, f);
        var i :| 0 <= i < n && Writes(es[i].action, f);
      }
    }
  }

  /** Nothing reaches `attributes` but the three mapped names and
      `zabbix/` names: in particular `EVENT.DATE`, `EVENT.TIME` and
      `_API_KEY` never do. */
  lemma PrepareAttributesOnly(d: Dict)
    requires Valid(d)
    ensures PrepareRestEvent(d).Ok? ==>
              forall f :: f in PrepareRestEvent(d).value.attributes.values ==>
                f in MappedAttributes || (|f| >= |Prefix| && f[..|Prefix|] == Prefix)
  {
    if PrepareRestEvent(d).Ok? {
      var e := PrepareRestEvent(d).value;
      var es, n := EffectsOf(d), |d.keys|;
      DestinationsPlaced();
      ExtrasOfInAttributes(d);
      forall f | f in e.attributes.values
        ensures f in MappedAttributes || (|f| >= |Prefix| && f[..|Prefix|] == Prefix)
      {
        RunWrites(es, n, f);
        LastWriteFrom(es, n, f);
        var i :| 0 <= i < n && Writes(es[i].action, f);
        if es[i].action.Extra? {
          assert f == Prefix + ZabbixKeyToSignifaiKey(d.keys[i]);
        }
      }
    }
  }

  /** The macros that become `zabbix/t`. */
  function RewritesTo(t: string): string -> bool {
    k => CatchAll(k) && ZabbixKeyToSignifaiKey(k) == t
  }

  /** The index of the last of the first `n` keys that satisfies `p`. */
  function LastMatch(keys: seq<string>, n: nat, p: string -> bool): (r: Option<nat>)
    requires n <= |keys|
    ensures r.Some? ==> r.value < n && p(keys[r.value]) && forall j :: r.value < j < n ==> !p(keys[j])
    ensures r.None? ==> forall j :: 0 <= j < n ==> !p(keys[j])
  {
    if n == 0 then None
    else if p(keys[n - 1]) then Some(n - 1)
    else LastMatch(keys, n - 1, p)
  }

  /** The last catch-all key among the first `n` that rewrites to `t`. */
  function LastRewrite(keys: seq<string>, n: nat, t: string): (r: Option<string>)
    requires n <= |keys|
    ensures r.Some? ==> r.value in keys[..n] && CatchAll(r.value) && ZabbixKeyToSignifaiKey(r.value) == t
    ensures r.None? ==> forall i :: 0 <= i < n ==> !(CatchAll(keys[i]) && ZabbixKeyToSignifaiKey(keys[i]) == t)
  {
    match LastMatch(keys, n, RewritesTo(t))
    case None =>
      assert forall i :: 0 <= i < n ==> !RewritesTo(t)(keys[i]);
      None
    case Some(i) =>
      assert RewritesTo(t)(keys[i]);
      assert keys[i] == keys[..n][i];
      Some(keys[i])
  }

  /** The effect of the `i`-th field writes `zabbix/t` exactly when that
      field is a catch-all macro rewriting to `t`. */
  lemma WritesExtra(d: Dict, i: nat, t: string)
    requires Valid(d) && i < |d.keys|
    ensures Writes(EffectsOf(d)[i].action, Prefix + t) <==>
              CatchAll(d.keys[i]) && ZabbixKeyToSignifaiKey(d.keys[i]) == t
  {
    var a := EffectsOf(d)[i].action;
    DestinationsOutsidePrefix();
    if a.MapTo? {
      assert (Prefix + t)[0] == 'z';
    } else if a.Extra? && a.name == Prefix + t {
      PrefixInjective(ZabbixKeyToSignifaiKey(d.keys[i]), t);
    }
  }

  /** When the effects writing `name` are exactly those of the keys
      satisfying `p`, and each writes its key's value, the value left at
      `name` is that of the last such key. */
  lemma {:induction false} LastWriteMatch(es: seq<Effect>, keys: seq<string>, values: map<string, string>,
                                          m: nat, name: string, p: string -> bool)
    requires m <= |es| == |keys|
    requires forall i :: 0 <= i < |es| ==> (Writes(es[i].action, name) <==> p(keys[i]))
    requires forall i :: 0 <= i < |es| && p(keys[i]) ==> keys[i] in values && es[i].action.Extra? && es[i].action.value == values[keys[i]]
    ensures LastWrite(es, m, name) ==
              if LastMatch(keys, m, p).Some? then Some(values[keys[LastMatch(keys, m, p).value]]) else None
  {
    if m > 0 {
      LastWriteMatch(es, keys, values, m - 1, name, p);
    }
  }

  /** What is left at `zabbix/t` after `m` fields is the value of the last
      catch-all macro among them rewriting to `t`. */
  lemma ExtraWrites(d: Dict, m: nat, t: string)
    requires Valid(d) && m <= |d.keys|
    ensures LastWrite(EffectsOf(d), m, Prefix + t) ==
              if LastRewrite(d.keys, m, t).Some? then Get(d, LastRewrite(d.keys, m, t).value) else None
  {
    var es := EffectsOf(d);
    var p := RewritesTo(t);
    forall i | 0 <= i < |es| ensures Writes(es[i].action, Prefix + t) <==> p(d.keys[i]) {
      WritesExtra(d, i, t);
    }
    forall i | 0 <= i < |es| && p(d.keys[i])
      ensures d.keys[i] in d.values && es[i].action.Extra? && es[i].action.value == d.values[d.keys[i]]
    {
      ExtraEffect(d, i);
    }
    LastWriteMatch(es, d.keys, d.values, m, Prefix + t, p);
  }

  /** The effect of a catch-all field writes its `zabbix/` name with the
      field's own value. */
  lemma ExtraEffect(d: Dict, i: nat)
    requires Valid(d) && i < |d.keys| && CatchAll(d.keys[i])
    ensures EffectsOf(d)[i].action == Extra(CatchAllName(d.keys[i]), d.values[d.keys[i]])
  {
    var e := EffectsOf(d)[i];
    assert Describes(e, d.keys[i], d.values[d.keys[i]]);
  }

  /** Every catch-all macro `K` lands under `attributes` as
      `zabbix/<K rewritten>`; when several rewrite to the same name, the
      one that comes last in `items()` order wins. */
  lemma PrepareExtras(d: Dict, t: string)
    requires Valid(d)
    ensures PrepareRestEvent(d).Ok? ==>
              Get(PrepareRestEvent(d).value.attributes, Prefix + t)
                == if LastRewrite(d.keys, |d.keys|, t).Some? then Get(d, LastRewrite(d.keys, |d.keys|, t).value) else None
  {
    if PrepareRestEvent(d).Ok? {
      ExtrasOfInAttributes(d);
      RunWrites(EffectsOf(d), |d.keys|, Prefix + t);
      ExtraWrites(d, |d.keys|, t);
      assert InAttributes(Prefix + t) by {
        assert (Prefix + t)[6] == '/';
      }
    }
  }

  /** A catch-all macro whose rewritten name no other macro shares keeps
      its value under that name. */
  lemma PrepareExtra(d: Dict, k: string)
    requires Valid(d) && k in d.values && CatchAll(k)
    requires forall k' :: k' in d.values && CatchAll(k') && ZabbixKeyToSignifaiKey(k') == ZabbixKeyToSignifaiKey(k) ==> k' == k
    ensures PrepareRestEvent(d).Ok? ==> Get(PrepareRestEvent(d).value.attributes, CatchAllName(k)) == Some(d.values[k])
  {
    PrepareExtras(d, ZabbixKeyToSignifaiKey(k));
    OnlyRewrite(d, k);
  }

  /** A catch-all macro whose rewritten name no other macro shares is the
      last, and only, one to rewrite to it. */
  lemma OnlyRewrite(d: Dict, k: string)
    requires Valid(d) && k in d.values && CatchAll(k)
    requires forall k' :: k' in d.values && CatchAll(k') && ZabbixKeyToSignifaiKey(k') == ZabbixKeyToSignifaiKey(k) ==> k' == k
    ensures LastRewrite(d.keys, |d.keys|, ZabbixKeyToSignifaiKey(k)) == Some(k)
  {
    var n := |d.keys|;
    var i := IndexOf(d.keys, k);
    assert d.keys[..n] == d.keys;
    assert LastRewrite(d.keys, n, ZabbixKeyToSignifaiKey(k)).Some?;
  }

  /** The date the fields give, if any: `EVENT.DATE` when present and
      convertible. */
  function GivenDate(d: Dict): Option<Date> {
    if DateKey in d.values then DateOf(d.values[DateKey]) else None
  }

  /** The time the fields give, if any: `EVENT.TIME` when present and
      convertible. */
  function GivenTime(d: Dict): Option<TimeOfDay> {
    if TimeKey in d.values then TimeOf(d.values[TimeKey]) else None
  }

  /** The loop's date is the given date. */
  lemma LoopDate(d: Dict)
    requires Valid(d)
    ensures LastDate(EffectsOf(d), |d.keys|) == GivenDate(d)
  {
    var es, n := EffectsOf(d), |d.keys|;
    if DateKey in d.values {
      var i := IndexOf(d.keys, DateKey);
      forall j | 0 <= j < n && j != i ensures !es[j].action.SetDate? {
        assert d.keys[j] != d.keys[i];
      }
      LastDateOnly(es, n, i);
      EffectOfAt(d, i);
      ClassifyDate(d.values[DateKey]);
    } else {
      LastDateNone(es, n);
    }
  }

  /** The loop's time is the given time. */
  lemma LoopTime(d: Dict)
    requires Valid(d)
    ensures LastTime(EffectsOf(d), |d.keys|) == GivenTime(d)
  {
    var es, n := EffectsOf(d), |d.keys|;
    if TimeKey in d.values {
      var i := IndexOf(d.keys, TimeKey);
      forall j | 0 <= j < n && j != i ensures !es[j].action.SetTime? {
        assert d.keys[j] != d.keys[i];
      }
      LastTimeOnly(es, n, i);
      EffectOfAt(d, i);
      ClassifyTime(d.values[TimeKey]);
    } else {
      LastTimeNone(es, n);
    }
  }

  /** The event's moment: now when no usable date was given, otherwise the
      given date at the given time, or at midnight when no usable time
      was given. A date or time that does not convert is ignored. */
  lemma PrepareTimestamp(d: Dict)
    requires Valid(d)
    ensures PrepareRestEvent(d).Ok? ==>
              PrepareRestEvent(d).value.timestamp ==
                match GivenDate(d)
                case None => Now
                case Some(x) => Local(x, match GivenTime(d) case None => Midnight case Some(t) => t)
  {
    RunState(EffectsOf(d), |d.keys|);
    LoopDate(d);
    LoopTime(d);
  }

  /** Taking away elements that are not there changes nothing. */
  lemma DifferenceDisjoint(a: set<string>, b: set<string>)
    requires forall x :: x in b ==> x !in a
    ensures a - b == a
  {
  }

  /** A lone `EVENT.TIME` field (as in `test_basic_failure`) makes the
      missing-macro `ValueError` list every `ATTR_MAP` macro. */
  lemma OnlyTimeIsMissingAll(v: string)
    requires !ParseTime(v).Overflow?
    ensures PrepareRestEvent(Dict([TimeKey], map[TimeKey := v])) == Err(MissingAttributes(AttrMap.Keys))
  {
    var d := Dict([TimeKey], map[TimeKey := v]);
    assert Valid(d);
    assert TimeKey !in AttrMap;
    assert !AnyError(d) by {
      forall k | k in d.values ensures ItemError(k, d.values[k]).None? {
        assert k == TimeKey;
      }
    }
    assert "TRIGGER.ID" in AttrMap && "TRIGGER.ID" !in d.values;
    PrepareMissing(d);
    DifferenceDisjoint(AttrMap.Keys, d.values.Keys);
  }
  /** The test's dict `{"EVENT.TIME": "03:23:00"}` fails with every
      `ATTR_MAP` macro missing. */
  lemma BasicFailureExample(v: string)
    requires v == "03:23:00"
    ensures PrepareRestEvent(Dict([TimeKey], map[TimeKey := v])) == Err(MissingAttributes(AttrMap.Keys))
  {
    TwoDigitTime(v, TimeOfDay(3, 23, 0));
    OnlyTimeIsMissingAll(v);
  }


  /** A status or severity `MORE_MAPS` has no entry for makes the call
      raise something other than the missing-macro error: its own
      `KeyError`, or an earlier field's exception. */
  lemma UnmappedValueRaises(d: Dict, k: string)
    requires Valid(d) && k in MoreMaps && k in d.values && Upper(d.values[k]) !in MoreMaps[k]
    ensures PrepareRestEvent(d).Err? && !PrepareRestEvent(d).error.MissingAttributes?
  {
    assert k in AttrMap;
    assert ItemError(k, d.values[k]).Some?;
    MissingOnlyWithoutError(d);
  }

  /** The two values the tests use to provoke that `KeyError`: status
      `Unknown` and severity `-1`. */
  lemma TestValuesUnmapped(status: string, severity: string)
    requires status == "Unknown" && severity == "-1"
    ensures Upper(status) !in StatusMap && Upper(severity) !in SeverityMap
  {
    var u := Upper(status);
    assert |u| == 7 && u[0] == 'U';
    assert forall key :: key in StatusMap ==> key == "PROBLEM" || key == "OK";
    assert |Upper(severity)| == 2;
    assert forall key :: key in SeverityMap ==> |key| == 1;
  }

  /** A date written with dashes (`2018-01-14`, as the tests' sample
      event has it) is not split on dots and is ignored: the event is
      stamped with the current time. */
  lemma DashedDateIsNow(d: Dict)
    requires Valid(d) && DateKey in d.values && '.' !in d.values[DateKey]
    ensures PrepareRestEvent(d).Ok? ==> PrepareRestEvent(d).value.timestamp == Now
  {
    UndottedDateRejected(d.values[DateKey]);
    PrepareTimestamp(d);
  }

  /** `AWESOME.ATTR` lands under `attributes` as `zabbix/awesome/attr`, as
      `test_extra_attributes_get_zabbix_prefix` expects. */
  lemma ExtraAttributeExample(d: Dict, k: string)
    requires Valid(d) && k == "AWESOME.ATTR" && k in d.values
    requires forall k' :: k' in d.values && CatchAll(k') && ZabbixKeyToSignifaiKey(k') == ZabbixKeyToSignifaiKey(k) ==> k' == k
    ensures PrepareRestEvent(d).Ok? ==> Get(PrepareRestEvent(d).value.attributes, "zabbix/awesome/attr") == Some(d.values[k])
  {
    AwesomeAttrName(k);
    PrepareExtra(d, k);
  }

  lemma AwesomeAttrName(k: string)
    requires k == "AWESOME.ATTR"
    ensures CatchAll(k) && CatchAllName(k) == "zabbix/awesome/attr"
  {
    KeyExampleDotted(k);
  }
}
