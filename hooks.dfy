/** The subscription record (`Hook`), how it builds payloads, and how one
    delivery is made: rest_hooks/models.py, class `Hook`. Outbound requests and
    signals are not performed but recorded as a sequence of `Effect`s. */
module Hooks {
  import opened Base

  /** Primary key of a user (the owning principal). */
  type UserId = nat

  /** A stored subscription: owner, event name, target URL. */
  datatype Hook = Hook(id: nat, user: UserId, event: string, target: string)

  /** What Django's 'python' serializer yields for one instance: a dict,
      possibly an `OrderedDict`, whose values may be `OrderedDict`s too. */
  datatype Record = Record(entries: seq<(string, Value)>, ordered: bool)

  /** A model instance that triggers events, seen through the attributes the
      pipeline reads. */
  datatype Instance = Instance(
    appLabel: string,                    // concrete model's app label
    objectName: string,                  // concrete model's class name
    userAttr: Attr<Option<UserId>>,      // `instance.user`, which may hold None
    asUser: Option<UserId>,              // Some(pk) when the instance is a `User`
    serializeHook: Option<Hook -> Result<Value>>, // a callable `serialize_hook(hook=...)`, which may raise
    record: Record)                      // the built-in serializer's output

  /** The optional settings `HOOK_SERIALIZER` and `HOOK_DELIVERER`, and how
      the code outside the pipeline answers. None stands for a setting that
      is missing or falsy. The serializer is its import by `get_module`
      followed by its call, either of which may raise. The deliverer is its
      dotted path; calling it is recorded as an effect. `perform` says
      whether a hand-off (the import and call of the deliverer, or
      `json.dumps` and `client.post`) returns or raises. */
  datatype Settings = Settings(
    serializer: Option<(Option<Instance>, Hook) -> Result<Value>>,
    deliverer: Option<string>,
    perform: Effect -> Outcome)

  /** The JSON text `json.dumps(payload, cls=DjangoJSONEncoder)`, kept symbolic. */
  datatype Body = DjangoJson(payload: Value)

  /** Observable side effects of a delivery. */
  datatype Effect =
    | Post(url: string, body: Body, headers: seq<(string, string)>)
    | CustomDelivery(deliverer: string, target: string, payload: Value, instance: Option<Instance>, hook: Hook)
    | HookSent(payload: Value, instance: Option<Instance>, hook: Hook)

  const JsonHeaders: seq<(string, string)> := [("Content-Type", "application/json")]

  /** `Hook.dict()`: the hook's public description. */
  function Dict(h: Hook): (d: Value)
    ensures d.PyDict? && !d.ordered && Truthy(d)
    ensures Keys(d.entries) == ["id", "event", "target"]
    ensures Lookup(d.entries, "id") == Some(PyInt(h.id))
    ensures Lookup(d.entries, "event") == Some(PyStr(h.event))
    ensures Lookup(d.entries, "target") == Some(PyStr(h.target))
  {
    var entries := [("id", PyInt(h.id)), ("event", PyStr(h.event)), ("target", PyStr(h.target))];
    assert Lookup(entries[2..], "target") == Some(PyStr(h.target));
    PyDict(entries, false)
  }

  /** The `{'hook': hook.dict(), 'data': data}` wrapper. */
  function Envelope(h: Hook, data: Value): (d: Value)
    ensures d.PyDict? && !d.ordered && Truthy(d)
    ensures Keys(d.entries) == ["hook", "data"]
    ensures Lookup(d.entries, "hook") == Some(Dict(h))
    ensures Lookup(d.entries, "data") == Some(data)
  {
    PyDict([("hook", Dict(h)), ("data", data)], false)
  }

  /** `dict(v)` applied when `v` is an `OrderedDict`; any other value is kept. */
  function Plain(v: Value): Value {
    if v.PyDict? && v.ordered then PyDict(v.entries, false) else v
  }

  /** The entries after the normalising loop of `serialize_hook`. */
  function PlainEntries(es: seq<(string, Value)>): (r: seq<(string, Value)>)
    ensures Keys(r) == Keys(es)
    ensures forall i :: 0 <= i < |r| ==> !(r[i].1.PyDict? && r[i].1.ordered)
    ensures forall i :: 0 <= i < |r| ==> r[i].1 == es[i].1 || (es[i].1.PyDict? && r[i].1 == PyDict(es[i].1.entries, false))
  {
    seq(|es|, i requires 0 <= i < |es| => (es[i].0, Plain(es[i].1)))
  }

  /** The value `serialize_hook` returns for `instance` (None when the
      caller passed no instance), or the exception it raises. */
  function Serialized(h: Hook, inst: Option<Instance>, settings: Settings): (r: Result<Value>)
    ensures inst.None? && settings.serializer.None? ==> r == Err(NotSerializable)
    ensures inst.Some? && inst.value.serializeHook.None? && settings.serializer.None? ==> r.Ok?
  {
    if inst.Some? && inst.value.serializeHook.Some? then inst.value.serializeHook.value(h)
    else if settings.serializer.Some? then settings.serializer.value(inst, h)
    else if inst.None? then Err(NotSerializable)
    else Ok(Envelope(h, PyDict(PlainEntries(inst.value.record.entries), false)))
  }

  /** The order in which `serialize_hook` picks a serializer: the instance's
      own, then the global one, then the built-in one, whose output is the
      hook envelope around the instance's plain-dict record. */
  lemma SerializedResolution(h: Hook, inst: Option<Instance>, settings: Settings)
    ensures inst.Some? && inst.value.serializeHook.Some? ==>
              Serialized(h, inst, settings) == inst.value.serializeHook.value(h)
    ensures (inst.None? || inst.value.serializeHook.None?) && settings.serializer.Some? ==>
              Serialized(h, inst, settings) == settings.serializer.value(inst, h)
    ensures inst.Some? && inst.value.serializeHook.None? && settings.serializer.None? ==>
              var r := Serialized(h, inst, settings);
              r.Ok? && r.value.PyDict? && Lookup(r.value.entries, "hook") == Some(Dict(h))
              && Lookup(r.value.entries, "data") == Some(PyDict(PlainEntries(inst.value.record.entries), false))
  {
  }

  /** The loop of `serialize_hook` that turns nested `OrderedDict`s into plain
      dicts, followed by the conversion of the record itself. */
  method NormalizeRecord(rec: Record) returns (data: Value)
    ensures data == PyDict(PlainEntries(rec.entries), false)
  {
    var es := rec.entries;
    var i := 0;
    while i < |es|
      invariant 0 <= i <= |es| == |rec.entries|
      invariant es[..i] == PlainEntries(rec.entries[..i])
      invariant es[i..] == rec.entries[i..]
    {
      var (k, v) := es[i];
      assert v == rec.entries[i].1;
      if v.PyDict? && v.ordered {
        es := es[i := (k, PyDict(v.entries, false))];
      }
      assert es[..i + 1] == es[..i] + [es[i]];
      assert rec.entries[..i + 1] == rec.entries[..i] + [rec.entries[i]];
      i := i + 1;
    }
    assert es == es[..i];
    assert rec.entries == rec.entries[..i];
    data := PyDict(es, false);
  }

  /** `Hook.serialize_hook`: the instance's own serializer, else the global
      one, else the built-in serializer wrapped in the hook envelope. */
  method SerializeHook(h: Hook, inst: Option<Instance>, settings: Settings) returns (r: Result<Value>)
    ensures r == Serialized(h, inst, settings)
  {
    if inst.Some? && inst.value.serializeHook.Some? {
      return inst.value.serializeHook.value(h);
    }
    if settings.serializer.Some? {
      return settings.serializer.value(inst, h);
    }
    if inst.None? {
      return Err(NotSerializable);
    }
    var data := NormalizeRecord(inst.value.record);
    r := Ok(Envelope(h, data));
  }

  /** `payload_override or self.serialize_hook(instance)`. */
  function Payload(h: Hook, inst: Option<Instance>, override: Option<Value>, settings: Settings): (r: Result<Value>)
    ensures override.Some? && Truthy(override.value) ==> r == Ok(override.value)
    ensures !(override.Some? && Truthy(override.value)) ==> r == Serialized(h, inst, settings)
  {
    if override.Some? && Truthy(override.value) then Ok(override.value) else Serialized(h, inst, settings)
  }

  /** The effects of handing `payload` over for delivery to `h`: the custom
      deliverer's call or one JSON POST to the target, then the sent signal. */
  function Transmit(h: Hook, payload: Value, inst: Option<Instance>, settings: Settings): (es: seq<Effect>)
    ensures |es| == 2 && es[1] == HookSent(payload, inst, h)
    ensures es[0].Post? <==> settings.deliverer.None?
    ensures es[0].Post? ==> es[0].url == h.target && es[0].body == DjangoJson(payload) && es[0].headers == JsonHeaders
    ensures es[0].CustomDelivery? ==>
              es[0] == CustomDelivery(settings.deliverer.value, h.target, payload, inst, h)
  {
    var handOff :=
      if settings.deliverer.Some? then CustomDelivery(settings.deliverer.value, h.target, payload, inst, h)
      else Post(h.target, DjangoJson(payload), JsonHeaders);
    [handOff, HookSent(payload, inst, h)]
  }

  /** Whether a delivery to `h` completes: a payload can be built and the
      hand-off returns. */
  predicate Delivers(h: Hook, inst: Option<Instance>, override: Option<Value>, settings: Settings) {
    Payload(h, inst, override, settings).Ok?
    && settings.perform(Transmit(h, Payload(h, inst, override, settings).value, inst, settings)[0]).Done?
  }

  /** What `deliver_hook` does: raise if no payload can be built, then hand
      it over, raising if the hand-off raises, and finally signal it. */
  function Deliver(h: Hook, inst: Option<Instance>, override: Option<Value>, settings: Settings): (Outcome, seq<Effect>) {
    match Payload(h, inst, override, settings)
    case Err(e) => (Raised(e), [])
    case Ok(p) =>
      var effects := Transmit(h, p, inst, settings);
      match settings.perform(effects[0])
      case Raised(e) => (Raised(e), [])
      case Done => (Done, effects)
  }

  /** A delivery completes exactly when `Delivers` holds, and then hands the
      payload over and signals it. Otherwise it raises the serializer's or
      the hand-off's exception, and no effect is recorded. */
  lemma DeliverOutcome(h: Hook, inst: Option<Instance>, override: Option<Value>, settings: Settings)
    ensures Deliver(h, inst, override, settings).0.Done? <==> Delivers(h, inst, override, settings)
    ensures Payload(h, inst, override, settings).Err? ==>
              Deliver(h, inst, override, settings) == (Raised(Payload(h, inst, override, settings).error), [])
    ensures Payload(h, inst, override, settings).Ok? && !Delivers(h, inst, override, settings) ==>
              Deliver(h, inst, override, settings)
              == (settings.perform(Transmit(h, Payload(h, inst, override, settings).value, inst, settings)[0]), [])
    ensures Delivers(h, inst, override, settings) ==>
              Deliver(h, inst, override, settings).1 == Transmit(h, Payload(h, inst, override, settings).value, inst, settings)
  {
  }

  /** `Hook.deliver_hook`. */
  method DeliverHook(h: Hook, inst: Option<Instance>, settings: Settings, override: Option<Value> := None)
    returns (r: Outcome, effects: seq<Effect>)
    ensures (r, effects) == Deliver(h, inst, override, settings)
  {
    var payload: Value;
    if override.Some? && Truthy(override.value) {
      payload := override.value;
    } else {
      var s := SerializeHook(h, inst, settings);
      if s.Err? {
        assert Payload(h, inst, override, settings) == Err(s.error);
        return Raised(s.error), [];
      }
      payload := s.value;
    }
    assert Payload(h, inst, override, settings) == Ok(payload);
    var handOff: Effect;
    if settings.deliverer.Some? {
      handOff := CustomDelivery(settings.deliverer.value, h.target, payload, inst, h);
    } else {
      handOff := Post(h.target, DjangoJson(payload), JsonHeaders);
    }
    assert handOff == Transmit(h, payload, inst, settings)[0];
    var answer := settings.perform(handOff);
    if answer.Raised? {
      return answer, [];
    }
    effects := [handOff, HookSent(payload, inst, h)];
    assert effects == Transmit(h, payload, inst, settings);
    r := Done;
  }

  /** Whether `owner` (None stands for a null user) owns `h`. */
  predicate Owns(owner: Option<UserId>, h: Hook) {
    owner == Some(h.user)
  }

  /** `Hook.objects.filter(user=owner, event=event)`, in registry order. */
  function Subscribed(registry: seq<Hook>, owner: Option<UserId>, event: string): seq<Hook>
    decreases |registry|
  {
    if registry == [] then []
    else
      var rest := Subscribed(registry[1..], owner, event);
      if Owns(owner, registry[0]) && registry[0].event == event then [registry[0]] + rest else rest
  }

  /** The filter keeps every hook of `owner` for `event` as often as the
      registry holds it, and nothing else. */
  lemma {:induction false} SubscribedSelects(registry: seq<Hook>, owner: Option<UserId>, event: string)
    ensures forall h :: multiset(Subscribed(registry, owner, event))[h] ==
              if Owns(owner, h) && h.event == event then multiset(registry)[h] else 0
    ensures forall h :: h in Subscribed(registry, owner, event) ==> Owns(owner, h) && h.event == event
    decreases |registry|
  {
    if registry != [] {
      SubscribedSelects(registry[1..], owner, event);
      assert registry == [registry[0]] + registry[1..];
    }
  }
}
