/** The signal receivers of rest_hooks/models.py: model saves and deletions,
    the custom `hook_event` and the `raw_hook_event` with a ready payload. */
module Receivers {
  import opened Base
  import opened Hooks
  import opened Events

  /** `'.'.join([opts.app_label, opts.object_name])` of the concrete model. */
  function ModelIdentifier(inst: Instance): string {
    inst.appLabel + "." + inst.objectName
  }

  /** The action a save reports. */
  function SaveAction(created: bool): string {
    if created then "created" else "updated"
  }

  /** `model_saved`: a save is the action 'created' or 'updated' of the
      instance's model, resolved without an owner override. */
  method ModelSaved(table: EventTable, registry: seq<Hook>, settings: Settings, inst: Instance, created: bool)
    returns (r: Outcome, effects: seq<Effect>)
    ensures created ==> (r, effects) == Distill(table, registry, settings, inst, inst.appLabel + "." + inst.objectName, "created", None)
    ensures !created ==> (r, effects) == Distill(table, registry, settings, inst, inst.appLabel + "." + inst.objectName, "updated", None)
  {
    var model := ModelIdentifier(inst);
    var action := SaveAction(created);
    r, effects := DistillModelEvent(table, registry, settings, inst, model, action);
  }

  /** `model_deleted`: a deletion is the action 'deleted'. */
  method ModelDeleted(table: EventTable, registry: seq<Hook>, settings: Settings, inst: Instance)
    returns (r: Outcome, effects: seq<Effect>)
    ensures (r, effects) == Distill(table, registry, settings, inst, inst.appLabel + "." + inst.objectName, "deleted", None)
  {
    var model := ModelIdentifier(inst);
    r, effects := DistillModelEvent(table, registry, settings, inst, model, "deleted");
  }

  /** `custom_action`: the caller's action and user are passed through
      unchanged, the user as the owner override. */
  method CustomAction(table: EventTable, registry: seq<Hook>, settings: Settings, action: string, inst: Instance, user: Option<UserId> := None)
    returns (r: Outcome, effects: seq<Effect>)
    ensures (r, effects) == Distill(table, registry, settings, inst, inst.appLabel + "." + inst.objectName, action, user)
  {
    var model := ModelIdentifier(inst);
    r, effects := DistillModelEvent(table, registry, settings, inst, model, action, user);
  }

  /** `raw_custom_event`: the hooks of `user` for `eventName`, each given the
      payload (in the hook envelope when `sendHookMeta`) as override. The
      event table is not consulted. */
  method RawCustomEvent(registry: seq<Hook>, settings: Settings, eventName: string, payload: Value, user: Option<UserId>, sendHookMeta: bool := true, inst: Option<Instance> := None)
    returns (r: Outcome, effects: seq<Effect>)
    ensures r == FanOut(Subscribed(registry, user, eventName), inst, Some((payload, sendHookMeta)), settings).0
    ensures effects == FanOut(Subscribed(registry, user, eventName), inst, Some((payload, sendHookMeta)), settings).1
  {
    var hooks := Subscribed(registry, user, eventName);
    r, effects := DeliverAll(hooks, inst, Some((payload, sendHookMeta)), settings);
  }

  /** A save of an instance whose model and action are configured (and not
      repeated later in the table) fires that event for the instance's
      owner, found through its `user` attribute or, for a `User`, the
      instance itself. An instance with neither raises `NoUserProperty`.
      When every delivery completes, each of the owner's hooks for the event
      is signalled exactly once, and hooks of other owners or events never
      are. */
  lemma ModelSavedReachesOwner(table: EventTable, registry: seq<Hook>, settings: Settings, inst: Instance, created: bool, k: nat)
    requires k < |table| && table[k].0 != ""
    requires table[k].1 == Some(inst.appLabel + "." + inst.objectName + "." + SaveAction(created))
    requires forall j :: k < j < |table| ==> table[j].1 != table[k].1
    requires forall i :: 0 <= i < |table| ==> !Malformed(table[i])
    ensures Distill(table, registry, settings, inst, ModelIdentifier(inst), SaveAction(created), None)
            == Fire(table, registry, settings, table[k].0, inst, None)
    ensures inst.userAttr.Absent? && inst.asUser.None? ==>
              Distill(table, registry, settings, inst, ModelIdentifier(inst), SaveAction(created), None) == (Raised(NoUserProperty), [])
    ensures ResolveOwner(None, inst).Ok?
            && Deliverable(Subscribed(registry, ResolveOwner(None, inst).value, table[k].0), Some(inst), None, settings) ==>
              var owner := ResolveOwner(None, inst).value;
              var fired := Distill(table, registry, settings, inst, ModelIdentifier(inst), SaveAction(created), None);
              fired.0 == Done
              && forall h :: multiset(SentTo(fired.1))[h] ==
                   if Owns(owner, h) && h.event == table[k].0 then multiset(registry)[h] else 0
  {
    assert "created" == ['c', 'r', 'e', 'a', 't', 'e', 'd'] && "updated" == ['u', 'p', 'd', 'a', 't', 'e', 'd'];
    assert '.' !in SaveAction(created);
    DescriptorResolves(table, k, ModelIdentifier(inst), SaveAction(created));
    assert Configured(table, table[k].0);
    FireDeliversSubscribed(table, registry, settings, table[k].0, inst, None);
  }

  /** A deletion of a configured model fires the 'deleted' event in the same
      way, the serialized instance being the payload of every signal. */
  lemma ModelDeletedReachesOwner(table: EventTable, registry: seq<Hook>, settings: Settings, inst: Instance, k: nat)
    requires k < |table| && table[k].0 != ""
    requires table[k].1 == Some(inst.appLabel + "." + inst.objectName + ".deleted")
    requires forall j :: k < j < |table| ==> table[j].1 != table[k].1
    requires forall i :: 0 <= i < |table| ==> !Malformed(table[i])
    ensures Distill(table, registry, settings, inst, ModelIdentifier(inst), "deleted", None)
            == Fire(table, registry, settings, table[k].0, inst, None)
  {
    assert inst.appLabel + "." + inst.objectName + ".deleted" == ModelIdentifier(inst) + "." + "deleted";
    assert "deleted" == ['d', 'e', 'l', 'e', 't', 'e', 'd'];
    DescriptorResolves(table, k, ModelIdentifier(inst), "deleted");
  }

  /** An action that contains a dot can never be matched, so a custom action
      carrying one fires nothing. */
  lemma DottedCustomActionIsSilent(table: EventTable, registry: seq<Hook>, settings: Settings, action: string, inst: Instance, user: Option<UserId> := None)
    requires '.' in action
    requires forall i :: 0 <= i < |table| ==> !Malformed(table[i])
    ensures Distill(table, registry, settings, inst, ModelIdentifier(inst), action, user) == (Done, [])
  {
    DottedActionNeverSelected(table, ModelIdentifier(inst), action);
  }

  /** With `send_hook_meta` set (the default), the payload is wrapped as
      `{'hook': hook.dict(), 'data': payload}`, which can always be built.
      When every hand-off returns, every hook of `user` for the event is
      delivered to exactly once, in order; without a custom deliverer that
      is one JSON POST to the hook's target. */
  lemma {:induction false} RawEventWithMeta(registry: seq<Hook>, settings: Settings, eventName: string, payload: Value, user: Option<UserId>, inst: Option<Instance>)
    ensures var hs := Subscribed(registry, user, eventName);
            forall i :: 0 <= i < |hs| ==> Payload(hs[i], inst, OverrideFor(hs[i], Some((payload, true))), settings) == Ok(Envelope(hs[i], payload))
    ensures var hs := Subscribed(registry, user, eventName);
            var fired := FanOut(hs, inst, Some((payload, true)), settings);
            Deliverable(hs, inst, Some((payload, true)), settings) ==>
              fired.0 == Done && SentTo(fired.1) == hs
              && |Signals(fired.1)| == |Handoffs(fired.1)| == |hs|
              && (forall i :: 0 <= i < |hs| ==> Signals(fired.1)[i] == HookSent(Envelope(hs[i], payload), inst, hs[i]))
              && (settings.deliverer.None? ==>
                    forall i :: 0 <= i < |hs| ==> Handoffs(fired.1)[i] == Post(hs[i].target, DjangoJson(Envelope(hs[i], payload)), JsonHeaders))
  {
    var hs := Subscribed(registry, user, eventName);
    var raw := Some((payload, true));
    forall i | 0 <= i < |hs|
      ensures Payload(hs[i], inst, OverrideFor(hs[i], raw), settings) == Ok(Envelope(hs[i], payload))
    {
      assert OverrideFor(hs[i], raw) == Some(Envelope(hs[i], payload));
    }
    if Deliverable(hs, inst, raw, settings) {
      FanOutCompletes(hs, inst, raw, settings);
      FanOutSignals(hs, inst, raw, settings);
      FanOutHandoffs(hs, inst, raw, settings);
      FanOutSentTo(hs, inst, raw, settings);
    }
  }

  /** Without `send_hook_meta`, a truthy payload is delivered verbatim. */
  lemma {:induction false} RawEventVerbatim(registry: seq<Hook>, settings: Settings, eventName: string, payload: Value, user: Option<UserId>, inst: Option<Instance>)
    requires Truthy(payload)
    ensures var hs := Subscribed(registry, user, eventName);
            var fired := FanOut(hs, inst, Some((payload, false)), settings);
            Deliverable(hs, inst, Some((payload, false)), settings) ==>
              fired.0 == Done && SentTo(fired.1) == hs && |Signals(fired.1)| == |hs|
              && forall i :: 0 <= i < |hs| ==> Signals(fired.1)[i] == HookSent(payload, inst, hs[i])
  {
    var hs := Subscribed(registry, user, eventName);
    var raw := Some((payload, false));
    if Deliverable(hs, inst, raw, settings) {
      FanOutCompletes(hs, inst, raw, settings);
      FanOutSignals(hs, inst, raw, settings);
      FanOutSentTo(hs, inst, raw, settings);
    }
  }

  /** Without `send_hook_meta`, a falsy payload (such as `{}`) is not used as
      the override: the event behaves as a model event of the instance,
      which is serialized instead. With no instance and no global serializer
      it raises before any delivery. */
  lemma {:induction false} RawEventFalsyPayload(registry: seq<Hook>, settings: Settings, eventName: string, payload: Value, user: Option<UserId>, inst: Option<Instance>)
    requires !Truthy(payload)
    ensures var hs := Subscribed(registry, user, eventName);
            var fired := FanOut(hs, inst, Some((payload, false)), settings);
            fired.0 == FanOut(hs, inst, None, settings).0 && fired.1 == FanOut(hs, inst, None, settings).1
    ensures var hs := Subscribed(registry, user, eventName);
            var fired := FanOut(hs, inst, Some((payload, false)), settings);
            inst.None? && settings.serializer.None? && hs != [] ==> fired.0 == Raised(NotSerializable) && fired.1 == []
    ensures var hs := Subscribed(registry, user, eventName);
            var fired := FanOut(hs, inst, Some((payload, false)), settings);
            Deliverable(hs, inst, None, settings) ==>
              fired.0 == Done && SentTo(fired.1) == hs && |Signals(fired.1)| == |hs|
              && forall i :: 0 <= i < |hs| ==>
                   Serialized(hs[i], inst, settings).Ok?
                   && Signals(fired.1)[i] == HookSent(Serialized(hs[i], inst, settings).value, inst, hs[i])
  {
    var hs := Subscribed(registry, user, eventName);
    FanOutFalsyOverride(hs, inst, payload, settings);
    if Deliverable(hs, inst, None, settings) {
      FanOutCompletes(hs, inst, None, settings);
      FanOutSignals(hs, inst, None, settings);
      FanOutSentTo(hs, inst, None, settings);
    } else if inst.None? && settings.serializer.None? && hs != [] {
      assert Payload(hs[0], inst, OverrideFor(hs[0], None), settings).Err?;
    }
  }
}
