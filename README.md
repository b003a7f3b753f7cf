# django-rest-hooks: event-to-webhook pipeline in Dafny

This project models the core of django-rest-hooks, the Django app that turns model
saves, deletions and custom signals into REST hooks (HTTP POSTs to subscribed URLs).
It has five modules:

- `Base` (base.dfy) holds the Python-level values that travel as payloads: None,
  booleans, integers, strings, lists, and dicts that remember whether they are an
  `OrderedDict`. It also holds Python truthiness and the exceptions the pipeline raises.
- `Hooks` (hooks.dfy) is the `Hook` subscription record of `rest_hooks/models.py`:
  - `dict()`;
  - the serializer resolution of `serialize_hook`, including its loop that turns nested
    `OrderedDict`s into plain dicts;
  - `deliver_hook`;
  - `Hook.objects.filter(user=..., event=...)` over a registry of hooks.
- `Events` (events.dfy) is `rest_hooks/utils.py`:
  - the `HOOK_EVENTS` table, as a sequence of (event name, descriptor) pairs in
    iteration order;
  - the `rsplit('.', 1)` of a descriptor;
  - the last-match scan of `distill_model_event`;
  - the owner resolution, event check and delivery loop of `find_and_fire_hook`.
- `Receivers` (receivers.dfy) holds the four signal receivers of `rest_hooks/models.py`:
  `model_saved`, `model_deleted`, `custom_action` and `raw_custom_event`.
- `Dispatch` (dispatch.dfy) is the `Client` of `rest_hooks/client.py`:
  - a class with the pending queue;
  - a fixed array of flush-thread slots;
  - the `total_sent` counter;
  - a record of the session calls made.

Outbound effects are not performed. A delivery returns the sequence of `Effect`s it
caused:
- the POST, with its target, its JSON body and the `Content-Type: application/json`
  header;
- or the call of the configured custom deliverer;
- and then the `hook_sent_event` signal.

An exception is an `Outcome` of `Raised(error)`. Each code path that works by a loop is
a method with a loop. Each such method is proved equal to a specification function:
`FanOut`, `Distill`, `Serialized`, `PlainEntries`, `Restarted`, and `Reversed` with
`Completed`. Code outside the pipeline (serializers, the deliverer, the HTTP client) is a
parameter whose answer may be an exception. The properties the
library promises are proved as lemmas about those functions.

Behaviours of the code worth knowing:
- No trailing `+` "ignore owner" marker is handled. A descriptor such as
  `app.Model.created+` splits into the action `created+`, so a save never selects it.
- Duplicate descriptors are not rejected. The last matching entry in table order wins
  (`Events.LastSelectedIsLast`).
- A failure in one delivery is not isolated. Serializers, the deliverer, `json.dumps`
  and the HTTP client may raise for one hook. The exception ends the loop, and the
  deliveries made before it stand (`Events.FanOutStops`, `Events.FanOutRaises`).
- A session call that raises ends a flush after its request was popped. That request
  is lost, it is not counted, and the rest stay queued (`Dispatch.Client.SyncFlush`).
- There is no `trust_event_name` flag, and no check that an event name agrees with a
  model and action. `raw_custom_event` never looks at the event table.
- A set descriptor without a dot makes `distill_model_event` raise, because the unpacking
  of `rsplit` fails. This holds even when that entry would not have matched.
- An empty event name never fires (`if event_name:`). A falsy payload override is ignored
  (`payload_override or ...`).
- The queue is drained from its tail: last in, first out.

## Model

| member | source | states |
|---|---|---|
| Base.Truthy | rest_hooks/models.py:85 | no contract of its own: Python truthiness (None, False, 0, the empty string, list and dict are falsy), used for `payload_override or ...`, `if auto:` and `if event_name:`; `Hooks.Payload` and `Events.FanOutFalsyOverride` state what depends on it |
| Hooks.Dict | rest_hooks/models.py:47-52 | a truthy plain dict with exactly the keys `id`, `event`, `target` (the model fixes this order; a Python 2 dict has none), holding the hook's own id, event and target |
| Hooks.Envelope | rest_hooks/models.py:74-77 | a truthy plain dict with exactly the keys `hook` (the hook's `dict()`) and `data` (the given data) |
| Hooks.PlainEntries | rest_hooks/models.py:67-69 | the keys are kept, no value is left an `OrderedDict`, and each value is unchanged or is the same entries as a plain dict |
| Hooks.Serialized | rest_hooks/models.py:54-77 | with no instance and no global serializer it raises `NotSerializable`; the built-in serializer of an instance never fails |
| Hooks.SerializedResolution | rest_hooks/models.py:60-77 | the instance's own `serialize_hook` wins, then the global serializer (whichever is used, its result or exception is the outcome), then the `{hook, data}` envelope around the instance's record as a plain dict |
| Hooks.NormalizeRecord | rest_hooks/models.py:66-72 | the in-place loop over the record yields the plain dict of `PlainEntries` of the record |
| Hooks.SerializeHook | rest_hooks/models.py:54-77 | returns what `Serialized` specifies, the error included |
| Hooks.Payload | rest_hooks/models.py:85 | a truthy override is the payload; otherwise the payload, or the exception, is that of serializing the instance |
| Hooks.Transmit | rest_hooks/models.py:86-96 | exactly two effects: one JSON POST to the target with the JSON header when no deliverer is set, else one deliverer call with target, payload, instance and hook; then the sent signal with the same payload, instance and hook |
| Hooks.DeliverOutcome | rest_hooks/models.py:79-97 | a delivery completes exactly when a payload can be built and its hand-off returns, and its effects are then the transmission of that payload; otherwise it raises the serializer's or the hand-off's exception and no effect is recorded, the signal included |
| Hooks.DeliverHook | rest_hooks/models.py:79-97 | the method's outcome and effects are those of `Deliver`; the payload override defaults to None, as `payload_override=None` does |
| Hooks.Deliver | rest_hooks/models.py:79-97 | no contract of its own: what `deliver_hook` does; `Hooks.DeliverOutcome` and `Hooks.Transmit` describe it |
| Hooks.Subscribed | rest_hooks/utils.py:49 | no contract of its own: `Hook.objects.filter(user=..., event=...)` in registry order; `Hooks.SubscribedSelects` describes it |
| Hooks.SubscribedSelects | rest_hooks/utils.py:49 | the filter keeps each hook of the owner for the event as many times as the registry holds it, and no other hook |
| Events.IsAuto | rest_hooks/utils.py:65 | no contract of its own: `if auto:` for an optional descriptor string |
| Events.SplitDescriptor | rest_hooks/utils.py:67 | no contract of its own: `auto.rsplit('.', 1)` unpacked into two parts, None when the unpacking raises; `Events.SplitDescriptorParts` and `Events.SplitJoin` describe it |
| Events.Selects | rest_hooks/utils.py:65-68 | no contract of its own: a set descriptor that splits into the caller's model and action |
| Events.Malformed | rest_hooks/utils.py:65-67 | no contract of its own: a set descriptor whose unpacking raises |
| Events.Configured | rest_hooks/utils.py:44 | no contract of its own: `event_name in HOOK_EVENTS.keys()`; `Events.FireDeliversSubscribed` states what follows from it |
| Events.LastSelected | rest_hooks/utils.py:63-68 | no contract of its own: the event name of the last entry that selects the model and action; `Events.LastSelectedNone`, `Events.LastSelectedIsLast` and `Events.DescriptorResolves` describe it |
| Events.LastDot | rest_hooks/utils.py:67 | a found index is in range and holds a dot |
| Events.LastDotIsLast | rest_hooks/utils.py:67 | a dot is found exactly when the string has one, and none follows the one found |
| Events.SplitDescriptorParts | rest_hooks/utils.py:67 | unpacking fails exactly on a dotless descriptor; otherwise model + "." + action gives back the descriptor and the action has no dot |
| Events.SplitJoin | rest_hooks/utils.py:67 | `m + "." + a` with a dotless `a` splits into `(m, a)` |
| Events.FirstMalformed | rest_hooks/utils.py:64-67 | nothing is reported exactly when no set descriptor lacks a dot; otherwise the first such descriptor is reported |
| Events.FirstMalformedPrefix | rest_hooks/utils.py:64-67 | a malformed descriptor in a prefix of the table is the one the whole scan reports |
| Events.LastSelectedNone | rest_hooks/utils.py:63-69 | the scan selects nothing exactly when no entry's descriptor splits into the caller's model and action |
| Events.LastSelectedIsLast | rest_hooks/utils.py:64-69 | a selected event name belongs to a matching entry with no matching entry after it |
| Events.Distilled | rest_hooks/utils.py:63-69 | the scan raises exactly when some set descriptor has no dot |
| Events.DescriptorResolves | rest_hooks/utils.py:64-69 | a descriptor `model.action` that no later entry repeats resolves to its own event name |
| Events.NoDescriptorNeverSelected | rest_hooks/utils.py:65 | an event whose entries have a None or empty descriptor is never selected |
| Events.DottedActionNeverSelected | rest_hooks/utils.py:67-68 | an action that contains a dot is never matched |
| Events.ResolveOwner | rest_hooks/utils.py:33-42 | the override wins, then the `user` attribute (which may be None), then the instance itself if it is a user; it raises exactly when none applies |
| Events.OverrideFor | rest_hooks/models.py:169-174 | no contract of its own: no override for model events; for a raw event its payload, in the `{hook, data}` envelope when `send_hook_meta`; `Receivers.RawEventWithMeta` and `Events.FanOutFalsyOverride` describe its effect |
| Events.FanOut | rest_hooks/utils.py:50-51 | no contract of its own: `deliver_hook` for each hook in turn, an exception ending the loop; `Events.FanOutCompletes`, `Events.FanOutSignals`, `Events.FanOutHandoffs`, `Events.FanOutSentTo`, `Events.FanOutStops` and `Events.FanOutRaises` describe it |
| Events.FanOutAdvance | rest_hooks/utils.py:50-51 | one pass of the delivery loop: a raise ends the fan-out with the effects collected so far; otherwise the delivery's effects are appended |
| Events.FanOutCompletes | rest_hooks/utils.py:50-51 | when every delivery completes, the fan-out ends normally |
| Events.FanOutSignals | rest_hooks/models.py:96 | when every delivery completes, the i-th signal is sent for the i-th hook with that hook's payload, and there is one signal per hook |
| Events.FanOutHandoffs | rest_hooks/models.py:86-94 | when every delivery completes, the i-th POST or deliverer call is the i-th hook's, and there is one per hook |
| Events.FanOutSentTo | rest_hooks/utils.py:50-51 | when every delivery completes, the hooks signalled are exactly the hooks fanned out to, in order |
| Events.FanOutStops | rest_hooks/utils.py:50-51 | when the delivery to the i-th hook is the first that does not complete, the fan-out raises that delivery's exception, its effects are those of the fan-out over the hooks before it, and it signals exactly those hooks |
| Events.FirstUndelivered | rest_hooks/utils.py:50-51 | the position of the first hook whose delivery does not complete: every delivery before it completes, and the one there does not (or every delivery completes) |
| Events.FanOutRaises | rest_hooks/utils.py:50-51 | when some delivery does not complete, the fan-out raises the exception of the first such one, having signalled exactly the hooks before it |
| Events.FanOutFalsyOverride | rest_hooks/models.py:85 | a falsy raw payload without the envelope gives the same outcome and effects as no override at all |
| Events.DeliverAll | rest_hooks/utils.py:50-51 | the delivery loop's outcome and effects are those of `FanOut` over the hooks |
| Events.FireDeliversSubscribed | rest_hooks/utils.py:26-51 | no owner raises; otherwise an unknown event raises (the check comes after the owner); otherwise, when every delivery completes, it completes and signals each hook of the owner for the event exactly as often as it is registered, with the serialized instance, and no other hook; when some delivery does not, it raises after signalling a proper prefix of those hooks |
| Events.Fire | rest_hooks/utils.py:26-51 | no contract of its own: what `find_and_fire_hook` does; `Events.FireDeliversSubscribed` describes it |
| Events.FindAndFireHook | rest_hooks/utils.py:26-51 | the method's outcome and effects are those of `Fire`; the owner override defaults to None, as `user_override=None` does |
| Events.Distill | rest_hooks/utils.py:53-72 | no contract of its own: what `distill_model_event` does; `Events.Distilled`, `Events.DistillSilent`, `Receivers.ModelSavedReachesOwner` and `Receivers.ModelDeletedReachesOwner` describe it |
| Events.DistillSilent | rest_hooks/utils.py:63-72 | with well-formed descriptors, nothing fires and nothing raises when no entry matches or every match has an empty event name |
| Events.DistillModelEvent | rest_hooks/utils.py:53-72 | the scanning loop and the fire are those of `Distill`; the owner override defaults to None, as `user_override=None` does |
| Receivers.ModelIdentifier | rest_hooks/models.py:126 | no contract of its own: `'.'.join([app_label, object_name])` |
| Receivers.SaveAction | rest_hooks/models.py:127 | no contract of its own: `'created' if created else 'updated'` |
| Receivers.ModelSaved | rest_hooks/models.py:116-128 | a save is the `created` action when `created` holds, else `updated`, of the model `app_label.object_name`, with no owner override |
| Receivers.ModelDeleted | rest_hooks/models.py:131-140 | a deletion is the `deleted` action of the model `app_label.object_name` |
| Receivers.CustomAction | rest_hooks/models.py:143-153 | the caller's action is used unchanged, and the caller's user becomes the owner override; the user defaults to None, as `user=None` does |
| Receivers.RawCustomEvent | rest_hooks/models.py:156-176 | the raw event is the fan-out over the user's hooks for the event name, with the raw payload and the envelope flag as override; the envelope flag defaults to true and the instance to None, as `send_hook_meta=True` and `instance=None` do |
| Receivers.ModelSavedReachesOwner | rest_hooks/models.py:125-128 | in a table where every set descriptor has a dot, a save whose `model.action` descriptor has a non-empty event name and is not repeated later in the table fires that event without an override: an instance with neither a `user` attribute nor user identity raises `NoUserProperty`; otherwise, when every delivery completes, each hook of the resolved owner for the event is signalled exactly as often as it is registered, and no other hook |
| Receivers.ModelDeletedReachesOwner | rest_hooks/models.py:138-140 | in a table where every set descriptor has a dot, a deletion whose `model.deleted` descriptor has a non-empty event name and is not repeated later in the table fires that event for the instance |
| Receivers.DottedCustomActionIsSilent | rest_hooks/models.py:151-153 | in a table where every set descriptor has a dot, a custom action containing a dot fires nothing and raises nothing (a dotless set descriptor makes any event raise, see `Events.Distilled`) |
| Receivers.RawEventWithMeta | rest_hooks/models.py:166-176 | with `send_hook_meta`, the payload of every hook is `{hook: hook.dict(), data: payload}`; when every hand-off returns, each of the user's hooks for the event gets one signal, in order, with it, and without a deliverer one JSON POST of it to its target |
| Receivers.RawEventVerbatim | rest_hooks/models.py:168-176 | without `send_hook_meta`, when every hand-off returns, a truthy payload is delivered unchanged to each of the user's hooks for the event |
| Receivers.RawEventFalsyPayload | rest_hooks/models.py:168-176 | without `send_hook_meta`, a falsy payload behaves exactly as no override, so the serialized instance is sent when every delivery completes; with no instance, no global serializer and at least one matching hook the event raises `NotSerializable` before any delivery |
| Dispatch.DeadIndices | rest_hooks/client.py:48 | the indices, strictly increasing, of exactly the slots whose thread is not alive |
| Dispatch.ReversedAt | rest_hooks/client.py:55-56 | the reversal has the same length, and its i-th element is the i-th from the end, so the last request enqueued is executed first |
| Dispatch.ReversedMultiset | rest_hooks/client.py:55-58 | the tail-first order is a permutation of the pending requests, so a flush in which no call raises executes each exactly once |
| Dispatch.Reversed | rest_hooks/client.py:55-56 | the tail-first order of the pending requests has as many entries as the queue |
| Dispatch.Completed | rest_hooks/client.py:55-58 | the number of leading requests whose session call returns: all before it return, and the one at it, if any, raises |
| Dispatch.CompletedAt | rest_hooks/client.py:55-58 | a count of leading calls that return, followed by one that raises or by the end, is exactly what `Completed` gives |
| Dispatch.Restarted | rest_hooks/client.py:49-51 | restarting the listed slots keeps the number of slots |
| Dispatch.RestartedSlots | rest_hooks/client.py:49-51 | with distinct slots listed in increasing order, the m-th listed slot holds the m-th new started thread and every other slot keeps its thread |
| Dispatch.RefreshedPool | rest_hooks/client.py:48-51 | restarting exactly the dead slots gives each of them its new thread in index order, keeps every live thread, and leaves every slot alive |
| Dispatch.Client.constructor | rest_hooks/client.py:20-26 | an empty queue, no calls, `total_sent` 0, and `num_threads` slots whose threads are not alive; `num_threads` defaults to 3 |
| Dispatch.Client.RefreshThreads | rest_hooks/client.py:44-51 | with an empty queue nothing changes; otherwise each dead slot, in index order, gets a new started thread, live slots keep their thread, and every slot is then alive; the queue, the calls and the counter are unchanged; the new slots are those of `Restarted` over the dead indices |
| Dispatch.Client.StartThreads | rest_hooks/client.py:49-51 | the loop gives each listed slot a new started thread, in list order, numbered on from the creation counter, as `Restarted` describes |
| Dispatch.Client.StartThread | rest_hooks/client.py:50-51 | the slot gets a new started thread with the next creation number, and nothing else changes |
| Dispatch.Client.Enqueue | rest_hooks/client.py:28-30 | the request is appended at the tail, the earlier items are unchanged, and then every slot is alive: live threads are untouched, each dead slot holds a new thread as `Restarted` says, and `spawned` grows by the number of dead slots |
| Dispatch.Client.Get | rest_hooks/client.py:32-33 | enqueues one request whose method is `get`, as `Enqueue` does: every slot alive, live threads untouched, dead slots restarted as `Restarted` says and `spawned` grown by their number |
| Dispatch.Client.Post | rest_hooks/client.py:35-36 | enqueues one request whose method is `post`, as `Enqueue` does: every slot alive, live threads untouched, dead slots restarted as `Restarted` says and `spawned` grown by their number |
| Dispatch.Client.Put | rest_hooks/client.py:38-39 | enqueues one request whose method is `put`, as `Enqueue` does: every slot alive, live threads untouched, dead slots restarted as `Restarted` says and `spawned` grown by their number |
| Dispatch.Client.Delete | rest_hooks/client.py:41-42 | enqueues one request whose method is `delete`, as `Enqueue` does: every slot alive, live threads untouched, dead slots restarted as `Restarted` says and `spawned` grown by their number |
| Dispatch.Client.SyncFlush | rest_hooks/client.py:53-58 | the calls made are the pending requests from the tail towards the head up to the first one that raises, and `total_sent` grows by exactly their number; if none raises the queue ends empty, otherwise that exception is raised and the requests below the raising one stay queued |
| Dispatch.Client.Pop | rest_hooks/client.py:56 | the request at the tail of the queue is returned and removed, and nothing else changes |
| Dispatch.Client.RunWorker | rest_hooks/client.py:12-13 | a started thread's run flushes the queue as `SyncFlush` does and then leaves its slot not alive, whether the flush returned or raised; it starts no thread, so `spawned` is unchanged |

## Left out

- `get_module` (rest_hooks/utils.py:1-24) is a dynamic import. `HOOK_SERIALIZER` is a
  function-valued setting whose result may be an exception, which stands for a failing
  import as well. `HOOK_DELIVERER` is recorded by its dotted path when called.
- Code outside the pipeline is a parameter: the `perform` field of `Settings` says
  whether a hand-off returns or raises, and a flush takes the answer of each session
  call. A call that raises is not recorded as an effect; whether a request reached the
  network before the exception is not modelled.
- Threads, the flush lock and the races between workers are not modelled. A slot holds
  only a liveness flag and a creation number. A worker's run is a separate,
  single-threaded step (`Dispatch.Client.RunWorker`).
- HTTP transport is not modelled. Calls through the `requests` session that return are
  recorded in `sent`, and the POST of `deliver_hook` is recorded as an `Effect`.
- Django's ORM is reduced to a sequence of hooks filtered by user and event (the row order
  of the query is taken as registry order).
- The `python` serializer is the instance's `record` field.
- `DjangoJSONEncoder` is left symbolic: the body is `DjangoJson(payload)`.
- `getattr(..., 'serialize_hook')` and `callable` together are one optional function on
  the instance. A non-callable attribute is the same as none.
- A `user_override` is `Some` exactly when it is truthy.
- The module-level `client` of rest_hooks/models.py may be either the threaded `Client`
  or `requests`. `Hooks.Transmit` records the POST itself and does not route it through
  `Dispatch.Client`.
- rest_hooks/tasks.py, rest_hooks/signals.py, the admin, the migration and the settings
  wiring are framework plumbing and are not part of this model. This includes the
  `created` and `updated` timestamps of `Hook`.
- `Hook.__unicode__` (rest_hooks/models.py:99-100) is display text only.
