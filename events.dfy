/** Event resolution and fan-out: rest_hooks/utils.py. The event table
    `HOOK_EVENTS` is a sequence of (event name, automatic descriptor) pairs in
    the dict's iteration order. */
module Events {
  import opened Base
  import opened Hooks

  type EventTable = seq<(string, Option<string>)>

  /** `if auto:` — a descriptor that is present and not empty. */
  predicate IsAuto(d: Option<string>) {
    d.Some? && d.value != ""
  }

  /** Index of the last '.' in `s`, as `rsplit('.', 1)` finds it. */
  function LastDot(s: string): (r: Option<nat>)
    ensures r.Some? ==> r.value < |s| && s[r.value] == '.'
    decreases |s|
  {
    if s == [] then None
    else if s[|s| - 1] == '.' then Some(|s| - 1)
    else LastDot(s[..|s| - 1])
  }

  /** `LastDot` finds a dot exactly when there is one, and no dot follows it. */
  lemma {:induction false} LastDotIsLast(s: string)
    ensures LastDot(s).None? <==> '.' !in s
    ensures LastDot(s).Some? ==> '.' !in s[LastDot(s).value + 1..]
    decreases |s|
  {
    if s != [] && s[|s| - 1] != '.' {
      var init := s[..|s| - 1];
      LastDotIsLast(init);
      assert s == init + [s[|s| - 1]];
      if LastDot(init).Some? {
        assert s[LastDot(init).value + 1..] == init[LastDot(init).value + 1..] + [s[|s| - 1]];
      }
    }
  }

  /** `auto.rsplit('.', 1)` unpacked into `(model, action)`; None where the
      unpacking fails because the descriptor has no dot. */
  function SplitDescriptor(d: string): Option<(string, string)> {
    match LastDot(d)
    case None => None
    case Some(i) => Some((d[..i], d[i + 1..]))
  }

  /** The unpacking fails exactly on a dotless descriptor; otherwise the two
      parts join back into the descriptor and the action holds no dot. */
  lemma SplitDescriptorParts(d: string)
    ensures SplitDescriptor(d).None? <==> '.' !in d
    ensures SplitDescriptor(d).Some? ==>
              d == SplitDescriptor(d).value.0 + "." + SplitDescriptor(d).value.1 && '.' !in SplitDescriptor(d).value.1
  {
    LastDotIsLast(d);
    if LastDot(d).Some? {
      var i := LastDot(d).value;
      assert d == d[..i] + "." + d[i + 1..];
    }
  }

  /** Splitting a descriptor written as `model + "." + action` gives back
      `(model, action)` whenever the action has no dot. */
  lemma {:induction false} SplitJoin(model: string, action: string)
    requires '.' !in action
    ensures SplitDescriptor(model + "." + action) == Some((model, action))
  {
    var d := model + "." + action;
    LastDotIsLast(d);
    assert d[|model|] == '.';
    assert d[..|model|] == model && d[|model| + 1..] == action;
  }

  /** The entry's descriptor splits into exactly `(model, action)`. */
  predicate Selects(entry: (string, Option<string>), model: string, action: string) {
    IsAuto(entry.1) && SplitDescriptor(entry.1.value) == Some((model, action))
  }

  /** The entry's descriptor is set but cannot be split. */
  predicate Malformed(entry: (string, Option<string>)) {
    IsAuto(entry.1) && '.' !in entry.1.value
  }

  /** `event_name in HOOK_EVENTS.keys()`. */
  predicate Configured(table: EventTable, e: string) {
    exists i :: 0 <= i < |table| && table[i].0 == e
  }

  /** The first descriptor the scan cannot unpack, if any. */
  function FirstMalformed(table: EventTable): (r: Option<string>)
    ensures r.None? <==> forall i :: 0 <= i < |table| ==> !Malformed(table[i])
    ensures r.Some? ==> exists i :: 0 <= i < |table| && Malformed(table[i]) && table[i].1.value == r.value
                                    && forall j :: 0 <= j < i ==> !Malformed(table[j])
    decreases |table|
  {
    if table == [] then None
    else
      var init := table[..|table| - 1];
      var first := FirstMalformed(init);
      if first.Some? then first
      else if Malformed(table[|table| - 1]) then Some(table[|table| - 1].1.value)
      else None
  }

  /** Once a prefix holds a malformed descriptor, the whole table reports it. */
  lemma {:induction false} FirstMalformedPrefix(table: EventTable, k: nat)
    requires k <= |table| && FirstMalformed(table[..k]).Some?
    ensures FirstMalformed(table) == FirstMalformed(table[..k])
    decreases |table| - k
  {
    if k < |table| {
      assert table[..k + 1][..k] == table[..k];
      FirstMalformedPrefix(table, k + 1);
    } else {
      assert table[..k] == table;
    }
  }

  /** The event name of the last entry whose descriptor selects
      `(model, action)`. */
  function LastSelected(table: EventTable, model: string, action: string): Option<string>
    decreases |table|
  {
    if table == [] then None
    else if Selects(table[|table| - 1], model, action) then Some(table[|table| - 1].0)
    else LastSelected(table[..|table| - 1], model, action)
  }

  /** The scan selects nothing exactly when no entry matches. */
  lemma {:induction false} LastSelectedNone(table: EventTable, model: string, action: string)
    ensures LastSelected(table, model, action).None? <==> forall i :: 0 <= i < |table| ==> !Selects(table[i], model, action)
    decreases |table|
  {
    if table != [] {
      var n := |table| - 1;
      if !Selects(table[n], model, action) {
        LastSelectedNone(table[..n], model, action);
        assert forall i :: 0 <= i < n ==> table[..n][i] == table[i];
      }
    }
  }

  /** Otherwise it selects an entry that matches and that no later entry
      overrides: the last match wins. */
  lemma {:induction false} LastSelectedIsLast(table: EventTable, model: string, action: string)
    requires LastSelected(table, model, action).Some?
    ensures exists i :: 0 <= i < |table| && Selects(table[i], model, action) && table[i].0 == LastSelected(table, model, action).value
                        && forall j :: i < j < |table| ==> !Selects(table[j], model, action)
    decreases |table|
  {
    var n := |table| - 1;
    if Selects(table[n], model, action) {
      assert table[n].0 == LastSelected(table, model, action).value;
    } else {
      var init := table[..n];
      assert LastSelected(table, model, action) == LastSelected(init, model, action);
      LastSelectedIsLast(init, model, action);
      var i :| 0 <= i < n && Selects(init[i], model, action) && init[i].0 == LastSelected(init, model, action).value
               && forall j :: i < j < n ==> !Selects(init[j], model, action);
      assert init[i] == table[i];
      forall j | i < j < |table| ensures !Selects(table[j], model, action) {
        if j < n {
          assert init[j] == table[j];
        }
      }
    }
  }

  /** What the scan of `distill_model_event` ends with: the selected event
      name, or the unpacking error. */
  function Distilled(table: EventTable, model: string, action: string): (r: Result<Option<string>>)
    ensures r.Err? <==> exists i :: 0 <= i < |table| && Malformed(table[i])
  {
    var bad := FirstMalformed(table);
    if bad.Some? then Err(MalformedDescriptor(bad.value)) else Ok(LastSelected(table, model, action))
  }

  /** A descriptor `model + "." + action` resolves to its own event name when
      no later entry repeats it (the last duplicate wins otherwise). */
  lemma {:induction false} DescriptorResolves(table: EventTable, k: nat, model: string, action: string)
    requires k < |table| && '.' !in action
    requires table[k].1 == Some(model + "." + action)
    requires forall j :: k < j < |table| ==> table[j].1 != table[k].1
    requires forall i :: 0 <= i < |table| ==> !Malformed(table[i])
    ensures Distilled(table, model, action) == Ok(Some(table[k].0))
  {
    SplitJoin(model, action);
    LastSelectedNone(table, model, action);
    LastSelectedIsLast(table, model, action);
    assert Selects(table[k], model, action);
    var r := LastSelected(table, model, action);
    var i :| 0 <= i < |table| && Selects(table[i], model, action) && table[i].0 == r.value
             && forall j :: i < j < |table| ==> !Selects(table[j], model, action);
    SplitDescriptorParts(table[i].1.value);
  }

  /** An entry with no descriptor, or an empty one, is never selected. */
  lemma NoDescriptorNeverSelected(table: EventTable, e: string, model: string, action: string)
    requires forall i :: 0 <= i < |table| && table[i].0 == e ==> !IsAuto(table[i].1)
    ensures Distilled(table, model, action) != Ok(Some(e))
  {
    if LastSelected(table, model, action).Some? {
      LastSelectedIsLast(table, model, action);
    }
  }

  /** An action holding a dot never matches: the split puts everything up to
      the last dot into the model part. */
  lemma DottedActionNeverSelected(table: EventTable, model: string, action: string)
    requires '.' in action
    ensures LastSelected(table, model, action) == None
  {
    forall i | 0 <= i < |table| && IsAuto(table[i].1) ensures !Selects(table[i], model, action) {
      SplitDescriptorParts(table[i].1.value);
    }
    LastSelectedNone(table, model, action);
  }

  /** The owner `find_and_fire_hook` filters by: an explicit override first,
      then the instance's `user` attribute, then the instance itself when it
      is a user; otherwise it raises. */
  function ResolveOwner(override: Option<UserId>, inst: Instance): (r: Result<Option<UserId>>)
    ensures r.Err? <==> override.None? && inst.userAttr.Absent? && inst.asUser.None?
    ensures r.Err? ==> r.error == NoUserProperty
    ensures override.Some? ==> r == Ok(override)
    ensures override.None? && inst.userAttr.Present? ==> r == Ok(inst.userAttr.value)
    ensures override.None? && inst.userAttr.Absent? && inst.asUser.Some? ==> r == Ok(inst.asUser)
  {
    if override.Some? then Ok(override)
    else if inst.userAttr.Present? then Ok(inst.userAttr.value)
    else if inst.asUser.Some? then Ok(inst.asUser)
    else Err(NoUserProperty)
  }

  /** The override a delivery receives: none for model events; for a raw
      event its payload, wrapped in the hook envelope when `send_hook_meta`. */
  function OverrideFor(h: Hook, raw: Option<(Value, bool)>): Option<Value> {
    match raw
    case None => None
    case Some((payload, sendHookMeta)) => Some(if sendHookMeta then Envelope(h, payload) else payload)
  }

  /** Delivering to each hook in turn; an exception stops the loop and keeps
      the effects of the deliveries before it. */
  function FanOut(hs: seq<Hook>, inst: Option<Instance>, raw: Option<(Value, bool)>, settings: Settings): (Outcome, seq<Effect>)
    decreases |hs|
  {
    if hs == [] then (Done, [])
    else
      var first := Deliver(hs[0], inst, OverrideFor(hs[0], raw), settings);
      if first.0.Raised? then first
      else
        var rest := FanOut(hs[1..], inst, raw, settings);
        (rest.0, first.1 + rest.1)
  }

  /** One pass of a delivery loop that has collected `acc` and is about to
      deliver to `hs[i]`: a raise ends the fan-out with what was collected,
      otherwise the delivery's effects join `acc` and the loop moves on. */
  lemma FanOutAdvance(hs: seq<Hook>, i: nat, inst: Option<Instance>, raw: Option<(Value, bool)>, settings: Settings,
                      outcome: Outcome, delivered: seq<Effect>, acc: seq<Effect>, all: (Outcome, seq<Effect>))
    requires i < |hs|
    requires (outcome, delivered) == Deliver(hs[i], inst, OverrideFor(hs[i], raw), settings)
    requires all.0 == FanOut(hs[i..], inst, raw, settings).0
    requires all.1 == acc + FanOut(hs[i..], inst, raw, settings).1
    ensures outcome.Raised? ==> all.0 == outcome && all.1 == acc
    ensures outcome.Done? ==> all.0 == FanOut(hs[i + 1..], inst, raw, settings).0
    ensures outcome.Done? ==> all.1 == (acc + delivered) + FanOut(hs[i + 1..], inst, raw, settings).1
  {
    assert hs[i..][0] == hs[i] && hs[i..][1..] == hs[i + 1..];
    if outcome.Done? {
      assert acc + (delivered + FanOut(hs[i + 1..], inst, raw, settings).1) == (acc + delivered) + FanOut(hs[i + 1..], inst, raw, settings).1;
    } else {
      assert delivered == [];
      assert acc + [] == acc;
    }
  }

  /** The `hook_sent_event` signals among `es`, in order. */
  function Signals(es: seq<Effect>): seq<Effect>
    decreases |es|
  {
    if es == [] then []
    else (if es[0].HookSent? then [es[0]] else []) + Signals(es[1..])
  }

  /** The hand-offs (POSTs or custom deliverer calls) among `es`, in order. */
  function Handoffs(es: seq<Effect>): seq<Effect>
    decreases |es|
  {
    if es == [] then []
    else (if es[0].HookSent? then [] else [es[0]]) + Handoffs(es[1..])
  }

  /** The hooks the signals among `es` were sent for, in order. */
  function SentTo(es: seq<Effect>): seq<Hook>
    decreases |es|
  {
    if es == [] then []
    else (if es[0].HookSent? then [es[0].hook] else []) + SentTo(es[1..])
  }

  lemma {:induction false} SentToConcat(a: seq<Effect>, b: seq<Effect>)
    ensures SentTo(a + b) == SentTo(a) + SentTo(b)
    decreases |a|
  {
    if a == [] {
      assert a + b == b;
    } else {
      assert (a + b)[0] == a[0];
      assert (a + b)[1..] == a[1..] + b;
      SentToConcat(a[1..], b);
    }
  }

  lemma {:induction false} SignalsConcat(a: seq<Effect>, b: seq<Effect>)
    ensures Signals(a + b) == Signals(a) + Signals(b)
    decreases |a|
  {
    if a == [] {
      assert a + b == b;
    } else {
      assert (a + b)[0] == a[0];
      assert (a + b)[1..] == a[1..] + b;
      SignalsConcat(a[1..], b);
    }
  }

  lemma {:induction false} HandoffsConcat(a: seq<Effect>, b: seq<Effect>)
    ensures Handoffs(a + b) == Handoffs(a) + Handoffs(b)
    decreases |a|
  {
    if a == [] {
      assert a + b == b;
    } else {
      assert (a + b)[0] == a[0];
      assert (a + b)[1..] == a[1..] + b;
      HandoffsConcat(a[1..], b);
    }
  }

  /** Every delivery to a hook in `hs` completes. */
  predicate Deliverable(hs: seq<Hook>, inst: Option<Instance>, raw: Option<(Value, bool)>, settings: Settings) {
    forall i :: 0 <= i < |hs| ==> Delivers(hs[i], inst, OverrideFor(hs[i], raw), settings)
  }

  lemma DeliverableTail(hs: seq<Hook>, inst: Option<Instance>, raw: Option<(Value, bool)>, settings: Settings)
    requires hs != [] && Deliverable(hs, inst, raw, settings)
    ensures Deliverable(hs[1..], inst, raw, settings)
  {
    forall i | 0 <= i < |hs| - 1 ensures Delivers(hs[1..][i], inst, OverrideFor(hs[1..][i], raw), settings) {
      assert hs[1..][i] == hs[i + 1];
    }
  }

  /** When every delivery completes, so does the fan-out. */
  lemma {:induction false} FanOutCompletes(hs: seq<Hook>, inst: Option<Instance>, raw: Option<(Value, bool)>, settings: Settings)
    requires Deliverable(hs, inst, raw, settings)
    ensures FanOut(hs, inst, raw, settings).0 == Done
    decreases |hs|
  {
    if hs != [] {
      DeliverableTail(hs, inst, raw, settings);
      FanOutCompletes(hs[1..], inst, raw, settings);
    }
  }

  /** The signals a completed fan-out over `hs` is expected to send. */
  function Sent(hs: seq<Hook>, inst: Option<Instance>, raw: Option<(Value, bool)>, settings: Settings): seq<Effect>
    decreases |hs|
  {
    if hs == [] then []
    else
      var first := match Payload(hs[0], inst, OverrideFor(hs[0], raw), settings)
                   case Ok(p) => [HookSent(p, inst, hs[0])]
                   case Err(_) => [];
      first + Sent(hs[1..], inst, raw, settings)
  }

  /** The hand-offs a completed fan-out over `hs` is expected to make. */
  function HandedOff(hs: seq<Hook>, inst: Option<Instance>, raw: Option<(Value, bool)>, settings: Settings): seq<Effect>
    decreases |hs|
  {
    if hs == [] then []
    else
      var first := match Payload(hs[0], inst, OverrideFor(hs[0], raw), settings)
                   case Ok(p) => [Transmit(hs[0], p, inst, settings)[0]]
                   case Err(_) => [];
      first + HandedOff(hs[1..], inst, raw, settings)
  }

  lemma {:induction false} FanOutSent(hs: seq<Hook>, inst: Option<Instance>, raw: Option<(Value, bool)>, settings: Settings)
    requires Deliverable(hs, inst, raw, settings)
    ensures Signals(FanOut(hs, inst, raw, settings).1) == Sent(hs, inst, raw, settings)
    ensures Handoffs(FanOut(hs, inst, raw, settings).1) == HandedOff(hs, inst, raw, settings)
    decreases |hs|
  {
    if hs != [] {
      var p := Payload(hs[0], inst, OverrideFor(hs[0], raw), settings).value;
      DeliverableTail(hs, inst, raw, settings);
      FanOutSent(hs[1..], inst, raw, settings);
      SignalsConcat(Transmit(hs[0], p, inst, settings), FanOut(hs[1..], inst, raw, settings).1);
      HandoffsConcat(Transmit(hs[0], p, inst, settings), FanOut(hs[1..], inst, raw, settings).1);
      TransmitObserved(hs[0], p, inst, settings);
    }
  }

  lemma {:induction false} SentAt(hs: seq<Hook>, inst: Option<Instance>, raw: Option<(Value, bool)>, settings: Settings)
    requires Deliverable(hs, inst, raw, settings)
    ensures |Sent(hs, inst, raw, settings)| == |hs|
    ensures forall i :: 0 <= i < |hs| ==>
              Sent(hs, inst, raw, settings)[i] == HookSent(Payload(hs[i], inst, OverrideFor(hs[i], raw), settings).value, inst, hs[i])
    decreases |hs|
  {
    if hs != [] {
      DeliverableTail(hs, inst, raw, settings);
      SentAt(hs[1..], inst, raw, settings);
      forall i | 0 < i < |hs|
        ensures Sent(hs, inst, raw, settings)[i] == HookSent(Payload(hs[i], inst, OverrideFor(hs[i], raw), settings).value, inst, hs[i])
      {
        assert hs[1..][i - 1] == hs[i];
      }
    }
  }

  lemma {:induction false} HandedOffAt(hs: seq<Hook>, inst: Option<Instance>, raw: Option<(Value, bool)>, settings: Settings)
    requires Deliverable(hs, inst, raw, settings)
    ensures |HandedOff(hs, inst, raw, settings)| == |hs|
    ensures forall i :: 0 <= i < |hs| ==>
              HandedOff(hs, inst, raw, settings)[i] == Transmit(hs[i], Payload(hs[i], inst, OverrideFor(hs[i], raw), settings).value, inst, settings)[0]
    decreases |hs|
  {
    if hs != [] {
      DeliverableTail(hs, inst, raw, settings);
      HandedOffAt(hs[1..], inst, raw, settings);
      forall i | 0 < i < |hs|
        ensures HandedOff(hs, inst, raw, settings)[i] == Transmit(hs[i], Payload(hs[i], inst, OverrideFor(hs[i], raw), settings).value, inst, settings)[0]
      {
        assert hs[1..][i - 1] == hs[i];
      }
    }
  }

  /** ... signals each hook exactly once, in order, with its payload ... */
  lemma {:induction false} FanOutSignals(hs: seq<Hook>, inst: Option<Instance>, raw: Option<(Value, bool)>, settings: Settings)
    requires Deliverable(hs, inst, raw, settings)
    ensures |Signals(FanOut(hs, inst, raw, settings).1)| == |hs|
    ensures forall i :: 0 <= i < |hs| ==>
              Signals(FanOut(hs, inst, raw, settings).1)[i]
              == HookSent(Payload(hs[i], inst, OverrideFor(hs[i], raw), settings).value, inst, hs[i])
  {
    FanOutSent(hs, inst, raw, settings);
    SentAt(hs, inst, raw, settings);
  }

  /** ... and hands each payload over exactly once, in the same order. */
  lemma {:induction false} FanOutHandoffs(hs: seq<Hook>, inst: Option<Instance>, raw: Option<(Value, bool)>, settings: Settings)
    requires Deliverable(hs, inst, raw, settings)
    ensures |Handoffs(FanOut(hs, inst, raw, settings).1)| == |hs|
    ensures forall i :: 0 <= i < |hs| ==>
              Handoffs(FanOut(hs, inst, raw, settings).1)[i]
              == Transmit(hs[i], Payload(hs[i], inst, OverrideFor(hs[i], raw), settings).value, inst, settings)[0]
  {
    FanOutSent(hs, inst, raw, settings);
    HandedOffAt(hs, inst, raw, settings);
  }

  /** One delivery signals once, for its hook, and hands off once. */
  lemma TransmitObserved(h: Hook, p: Value, inst: Option<Instance>, settings: Settings)
    ensures Signals(Transmit(h, p, inst, settings)) == [HookSent(p, inst, h)]
    ensures Handoffs(Transmit(h, p, inst, settings)) == [Transmit(h, p, inst, settings)[0]]
    ensures SentTo(Transmit(h, p, inst, settings)) == [h]
  {
    var t := Transmit(h, p, inst, settings);
    assert !t[0].HookSent? && t[1].HookSent?;
    assert t[1..][1..] == [];
    assert Signals(t[1..]) == [t[1]] + Signals(t[1..][1..]);
    assert Handoffs(t[1..]) == Handoffs(t[1..][1..]);
    assert SentTo(t[1..]) == [h] + SentTo(t[1..][1..]);
  }

  /** The hooks signalled by a completed fan-out are exactly the hooks fanned
      out to, in order. */
  lemma {:induction false} FanOutSentTo(hs: seq<Hook>, inst: Option<Instance>, raw: Option<(Value, bool)>, settings: Settings)
    requires Deliverable(hs, inst, raw, settings)
    ensures SentTo(FanOut(hs, inst, raw, settings).1) == hs
    decreases |hs|
  {
    if hs != [] {
      var p := Payload(hs[0], inst, OverrideFor(hs[0], raw), settings).value;
      DeliverableTail(hs, inst, raw, settings);
      FanOutSentTo(hs[1..], inst, raw, settings);
      SentToConcat(Transmit(hs[0], p, inst, settings), FanOut(hs[1..], inst, raw, settings).1);
      TransmitObserved(hs[0], p, inst, settings);
      assert hs == [hs[0]] + hs[1..];
    }
  }

  /** A fan-out whose delivery to `hs[i]` is the first that does not
      complete stops there: it raises that delivery's exception, keeps the
      effects of the deliveries before it, and signals exactly the hooks
      before it. */
  lemma {:induction false} FanOutStops(hs: seq<Hook>, inst: Option<Instance>, raw: Option<(Value, bool)>, settings: Settings, i: nat)
    requires i < |hs| && Deliverable(hs[..i], inst, raw, settings)
    requires !Delivers(hs[i], inst, OverrideFor(hs[i], raw), settings)
    ensures FanOut(hs, inst, raw, settings).0 == Deliver(hs[i], inst, OverrideFor(hs[i], raw), settings).0
    ensures FanOut(hs, inst, raw, settings).0.Raised?
    ensures FanOut(hs, inst, raw, settings).1 == FanOut(hs[..i], inst, raw, settings).1
    ensures SentTo(FanOut(hs, inst, raw, settings).1) == hs[..i]
    decreases i
  {
    if i > 0 {
      assert hs[..i][0] == hs[0] && hs[..i][1..] == hs[1..][..i - 1];
      assert hs[1..][i - 1] == hs[i];
      DeliverableTail(hs[..i], inst, raw, settings);
      FanOutStops(hs[1..], inst, raw, settings, i - 1);
      assert Delivers(hs[..i][0], inst, OverrideFor(hs[..i][0], raw), settings);
    }
    FanOutSentTo(hs[..i], inst, raw, settings);
  }

  /** The position of the first hook in `hs` whose delivery does not
      complete, or `|hs|` when every delivery does. */
  function FirstUndelivered(hs: seq<Hook>, inst: Option<Instance>, raw: Option<(Value, bool)>, settings: Settings): (i: nat)
    ensures i <= |hs|
    ensures forall j :: 0 <= j < i ==> Delivers(hs[j], inst, OverrideFor(hs[j], raw), settings)
    ensures i < |hs| ==> !Delivers(hs[i], inst, OverrideFor(hs[i], raw), settings)
    decreases |hs|
  {
    if hs == [] then 0
    else if !Delivers(hs[0], inst, OverrideFor(hs[0], raw), settings) then 0
    else
      var k := FirstUndelivered(hs[1..], inst, raw, settings);
      assert forall j :: 0 < j < |hs| ==> hs[1..][j - 1] == hs[j];
      k + 1
  }

  /** A fan-out in which some delivery does not complete raises, at the
      first such hook, having signalled exactly the hooks before it. */
  lemma FanOutRaises(hs: seq<Hook>, inst: Option<Instance>, raw: Option<(Value, bool)>, settings: Settings)
    requires !Deliverable(hs, inst, raw, settings)
    ensures FanOut(hs, inst, raw, settings).0.Raised?
    ensures exists i :: 0 <= i < |hs| && Deliverable(hs[..i], inst, raw, settings)
              && !Delivers(hs[i], inst, OverrideFor(hs[i], raw), settings)
              && FanOut(hs, inst, raw, settings).0 == Deliver(hs[i], inst, OverrideFor(hs[i], raw), settings).0
              && SentTo(FanOut(hs, inst, raw, settings).1) == hs[..i]
  {
    var i := FirstUndelivered(hs, inst, raw, settings);
    var pre := hs[..i];
    assert forall j :: 0 <= j < |pre| ==> pre[j] == hs[j];
    FanOutStops(hs, inst, raw, settings, i);
  }

  /** A falsy raw payload sent without the hook envelope is no override at
      all: the fan-out is that of a model event. */
  lemma {:induction false} FanOutFalsyOverride(hs: seq<Hook>, inst: Option<Instance>, payload: Value, settings: Settings)
    requires !Truthy(payload)
    ensures FanOut(hs, inst, Some((payload, false)), settings).0 == FanOut(hs, inst, None, settings).0
    ensures FanOut(hs, inst, Some((payload, false)), settings).1 == FanOut(hs, inst, None, settings).1
    decreases |hs|
  {
    if hs != [] {
      assert Payload(hs[0], inst, OverrideFor(hs[0], Some((payload, false))), settings)
          == Payload(hs[0], inst, OverrideFor(hs[0], None), settings);
      FanOutFalsyOverride(hs[1..], inst, payload, settings);
    }
  }

  /** The delivery loops of `find_and_fire_hook` (no override) and of
      `raw_custom_event` (the raw payload as override): `deliver_hook` for each
      hook in turn, an exception propagating at once. */
  method DeliverAll(hooks: seq<Hook>, inst: Option<Instance>, raw: Option<(Value, bool)>, settings: Settings)
    returns (r: Outcome, effects: seq<Effect>)
    ensures r == FanOut(hooks, inst, raw, settings).0
    ensures effects == FanOut(hooks, inst, raw, settings).1
  {
    ghost var all := FanOut(hooks, inst, raw, settings);
    effects := [];
    var i := 0;
    assert hooks[0..] == hooks;
    while i < |hooks|
      invariant 0 <= i <= |hooks|
      invariant all.0 == FanOut(hooks[i..], inst, raw, settings).0
      invariant all.1 == effects + FanOut(hooks[i..], inst, raw, settings).1
    {
      var outcome, delivered := DeliverHook(hooks[i], inst, settings, OverrideFor(hooks[i], raw));
      FanOutAdvance(hooks, i, inst, raw, settings, outcome, delivered, effects, all);
      if outcome.Raised? {
        return outcome, effects;
      }
      effects := effects + delivered;
      i := i + 1;
    }
    assert hooks[i..] == [];
    assert effects + [] == effects;
    r := Done;
  }

  /** What `find_and_fire_hook` does. */
  function Fire(table: EventTable, registry: seq<Hook>, settings: Settings, e: string, inst: Instance, override: Option<UserId>): (Outcome, seq<Effect>) {
    match ResolveOwner(override, inst)
    case Err(err) => (Raised(err), [])
    case Ok(owner) =>
      if !Configured(table, e) then (Raised(UnknownEvent(e)), [])
      else FanOut(Subscribed(registry, owner, e), Some(inst), None, settings)
  }

  /** `find_and_fire_hook`: the owner is resolved before the event name is
      checked. When every delivery completes, every hook subscribed by that
      owner to that event receives the serialized instance once and no
      other hook is touched; otherwise the call raises after signalling a
      proper prefix of those hooks. */
  lemma FireDeliversSubscribed(table: EventTable, registry: seq<Hook>, settings: Settings, e: string, inst: Instance, override: Option<UserId>)
    ensures ResolveOwner(override, inst).Err? ==> Fire(table, registry, settings, e, inst, override) == (Raised(NoUserProperty), [])
    ensures ResolveOwner(override, inst).Ok? && !Configured(table, e) ==>
              Fire(table, registry, settings, e, inst, override) == (Raised(UnknownEvent(e)), [])
    ensures ResolveOwner(override, inst).Ok? && Configured(table, e) ==>
              var owner := ResolveOwner(override, inst).value;
              var hs := Subscribed(registry, owner, e);
              var fired := Fire(table, registry, settings, e, inst, override);
              !Deliverable(hs, Some(inst), None, settings) ==>
                fired.0.Raised? && exists i :: 0 <= i < |hs| && SentTo(fired.1) == hs[..i]
    ensures ResolveOwner(override, inst).Ok? && Configured(table, e)
            && Deliverable(Subscribed(registry, ResolveOwner(override, inst).value, e), Some(inst), None, settings) ==>
              var owner := ResolveOwner(override, inst).value;
              var fired := Fire(table, registry, settings, e, inst, override);
              fired.0 == Done
              && (forall h :: multiset(SentTo(fired.1))[h] == if Owns(owner, h) && h.event == e then multiset(registry)[h] else 0)
              && |Signals(fired.1)| == |SentTo(fired.1)|
              && (forall i :: 0 <= i < |Signals(fired.1)| ==>
                    Serialized(SentTo(fired.1)[i], Some(inst), settings).Ok?
                    && Signals(fired.1)[i] == HookSent(Serialized(SentTo(fired.1)[i], Some(inst), settings).value, Some(inst), SentTo(fired.1)[i]))
  {
    if ResolveOwner(override, inst).Ok? && Configured(table, e) {
      var hs := Subscribed(registry, ResolveOwner(override, inst).value, e);
      if Deliverable(hs, Some(inst), None, settings) {
        SubscribedSelects(registry, ResolveOwner(override, inst).value, e);
        FanOutCompletes(hs, Some(inst), None, settings);
        FanOutSignals(hs, Some(inst), None, settings);
        FanOutSentTo(hs, Some(inst), None, settings);
      } else {
        FanOutRaises(hs, Some(inst), None, settings);
      }
    }
  }

  /** `find_and_fire_hook`. */
  method FindAndFireHook(table: EventTable, registry: seq<Hook>, settings: Settings, e: string, inst: Instance, override: Option<UserId> := None)
    returns (r: Outcome, effects: seq<Effect>)
    ensures (r, effects) == Fire(table, registry, settings, e, inst, override)
  {
    match ResolveOwner(override, inst)
    case Err(err) =>
      return Raised(err), [];
    case Ok(owner) =>
      if !Configured(table, e) {
        return Raised(UnknownEvent(e)), [];
      }
      var hooks := Subscribed(registry, owner, e);
      r, effects := DeliverAll(hooks, Some(inst), None, settings);
  }

  /** What `distill_model_event` does. */
  function Distill(table: EventTable, registry: seq<Hook>, settings: Settings, inst: Instance, model: string, action: string, override: Option<UserId>): (Outcome, seq<Effect>) {
    match Distilled(table, model, action)
    case Err(err) => (Raised(err), [])
    case Ok(name) =>
      if name.Some? && name.value != "" then Fire(table, registry, settings, name.value, inst, override)
      else (Done, [])
  }

  /** With every descriptor well formed, an event is silent (nothing fires,
      nothing raises) when no entry selects `(model, action)` or every entry
      that does carries the empty event name. */
  lemma DistillSilent(table: EventTable, registry: seq<Hook>, settings: Settings, inst: Instance, model: string, action: string, override: Option<UserId>)
    requires forall i :: 0 <= i < |table| ==> !Malformed(table[i])
    requires forall i :: 0 <= i < |table| && Selects(table[i], model, action) ==> table[i].0 == ""
    ensures Distill(table, registry, settings, inst, model, action, override) == (Done, [])
  {
    if LastSelected(table, model, action).Some? {
      LastSelectedIsLast(table, model, action);
    }
  }

  /** `distill_model_event`: scan the whole table, remember the last entry
      whose descriptor splits into `(model, action)`, then fire it. */
  method DistillModelEvent(table: EventTable, registry: seq<Hook>, settings: Settings, inst: Instance, model: string, action: string, override: Option<UserId> := None)
    returns (r: Outcome, effects: seq<Effect>)
    ensures (r, effects) == Distill(table, registry, settings, inst, model, action, override)
  {
    var eventName: Option<string> := None;
    var i := 0;
    while i < |table|
      invariant 0 <= i <= |table|
      invariant FirstMalformed(table[..i]).None?
      invariant eventName == LastSelected(table[..i], model, action)
    {
      var (maybeEventName, auto) := table[i];
      assert table[..i + 1][..i] == table[..i];
      assert table[..i + 1][i] == table[i];
      if IsAuto(auto) {
        var parts := SplitDescriptor(auto.value);
        if parts.None? {
          SplitDescriptorParts(auto.value);
          FirstMalformedPrefix(table, i + 1);
          return Raised(MalformedDescriptor(auto.value)), [];
        }
        if parts.value == (model, action) {
          eventName := Some(maybeEventName);
        }
      }
      i := i + 1;
    }
    assert table[..i] == table;
    if eventName.Some? && eventName.value != "" {
      r, effects := FindAndFireHook(table, registry, settings, eventName.value, inst, override);
    } else {
      r, effects := Done, [];
    }
  }
}
