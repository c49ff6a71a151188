/** The thermostat card's control logic as a state machine over host snapshots
    and user actions. Outbound service calls are appended to `sent`; the
    debounced temperature call is a single `pending` slot that every
    adjustment overwrites and that a `DebounceElapsed` event flushes. */
module ThermostatCard {
  import opened Wrappers
  import opened Js
  import opened Hass

  /** The two card classes. They share this state machine; its one difference
      is which registry entries count as related, where the base card also
      requires the same platform. What they draw differs as well (see `CardView`). */
  datatype Variant = Base | Main

  /** The card configuration (`MiniThermostatCardConfig`). */
  datatype CardConfig = CardConfig(
    entity: Option<string>,
    name: Option<string>,
    layout: Option<string>,
    tempUnit: JsValue,
    stepSize: Option<int>,
    showName: Option<bool>,
    showSensorLabels: Option<bool>,
    showRelatedEntities: Option<bool>)

  /** The displayed target temperature. The host may leave the attribute out
      (`undefined`) or send `null`; JavaScript's `+` reads `null` as 0 but
      turns `undefined` into `NaN`, and `NaN === NaN` is false. */
  datatype Temp = Degrees(value: int) | Unset | Null | NotANumber

  /** JavaScript `t + d`. */
  function AddStep(t: Temp, d: int): (r: Temp)
    // a number or `null` (read as 0) moves by the step ...
    ensures r.Degrees? <==> t.Degrees? || t.Null?
    ensures t.Degrees? ==> r == Degrees(t.value + d)
    ensures t.Null? ==> r == Degrees(d)
    // ... while `undefined` and `NaN` give `NaN`
    ensures t.Unset? || t.NotANumber? ==> r == NotANumber
  {
    match t
    case Degrees(x) => Degrees(x + d)
    case Null => Degrees(d)
    case _ => NotANumber
  }

  /** JavaScript `a === b`: `NaN` equals nothing, not even itself. */
  predicate StrictEquals(a: Temp, b: Temp) {
    a == b && !a.NotANumber?
  }

  /** The reported `temperature` attribute, stored as it is. */
  function Reported(attribute: Reading): (r: Temp)
    ensures attribute.Missing? <==> r.Unset?
    ensures attribute.NullReading? <==> r.Null?
    ensures attribute.Number? <==> r.Degrees?
    ensures attribute.Number? ==> r.value == attribute.value
  {
    match attribute
    case Number(x) => Degrees(x)
    case NullReading => Null
    case Missing => Unset
  }

  /** A service call handed to the host. */
  datatype Command =
    | SetTemperature(entityId: string, temperature: Temp)
    | SetHvacMode(entityId: string, hvacMode: string)
    | Toggle(entityId: string)
  {
    /** The `(domain, service)` pair the call goes to. */
    function Service(): (string, string) {
      match this
      case SetTemperature(_, _) => ("climate", "set_temperature")
      case SetHvacMode(_, _) => ("climate", "set_hvac_mode")
      case Toggle(_) => ("homeassistant", "toggle")
    }
  }

  /** The card's fields (the card's own field is named `releatedEntities`). */
  datatype CardState = CardState(
    config: Option<CardConfig>,
    hass: Option<Hass>,
    updatingValues: bool,
    stepSize: int,
    showName: bool,
    showRelatedEntities: bool,
    showLabels: bool,
    layout: string,
    temp: Temp,
    stateObj: Option<EntityState>,
    relatedEntities: Table<RegistryEntry>,
    pending: Option<Temp>,
    sent: seq<Command>)

  /** A freshly created card, with the field initialisers of the class. */
  const Initial := CardState(None, None, false, 1, true, false, false, "row", Degrees(0), None, [], None, [])

  /** `config.entity` is truthy. */
  predicate NamesEntity(c: CardConfig) {
    Truthy(c.entity)
  }

  predicate Configured(card: CardState) {
    card.config.Some? && NamesEntity(card.config.value)
  }

  function EntityOf(card: CardState): string
    requires Configured(card)
  {
    card.config.value.entity.value
  }

  // ---------------------------------------------------------------------------
  // setConfig

  const MissingEntityError := "You need to define an entity"

  /** `setConfig`: rejects a configuration without an entity; otherwise stores
      it, clears the updating flag and applies the display defaults. */
  function SetConfig(card: CardState, c: CardConfig): (r: Result<CardState, string>)
    ensures r.Failure? <==> !NamesEntity(c)
    ensures r.Failure? ==> r.error == MissingEntityError
    ensures r.Success? ==>
              var n := r.value;
              && n.config == Some(c)
              && !n.updatingValues
              && n.stepSize == (if TruthyNumber(c.stepSize) then c.stepSize.value else 1)
              && n.showName == c.showName.GetOr(true)
              && n.showRelatedEntities == c.showRelatedEntities.GetOr(false)
              && n.showLabels == c.showSensorLabels.GetOr(true)
              && n.layout == c.layout.GetOr("row")
              // the displayed value, the snapshot data and the command state are kept
              && n.temp == card.temp && n.hass == card.hass && n.stateObj == card.stateObj
              && n.relatedEntities == card.relatedEntities
              && n.pending == card.pending && n.sent == card.sent
  {
    if !NamesEntity(c) then Failure(MissingEntityError)
    else
      Success(card.(
        config := Some(c),
        updatingValues := false,
        stepSize := if TruthyNumber(c.stepSize) then c.stepSize.value else 1,
        showName := c.showName.GetOr(true),
        showRelatedEntities := c.showRelatedEntities.GetOr(false),
        showLabels := c.showSensorLabels.GetOr(true),
        layout := c.layout.GetOr("row")))
  }

  // ---------------------------------------------------------------------------
  // Related entities

  /** Whether registry entry `(key, entry)` is related to the target entry. */
  predicate IsRelated(v: Variant, target: RegistryEntry, key: string, entry: RegistryEntry) {
    && key != target.entityId
    && entry.deviceId == target.deviceId
    && (v == Main || entry.platform == target.platform)
  }

  /** `xs` is `ys` with some entries left out, order kept. */
  ghost predicate IsSubsequence<T>(xs: seq<T>, ys: seq<T>)
    decreases |ys|
  {
    || |xs| == 0
    || (|ys| > 0 && ((xs[0] == ys[0] && IsSubsequence(xs[1..], ys[1..])) || IsSubsequence(xs, ys[1..])))
  }

  /** The registry entries related to `target`, in registry order. */
  function RelatedEntities(v: Variant, target: RegistryEntry, entries: Table<RegistryEntry>)
    : (r: Table<RegistryEntry>)
    ensures forall p :: p in r <==> p in entries && IsRelated(v, target, p.0, p.1)
    ensures IsSubsequence(r, entries)
  {
    if |entries| == 0 then []
    else
      var rest := RelatedEntities(v, target, entries[1..]);
      assert forall p :: p in entries <==> p == entries[0] || p in entries[1..];
      if IsRelated(v, target, entries[0].0, entries[0].1) then
        var r := [entries[0]] + rest;
        assert r[1..] == rest;
        r
      else rest
  }

  /** The base card's related entities are the main card's, restricted to the
      target's platform, in the same order. */
  lemma {:induction false} BaseRelatedRestrictsMain(target: RegistryEntry, entries: Table<RegistryEntry>)
    ensures forall p :: p in RelatedEntities(Base, target, entries) <==>
                        p in RelatedEntities(Main, target, entries) && p.1.platform == target.platform
    ensures IsSubsequence(RelatedEntities(Base, target, entries), RelatedEntities(Main, target, entries))
  {
    if |entries| > 0 {
      BaseRelatedRestrictsMain(target, entries[1..]);
      var b := RelatedEntities(Base, target, entries);
      var m := RelatedEntities(Main, target, entries);
      var e := entries[0];
      if IsRelated(Base, target, e.0, e.1) {
        assert b[1..] == RelatedEntities(Base, target, entries[1..]);
        assert m[1..] == RelatedEntities(Main, target, entries[1..]);
      } else if IsRelated(Main, target, e.0, e.1) {
        var bs := RelatedEntities(Base, target, entries[1..]);
        assert m[1..] == RelatedEntities(Main, target, entries[1..]);
        SkipHead(bs, m);
      }
    }
  }

  /** A subsequence of the tail is a subsequence of the whole. */
  lemma {:induction false} SkipHead<T>(xs: seq<T>, ys: seq<T>)
    requires |ys| > 0 && IsSubsequence(xs, ys[1..])
    ensures IsSubsequence(xs, ys)
  {
  }

  // ---------------------------------------------------------------------------
  // Snapshot delivery (`set hass` and `_updateFromHass`)

  /** The snapshot does not make the card throw. The related-entity filter
      reads the target's registry entry for every registry entry it visits, so
      when the configured entity has a state, its registry entry must exist
      unless the registry is empty and the filter visits nothing. */
  predicate SnapshotSafe(card: CardState, h: Hass) {
    Configured(card) && Lookup(h.states, EntityOf(card)).Some? ==>
      RegistryReadable(h, Lookup(h.states, EntityOf(card)).value)
  }

  /** Filtering the registry for `obj`'s related entities does not throw. */
  predicate RegistryReadable(h: Hass, obj: EntityState) {
    |h.entities| == 0 || Lookup(h.entities, obj.entityId).Some?
  }

  /** The related entities of `obj` in the snapshot: none when the registry is
      empty, since the filter then never looks at the target's entry. */
  function RelatedOf(v: Variant, h: Hass, obj: EntityState): (r: Table<RegistryEntry>)
    requires RegistryReadable(h, obj)
    ensures |h.entities| == 0 ==> r == []
    ensures Lookup(h.entities, obj.entityId).Some? ==>
              r == RelatedEntities(v, Lookup(h.entities, obj.entityId).value, h.entities)
  {
    match Lookup(h.entities, obj.entityId)
    case Some(target) => RelatedEntities(v, target, h.entities)
    case None => []
  }

  /** The snapshot data and reconciliation step, once the target's state is known. */
  function Reconcile(v: Variant, card: CardState, h: Hass, obj: EntityState): (r: CardState)
    requires RegistryReadable(h, obj)
    ensures r == card.(hass := Some(h), stateObj := Some(obj),
                       relatedEntities := RelatedOf(v, h, obj),
                       temp := r.temp, updatingValues := r.updatingValues)
    ensures card.updatingValues ==> r.temp == card.temp && r.updatingValues == card.temp.NotANumber?
    ensures !card.updatingValues ==> r.temp == Reported(obj.attributes.temperature) && !r.updatingValues
  {
    var related := RelatedOf(v, h, obj);
    var temp := if card.updatingValues then card.temp else Reported(obj.attributes.temperature);
    var card' := card.(hass := Some(h), stateObj := Some(obj), relatedEntities := related);
    if card.updatingValues && StrictEquals(card.temp, temp) then card'.(updatingValues := false)
    else card'.(temp := temp)
  }

  function ApplySnapshot(v: Variant, card: CardState, h: Hass): (r: CardState)
    requires SnapshotSafe(card, h)
    // the snapshot is stored; configuration, settings and commands are untouched
    ensures r.hass == Some(h)
    ensures r.config == card.config && r.stepSize == card.stepSize && r.layout == card.layout
    ensures r.showName == card.showName && r.showRelatedEntities == card.showRelatedEntities
    ensures r.showLabels == card.showLabels
    ensures r.pending == card.pending && r.sent == card.sent
    // before configuration nothing else happens
    ensures !Configured(card) ==> r == card.(hass := Some(h))
    // an unknown entity clears the state object and keeps everything else
    ensures Configured(card) && Lookup(h.states, EntityOf(card)).None? ==>
              r == card.(hass := Some(h), stateObj := None)
    ensures Configured(card) && Lookup(h.states, EntityOf(card)).Some? ==>
              var obj := Lookup(h.states, EntityOf(card)).value;
              && r.stateObj == Some(obj)
              && (|h.entities| == 0 ==> r.relatedEntities == [])
              && (Lookup(h.entities, obj.entityId).Some? ==>
                    r.relatedEntities == RelatedEntities(v, Lookup(h.entities, obj.entityId).value, h.entities))
              // a pending local edit survives this snapshot, whatever the host reports ...
              && (card.updatingValues ==> r.temp == card.temp)
              // ... and is marked settled, unless it is NaN (which never equals itself)
              && (card.updatingValues ==> r.updatingValues == card.temp.NotANumber?)
              // without a local edit the host's value is adopted
              && (!card.updatingValues ==> r.temp == Reported(obj.attributes.temperature) && !r.updatingValues)
  {
    if !Configured(card) then card.(hass := Some(h))
    else match Lookup(h.states, EntityOf(card))
      case None => card.(hass := Some(h), stateObj := None)
      case Some(obj) => Reconcile(v, card, h, obj)
  }

  /** The main card applies a snapshot exactly as the base card does, except
      that it keeps registry entries from other platforms among the related ones. */
  lemma MainSnapshotMatchesBase(card: CardState, h: Hass)
    requires SnapshotSafe(card, h)
    ensures var b := ApplySnapshot(Base, card, h);
            ApplySnapshot(Main, card, h) == b.(relatedEntities := ApplySnapshot(Main, card, h).relatedEntities)
    ensures ApplySnapshot(Main, card, h).temp == ApplySnapshot(Base, card, h).temp
    ensures ApplySnapshot(Main, card, h).updatingValues == ApplySnapshot(Base, card, h).updatingValues
  {
  }

  /** With an empty registry the card never reads the target's registry entry:
      the snapshot applies, there are no related entities, and the temperature
      is reconciled as usual. */
  lemma EmptyRegistrySnapshot(v: Variant, card: CardState, h: Hass)
    requires Configured(card) && Lookup(h.states, EntityOf(card)).Some? && |h.entities| == 0
    ensures SnapshotSafe(card, h)
    ensures var r := ApplySnapshot(v, card, h);
            && r.stateObj == Lookup(h.states, EntityOf(card))
            && r.relatedEntities == []
            && (!card.updatingValues ==> r.temp == Reported(Lookup(h.states, EntityOf(card)).value.attributes.temperature))
            && (card.updatingValues ==> r.temp == card.temp && r.updatingValues == card.temp.NotANumber?)
  {
  }

  /** The reconciliation rule as written: after a local edit the first snapshot
      keeps the edited value and clears the flag, and the next one adopts
      whatever the host reports, even if the host has not caught up. */
  lemma EditLastsOneSnapshot(v: Variant, card: CardState, h1: Hass, h2: Hass)
    requires Configured(card) && card.updatingValues && card.temp.Degrees?
    requires Lookup(h1.states, EntityOf(card)).Some? && Lookup(h2.states, EntityOf(card)).Some?
    requires SnapshotSafe(card, h1)
    requires RegistryReadable(h2, Lookup(h2.states, EntityOf(card)).value)
    ensures var c1 := ApplySnapshot(v, card, h1);
            SnapshotSafe(c1, h2) && c1.temp == card.temp && !c1.updatingValues
    ensures var c2 := ApplySnapshot(v, ApplySnapshot(v, card, h1), h2);
            c2.temp == Reported(Lookup(h2.states, EntityOf(card)).value.attributes.temperature)
            && !c2.updatingValues
  {
  }

  // ---------------------------------------------------------------------------
  // Temperature adjustment and the debounced service call

  /** `setTemperature(step)`: an optimistic local update; the new value
      replaces whatever call was waiting. */
  function AdjustTemperature(card: CardState, step: int): (r: CardState)
    ensures r.updatingValues
    ensures r.temp == AddStep(card.temp, step)
    ensures r.pending == Some(r.temp)
    // no call is made yet, and nothing else changes
    ensures r.sent == card.sent
    ensures r == card.(updatingValues := true, temp := r.temp, pending := r.pending)
  {
    var t := AddStep(card.temp, step);
    card.(updatingValues := true, temp := t, pending := Some(t))
  }

  /** The quiet period has elapsed: the waiting call, if any, is made with the
      last value it was given, and the flag is cleared. */
  /** The waiting call, if any, can be made: it reads `config.entity` and
      calls the service through the host object. */
  predicate CanFire(card: CardState) {
    card.pending.Some? ==> Configured(card) && card.hass.Some?
  }

  function DebounceElapsed(card: CardState): (r: CardState)
    requires CanFire(card)
    ensures card.pending.None? ==> r == card
    ensures card.pending.Some? ==>
              && r.sent == card.sent + [SetTemperature(EntityOf(card), card.pending.value)]
              && r.sent[|card.sent|].Service() == ("climate", "set_temperature")
              && r.pending.None? && !r.updatingValues
              && r == card.(sent := r.sent, pending := None, updatingValues := false)
  {
    match card.pending
    case None => card
    case Some(t) =>
      card.(sent := card.sent + [SetTemperature(EntityOf(card), t)], pending := None, updatingValues := false)
  }

  function Sum(ds: seq<int>): int {
    if |ds| == 0 then 0 else Sum(ds[..|ds| - 1]) + ds[|ds| - 1]
  }

  /** A burst of adjustments with no snapshot or quiet period in between. */
  function Burst(card: CardState, ds: seq<int>): CardState {
    if |ds| == 0 then card else AdjustTemperature(Burst(card, ds[..|ds| - 1]), ds[|ds| - 1])
  }

  /** A burst from a numeric temperature moves it by the sum of the steps and
      leaves exactly one call waiting, carrying the final value. */
  lemma {:induction false} BurstCoalesces(card: CardState, ds: seq<int>)
    requires card.temp.Degrees? && |ds| > 0
    ensures var b := Burst(card, ds);
            && b.temp == Degrees(card.temp.value + Sum(ds))
            && b.pending == Some(b.temp)
            && b.updatingValues
            && b.sent == card.sent
            && b.config == card.config
            && b.hass == card.hass
  {
    if |ds| > 1 {
      BurstCoalesces(card, ds[..|ds| - 1]);
      assert ds[..|ds| - 1][..|ds| - 2] == ds[..|ds| - 2];
    }
  }

  /** After the burst the quiet period produces one `set_temperature` call
      with the starting value plus all the steps. */
  lemma BurstSendsOnce(card: CardState, ds: seq<int>)
    requires Configured(card) && card.hass.Some? && card.temp.Degrees? && |ds| > 0
    ensures var b := Burst(card, ds);
            && Configured(b) && b.hass.Some?
            && DebounceElapsed(b).sent == card.sent + [SetTemperature(EntityOf(card), Degrees(card.temp.value + Sum(ds)))]
            && !DebounceElapsed(b).updatingValues
  {
    BurstCoalesces(card, ds);
  }

  /** A host that sends `temperature: null` lets a press start from 0, while
      one that leaves the attribute out makes the press send `NaN`. */
  lemma PressFromNullOrMissing(card: CardState, step: int)
    requires Configured(card) && card.hass.Some? && (card.temp.Null? || card.temp.Unset?)
    ensures DebounceElapsed(AdjustTemperature(card, step)).sent
              == card.sent + [SetTemperature(EntityOf(card), if card.temp.Null? then Degrees(step) else NotANumber)]
    // a later snapshot settles a press from `null` but never one from `undefined`
    ensures card.temp.Null? <==> StrictEquals(AdjustTemperature(card, step).temp, AdjustTemperature(card, step).temp)
  {
  }

  // ---------------------------------------------------------------------------
  // Mode selection and toggling

  /** `setHvacMode`: one `climate.set_hvac_mode` call, unless the mode is
      already the entity's state. */
  function SelectHvacMode(card: CardState, stateObj: EntityState, mode: string): (r: CardState)
    requires Configured(card)
    ensures stateObj.state == mode ==> r == card
    ensures stateObj.state != mode ==> r == card.(sent := card.sent + [SetHvacMode(EntityOf(card), mode)])
    ensures stateObj.state != mode ==> r.sent[|card.sent|].Service() == ("climate", "set_hvac_mode")
  {
    if stateObj.state != mode then card.(sent := card.sent + [SetHvacMode(EntityOf(card), mode)]) else card
  }

  /** `toggleState`: one `homeassistant.toggle` call for a switch, nothing otherwise. */
  function ToggleState(card: CardState, stateObj: EntityState): (r: CardState)
    ensures stateObj.attributes.deviceClass == Some("switch") ==>
              r == card.(sent := card.sent + [Toggle(stateObj.entityId)])
    ensures stateObj.attributes.deviceClass == Some("switch") ==>
              r.sent[|card.sent|].Service() == ("homeassistant", "toggle")
    ensures stateObj.attributes.deviceClass != Some("switch") ==> r == card
  {
    if stateObj.attributes.deviceClass == Some("switch") then card.(sent := card.sent + [Toggle(stateObj.entityId)])
    else card
  }

  // ---------------------------------------------------------------------------
  // Events and traces

  datatype Event =
    | Configure(config: CardConfig)
    | HassUpdate(hass: Hass)
    | Increase
    | Decrease
    | QuietPeriodElapsed
    | ChooseHvacMode(mode: string)
    | ToggleRelated(stateObj: EntityState)

  /** The card shows its controls (and so can receive clicks) only once it has
      a host, a configuration and the entity's state. */
  predicate Rendered(card: CardState) {
    card.hass.Some? && Configured(card) && card.stateObj.Some?
  }

  /** The event can be delivered without the card throwing. */
  predicate Enabled(card: CardState, e: Event) {
    match e
    case Configure(_) => true
    case HassUpdate(h) => SnapshotSafe(card, h)
    case QuietPeriodElapsed => CanFire(card)
    case _ => Rendered(card)
  }

  function Step(v: Variant, card: CardState, e: Event): CardState
    requires Enabled(card, e)
  {
    match e
    case Configure(c) =>
      // a rejected configuration throws before touching the card
      (match SetConfig(card, c) case Success(n) => n case Failure(_) => card)
    case HassUpdate(h) => ApplySnapshot(v, card, h)
    case Increase => AdjustTemperature(card, card.stepSize)
    case Decrease => AdjustTemperature(card, -card.stepSize)
    case QuietPeriodElapsed => DebounceElapsed(card)
    case ChooseHvacMode(m) => SelectHvacMode(card, card.stateObj.value, m)
    case ToggleRelated(s) => ToggleState(card, s)
  }

  ghost predicate ValidTrace(v: Variant, card: CardState, es: seq<Event>)
    decreases |es|
  {
    |es| == 0 || (Enabled(card, es[0]) && ValidTrace(v, Step(v, card, es[0]), es[1..]))
  }

  function Run(v: Variant, card: CardState, es: seq<Event>): CardState
    requires ValidTrace(v, card, es)
    decreases |es|
  {
    if |es| == 0 then card else Run(v, Step(v, card, es[0]), es[1..])
  }

  /** What every reachable card satisfies: a stored configuration names an
      entity, and a waiting call has a configuration to take the entity from
      and a host to send it through. */
  predicate Invariant(card: CardState) {
    && (card.config.Some? ==> NamesEntity(card.config.value))
    && (card.pending.Some? ==> card.config.Some? && card.hass.Some?)
  }

  lemma StepKeepsInvariant(v: Variant, card: CardState, e: Event)
    requires Invariant(card) && Enabled(card, e)
    ensures Invariant(Step(v, card, e))
    // the quiet period can always elapse
    ensures Enabled(Step(v, card, e), QuietPeriodElapsed)
  {
  }

  /** A waiting call on a card without a host cannot fire: the debounced
      callback would throw on the missing host object. */
  lemma NoHostNoFire(card: CardState)
    requires card.pending.Some? && card.hass.None?
    ensures !Enabled(card, QuietPeriodElapsed)
    ensures !Invariant(card)
  {
  }

  /** The invariant holds along any valid trace. */
  lemma {:induction false} RunKeepsInvariant(v: Variant, card: CardState, es: seq<Event>)
    requires Invariant(card) && ValidTrace(v, card, es)
    ensures Invariant(Run(v, card, es))
    decreases |es|
  {
    if |es| > 0 {
      StepKeepsInvariant(v, card, es[0]);
      RunKeepsInvariant(v, Step(v, card, es[0]), es[1..]);
    }
  }

  /** Every card reachable from a freshly created one satisfies the invariant,
      and every call it has made was made along the way. */
  lemma Reachable(v: Variant, es: seq<Event>)
    requires ValidTrace(v, Initial, es)
    ensures Invariant(Run(v, Initial, es))
    ensures Enabled(Run(v, Initial, es), QuietPeriodElapsed)
  {
    RunKeepsInvariant(v, Initial, es);
  }

  /** Service calls are only ever appended. */
  lemma {:induction false} RunOnlyAppends(v: Variant, card: CardState, es: seq<Event>)
    requires ValidTrace(v, card, es)
    ensures |Run(v, card, es).sent| >= |card.sent|
    ensures Run(v, card, es).sent[..|card.sent|] == card.sent
    decreases |es|
  {
    if |es| > 0 {
      var next := Step(v, card, es[0]);
      assert |next.sent| >= |card.sent| && next.sent[..|card.sent|] == card.sent;
      RunOnlyAppends(v, next, es[1..]);
    }
  }

  function Presses(k: nat): (r: seq<Event>)
    ensures |r| == k && forall i :: 0 <= i < k ==> r[i] == Increase
  {
    if k == 0 then [] else [Increase] + Presses(k - 1)
  }

  /** `k` presses of the plus button followed by the quiet period: exactly one
      call, carrying the starting value plus `k` steps. */
  lemma {:induction false} PressesThenQuiet(v: Variant, card: CardState, k: nat)
    requires Rendered(card) && card.temp.Degrees? && card.pending.None? && k > 0
    ensures ValidTrace(v, card, Presses(k) + [QuietPeriodElapsed])
    ensures Run(v, card, Presses(k) + [QuietPeriodElapsed]).sent
              == card.sent + [SetTemperature(EntityOf(card), Degrees(card.temp.value + k * card.stepSize))]
    ensures !Run(v, card, Presses(k) + [QuietPeriodElapsed]).updatingValues
  {
    var next := Step(v, card, Increase);
    assert (Presses(k) + [QuietPeriodElapsed])[1..] == Presses(k - 1) + [QuietPeriodElapsed];
    PressesThenQuietFrom(v, next, k - 1);
    assert next.temp.value + (k - 1) * card.stepSize == card.temp.value + k * card.stepSize;
  }

  /** The inductive step: further presses when a call is already waiting. */
  lemma {:induction false} PressesThenQuietFrom(v: Variant, card: CardState, k: nat)
    requires Rendered(card) && card.temp.Degrees? && card.pending == Some(card.temp)
    ensures ValidTrace(v, card, Presses(k) + [QuietPeriodElapsed])
    ensures Run(v, card, Presses(k) + [QuietPeriodElapsed]).sent
              == card.sent + [SetTemperature(EntityOf(card), Degrees(card.temp.value + k * card.stepSize))]
    ensures !Run(v, card, Presses(k) + [QuietPeriodElapsed]).updatingValues
    decreases k
  {
    if k == 0 {
      assert Presses(0) + [QuietPeriodElapsed] == [QuietPeriodElapsed];
    } else {
      var next := Step(v, card, Increase);
      assert (Presses(k) + [QuietPeriodElapsed])[1..] == Presses(k - 1) + [QuietPeriodElapsed];
      PressesThenQuietFrom(v, next, k - 1);
      assert next.temp.value + (k - 1) * card.stepSize == card.temp.value + k * card.stepSize;
    }
  }
}
