/** The visual configuration editor. Both editor classes share these handlers
    line for line; only the base editor computes which optional mode switches
    to enable. The editor never edits a configuration in place: each handler
    builds a copy and reports it in a `config-changed` event, which the model
    returns as `Outcome.emitted`. */
module Editor {
  import opened Wrappers
  import opened Js
  import opened Hass
  import opened Sorting
  import opened EntityDomain
  import opened EntityFeatures

  /** A card configuration as the editor sees it: a plain object. */
  type Config = map<string, JsValue>

  /** `config[key]`, `undefined` when the key is missing. */
  function Get(c: Config, key: string): JsValue {
    if key in c then c[key] else Undefined
  }

  /** The form control that raised an event. `configValue` names the
      configuration key it edits; `checked` is `undefined` on controls
      without a check state. */
  datatype Target = Target(configValue: Option<string>, inputType: string, value: JsValue, checked: JsValue)

  /** An input event; `detail` is `None` when the event carries no detail object. */
  datatype ChangeEvent = ChangeEvent(detail: Option<JsValue>, target: Target)

  /** The editor's state: its `_config`, and whether `hass` has been set. */
  datatype Editor = Editor(config: Option<Config>, hasHass: bool)

  /** The editor's state after a handler, and the configuration it emitted, if any. */
  datatype Outcome = Outcome(editor: Editor, emitted: Option<Config>)

  const TempUnitKey := "temp_unit"
  const Hidden := "hidden"
  const Default := "default"
  const Custom := "custom"
  /** The unit a newly chosen custom mode starts with. */
  const InitialCustomUnit := "°C"

  // ---------------------------------------------------------------------------
  // `_valueChanged`

  /** The edited key, when the control names one (an empty name counts as none). */
  function EditedKey(ev: ChangeEvent): Option<string> {
    if Truthy(ev.target.configValue) then ev.target.configValue else None
  }

  /** The new value, taken from the first source that applies: the event's
      `detail.value`, the number in a numeric field, the check state, the
      text. `toNumber` is JavaScript's `Number(...)`. */
  function EventValue(ev: ChangeEvent, toNumber: JsValue -> int): (v: JsValue)
    // the event's own detail wins over everything on the control
    ensures ev.detail.Some? && ev.detail.value != Undefined ==> v == ev.detail.value
    // otherwise a numeric field yields `Number(value)`, never a deletion
    ensures !(ev.detail.Some? && ev.detail.value != Undefined) && ev.target.inputType == "number" ==>
              v == Num(toNumber(ev.target.value))
    // then the check state, if the control has one, and only then the text
    ensures !(ev.detail.Some? && ev.detail.value != Undefined) && ev.target.inputType != "number" ==>
              v == if ev.target.checked != Undefined then ev.target.checked else ev.target.value
  {
    if ev.detail.Some? && ev.detail.value != Undefined then ev.detail.value
    else if ev.target.inputType == "number" then Num(toNumber(ev.target.value))
    else if ev.target.checked != Undefined then ev.target.checked
    else ev.target.value
  }

  /** An empty text or an absent value removes the key instead of storing it. */
  predicate IsDeletion(v: JsValue) {
    v == Str("") || v == Undefined
  }

  /** The configuration after storing `v` under `key`, or removing the key. */
  function Assign(c: Config, key: string, v: JsValue): Config {
    if IsDeletion(v) then c - {key} else c[key := v]
  }

  function ValueChanged(ed: Editor, ev: ChangeEvent, toNumber: JsValue -> int): (o: Outcome)
    // the editor's own configuration is never touched
    ensures o.editor == ed
    // no event without configuration, host, key, or an actual change
    ensures o.emitted.None? <==>
              || ed.config.None? || !ed.hasHass || EditedKey(ev).None?
              || Get(ed.config.value, EditedKey(ev).value) == EventValue(ev, toNumber)
    // otherwise exactly the edited key differs
    ensures o.emitted.Some? ==>
              var c := ed.config.value;
              var e := o.emitted.value;
              var key := EditedKey(ev).value;
              var v := EventValue(ev, toNumber);
              && e.Keys - {key} == c.Keys - {key}
              && (forall k :: k in e && k != key ==> k in c && e[k] == c[k])
              && (IsDeletion(v) ==> key !in e)
              && (!IsDeletion(v) ==> key in e && e[key] == v)
  {
    if ed.config.None? || !ed.hasHass || EditedKey(ev).None? then Outcome(ed, None)
    else
      var key := EditedKey(ev).value;
      var v := EventValue(ev, toNumber);
      if Get(ed.config.value, key) == v then Outcome(ed, None)
      else Outcome(ed, Some(Assign(ed.config.value, key, v)))
  }

  /** Once the host has taken over an emitted configuration, the same input
      event changes nothing more: it emits nothing, or the same configuration. */
  lemma ValueChangedSettles(ed: Editor, ev: ChangeEvent, toNumber: JsValue -> int)
    requires ValueChanged(ed, ev, toNumber).emitted.Some?
    ensures var e := ValueChanged(ed, ev, toNumber).emitted.value;
            var again := ValueChanged(Editor(Some(e), ed.hasHass), ev, toNumber).emitted;
            again.None? || again == Some(e)
  {
    var e := ValueChanged(ed, ev, toNumber).emitted.value;
    var key := EditedKey(ev).value;
    if IsDeletion(EventValue(ev, toNumber)) {
      assert e - {key} == e;
    }
  }

  /** A numeric field never removes its key: an emptied one stores a number. */
  lemma NumberFieldNeverDeletes(ed: Editor, ev: ChangeEvent, toNumber: JsValue -> int)
    requires ev.target.inputType == "number" && (ev.detail.None? || ev.detail.value == Undefined)
    requires ValueChanged(ed, ev, toNumber).emitted.Some?
    ensures var key := EditedKey(ev).value;
            key in ValueChanged(ed, ev, toNumber).emitted.value
  {
  }

  // ---------------------------------------------------------------------------
  // Temperature unit mode

  /** `_getTempUnitMode`: `false` hides the unit, any string (even empty) is
      a custom unit, anything else uses the host's unit. */
  function TempUnitMode(c: Config): (m: string)
    ensures m == Hidden || m == Custom || m == Default
    ensures m == Hidden <==> Get(c, TempUnitKey) == Bool(false)
    ensures m == Custom <==> Get(c, TempUnitKey).Str?
  {
    match Get(c, TempUnitKey)
    case Bool(false) => Hidden
    case Str(_) => Custom
    case _ => Default
  }

  /** The configuration for a newly selected temperature unit mode. */
  function WithTempUnitMode(c: Config, mode: string): Config {
    if mode == Hidden then c[TempUnitKey := Bool(false)]
    else if mode == Default then c - {TempUnitKey}
    else if mode == Custom then c[TempUnitKey := Str(InitialCustomUnit)]
    else c
  }

  /** `_tempUnitModeChanged`. */
  function TempUnitModeChanged(ed: Editor, mode: string): (o: Outcome)
    // without configuration or host nothing happens
    ensures ed.config.None? || !ed.hasHass ==> o == Outcome(ed, None)
    // otherwise the new configuration is both kept and emitted
    ensures ed.config.Some? && ed.hasHass ==>
              o.emitted.Some? && o.editor == Editor(o.emitted, ed.hasHass)
    // only `temp_unit` changes
    ensures o.emitted.Some? ==>
              var c := ed.config.value;
              var e := o.emitted.value;
              && e.Keys - {TempUnitKey} == c.Keys - {TempUnitKey}
              && (forall k :: k in e && k != TempUnitKey ==> k in c && e[k] == c[k])
    // hidden stores false, default removes the key, custom starts at °C, anything else copies
    ensures o.emitted.Some? ==>
              var c := ed.config.value;
              var e := o.emitted.value;
              && (mode == Hidden ==> Get(e, TempUnitKey) == Bool(false))
              && (mode == Default ==> TempUnitKey !in e)
              && (mode == Custom ==> Get(e, TempUnitKey) == Str(InitialCustomUnit))
              && (mode != Hidden && mode != Default && mode != Custom ==> e == c)
  {
    if ed.config.None? || !ed.hasHass then Outcome(ed, None)
    else
      var e := WithTempUnitMode(ed.config.value, mode);
      Outcome(Editor(Some(e), ed.hasHass), Some(e))
  }

  /** Selecting one of the three modes yields a configuration that reads back
      as that mode. */
  lemma TempUnitModeRoundTrip(ed: Editor, mode: string)
    requires ed.config.Some? && ed.hasHass
    requires mode == Hidden || mode == Default || mode == Custom
    ensures TempUnitMode(TempUnitModeChanged(ed, mode).emitted.value) == mode
  {
  }

  /** Re-selecting the mode a configuration already has keeps that mode; only
      a custom unit's text is reset. */
  lemma TempUnitModeReselect(ed: Editor)
    requires ed.config.Some? && ed.hasHass
    ensures var c := ed.config.value;
            var e := TempUnitModeChanged(ed, TempUnitMode(c)).emitted.value;
            && TempUnitMode(e) == TempUnitMode(c)
            && (TempUnitMode(c) == Hidden ==> e == c)
  {
    TempUnitModeRoundTrip(ed, TempUnitMode(ed.config.value));
  }

  // ---------------------------------------------------------------------------
  // Entity list

  /** An entry of the entity picker. */
  datatype ClimateEntity = ClimateEntity(entityId: string, friendlyName: string)

  predicate IsClimateId(id: string) {
    StartsWith(id, "climate.") || StartsWith(id, "water_heater.")
  }

  /** The picker label: the friendly name, or the id when that is missing or empty. */
  function PickerName(stateObj: EntityState, id: string): string {
    var f := stateObj.attributes.friendlyName;
    if Truthy(f) then f.value else id
  }

  /** The filter and map steps, in key order. */
  function Candidates(states: Table<EntityState>, ids: seq<string>): (r: seq<ClimateEntity>)
    requires forall i :: 0 <= i < |ids| ==> Lookup(states, ids[i]).Some?
    ensures forall e :: e in r <==>
              e.entityId in ids && IsClimateId(e.entityId)
              && e.friendlyName == PickerName(Lookup(states, e.entityId).value, e.entityId)
    ensures (forall i, j :: 0 <= i < j < |ids| ==> ids[i] != ids[j]) ==>
              forall i, j :: 0 <= i < j < |r| ==> r[i].entityId != r[j].entityId
  {
    if |ids| == 0 then []
    else
      var rest := Candidates(states, ids[1..]);
      var id := ids[0];
      assert forall x :: x in ids <==> x == id || x in ids[1..];
      if IsClimateId(id) then
        [ClimateEntity(id, PickerName(Lookup(states, id).value, id))] + rest
      else rest
  }

  /** Every key of the host's table can be looked up, and the keys are
      exactly the ids of its entries. */
  lemma KeysAreStateIds(states: Table<EntityState>)
    ensures forall i :: 0 <= i < |Keys(states)| ==> Lookup(states, Keys(states)[i]).Some?
    ensures forall id :: id in Keys(states) <==> exists i :: 0 <= i < |states| && states[i].0 == id
  {
    var ids := Keys(states);
    forall i | 0 <= i < |ids| ensures Lookup(states, ids[i]).Some? {
      assert states[i].0 == ids[i];
    }
    forall id | id in ids ensures exists i :: 0 <= i < |states| && states[i].0 == id {
      var i :| 0 <= i < |ids| && ids[i] == id;
      assert states[i].0 == id;
    }
  }

  /** Two sequences that are permutations of each other have the same members. */
  lemma SameElements<T>(c: seq<T>, r: seq<T>)
    requires multiset(r) == multiset(c)
    ensures forall e :: e in r <==> e in c
  {
    forall e ensures e in r <==> e in c {
      assert e in r <==> e in multiset(r);
      assert e in c <==> e in multiset(c);
    }
  }

  /** `_getClimateEntities`: the climate and water-heater entities, labelled
      and sorted by label. `leq` stands for the `localeCompare` collation. */
  function ClimateEntities(hasHass: bool, states: Table<EntityState>, leq: (string, string) -> bool)
    : (r: seq<ClimateEntity>)
    requires TotalPreorder(leq)
    ensures !hasHass ==> r == []
    // exactly the climate and water-heater entities, each with its label
    ensures hasHass ==>
              forall e :: e in r <==>
                (exists i :: 0 <= i < |states| && states[i].0 == e.entityId) && IsClimateId(e.entityId)
                && e.friendlyName == PickerName(Lookup(states, e.entityId).value, e.entityId)
    // each id at most once when the host's keys are distinct
    ensures (forall i, j :: 0 <= i < j < |states| ==> states[i].0 != states[j].0) ==>
              forall i, j :: 0 <= i < j < |r| ==> r[i].entityId != r[j].entityId
    ensures SortedByKey(r, (e: ClimateEntity) => e.friendlyName, leq)
  {
    if !hasHass then []
    else
      KeysAreStateIds(states);
      var ids := Keys(states);
      var c := Candidates(states, ids);
      var r := SortByKey(c, (e: ClimateEntity) => e.friendlyName, leq);
      SameElements(c, r);
      DistinctAfterPermutation(c, r);
      r
  }

  /** Reordering a list whose ids are distinct keeps them distinct. */
  lemma DistinctAfterPermutation(c: seq<ClimateEntity>, r: seq<ClimateEntity>)
    requires multiset(r) == multiset(c)
    ensures (forall i, j :: 0 <= i < j < |c| ==> c[i].entityId != c[j].entityId) ==>
              forall i, j :: 0 <= i < j < |r| ==> r[i].entityId != r[j].entityId
  {
    if forall i, j :: 0 <= i < j < |c| ==> c[i].entityId != c[j].entityId {
      forall i, j | 0 <= i < j < |r| ensures r[i].entityId != r[j].entityId {
        var a :| 0 <= a < |c| && c[a] == r[i] by { assert r[i] in multiset(c); }
        var b :| 0 <= b < |c| && c[b] == r[j] by { assert r[j] in multiset(c); }
        if r[i] == r[j] {
          OccursTwice(r, i, j);
          OccursOnce(c, a);
        } else {
          assert a != b;
        }
      }
    }
  }

  lemma OccursTwice<T>(s: seq<T>, i: nat, j: nat)
    requires i < j < |s| && s[i] == s[j]
    ensures multiset(s)[s[i]] >= 2
  {
    assert s == s[..i] + [s[i]] + s[i + 1..j] + [s[j]] + s[j + 1..];
  }

  lemma OccursOnce(c: seq<ClimateEntity>, a: nat)
    requires a < |c|
    requires forall i, j :: 0 <= i < j < |c| ==> c[i].entityId != c[j].entityId
    ensures multiset(c)[c[a]] == 1
  {
    assert c == c[..a] + [c[a]] + c[a + 1..];
    assert c[a] !in c[..a] && c[a] !in c[a + 1..];
  }

  // ---------------------------------------------------------------------------
  // Optional mode switches (base editor)

  /** The feature bits of the optional modes; their values live in host modules
      outside this model and are supplied by the caller. */
  datatype FeatureBits = FeatureBits(presetMode: int, fanMode: int, swingMode: int, awayMode: int)

  /** Which optional mode switches the base editor enables. */
  datatype ModeSupport = ModeSupport(preset: bool, fan: bool, swing: bool, away: bool)

  /** The configured entity's state, when the configuration names a string
      entity that the host knows. */
  function ConfiguredState(c: Config, states: Table<EntityState>): Option<EntityState> {
    match Get(c, "entity")
    case Str(id) => if id != "" then Lookup(states, id) else None
    case _ => None
  }

  function ModeSupportFor(c: Config, states: Table<EntityState>, bits: FeatureBits): (m: ModeSupport)
    // nothing is enabled for an unknown or missing entity
    ensures ConfiguredState(c, states).None? ==> m == ModeSupport(false, false, false, false)
    // preset, fan and swing need a climate entity with the feature bit
    ensures m.preset <==> ConfiguredState(c, states).Some?
                          && ComputeDomain(ConfiguredState(c, states).value.entityId) == "climate"
                          && SupportsFeature(ConfiguredState(c, states).value, bits.presetMode)
    ensures m.fan <==> ConfiguredState(c, states).Some?
                       && ComputeDomain(ConfiguredState(c, states).value.entityId) == "climate"
                       && SupportsFeature(ConfiguredState(c, states).value, bits.fanMode)
    ensures m.swing <==> ConfiguredState(c, states).Some?
                         && ComputeDomain(ConfiguredState(c, states).value.entityId) == "climate"
                         && SupportsFeature(ConfiguredState(c, states).value, bits.swingMode)
    // away needs a water heater with the feature bit
    ensures m.away <==> ConfiguredState(c, states).Some?
                        && ComputeDomain(ConfiguredState(c, states).value.entityId) == "water_heater"
                        && SupportsFeature(ConfiguredState(c, states).value, bits.awayMode)
  {
    match ConfiguredState(c, states)
    case None => ModeSupport(false, false, false, false)
    case Some(s) =>
      var domain := ComputeDomain(s.entityId);
      ModeSupport(
        domain == "climate" && SupportsFeature(s, bits.presetMode),
        domain == "climate" && SupportsFeature(s, bits.fanMode),
        domain == "climate" && SupportsFeature(s, bits.swingMode),
        domain == "water_heater" && SupportsFeature(s, bits.awayMode))
  }

  /** A climate entity's switches and a water heater's away switch are never
      enabled together, and an entity id starting `climate.` is a climate entity. */
  lemma ClimateAndAwayExclusive(c: Config, states: Table<EntityState>, bits: FeatureBits)
    ensures var m := ModeSupportFor(c, states, bits);
            !(m.away && (m.preset || m.fan || m.swing))
    ensures var m := ModeSupportFor(c, states, bits);
            m.preset ==> StartsWith(ConfiguredState(c, states).value.entityId, "climate.")
  {
    var m := ModeSupportFor(c, states, bits);
    if m.preset {
      var id := ConfiguredState(c, states).value.entityId;
      assert ComputeDomain(id) == "climate";
      assert '.' in id;
    }
  }
}
