/** What the thermostat card shows: its size, the temperature unit, translated
    labels, the icons of related entities and of the step buttons, and the
    overall shape of the rendered card. */
module CardView {
  import opened Wrappers
  import opened Js
  import opened Hass
  import opened ThermostatCard
  import Editor
  import NameCleanup

  // ---------------------------------------------------------------------------
  // getCardSize

  /** The card's height in dashboard rows. */
  function CardSize(card: CardState): (r: int)
    ensures 2 <= r <= 4
    ensures r == 2 <==> card.layout == "row" && !card.showRelatedEntities
    ensures r == 4 <==> card.layout != "row" && card.showRelatedEntities
  {
    if card.layout == "row" then (if card.showRelatedEntities then 3 else 2)
    else (if card.showRelatedEntities then 4 else 3)
  }

  /** Showing related entities costs one row, and the column layout one more
      than the row layout. */
  lemma CardSizeParts(card: CardState, layout: string)
    requires layout != "row"
    ensures CardSize(card.(showRelatedEntities := true)) == CardSize(card.(showRelatedEntities := false)) + 1
    ensures CardSize(card.(layout := layout)) == CardSize(card.(layout := "row")) + 1
  {
  }

  // ---------------------------------------------------------------------------
  // Layout of the step buttons

  const IconUp := "hass:chevron-up"
  const IconDown := "hass:chevron-down"
  const IconPlus := "mdi:plus"
  const IconMinus := "mdi:minus"

  /** The layout test as `render` writes it: only an explicit `layout: row`
      counts, although `setConfig` defaults a missing layout to row. */
  predicate IsLayoutRowAsWritten(config: CardConfig) {
    config.layout == Some("row")
  }

  /** The step buttons' icons as `render` chooses them, from the raw config. */
  function StepIconsAsWritten(config: CardConfig): (r: (string, string))
    ensures r == (IconPlus, IconMinus) || r == (IconUp, IconDown)
    ensures r.0 == IconPlus <==> IsLayoutRowAsWritten(config)
  {
    if IsLayoutRowAsWritten(config) then (IconPlus, IconMinus) else (IconUp, IconDown)
  }

  /** With no layout configured, the size is computed for the row layout while
      the controls are drawn in the column layout, with chevrons. */
  lemma UnsetLayoutDisagreesAsWritten(card: CardState, c: CardConfig)
    requires NamesEntity(c) && c.layout.None?
    ensures var n := SetConfig(card, c).value;
            && n.layout == "row"
            && CardSize(n) <= 3
            && !IsLayoutRowAsWritten(n.config.value)
            && StepIconsAsWritten(n.config.value) == (IconUp, IconDown)
            && StepIcons(n) == (IconPlus, IconMinus)
  {
  }

  /** Once a layout is configured, the test as written and the corrected one
      draw the same icons: the discrepancy is confined to an unset layout. */
  lemma SetLayoutAgreesAsWritten(card: CardState, c: CardConfig)
    requires NamesEntity(c)
    ensures var n := SetConfig(card, c).value;
            StepIconsAsWritten(n.config.value) == StepIcons(n) <==> c.layout.Some?
  {
  }

  /** The corrected test: the layout `setConfig` settled on. */
  predicate IsLayoutRow(card: CardState) {
    card.layout == "row"
  }

  /** The corrected test always agrees with the size computation. */
  lemma LayoutAgreesWithSize(card: CardState)
    ensures IsLayoutRow(card) <==> CardSize(card) == (if card.showRelatedEntities then 3 else 2)
  {
  }

  /** The two step buttons' icons: plus and minus beside the value in the row
      layout, chevrons above and below it otherwise. */
  function StepIcons(card: CardState): (r: (string, string))
    ensures r == (IconPlus, IconMinus) || r == (IconUp, IconDown)
    ensures r.0 == IconPlus <==> CardSize(card) < 4 && (CardSize(card) == 3 ==> card.showRelatedEntities)
  {
    if IsLayoutRow(card) then (IconPlus, IconMinus) else (IconUp, IconDown)
  }

  // ---------------------------------------------------------------------------
  // getTempUnit

  /** The unit shown next to temperatures: a configured boolean or string is
      used as given, anything else falls back to the host's unit system, and
      `false` when the host has none. */
  function TempUnit(configured: JsValue, h: Hass): (r: JsValue)
    ensures r.Bool? || r.Str?
    ensures configured.Bool? || configured.Str? ==> r == configured
    ensures !(configured.Bool? || configured.Str?) ==>
              r == (if h.unitTemperature.Some? then Str(h.unitTemperature.value) else Bool(false))
  {
    if configured.Bool? || configured.Str? then configured
    else match h.unitTemperature
      case Some(u) => Str(u)
      case None => Bool(false)
  }

  /** `tempUnit !== false`. */
  predicate ShowTempUnit(unit: JsValue) {
    unit != Bool(false)
  }

  /** The unit is hidden exactly when it is configured off, or left unset on a
      host without a unit system. */
  lemma TempUnitHiddenIff(configured: JsValue, h: Hass)
    ensures !ShowTempUnit(TempUnit(configured, h)) <==>
              configured == Bool(false) || (!(configured.Bool? || configured.Str?) && h.unitTemperature.None?)
  {
  }

  /** The editor's unit mode decides what the card shows: "hidden" hides the
      unit, "custom" shows the configured text, and "default" shows the host's
      unit, except for a hand-written `temp_unit: true`, which the editor also
      reports as "default" but the card shows literally. */
  lemma EditorUnitModeMatchesCard(c: Editor.Config, h: Hass)
    ensures var mode := Editor.TempUnitMode(c);
            var unit := TempUnit(Editor.Get(c, Editor.TempUnitKey), h);
            && (mode == Editor.Hidden ==> !ShowTempUnit(unit))
            && (mode == Editor.Custom ==> ShowTempUnit(unit) && unit == Editor.Get(c, Editor.TempUnitKey))
            && (mode == Editor.Default && Editor.Get(c, Editor.TempUnitKey) != Bool(true) ==>
                  unit == TempUnit(Undefined, h))
  {
  }

  /** After the editor switches the unit mode, the card follows it. */
  lemma EditorModeChangeReachesCard(ed: Editor.Editor, mode: string, h: Hass)
    requires ed.config.Some? && ed.hasHass
    ensures var e := Editor.TempUnitModeChanged(ed, mode).emitted.value;
            var unit := TempUnit(Editor.Get(e, Editor.TempUnitKey), h);
            && (mode == Editor.Hidden ==> !ShowTempUnit(unit))
            && (mode == Editor.Custom ==> unit == Str(Editor.InitialCustomUnit))
            && (mode == Editor.Default ==> unit == TempUnit(Undefined, h))
  {
    var e := Editor.TempUnitModeChanged(ed, mode).emitted.value;
    if mode == Editor.Default {
      assert Editor.TempUnitKey !in e;
    }
  }

  // ---------------------------------------------------------------------------
  // haLocalize

  /** `selectedLanguage || language`. */
  function Language(h: Hass): string {
    if Truthy(h.selectedLanguage) then h.selectedLanguage.value else h.language
  }

  /** The translation of `prefix + text` in the host's language, or the text
      itself when there is none. */
  function Localize(h: Hass, text: string, prefix: string): (r: string)
    ensures var lang := Language(h);
            && (lang in h.resources && prefix + text in h.resources[lang] ==> r == h.resources[lang][prefix + text])
            && (lang !in h.resources || prefix + text !in h.resources[lang] ==> r == text)
  {
    var lang := Language(h);
    if lang in h.resources && prefix + text in h.resources[lang] then h.resources[lang][prefix + text]
    else text
  }

  /** A non-empty selected language overrides the profile language; an empty
      one does not count. */
  lemma SelectedLanguageWins(h: Hass, text: string, prefix: string, other: string)
    ensures Truthy(h.selectedLanguage) ==>
              Localize(h.(language := other), text, prefix) == Localize(h, text, prefix)
    ensures h.selectedLanguage.None? || h.selectedLanguage == Some("") ==>
              Localize(h, text, prefix) == Localize(h.(selectedLanguage := None), text, prefix)
  {
  }

  const StatePrefix := "component.climate.entity_component._.state."
  const CurrentlyLabel := "ui.card.climate.currently"
  const StateLabel := "ui.panel.lovelace.editor.card.generic.state"

  // ---------------------------------------------------------------------------
  // getIcon and getIconByDomain

  /** A switch icon chosen when the entity id contains `fragment`. */
  datatype IconRule = IconRule(fragment: string, on: string, off: string)

  /** Tried in this order; the first whose fragment occurs in the id wins. */
  const SwitchRules: seq<IconRule> := [
    IconRule("fresh_air", "mdi:air-filter", "mdi:air-filter"),
    IconRule("quiet", "mdi:headphones", "mdi:headphones-off"),
    IconRule("fan", "mdi:fan", "mdi:fan-off"),
    IconRule("panel_light", "mdi:lightbulb", "mdi:lightbulb-outline")
  ]

  /** Used for a switch that no rule matches. */
  const PlainSwitch := IconRule("", "mdi:light-switch", "mdi:light-switch-off")

  /** The first rule, from index `i` on, whose fragment occurs in `entityId`. */
  function FirstRule(entityId: string, rules: seq<IconRule>, i: nat): (r: Option<nat>)
    requires i <= |rules|
    ensures r.Some? ==> i <= r.value < |rules| && Includes(entityId, rules[r.value].fragment)
    ensures r.Some? ==> forall j :: i <= j < r.value ==> !Includes(entityId, rules[j].fragment)
    ensures r.None? ==> forall j :: i <= j < |rules| ==> !Includes(entityId, rules[j].fragment)
    decreases |rules| - i
  {
    if i == |rules| then None
    else if Includes(entityId, rules[i].fragment) then Some(i)
    else FirstRule(entityId, rules, i + 1)
  }

  function SwitchRule(entityId: string): IconRule {
    match FirstRule(entityId, SwitchRules, 0)
    case Some(k) => SwitchRules[k]
    case None => PlainSwitch
  }

  /** `getIconByDomain`: only switches get an icon from the card; the state
      `"on"` picks the "on" icon, any other state the "off" one. */
  function IconByDomain(deviceClass: Option<string>, entityId: string, state: string): (r: string)
    ensures deviceClass != Some("switch") ==> r == ""
    ensures deviceClass == Some("switch") ==> r != ""
    ensures deviceClass == Some("switch") && FirstRule(entityId, SwitchRules, 0).None? ==>
              r == (if state == "on" then "mdi:light-switch" else "mdi:light-switch-off")
    ensures deviceClass == Some("switch") && FirstRule(entityId, SwitchRules, 0).Some? ==>
              var rule := SwitchRules[FirstRule(entityId, SwitchRules, 0).value];
              && Includes(entityId, rule.fragment)
              && r == (if state == "on" then rule.on else rule.off)
  {
    if deviceClass != Some("switch") then ""
    else
      var rule := SwitchRule(entityId);
      if state == "on" then rule.on else rule.off
  }

  /** Rules are tried in order: a quiet fan gets headphones, a fresh-air fan
      gets the air filter, and a light panel's fan gets the fan. */
  lemma SwitchRulePriority(entityId: string, state: string)
    requires Includes(entityId, "fan")
    ensures Includes(entityId, "fresh_air") ==> IconByDomain(Some("switch"), entityId, state) == "mdi:air-filter"
    ensures !Includes(entityId, "fresh_air") && Includes(entityId, "quiet") ==>
              IconByDomain(Some("switch"), entityId, state) in {"mdi:headphones", "mdi:headphones-off"}
    ensures !Includes(entityId, "fresh_air") && !Includes(entityId, "quiet") ==>
              IconByDomain(Some("switch"), entityId, state) in {"mdi:fan", "mdi:fan-off"}
  {
    var k := FirstRule(entityId, SwitchRules, 0);
    if !Includes(entityId, "fresh_air") && !Includes(entityId, "quiet") {
      assert k.Some? && k.value <= 2;
    }
  }

  /** `getIcon`: the entity's own icon when it has one, otherwise the
      switch icon for its id and state. */
  function Icon(stateObj: EntityState): (r: string)
    ensures Truthy(stateObj.attributes.icon) ==> r == stateObj.attributes.icon.value
    ensures !Truthy(stateObj.attributes.icon) ==>
              r == IconByDomain(stateObj.attributes.deviceClass, stateObj.entityId, stateObj.state)
  {
    if Truthy(stateObj.attributes.icon) then stateObj.attributes.icon.value
    else IconByDomain(stateObj.attributes.deviceClass, stateObj.entityId, stateObj.state)
  }

  /** Every related switch, the only entities the card can toggle, shows an icon. */
  lemma TogglableEntitiesHaveIcons(stateObj: EntityState)
    requires stateObj.attributes.deviceClass == Some("switch")
    ensures Icon(stateObj) != ""
  {
  }

  // ---------------------------------------------------------------------------
  // render

  /** The parts of the rendered card that depend on its state. */
  datatype View =
    | Blank
    | NotFound(entity: string)
    | Controls(
        title: Option<string>,
        stepIcons: (string, string),
        temp: Temp,
        updating: bool,
        unit: Option<string>,
        stateLabel: string,
        headings: Option<(string, string)>,
        related: Option<seq<RelatedItem>>)

  /** One related entity as drawn: its icon, whether it is on (any state other
      than `off`), and a tooltip, which only the base card has. */
  datatype RelatedItem = RelatedItem(icon: string, active: bool, title: Option<string>)

  /** JavaScript's `String(v)` for a unit that is shown. */
  function UnitText(unit: JsValue): string {
    match unit
    case Str(s) => s
    case Bool(b) => if b then "true" else "false"
    case _ => ""
  }

  /** `config.name || friendly_name || ''`. */
  function Title(c: CardConfig, stateObj: EntityState): (r: string)
    ensures Truthy(c.name) ==> r == c.name.value
    ensures !Truthy(c.name) ==> r == stateObj.attributes.friendlyName.GetOr("")
  {
    if Truthy(c.name) then c.name.value
    else stateObj.attributes.friendlyName.GetOr("")
  }

  function Render(v: Variant, card: CardState): (r: View)
    ensures r.Blank? <==> card.hass.None? || card.config.None?
    ensures r.NotFound? <==> card.hass.Some? && card.config.Some? && card.stateObj.None?
    ensures r.Controls? <==> card.hass.Some? && card.config.Some? && card.stateObj.Some?
    ensures r.Controls? ==>
              && r.temp == card.temp
              && r.updating == card.updatingValues
              && (r.title.Some? <==> card.showName)
              && (r.title.Some? ==> r.title.value == Title(card.config.value, card.stateObj.value))
              && r.stateLabel == Localize(card.hass.value, card.stateObj.value.state, StatePrefix)
              && (r.headings.Some? <==> card.showLabels)
              && (r.headings.Some? ==>
                    r.headings.value == (Localize(card.hass.value, CurrentlyLabel, ""), Localize(card.hass.value, StateLabel, "")))
              && (r.related.Some? <==> card.showRelatedEntities)
              && (r.related.Some? ==> r.related.value == RelatedItems(v, card.hass.value, card.relatedEntities))
              && (r.unit.Some? <==> ShowTempUnit(TempUnit(card.config.value.tempUnit, card.hass.value)))
              && (r.unit.Some? ==> r.unit.value == UnitText(TempUnit(card.config.value.tempUnit, card.hass.value)))
              && r.stepIcons == StepIcons(card)
  {
    if card.hass.None? || card.config.None? then Blank
    else if card.stateObj.None? then NotFound(card.config.value.entity.GetOr(""))
    else
      var h := card.hass.value;
      var c := card.config.value;
      var obj := card.stateObj.value;
      var unit := TempUnit(c.tempUnit, h);
      Controls(
        if card.showName then Some(Title(c, obj)) else None,
        StepIcons(card),
        card.temp,
        card.updatingValues,
        if ShowTempUnit(unit) then Some(UnitText(unit)) else None,
        Localize(h, obj.state, StatePrefix),
        if card.showLabels then Some((Localize(h, CurrentlyLabel, ""), Localize(h, StateLabel, ""))) else None,
        if card.showRelatedEntities then Some(RelatedItems(v, h, card.relatedEntities)) else None)
  }

  /** A related entity as drawn by card variant `v`. The base card titles it
      with its cleaned-up name; the main card shows the icon alone. One whose
      state is missing from the snapshot shows an empty, inactive item. */
  function RelatedItemOf(v: Variant, h: Hass, entityId: string): (r: RelatedItem)
    ensures v.Main? ==> r.title.None?
    ensures Lookup(h.states, entityId).None? ==> r == RelatedItem("", false, None)
    ensures Lookup(h.states, entityId).Some? ==>
              var s := Lookup(h.states, entityId).value;
              && r.icon == Icon(s)
              && (r.active <==> s.state != "off")
              && (v.Base? && (Truthy(s.attributes.friendlyName) || '.' in s.entityId) ==>
                    r.title == Some(NameCleanup.RelatedEntityName(s)))
  {
    match Lookup(h.states, entityId)
    case None => RelatedItem("", false, None)
    case Some(s) =>
      var title :=
        if v.Base? && (Truthy(s.attributes.friendlyName) || '.' in s.entityId)
        then Some(NameCleanup.RelatedEntityName(s)) else None;
      RelatedItem(Icon(s), s.state != "off", title)
  }

  /** The related entities as drawn, in order. */
  function RelatedItems(v: Variant, h: Hass, related: Table<RegistryEntry>): (r: seq<RelatedItem>)
    ensures |r| == |related|
    ensures forall i :: 0 <= i < |related| ==> r[i] == RelatedItemOf(v, h, related[i].0)
  {
    if |related| == 0 then []
    else [RelatedItemOf(v, h, related[0].0)] + RelatedItems(v, h, related[1..])
  }

  /** The two variants draw the same icons and states for the related
      entities; only the base card adds tooltips. */
  lemma VariantsDifferOnlyInTitles(h: Hass, related: Table<RegistryEntry>, i: nat)
    requires i < |related|
    ensures RelatedItems(Main, h, related)[i] == RelatedItems(Base, h, related)[i].(title := None)
  {
  }

  /** The controls appear exactly when user actions are possible. */
  lemma ControlsIffRendered(v: Variant, card: CardState)
    requires Invariant(card)
    ensures Render(v, card).Controls? <==> Rendered(card)
  {
  }

  /** On every card reachable from a freshly created one, the controls appear
      exactly when host, configured entity and state object are present. */
  lemma ReachableControlsIffRendered(v: Variant, es: seq<Event>)
    requires ValidTrace(v, Initial, es)
    ensures Render(v, Run(v, Initial, es)).Controls? <==> Rendered(Run(v, Initial, es))
  {
    Reachable(v, es);
    ControlsIffRendered(v, Run(v, Initial, es));
  }
}
