# Mini thermostat card: a Dafny model

This project models the logic of a Home Assistant Lovelace card that shows a
climate entity's target temperature with step buttons, its HVAC modes and a row
of related entities that can be toggled. It also models the card's visual
editor. The model covers:

- **The card as a state machine** (`ThermostatCard`, card.dfy).
  - Host snapshots (`set hass` / `_updateFromHass`), `setConfig`, the optimistic
    `setTemperature`, the debounced `climate.set_temperature` call, `setHvacMode`
    and `toggleState` are pure functions over an immutable `CardState`.
  - Service calls are appended to a command log.
  - The debouncer is a single pending slot, which a `QuietPeriodElapsed` event
    flushes.
  - The two card classes (`MiniThermostatCardBase` and `MiniThermostatCard`)
    share this state machine. Their one difference in it is which registry
    entries count as related, so the model takes the variant as a parameter.
  - What they draw differs more: only the base card gives each related entity a
    cleaned-up name as its tooltip (`CardView.RelatedItemOf`), and only the base
    card titles its mode buttons with translated names.
- **What the card shows** (`CardView`, card_view.dfy): the card size, the
  temperature unit, translated labels, the switch-icon rules, the step-button
  icons and the overall shape of the rendered card.
- **The base card's related-entity name cleanup** (`NameCleanup`,
  name_cleanup.dfy), which the main card does not have:
  - a leading hexadecimal id of 12 or more digits followed by whitespace is
    removed;
  - then a trailing parenthesised group is removed;
  - then the result is trimmed.

  The two regular expressions are modelled with their exact character classes
  and match rules.
- **The editor's configuration transforms** (`Editor`, editor.dfy): the generic
  value change, the temperature-unit mode and its round trip, the list of
  climate entities, and the gating of the preset, fan, swing and away switches.
- **Two helpers from the Home Assistant frontend**: `computeDomain`
  (compute_domain.dfy) and `supportsFeature` (supports_feature.dfy). The bitwise
  AND and OR of JavaScript are modelled on 32-bit two's-complement patterns.

Supporting modules:

- `Js` (js.dfy): truthiness, `indexOf`, `includes`, `substring` and the
  whitespace classes of ECMAScript.
- `Hass` (hass.dfy): the host objects, kept as ordered association lists,
  because the source iterates over them with `Object.keys` and
  `Object.entries`.
- `Sorting` (sorting.dfy): an insertion sort under any total preorder,
  which stands in for `localeCompare`.
- `Wrappers` (wrappers.dfy): `Option` and `Result`.

Temperatures are integers, and so are step sizes (for example, tenths of a
degree). A missing `temperature` attribute, an explicit `null` and `NaN` are
three distinct values: `undefined + step` is `NaN`, `null + step` is `step`, and
`NaN === NaN` is false while `null === null` is true.

### Reconciliation as written

`_updateFromHass` never compares the host's temperature with the local one:
while `updatingValues` is set, it reads `temp` back from the card itself, so the
equality test always holds unless the value is `NaN`.

- The first snapshot after an edit keeps the edited value and clears the flag.
- The next snapshot adopts whatever the host reports.

The model follows the code (`ApplySnapshot`, `EditLastsOneSnapshot`). It does
not follow the more natural reading "stay dirty until the host confirms the
value".

## Model

| member | source | states |
|---|---|---|
| ThermostatCard.SetConfig | src/mini-thermostat-card-base.ts:76-88 | fails, with the source's message, exactly when the entity is missing or empty; otherwise stores the config, clears the updating flag, takes a non-zero step size or 1, defaults show_name to true, related entities to false, labels to true and layout to row, and keeps the displayed value, the snapshot data and the pending call |
| ThermostatCard.RelatedEntities | src/mini-thermostat-card-base.ts:59-66 | an entry is related exactly when its key differs from the target's id, its device id equals the target's (two absent ids are equal) and, for the base card, its platform matches; the result keeps registry order (a subsequence) |
| ThermostatCard.BaseRelatedRestrictsMain | src/mini-thermostat-card.ts:71-74 | the main card's related set drops only the platform test: the base card's list is the main card's list restricted to the target's platform, as an order-preserving subsequence |
| ThermostatCard.ApplySnapshot | src/mini-thermostat-card-base.ts:35-74 | stores the snapshot; before configuration nothing else changes; an unknown entity clears the state object and leaves temp, flag and related entities alone; otherwise a pending edit survives the snapshot and the flag is cleared unless temp is NaN, and a clean card adopts the reported temperature; the related entities are those of the target's registry entry, or none when the registry is empty; configuration, settings, pending call and command log never change |
| ThermostatCard.EmptyRegistrySnapshot | src/mini-thermostat-card-base.ts:59-73 | with an empty registry a snapshot that finds the entity's state always applies, gives no related entities and reconciles the temperature as usual, since the filter never reads the missing registry entry |
| ThermostatCard.MainSnapshotMatchesBase | src/mini-thermostat-card.ts:62-82 | the main card applies a snapshot exactly as the base card does except for the related-entity list; in particular the reconciliation of temp and flag is identical |
| ThermostatCard.EditLastsOneSnapshot | src/mini-thermostat-card-base.ts:68-73 | after a numeric local edit, the first snapshot keeps the edited value and clears the flag, and the second adopts the host's value, whatever it is |
| ThermostatCard.AdjustTemperature | src/mini-thermostat-card-base.ts:213-218 | sets the flag, moves temp by the step (NaN once temp is unset or NaN), makes the new value the one the waiting call will carry, makes no call yet, and changes nothing else |
| ThermostatCard.DebounceElapsed | src/mini-thermostat-card-base.ts:202-211 | needs a config and a host when a call is waiting; with nothing waiting nothing happens; otherwise exactly one climate.set_temperature call for the configured entity with the last value given, then the slot is empty and the flag is cleared |
| ThermostatCard.BurstCoalesces | src/mini-thermostat-card-base.ts:202-218 | any burst of adjustments from a numeric temperature moves it by the sum of the steps, leaves exactly one call waiting with the final value, and sends nothing |
| ThermostatCard.BurstSendsOnce | src/mini-thermostat-card-base.ts:202-218 | a burst followed by the quiet period produces one set_temperature call with the starting value plus all steps, and leaves the card clean |
| ThermostatCard.PressesThenQuiet | src/mini-thermostat-card.ts:226-241 | on a rendered card, k presses of the plus button followed by the quiet period form a valid trace that appends exactly one call, carrying the starting temperature plus k steps |
| ThermostatCard.PressesThenQuietFrom | src/mini-thermostat-card.ts:226-241 | the same for further presses while a call is already waiting |
| ThermostatCard.SelectHvacMode | src/mini-thermostat-card-base.ts:220-227 | no call when the entity is already in the mode; otherwise exactly one set_hvac_mode call for the configured entity with that mode, and nothing else changes |
| ThermostatCard.ToggleState | src/mini-thermostat-card.ts:252-259 | exactly one homeassistant.toggle call for the clicked entity when its device class is switch, no call otherwise |
| ThermostatCard.StepKeepsInvariant | src/mini-thermostat-card-base.ts:202-218 | every event keeps "a stored config names an entity, and a waiting call has a config and a host", so the quiet period can always elapse without the call failing |
| ThermostatCard.NoHostNoFire | src/mini-thermostat-card-base.ts:202-208 | a waiting call on a card without a host object may not fire (the callback would throw) and such a card breaks the invariant |
| ThermostatCard.RunKeepsInvariant | src/mini-thermostat-card-base.ts:202-218 | the invariant holds after any valid trace from a card that satisfies it |
| ThermostatCard.Reachable | src/mini-thermostat-card-base.ts:23-33 | every card reachable from a freshly created one (the class's field initialisers) satisfies the invariant, and its quiet period can elapse |
| ThermostatCard.RunOnlyAppends | src/mini-thermostat-card-base.ts:220-236 | along any valid trace, service calls are only ever appended to the log |
| ThermostatCard.AddStep | src/mini-thermostat-card-base.ts:215 | a numeric temperature moves by exactly the step; a null one counts as 0 and becomes the step; a missing or NaN one becomes NaN; the result is a number exactly when the input was a number or null |
| ThermostatCard.PressFromNullOrMissing | src/mini-thermostat-card-base.ts:68-73 | from a null host temperature, a press and the quiet period send the step itself; from a missing one they send NaN; and only the null case leaves a value equal to itself, which the next snapshot needs to clear the flag |
| CardView.CardSize | src/mini-thermostat-card.ts:100-106 | the size lies between 2 and 4; it is 2 exactly for a row layout without related entities and 4 exactly for a column layout with them |
| CardView.CardSizeParts | src/mini-thermostat-card-base.ts:90-96 | showing related entities adds exactly one row, and any non-row layout takes one row more than the row layout |
| CardView.StepIconsAsWritten | src/mini-thermostat-card-base.ts:107-110 | plus and minus exactly when the raw config says layout row, chevrons otherwise |
| CardView.UnsetLayoutDisagreesAsWritten | src/mini-thermostat-card-base.ts:87-110 | with no layout configured, the card is sized as a row card while render's test for row fails and it draws chevrons, where the corrected icons are plus and minus |
| CardView.SetLayoutAgreesAsWritten | src/mini-thermostat-card-base.ts:87-110 | the icons as written and the corrected icons agree exactly when a layout is configured |
| CardView.LayoutAgreesWithSize | src/mini-thermostat-card-base.ts:87-96 | the corrected row test holds exactly when the size is the row size |
| CardView.StepIcons | src/mini-thermostat-card-base.ts:107-110 | corrected: plus and minus icons exactly when the card is sized as a row card, chevrons otherwise |
| CardView.TempUnit | src/mini-thermostat-card.ts:313-319 | a configured boolean or string is used verbatim; anything else gives the host's unit, or false without one |
| CardView.TempUnitHiddenIff | src/mini-thermostat-card.ts:124 | the unit is hidden exactly when it is configured false, or unconfigured on a host without a unit system |
| CardView.EditorUnitModeMatchesCard | src/mini-thermostat-card-editor-base.ts:246-251 | the editor's hidden mode hides the card's unit, custom shows the configured text, and default shows the host's unit (except a hand-written true, which the card shows literally) |
| CardView.EditorModeChangeReachesCard | src/mini-thermostat-card-editor-base.ts:253-271 | after choosing hidden, default or custom in the editor, the card hides its unit, shows the host's unit, or shows °C respectively |
| CardView.Localize | src/mini-thermostat-card.ts:272-277 | the translation of prefix + text in the effective language when one exists, the text itself otherwise |
| CardView.SelectedLanguageWins | src/mini-thermostat-card-base.ts:249-254 | a non-empty selected language makes the profile language irrelevant; an empty or missing one falls back to it |
| CardView.FirstRule | src/mini-thermostat-card.ts:290-303 | the first rule whose fragment occurs in the id, with no earlier rule matching, or none when no rule matches |
| CardView.IconByDomain | src/mini-thermostat-card.ts:285-311 | empty unless the device class is switch; for a switch, never empty: the on or off icon (by state == "on") of the first matching rule, or the light-switch pair when none matches |
| CardView.SwitchRulePriority | src/mini-thermostat-card-base.ts:264-290 | the rules are tried in order: a fan id that also mentions fresh_air gets the air filter, one that mentions quiet gets headphones, and otherwise the fan |
| CardView.Icon | src/mini-thermostat-card.ts:279-283 | the entity's own icon when it is non-empty, the switch icon rules otherwise |
| CardView.TogglableEntitiesHaveIcons | src/mini-thermostat-card-base.ts:256-290 | every switch, the only kind of entity the card can toggle, shows a non-empty icon |
| CardView.Title | src/mini-thermostat-card-base.ts:108 | the configured name when non-empty, otherwise the friendly name, otherwise empty |
| CardView.Render | src/mini-thermostat-card-base.ts:98-196 | blank without host or config, "not found" without the entity's state, controls otherwise; the controls show the card's temp and flag; the title `Title` iff show_name; the entity's state translated with the climate state prefix; the translated "currently" and "state" headings iff labels; the variant's related items iff enabled; the unit's text iff the unit is shown; and the corrected step icons |
| CardView.RelatedItemOf | src/mini-thermostat-card-base.ts:174-184 | the entity's icon, active exactly when its state is not off, and on the base card its cleaned-up name as the title; the main card never has a title |
| CardView.RelatedItems | src/mini-thermostat-card-base.ts:173-190 | one item per related entity, in order, each drawn from that entity's state |
| CardView.VariantsDifferOnlyInTitles | src/mini-thermostat-card.ts:204-217 | the main card draws each related entity exactly as the base card does, minus the title |
| CardView.ControlsIffRendered | src/mini-thermostat-card-base.ts:98-105 | on a card satisfying the invariant the controls (and so the click handlers) appear exactly when host, configured entity and state object are all present |
| CardView.ReachableControlsIffRendered | src/mini-thermostat-card-base.ts:98-105 | the same for every card reachable from a freshly created one by a valid trace |
| NameCleanup.StripHexPrefix | src/mini-thermostat-card-base.ts:180 | unchanged when no run of 12 or more hex digits followed by whitespace starts the name; otherwise removes exactly the longest such match |
| NameCleanup.MatchAtIsParenSuffix | src/mini-thermostat-card-base.ts:182 | the scan for the parenthesis pattern at a position succeeds exactly when the text from there is optional whitespace, "(", anything without line breaks, ")", optional whitespace, end |
| NameCleanup.StripParenSuffix | src/mini-thermostat-card-base.ts:182 | unchanged when no trailing parenthesised group matches; otherwise cuts at the leftmost position where one does |
| NameCleanup.Trim | src/mini-thermostat-card-base.ts:182 | removes only whitespace, only at the ends, and leaves no whitespace at either end |
| NameCleanup.TrimIdempotent | src/mini-thermostat-card-base.ts:182 | trimming twice is trimming once |
| NameCleanup.CleanName | src/mini-thermostat-card-base.ts:180-182 | the cleaned name never starts or ends with whitespace |
| NameCleanup.CleanNameKeepsPlainNames | src/mini-thermostat-card-base.ts:179-182 | a name without a hex prefix, a parenthesised suffix or surrounding whitespace is left as it is |
| NameCleanup.ObjectIdPart | src/mini-thermostat-card-base.ts:178 | the text between the first and second dot of the id (to the end if there is no second dot) |
| NameCleanup.RelatedEntityName | src/mini-thermostat-card-base.ts:178-182 | the cleaned friendly name when it is non-empty, otherwise the cleaned object id |
| Editor.EventValue | src/mini-thermostat-card-editor-base.ts:208-218 | the event's detail value wins, then a number field yields `Number` of its text, then the checked state if present, then the text value |
| Editor.ValueChanged | src/mini-thermostat-card-editor-base.ts:197-232 | the editor's own config is never modified; nothing is emitted exactly when config, host or key is missing or the value is unchanged; otherwise the emitted copy differs only at the edited key, which is deleted for "" or undefined and set otherwise |
| Editor.ValueChangedSettles | src/mini-thermostat-card-editor.ts:170-205 | replaying the same change on the emitted config emits nothing or the same config |
| Editor.NumberFieldNeverDeletes | src/mini-thermostat-card-editor.ts:185-202 | a number field's change always sets its key, never deletes it |
| Editor.TempUnitMode | src/mini-thermostat-card-editor.ts:219-224 | hidden exactly for false, custom exactly for a string (even empty), default for everything else |
| Editor.TempUnitModeChanged | src/mini-thermostat-card-editor-base.ts:253-271 | without config or host nothing happens; otherwise the new config is kept and emitted, only temp_unit changes: false for hidden, removed for default, °C for custom, and an unknown mode copies the config |
| Editor.TempUnitModeRoundTrip | src/mini-thermostat-card-editor.ts:219-243 | choosing hidden, default or custom yields a config whose mode is the one chosen |
| Editor.TempUnitModeReselect | src/mini-thermostat-card-editor-base.ts:246-270 | choosing the current mode again keeps the mode, and for hidden emits the same config |
| Editor.Candidates | src/mini-thermostat-card-editor-base.ts:237-242 | exactly the climate. and water_heater. ids, each labelled with its friendly name or its id, and no id twice when the input has none twice |
| Editor.ClimateEntities | src/mini-thermostat-card-editor.ts:207-217 | empty without a host; otherwise exactly the climate and water-heater states with their labels, each once, sorted by label |
| Editor.ModeSupportFor | src/mini-thermostat-card-editor-base.ts:26-36 | preset, fan and swing are offered exactly for an existing climate entity with the feature bit, away exactly for an existing water heater with its bit, nothing for a missing entity |
| Editor.ClimateAndAwayExclusive | src/mini-thermostat-card-editor-base.ts:30-36 | the away switch and the climate switches are never offered together, and preset support implies a climate. id |
| EntityDomain.ComputeDomain | src/ha-frontend/common/entity/compute_domain.ts:6 | the result never contains a dot and is a prefix of the id; with a dot in the id it is followed by that first dot; without one it is empty |
| EntityDomain.SameDomainIffSamePrefix | src/ha-frontend/common/entity/compute_domain.ts:6 | two ids have the same domain exactly when the second starts with the first's domain and a dot |
| EntityFeatures.SupportsFeatureFromAttributes | src/ha-frontend/common/entity/supports-feature.ts:12-13 | true exactly when the 32-bit patterns of supported_features (0 when missing) and the feature share a set bit |
| EntityFeatures.SupportsFeature | src/ha-frontend/common/entity/supports-feature.ts:9-10 | true exactly when the 32-bit patterns of the state object's supported_features (0 when missing) and the feature share a set bit |
| EntityFeatures.NothingSupportedWithoutBits | src/ha-frontend/common/entity/supports-feature.ts:12-13 | feature 0, or missing supported_features, is never supported |
| EntityFeatures.SupportsUnion | src/ha-frontend/common/entity/supports-feature.ts:12-13 | asking about f \| g is asking about f or about g |
| EntityFeatures.AndBitsNonZero | src/ha-frontend/common/entity/supports-feature.ts:13 | the bitwise AND of n bits is non-zero exactly when a bit among them is set in both operands |
| EntityFeatures.ToInt32 | src/ha-frontend/common/entity/supports-feature.ts:13 | a signed 32-bit value with the same bit pattern as the input |
| Sorting.SortByKey | src/mini-thermostat-card-editor-base.ts:243 | a permutation of the input, sorted by key under the given ordering |
| Js.IndexOf | src/ha-frontend/common/entity/compute_domain.ts:6 | -1 exactly when the character is absent, otherwise the position of its first occurrence |
| Js.Includes | src/mini-thermostat-card.ts:291 | true exactly when the fragment occurs at some position |
| Hass.Lookup | src/mini-thermostat-card-base.ts:53 | absent exactly when no entry has the key, otherwise the value of an entry with that key |

## Left out

- Lit templates, styles and `requestUpdate`: only the state each rendered part depends on is modelled (`CardView.Render`). The HVAC mode buttons (whose translated titles only the base card has), the current-temperature sensor row and the base card's empty `renderDebugInfo` hook are not modelled.
- `fireEvent` and `callService` transport: an emitted editor config is a returned value, and a service call is a `Command` appended to the log.
- The `debounce-fn` library and wall-clock time: the one-second wait is an explicit `QuietPeriodElapsed` event. The source has no cancellation when the card is detached, so none is modelled.
- Floating-point temperatures and `Number(...)`: temperatures and steps are integers. `Number` is a caller-supplied function to integers, so a number field can never produce `NaN` in the editor model.
- `localeCompare`: the editor's sort takes any total preorder on strings.
- The `ClimateEntityFeature` and `WaterHeaterEntityFeature` constants, and `localize/localize.ts`: these are not part of this model. The feature bits are a parameter (`Editor.FeatureBits`), and the editor's captions are not modelled.
- The `oldHass !== hass` identity guard: every delivered snapshot is treated as a new object.
- `console` output, the version banner and the `customElement` registration.
- src/mini-thermostat-card-test.ts: an empty subclass of the base card with nothing of its own.
- A card config whose `entity` is not a string: `setConfig` and the editor treat only a non-empty string as an entity.
- ThermostatCard.ApplySnapshot: requires the target's registry entry to exist when the registry is non-empty (`SnapshotSafe`), because the source's related-entity filter then reads the missing entry and throws.
- CardView.RelatedItemOf: a related registry entry without a state makes the source throw while rendering; the model shows an empty, inactive item for it instead.
- NameCleanup.RelatedEntityName: requires a non-empty friendly name or a dot in the entity id; without both, the base card throws while rendering (src/mini-thermostat-card-base.ts:178-180). `CardView.RelatedItemOf` gives such an item no title instead.
- CardView.StepIcons: draws the corrected layout (the one the size assumes), not the source's `config.layout === 'row'` test; `CardView.StepIconsAsWritten` models that test, and the two are compared under "Findings".
- CardView.Render: shows the corrected step icons (`CardView.StepIcons`), so for a card without a configured layout it draws plus and minus where the source draws chevrons.
- The card sends no preset, fan, swing or away-mode calls, and it does not check the entity's domain: the source has no code for either.

## Findings

| source | as written | input that shows it | evidently intended | confidence | as-written member | corrected member |
|---|---|---|---|---|---|---|
| src/mini-thermostat-card-base.ts:107 (also src/mini-thermostat-card.ts:118) | `render` tests `this.config.layout === 'row'`, while `setConfig` (line 87) and `getCardSize` (lines 90-96) default a missing layout to `'row'`, and the editor shows a missing layout as row | a config without `layout`: the card reports the row size (2 or 3) but draws the column layout with chevron icons | test the settled `this.layout`, so that an unset layout is drawn as a row, as the size and the editor assume | medium; not executed | CardView.UnsetLayoutDisagreesAsWritten | CardView.StepIcons |
