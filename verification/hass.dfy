/** The slice of the Home Assistant host object the card reads: entity states,
    the entity registry, the language settings and translation resources.
    JavaScript objects iterated with `Object.keys` / `Object.entries` are
    ordered association lists; indexing one (`hass.states[id]`) is `Lookup`. */
module Hass {
  import opened Wrappers

  /** A numeric attribute as the host sends it: left out, explicitly `null`
      (a climate entity without a target temperature), or a number. */
  datatype Reading = Missing | NullReading | Number(value: int)

  /** The attributes of an entity state that the card and editor read. A
      missing or `null` `supported_features` both read as 0, so `None` covers both. */
  datatype Attributes = Attributes(
    temperature: Reading,
    friendlyName: Option<string>,
    icon: Option<string>,
    deviceClass: Option<string>,
    supportedFeatures: Option<int>)

  /** One entry of `hass.states`. */
  datatype EntityState = EntityState(entityId: string, state: string, attributes: Attributes)

  /** One entry of `hass.entities` (the entity registry). */
  datatype RegistryEntry = RegistryEntry(entityId: string, platform: string, deviceId: Option<string>)

  /** An ordered JavaScript object keyed by strings. */
  type Table<V> = seq<(string, V)>

  /** A snapshot of the host. `unitTemperature` is `hass.config.unit_system.temperature`. */
  datatype Hass = Hass(
    states: Table<EntityState>,
    entities: Table<RegistryEntry>,
    language: string,
    selectedLanguage: Option<string>,
    resources: map<string, map<string, string>>,
    unitTemperature: Option<string>)

  /** `table[key]`: the value of the first entry with that key, or `undefined`. */
  function Lookup<V>(table: Table<V>, key: string): (r: Option<V>)
    ensures r.None? <==> forall i :: 0 <= i < |table| ==> table[i].0 != key
    ensures r.Some? ==> exists i :: 0 <= i < |table| && table[i] == (key, r.value)
  {
    if |table| == 0 then None
    else if table[0].0 == key then Some(table[0].1)
    else
      var r := Lookup(table[1..], key);
      assert forall i :: 1 <= i < |table| ==> table[i] == table[1..][i - 1];
      r
  }

  /** The keys of a table, in order (`Object.keys`). */
  function Keys<V>(table: Table<V>): (r: seq<string>)
    ensures |r| == |table|
    ensures forall i :: 0 <= i < |table| ==> r[i] == table[i].0
  {
    if |table| == 0 then [] else [table[0].0] + Keys(table[1..])
  }
}
