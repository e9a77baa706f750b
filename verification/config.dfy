/** The configuration manager: values set explicitly, layered over defaults. A lookup
    prefers the explicit value, then the default, then the caller's fallback. */
module Config {
  import opened Prelude

  datatype Manager<V> = Manager(config: map<string, V>, defaults: map<string, V>)

  function New<V(!new)>(): Manager<V> {
    Manager(map[], map[])
  }

  /** A new manager has no key, so every lookup gives the caller's fallback. */
  lemma NewHasNoKeys<V(!new)>(key: string, fallback: Option<V>)
    ensures !Has(New<V>(), key) && Get(New(), key, fallback) == fallback
    ensures All(New<V>()) == map[]
  {
  }

  /** `set(key, value)`. */
  function Set<V(!new)>(m: Manager<V>, key: string, value: V): (r: Manager<V>)
    ensures Get(r, key, None) == Some(value)
    ensures forall k, d :: k != key ==> Get(r, k, d) == Get(m, k, d)
    ensures r.defaults == m.defaults
  {
    m.(config := m.config[key := value])
  }

  /** `get(key, defaultValue)`. */
  function Get<V(!new)>(m: Manager<V>, key: string, fallback: Option<V>): (r: Option<V>)
    ensures key in m.config ==> r == Some(m.config[key])
    ensures key !in m.config && key in m.defaults ==> r == Some(m.defaults[key])
    ensures !Has(m, key) ==> r == fallback
  {
    if key in m.config then Some(m.config[key])
    else if key in m.defaults then Some(m.defaults[key])
    else fallback
  }

  /** `has(key)`: explicitly set or defaulted. */
  predicate Has<V(!new)>(m: Manager<V>, key: string) {
    key in m.config || key in m.defaults
  }

  /** `delete(key)`: removes the explicit value only, so a default shows through
      again. The answer says whether there was an explicit value. */
  function Delete<V(!new)>(m: Manager<V>, key: string): (r: (Manager<V>, bool))
    ensures r.1 <==> key in m.config
    ensures key !in r.0.config && r.0.defaults == m.defaults
    ensures forall d :: Get(r.0, key, d) == (if key in m.defaults then Some(m.defaults[key]) else d)
    ensures forall k, d :: k != key ==> Get(r.0, k, d) == Get(m, k, d)
  {
    (m.(config := m.config - {key}), key in m.config)
  }

  /** `merge(options)`: every entry becomes an explicit value. */
  function Merge<V(!new)>(m: Manager<V>, options: map<string, V>): (r: Manager<V>)
    ensures forall k, d :: k in options ==> Get(r, k, d) == Some(options[k])
    ensures forall k, d :: k !in options ==> Get(r, k, d) == Get(m, k, d)
    ensures r.defaults == m.defaults
  {
    m.(config := m.config + options)
  }

  /** `defaults(options)`: every entry becomes a default; explicit values still win. */
  function Defaults<V(!new)>(m: Manager<V>, options: map<string, V>): (r: Manager<V>)
    ensures forall k, d :: k in m.config ==> Get(r, k, d) == Get(m, k, d)
    ensures forall k, d :: k !in m.config && k in options ==> Get(r, k, d) == Some(options[k])
    ensures forall k, d :: k !in options ==> Get(r, k, d) == Get(m, k, d)
    ensures r.config == m.config
  {
    m.(defaults := m.defaults + options)
  }

  /** `all()`: the defaults, overwritten by the explicit values. */
  function All<V(!new)>(m: Manager<V>): (r: map<string, V>)
    ensures r.Keys == m.config.Keys + m.defaults.Keys
  {
    m.defaults + m.config
  }

  /** `clear()`: forget every explicit value. */
  function Clear<V(!new)>(m: Manager<V>): (r: Manager<V>)
    ensures r.config == map[] && r.defaults == m.defaults
  {
    m.(config := map[])
  }

  /** `reset()`: the same as `clear()`, so the defaults are what remains. */
  function Reset<V(!new)>(m: Manager<V>): (r: Manager<V>)
    ensures All(r) == m.defaults
    ensures forall k, d :: Get(r, k, d) == (if k in m.defaults then Some(m.defaults[k]) else d)
  {
    Clear(m)
  }

  /** A lookup agrees with `all()`: present keys give the merged value, absent ones
      the fallback; and `has` is membership in `all()`. */
  lemma GetAgreesWithAll<V(!new)>(m: Manager<V>, key: string, fallback: Option<V>)
    ensures Get(m, key, fallback) == (if key in All(m) then Some(All(m)[key]) else fallback)
    ensures Has(m, key) <==> key in All(m)
  {
  }
}
