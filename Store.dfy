/** The in-memory match store every scraper fills: a Python dict updated in
    place (`existing_matches` in p_league.py, `all_matches` in l.py and
    Base.py), keyed by match identifier and remembering insertion order. */
module MatchStore {
  import opened Common

  class Store<K(==,!new), V> {
    var keys: seq<K>
    var entries: map<K, V>

    /** The dict the store currently holds. */
    function Contents(): Dict<K, V>
      reads this
    {
      Dict(keys, entries)
    }

    /** `all_matches = {}` */
    constructor Empty()
      ensures Contents() == EmptyDict()
    {
      keys := [];
      entries := map[];
    }

    /** `existing_matches = safe_load_json(JSON_FILE)` */
    constructor Load(d: Dict<K, V>)
      ensures Contents() == d
    {
      keys := d.keys;
      entries := d.entries;
    }

    /** `store[k] = v` */
    method Set(k: K, v: V)
      modifies this
      ensures Contents() == old(Contents()).Put(k, v)
    {
      if k !in entries {
        keys := keys + [k];
      }
      entries := entries[k := v];
    }
  }
}
