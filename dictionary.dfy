/** collections/dictionary.h: a dictionary from keys to single values whose
    set never replaces a stored value (it is std::map::insert). */
module Dictionaries {
  import opened MapOps
  import opened BaseDictionaries

  class Dictionary<T> {
    /** The BaseDictionary part: remove, clear, size, contains and keys. */
    const base: BaseDictionary<T>

    /** Dictionary() */
    constructor()
      ensures fresh(base) && base.entries == map[]
    {
      base := new BaseDictionary();
    }

    /** Dictionary(const std::map<KeyT, ValueT>& src_map) */
    constructor FromMap(source: map<int, T>)
      ensures fresh(base) && base.entries == source
    {
      base := new BaseDictionary.FromMap(source);
    }

    /** get: the value under key, or the default. */
    function Get(key: int, default: T): T
      reads base
    {
      if base.Contains(key) then base.entries[key] else default
    }

    /** set: inserts the pair when key is missing and otherwise changes
        nothing. */
    method Set(key: int, value: T)
      modifies base
      ensures base.entries == Inserted(old(base.entries), key, value)
      ensures Get(key, value) == if key in old(base.entries) then old(base.entries[key]) else value
    {
      base.entries := Inserted(base.entries, key, value);
    }
  }
}
