/** collections/multi_dictionary.h: a dictionary from keys to vectors of
    values. Its set never replaces a stored vector (it is std::map::insert),
    and its add appends. */
module MultiDictionaries {
  import opened MapOps
  import opened BaseDictionaries

  class MultiDictionary<V> {
    /** The BaseDictionary part: remove, clear, size, contains and keys. */
    const base: BaseDictionary<seq<V>>

    /** MultiDictionary() */
    constructor()
      ensures fresh(base) && base.entries == map[]
    {
      base := new BaseDictionary();
    }

    /** MultiDictionary(const std::map<KeyT, std::vector<ValT>>& src_map) */
    constructor FromMap(source: map<int, seq<V>>)
      ensures fresh(base) && base.entries == source
    {
      base := new BaseDictionary.FromMap(source);
    }

    /** get: the first value under key, or the default. */
    function Get(key: int, default: V): V
      reads base
    {
      FirstOf(base.entries, key, default)
    }

    /** getlist: the vector under key, or the default vector. */
    function GetList(key: int, default: seq<V>): seq<V>
      reads base
    {
      ValuesOf(base.entries, key, default)
    }

    /** set(key, value): a one-element vector under key, only when key is
        missing. */
    method SetOne(key: int, value: V)
      modifies base
      ensures base.entries == Inserted(old(base.entries), key, [value])
      ensures key in old(base.entries) ==> GetList(key, []) == old(GetList(key, []))
    {
      base.entries := Inserted(base.entries, key, [value]);
    }

    /** set(key, vector): the vector under key, only when key is missing. */
    method SetAll(key: int, values: seq<V>)
      modifies base
      ensures base.entries == Inserted(old(base.entries), key, values)
      ensures key in old(base.entries) ==> GetList(key, []) == old(GetList(key, []))
    {
      base.entries := Inserted(base.entries, key, values);
    }

    /** add(key, value): pushes value at the back of the vector under key, or
        sets a one-element vector when key is missing. */
    method Add(key: int, value: V)
      modifies base
      ensures base.entries == Appended(old(base.entries), key, value)
      ensures GetList(key, []) == old(GetList(key, [])) + [value]
    {
      if base.Contains(key) {
        base.entries := base.entries[key := base.entries[key] + [value]];
      } else {
        SetOne(key, value);
        assert [] + [value] == [value];
      }
    }

    /** add(key, vector): pushes the items one at a time when key is present,
        or sets the vector when it is missing. */
    method AddAll(key: int, values: seq<V>)
      modifies base
      ensures base.entries == AppendedAll(old(base.entries), key, values)
      ensures GetList(key, []) == old(GetList(key, [])) + values
    {
      if base.Contains(key) {
        ghost var before := base.entries;
        var i := 0;
        assert before[key] + values[..0] == before[key];
        while i < |values|
          invariant 0 <= i <= |values|
          invariant base.entries == before[key := before[key] + values[..i]]
        {
          assert values[..i + 1] == values[..i] + [values[i]];
          assert base.entries[key] + [values[i]] == before[key] + values[..i + 1];
          base.entries := base.entries[key := base.entries[key] + [values[i]]];
          i := i + 1;
        }
        assert values[..i] == values;
      } else {
        SetAll(key, values);
        assert [] + values == values;
      }
    }
  }
}
