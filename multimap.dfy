/** collections/multimap.h: a std::map from keys to vectors of values, whose
    set replaces the vector under a key and whose add appends to it. */
module Multimaps {
  import opened MapOps

  class Multimap<V> {
    /** _map */
    var entries: map<int, seq<V>>

    /** Multimap() */
    constructor()
      ensures entries == map[]
    {
      entries := map[];
    }

    /** Multimap(const MapType& source) */
    constructor FromMap(source: map<int, seq<V>>)
      ensures entries == source
    {
      entries := source;
    }

    /** contains */
    function Contains(key: int): bool
      reads this
    {
      key in entries
    }

    /** get: the first value under key, or the default. */
    function Get(key: int, default: V): V
      reads this
    {
      FirstOf(entries, key, default)
    }

    /** get_sequence: the vector under key, or the default vector. */
    function GetSequence(key: int, default: seq<V>): seq<V>
      reads this
    {
      ValuesOf(entries, key, default)
    }

    /** size */
    function Size(): nat
      reads this
    {
      |entries|
    }

    /** empty */
    function Empty(): bool
      reads this
    {
      |entries| == 0
    }

    /** set(key, value): a one-element vector under key, replacing any vector
        already there. */
    method SetOne(key: int, value: V)
      modifies this
      ensures entries == old(entries)[key := [value]]
      ensures Get(key, value) == value && GetSequence(key, []) == [value]
    {
      if Contains(key) {
        entries := entries[key := [value]];
      } else {
        entries := entries[key := [value]];
      }
    }

    /** set(key, vector): the vector under key, replacing any vector already
        there. */
    method SetAll(key: int, values: seq<V>)
      modifies this
      ensures entries == old(entries)[key := values]
      ensures GetSequence(key, []) == values
    {
      if Contains(key) {
        entries := entries[key := values];
      } else {
        entries := entries[key := values];
      }
    }

    /** add(key, value): pushes value at the back of the vector under key, or
        sets a one-element vector when key is missing. */
    method Add(key: int, value: V)
      modifies this
      ensures entries == Appended(old(entries), key, value)
      ensures GetSequence(key, []) == old(GetSequence(key, [])) + [value]
      ensures forall k :: k != key ==> GetSequence(k, []) == old(GetSequence(k, []))
    {
      if Contains(key) {
        entries := entries[key := entries[key] + [value]];
      } else {
        SetOne(key, value);
        assert [] + [value] == [value];
      }
    }

    /** add(key, vector): pushes the items one at a time when key is present,
        or sets the vector when it is missing. */
    method AddAll(key: int, values: seq<V>)
      modifies this
      ensures entries == AppendedAll(old(entries), key, values)
      ensures GetSequence(key, []) == old(GetSequence(key, [])) + values
    {
      if Contains(key) {
        ghost var before := entries;
        var i := 0;
        assert before[key] + values[..0] == before[key];
        while i < |values|
          invariant 0 <= i <= |values|
          invariant entries == before[key := before[key] + values[..i]]
        {
          assert values[..i + 1] == values[..i] + [values[i]];
          assert entries[key] + [values[i]] == before[key] + values[..i + 1];
          entries := entries[key := entries[key] + [values[i]]];
          i := i + 1;
        }
        assert values[..i] == values;
      } else {
        SetAll(key, values);
        assert [] + values == values;
      }
    }

    /** remove: erases key when present. */
    method Remove(key: int)
      modifies this
      ensures entries == old(entries) - {key}
      ensures !Contains(key) && Size() == if key in old(entries) then old(Size()) - 1 else old(Size())
    {
      if Contains(key) {
        entries := entries - {key};
      }
    }

    /** clear */
    method Clear()
      modifies this
      ensures entries == map[] && Empty()
    {
      entries := map[];
    }

    /** keys: every key once, in ascending order. */
    method Keys() returns (ks: seq<int>)
      ensures forall i, j :: 0 <= i < j < |ks| ==> ks[i] < ks[j]
      ensures forall k :: k in ks <==> Contains(k)
      ensures |ks| == Size()
    {
      ks := SortedKeys(entries.Keys);
    }
  }
}
