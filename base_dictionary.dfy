/** collections/base_dictionary.h: the std::map wrapper that Dictionary and
    MultiDictionary derive from, with the members they share. The derived
    classes hold their base object in a field, the way the C++ objects hold
    their base subobject. */
module BaseDictionaries {
  import opened MapOps

  class BaseDictionary<T> {
    /** _map */
    var entries: map<int, T>

    /** BaseDictionary() */
    constructor()
      ensures entries == map[]
    {
      entries := map[];
    }

    /** BaseDictionary(const std::map<KeyT, ValT>& src_map) */
    constructor FromMap(source: map<int, T>)
      ensures entries == source
    {
      entries := source;
    }

    /** contains */
    function Contains(key: int): bool
      reads this
    {
      key in entries
    }

    /** size */
    function Size(): nat
      reads this
    {
      |entries|
    }

    /** empty */
    function Empty(): bool
      reads this
    {
      |entries| == 0
    }

    /** remove: erases key when present. */
    method Remove(key: int)
      modifies this
      ensures entries == old(entries) - {key}
      ensures !Contains(key) && Size() == if key in old(entries) then old(Size()) - 1 else old(Size())
    {
      if Contains(key) {
        entries := entries - {key};
      }
    }

    /** clear */
    method Clear()
      modifies this
      ensures entries == map[] && Empty()
    {
      entries := map[];
    }

    /** keys: every key once, in ascending order. */
    method Keys() returns (ks: seq<int>)
      ensures forall i, j :: 0 <= i < j < |ks| ==> ks[i] < ks[j]
      ensures forall k :: k in ks <==> Contains(k)
      ensures |ks| == Size()
    {
      ks := SortedKeys(entries.Keys);
    }
  }
}
