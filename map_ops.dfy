/** What the dictionary classes of collections/ do to their std::map, as
    functions on Dafny maps (the classes' methods are specified by them),
    and the in-order walk over the keys of a std::map. Keys are integers,
    ordered as std::less orders them. */
module MapOps {

  /** get_sequence / getlist: the values stored under k, or the default. */
  function ValuesOf<V>(m: map<int, seq<V>>, k: int, default: seq<V>): seq<V> {
    if k in m then m[k] else default
  }

  /** get on a map of vectors: the first value stored under k, or the default
      when k is missing or holds an empty vector. */
  function FirstOf<V>(m: map<int, seq<V>>, k: int, default: V): V {
    if k in m && |m[k]| > 0 then m[k][0] else default
  }

  /** add(k, v): v pushed at the back of the vector under k, which is
      created when k is missing. */
  function Appended<V>(m: map<int, seq<V>>, k: int, v: V): map<int, seq<V>> {
    m[k := ValuesOf(m, k, []) + [v]]
  }

  /** add(k, vs): the items of vs pushed in order, or vs stored under k when
      k is missing. */
  function AppendedAll<V>(m: map<int, seq<V>>, k: int, vs: seq<V>): map<int, seq<V>> {
    m[k := ValuesOf(m, k, []) + vs]
  }

  /** std::map::insert: the pair goes in only when k is missing. */
  function Inserted<T>(m: map<int, T>, k: int, v: T): map<int, T> {
    if k in m then m else m[k := v]
  }

  /** add(k, v) repeated for each item of vs, left to right. */
  function AppendEach<V>(m: map<int, seq<V>>, k: int, vs: seq<V>): map<int, seq<V>>
    decreases |vs|
  {
    if vs == [] then m else AppendEach(Appended(m, k, vs[0]), k, vs[1..])
  }

  /** Adding a vector is adding its items one by one, except that adding an
      empty vector under a missing key still creates the key. */
  lemma {:induction false} AppendedAllIsAppendEach<V>(m: map<int, seq<V>>, k: int, vs: seq<V>)
    requires k in m || vs != []
    ensures AppendedAll(m, k, vs) == AppendEach(m, k, vs)
    decreases |vs|
  {
    if vs != [] {
      var m' := Appended(m, k, vs[0]);
      AppendedAllIsAppendEach(m', k, vs[1..]);
      assert ValuesOf(m', k, []) + vs[1..] == ValuesOf(m, k, []) + vs;
      assert AppendedAll(m', k, vs[1..]) == AppendedAll(m, k, vs);
      assert AppendEach(m, k, vs) == AppendEach(m', k, vs[1..]);
    } else {
      assert m[k] + [] == m[k];
      assert AppendedAll(m, k, vs) == m;
    }
  }

  /** The exception: an empty vector added under a missing key leaves an
      empty entry, where get falls back to its default. */
  lemma AppendedNothing<V>(m: map<int, seq<V>>, k: int, d: V)
    requires k !in m
    ensures k in AppendedAll(m, k, []) && AppendedAll(m, k, []) != AppendEach(m, k, [])
    ensures FirstOf(AppendedAll(m, k, []), k, d) == d
  {
  }

  /** After add(k, v) the vector under k has grown by v at the back, get
      still returns the first value ever added, and no other key changes. */
  lemma AppendedValues<V>(m: map<int, seq<V>>, k: int, v: V, d: V)
    ensures ValuesOf(Appended(m, k, v), k, []) == ValuesOf(m, k, []) + [v]
    ensures FirstOf(Appended(m, k, v), k, d) == if k in m && |m[k]| > 0 then m[k][0] else v
    ensures forall j :: j != k ==> ValuesOf(Appended(m, k, v), j, []) == ValuesOf(m, j, [])
    ensures Appended(m, k, v).Keys == m.Keys + {k}
  {
  }

  /** insert never replaces: a stored value survives, and a missing key
      receives the new one. */
  lemma InsertedKeeps<T>(m: map<int, T>, k: int, v: T)
    ensures k in Inserted(m, k, v)
    ensures Inserted(m, k, v)[k] == if k in m then m[k] else v
    ensures forall j :: j != k && j in m ==> j in Inserted(m, k, v) && Inserted(m, k, v)[j] == m[j]
    ensures |Inserted(m, k, v)| == if k in m then |m| else |m| + 1
  {
  }

  lemma HasElement(s: set<int>)
    requires s != {}
    ensures exists x :: x in s
  {
    if forall x :: x !in s {
      assert false;
    }
  }

  /** The least element of a non-empty set. */
  method Least(s: set<int>) returns (m: int)
    requires s != {}
    ensures m in s && forall k :: k in s ==> m <= k
  {
    HasElement(s);
    m :| m in s;
    var rest := s - {m};
    while rest != {}
      invariant rest <= s && m in s
      invariant forall k :: k in s && k !in rest ==> m <= k
      decreases |rest|
    {
      HasElement(rest);
      var k :| k in rest;
      if k < m {
        m := k;
      }
      rest := rest - {k};
    }
  }

  /** keys(): the keys of a std::map in its iteration order, ascending. The
      walk over the tree is modelled as taking the least remaining key. */
  method SortedKeys(s: set<int>) returns (ks: seq<int>)
    ensures forall i, j :: 0 <= i < j < |ks| ==> ks[i] < ks[j]
    ensures forall k :: k in ks <==> k in s
    ensures |ks| == |s|
  {
    ks := [];
    var rest := s;
    while rest != {}
      invariant rest <= s
      invariant forall k :: k in ks <==> k in s && k !in rest
      invariant forall i, j :: 0 <= i < j < |ks| ==> ks[i] < ks[j]
      invariant forall i, k :: 0 <= i < |ks| && k in rest ==> ks[i] < k
      invariant |ks| + |rest| == |s|
      decreases |rest|
    {
      var m := Least(rest);
      ks := ks + [m];
      rest := rest - {m};
    }
  }
}
