/** Python dictionaries built by comprehension or by assignment: keys keep
    the order of their first insertion, and each key holds the value stored
    last. Duplicate keys therefore collapse exactly as they do in Python.
 */
module Dicts {
  import opened Wrappers
  import opened Seqs

  datatype Dict<K(==), V> = Dict(keys: seq<K>, vals: seq<V>) {

    /** Keys are listed once each, each with its value alongside. */
    predicate Valid() {
      |keys| == |vals| && Distinct(keys)
    }

    /** Where `k` sits in the key order. */
    function Slot(k: K): (i: nat)
      requires Valid() && k in keys
      ensures i < |keys| && keys[i] == k
    {
      IndexOf(keys, k).value
    }

    /** `d[k]`. */
    function Get(k: K): V
      requires Valid() && k in keys
    {
      vals[Slot(k)]
    }

    /** `d[k] = v`: an existing key keeps its place, a new key goes last;
        every other key keeps its value. */
    function Put(k: K, v: V): (d: Dict<K, V>)
      requires Valid()
      ensures d.Valid() && k in d.keys && d.Get(k) == v
      ensures k in keys ==> d.keys == keys
      ensures k !in keys ==> d.keys == keys + [k]
      ensures forall x {:trigger d.Get(x)} :: x in keys && x != k ==> x in d.keys && d.Get(x) == Get(x)
    {
      if k in keys then
        var d := Dict(keys, vals[Slot(k) := v]);
        assert forall x :: x in keys && x != k ==> d.Slot(x) != Slot(k);
        d
      else
        var d := Dict(keys + [k], vals + [v]);
        DistinctAppend(keys, k);
        assert d.keys[|keys|] == k;
        assert forall x :: x in keys ==> d.Slot(x) == Slot(x) by {
          forall x | x in keys
            ensures d.Slot(x) == Slot(x)
          {
            assert d.keys[Slot(x)] == x;
            SlotOf(d, Slot(x));
          }
        }
        d
    }
  }

  /** A key's slot is the one position where it is listed. */
  lemma SlotOf<K, V>(d: Dict<K, V>, i: nat)
    requires d.Valid() && i < |d.keys|
    ensures d.Slot(d.keys[i]) == i
  {
    var j := d.Slot(d.keys[i]);
    if j < i {
      DistinctAt(d.keys, j, i);
    }
  }

  function Empty<K(==), V>(): (d: Dict<K, V>)
    ensures d.Valid() && |d.keys| == 0
  {
    Dict([], [])
  }

  /** `{k: v for (k, v) in ps}`: the pairs are stored left to right. */
  function FromPairs<K(==), V>(ps: seq<(K, V)>): (d: Dict<K, V>)
    ensures d.Valid()
    ensures forall i :: 0 <= i < |ps| ==> ps[i].0 in d.keys
    ensures forall k :: k in d.keys ==> k in KeysOf(ps)
  {
    if |ps| == 0 then Empty()
    else
      var prefix := FromPairs(ps[..|ps| - 1]);
      assert KeysOf(ps) == KeysOf(ps[..|ps| - 1]) + [ps[|ps| - 1].0];
      prefix.Put(ps[|ps| - 1].0, ps[|ps| - 1].1)
  }

  /** The value stored under a key is the one of its last pair. */
  lemma {:induction false} FromPairsLast<K, V>(ps: seq<(K, V)>, i: nat)
    requires i < |ps|
    requires forall j :: i < j < |ps| ==> ps[j].0 != ps[i].0
    ensures FromPairs(ps).Get(ps[i].0) == ps[i].1
  {
    if i < |ps| - 1 {
      var prefix := ps[..|ps| - 1];
      assert prefix[i] == ps[i];
      assert forall j :: i < j < |prefix| ==> prefix[j] == ps[j];
      FromPairsLast(prefix, i);
    }
  }

  /** The keys of a list of pairs, duplicates included. */
  function KeysOf<K, V>(ps: seq<(K, V)>): (r: seq<K>)
    ensures |r| == |ps|
    ensures forall i :: 0 <= i < |ps| ==> r[i] == ps[i].0
  {
    seq(|ps|, i requires 0 <= i < |ps| => ps[i].0)
  }

  lemma KeysOfSnoc<K, V>(ps: seq<(K, V)>)
    requires |ps| > 0
    ensures KeysOf(ps) == KeysOf(ps[..|ps| - 1]) + [ps[|ps| - 1].0]
  {
  }

  /** The values of a list of pairs. */
  function ValuesOf<K, V>(ps: seq<(K, V)>): (r: seq<V>)
    ensures |r| == |ps|
    ensures forall i :: 0 <= i < |ps| ==> r[i] == ps[i].1
  {
    seq(|ps|, i requires 0 <= i < |ps| => ps[i].1)
  }

  lemma {:induction false} FromPairsKeys<K, V>(ps: seq<(K, V)>)
    requires Distinct(KeysOf(ps))
    ensures FromPairs(ps).keys == KeysOf(ps)
  {
    if |ps| > 0 {
      var n := |ps| - 1;
      var prefix := ps[..n];
      KeysOfSnoc(ps);
      DistinctInit(KeysOf(prefix), ps[n].0);
      FromPairsKeys(prefix);
    }
  }

  lemma DistinctLast<K, V>(ps: seq<(K, V)>, i: nat)
    requires Distinct(KeysOf(ps)) && i < |ps|
    ensures forall j :: i < j < |ps| ==> ps[j].0 != ps[i].0
  {
    var ks := KeysOf(ps);
    forall j | i < j < |ps|
      ensures ps[j].0 != ps[i].0
    {
      DistinctAt(ks, i, j);
    }
  }

  lemma FromPairsDistinctAt<K, V>(ps: seq<(K, V)>, i: nat)
    requires Distinct(KeysOf(ps)) && i < |ps| && FromPairs(ps).keys == KeysOf(ps)
    ensures FromPairs(ps).vals[i] == ps[i].1
  {
    var d := FromPairs(ps);
    DistinctLast(ps, i);
    FromPairsLast(ps, i);
    var k := ps[i].0;
    SlotOf(d, i);
  }

  /** With distinct keys nothing collapses: keys and values come out in
      the order of the pairs. */
  lemma FromPairsDistinct<K, V>(ps: seq<(K, V)>)
    requires Distinct(KeysOf(ps))
    ensures FromPairs(ps).keys == KeysOf(ps)
    ensures FromPairs(ps).vals == ValuesOf(ps)
  {
    FromPairsKeys(ps);
    var d := FromPairs(ps);
    forall i | 0 <= i < |ps|
      ensures d.vals[i] == ValuesOf(ps)[i]
    {
      FromPairsDistinctAt(ps, i);
    }
  }

  /** `{k: f(k) for k in ks}`: one key per distinct element of `ks`, each
      holding `f` of itself. */
  function Tabulate<K(==), V>(ks: seq<K>, f: K -> V): (d: Dict<K, V>)
    ensures d.Valid()
    ensures forall k :: k in d.keys ==> k in ks
    ensures forall k :: k in ks ==> k in d.keys
    ensures forall k {:trigger d.Get(k)} :: k in ks ==> k in d.keys && d.Get(k) == f(k)
  {
    if |ks| == 0 then Empty()
    else
      var n := |ks| - 1;
      var prefix := Tabulate(ks[..n], f);
      assert forall k :: k in ks ==> k in ks[..n] || k == ks[n] by {
        assert ks == ks[..n] + [ks[n]];
      }
      assert forall k :: k in ks[..n] ==> k in ks;
      var d := prefix.Put(ks[n], f(ks[n]));
      assert forall k {:trigger d.Get(k)} :: k in ks ==> k in d.keys && d.Get(k) == f(k) by {
        forall k | k in ks
          ensures k in d.keys && d.Get(k) == f(k)
        {
          if k != ks[n] {
            assert k in ks[..n];
            assert k in prefix.keys;
            assert prefix.Get(k) == f(k);
          }
        }
      }
      d
  }

  /** `r` has the keys of `d`, in the same order, each holding its value
      in `d` divided by `t`. */
  predicate DividedBy<K(==)>(r: Dict<K, real>, d: Dict<K, real>, t: real) {
    && r.Valid() && d.Valid() && r.keys == d.keys
    && forall i :: 0 <= i < |r.vals| ==> r.vals[i] * t == d.vals[i]
  }

  /** Looked up by key, each value of `r` is that of `d` divided by `t`. */
  lemma DividedByGet<K>(r: Dict<K, real>, d: Dict<K, real>, t: real, k: K)
    requires DividedBy(r, d, t) && k in d.keys
    ensures k in r.keys && r.Get(k) * t == d.Get(k)
  {
    assert r.Slot(k) == d.Slot(k);
  }

  /** `{k: v / t for k, v in d.items()}`. */
  function DivideValues<K(==)>(d: Dict<K, real>, t: real): (r: Dict<K, real>)
    requires d.Valid() && t != 0.0
    ensures DividedBy(r, d, t)
  {
    Dict(d.keys, DivideEach(d.vals, t))
  }

  /** Dividing every value by `t` divides the total by `t`; dividing by the
      total itself leaves values that add up to one. */
  lemma DivideValuesTotal<K>(d: Dict<K, real>, t: real)
    requires d.Valid() && t != 0.0
    ensures Total(DivideValues(d, t)) * t == Total(d)
    ensures t == Total(d) ==> Total(DivideValues(d, t)) == 1.0
  {
    var r := DivideValues(d, t);
    SumDivideEach(d.vals, t);
    assert Total(r) * t == Total(d);
    UnitQuotient(Total(r), t, Total(d));
  }

  /** Total of a dictionary of floats, `sum(d.values())`. */
  function Total<K(==)>(d: Dict<K, real>): real
  {
    Sum(d.vals)
  }

  /** Overwriting an existing key moves the total by exactly the change. */
  lemma PutTotal<K>(d: Dict<K, real>, k: K, v: real)
    requires d.Valid() && k in d.keys
    ensures Total(d.Put(k, v)) == Total(d) - d.Get(k) + v
  {
    SumUpdate(d.vals, d.Slot(k), v);
  }
}
