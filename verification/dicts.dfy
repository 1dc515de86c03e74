/** Python dictionaries built from a sequence of key/value pairs. */
module Dicts {
  import opened Wrappers

  /** The dictionary a comprehension `{k: v for (k, v) in ps}` builds: pairs
      are inserted in order, so a later pair overwrites an earlier one with
      the same key. */
  function Collect<K(==, !new), V>(ps: seq<(K, V)>): (m: map<K, V>)
    ensures forall k :: k in m <==> exists n :: 0 <= n < |ps| && ps[n].0 == k
  {
    if ps == [] then map[]
    else
      var m := Collect(ps[..|ps| - 1]);
      assert forall n :: 0 <= n < |ps| - 1 ==> ps[..|ps| - 1][n] == ps[n];
      m[ps[|ps| - 1].0 := ps[|ps| - 1].1]
  }

  /** The pair with index `n` is the last pair carrying its key. */
  predicate LastWithKey<K(==), V>(ps: seq<(K, V)>, n: int)
  {
    0 <= n < |ps| && forall m :: n < m < |ps| ==> ps[m].0 != ps[n].0
  }

  /** Last write wins: the value stored under a key is the value of the last
      pair that carries that key. */
  lemma {:induction false} CollectLastWins<K(!new), V>(ps: seq<(K, V)>, n: int)
    requires LastWithKey(ps, n)
    ensures ps[n].0 in Collect(ps) && Collect(ps)[ps[n].0] == ps[n].1
  {
    if n < |ps| - 1 {
      var init := ps[..|ps| - 1];
      assert init[n] == ps[n];
      forall m | n < m < |init| ensures init[m].0 != init[n].0 {
        assert init[m] == ps[m];
      }
      CollectLastWins(init, n);
    }
  }

  /** Every stored value comes from some pair carrying its key. */
  lemma {:induction false} CollectValueFrom<K(!new), V>(ps: seq<(K, V)>, k: K)
    requires k in Collect(ps)
    ensures exists n :: 0 <= n < |ps| && ps[n] == (k, Collect(ps)[k])
  {
    var last := |ps| - 1;
    if ps[last].0 != k {
      var init := ps[..last];
      CollectValueFrom(init, k);
      var n :| 0 <= n < |init| && init[n] == (k, Collect(init)[k]);
      assert ps[n] == init[n];
    } else {
      assert ps[last] == (k, Collect(ps)[k]);
    }
  }

  /** When no key repeats, every pair is stored as it is. */
  lemma CollectDistinct<K(!new), V>(ps: seq<(K, V)>)
    requires forall i, j :: 0 <= i < j < |ps| ==> ps[i].0 != ps[j].0
    ensures forall n :: 0 <= n < |ps| ==> ps[n].0 in Collect(ps) && Collect(ps)[ps[n].0] == ps[n].1
  {
    forall n | 0 <= n < |ps|
      ensures ps[n].0 in Collect(ps) && Collect(ps)[ps[n].0] == ps[n].1
    {
      CollectLastWins(ps, n);
    }
  }

  /** Python's `d.get(k)`: the stored value, or `None` when `k` is absent. */
  function Get<K(==), V>(m: map<K, V>, k: K): (r: Option<V>)
    ensures r.Some? <==> k in m
    ensures r.Some? ==> r.value == m[k]
  {
    if k in m then Some(m[k]) else None
  }
}
