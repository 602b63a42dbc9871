/** Insertion into an associative container that keeps the first value stored
    under a key, as `std::map::insert` and `stdext::hash_map::insert` do: the
    insertion of a key that is already present leaves the container as it is. */
module MapInsert {

  /** One `insert(std::make_pair(k, v))`. */
  function InsertFirst<K, V>(m: map<K, V>, k: K, v: V): (r: map<K, V>)
    ensures r.Keys == m.Keys + {k}
    ensures k in m ==> r[k] == m[k]
    ensures k !in m ==> r[k] == v
    ensures forall j :: j in m ==> r[j] == m[j]
  {
    if k in m then m else m[k := v]
  }

  /** The pairs of `kvs` inserted one after the other, in order. */
  function InsertAll<K, V>(m: map<K, V>, kvs: seq<(K, V)>): map<K, V>
    decreases |kvs|
  {
    if kvs == [] then m
    else InsertFirst(InsertAll(m, kvs[..|kvs| - 1]), kvs[|kvs| - 1].0, kvs[|kvs| - 1].1)
  }

  /** Inserting one more pair after a run is one more `InsertFirst`. */
  lemma InsertAllSnoc<K, V>(m: map<K, V>, kvs: seq<(K, V)>, k: K, v: V)
    ensures InsertAll(m, kvs + [(k, v)]) == InsertFirst(InsertAll(m, kvs), k, v)
  {
    assert (kvs + [(k, v)])[..|kvs|] == kvs;
  }

  /** `kvs[i]` is the first pair of `kvs` with key `k`. */
  ghost predicate FirstKeyAt<K, V>(kvs: seq<(K, V)>, k: K, i: int)
  {
    0 <= i < |kvs| && kvs[i].0 == k && forall j :: 0 <= j < i ==> kvs[j].0 != k
  }

  /** Inserting two runs of pairs is inserting their concatenation. */
  lemma {:induction false} InsertAllAppend<K, V>(m: map<K, V>, a: seq<(K, V)>, b: seq<(K, V)>)
    ensures InsertAll(m, a + b) == InsertAll(InsertAll(m, a), b)
    decreases |b|
  {
    if b == [] {
      assert a + b == a;
    } else {
      var ab := a + b;
      assert ab[..|ab| - 1] == a + b[..|b| - 1];
      assert ab[|ab| - 1] == b[|b| - 1];
      InsertAllAppend(m, a, b[..|b| - 1]);
    }
  }

  /** A key ends up in the container exactly when it was there already or
      some inserted pair carries it. */
  lemma {:induction false} InsertAllKeys<K, V>(m: map<K, V>, kvs: seq<(K, V)>, k: K)
    ensures k in InsertAll(m, kvs) <==> k in m || exists i :: 0 <= i < |kvs| && kvs[i].0 == k
    decreases |kvs|
  {
    if kvs != [] {
      var init := kvs[..|kvs| - 1];
      InsertAllKeys(m, init, k);
      if k in InsertAll(m, kvs) && k !in m && k != kvs[|kvs| - 1].0 {
        var i :| 0 <= i < |init| && init[i].0 == k;
        assert kvs[i].0 == k;
      }
      if exists i :: 0 <= i < |kvs| && kvs[i].0 == k {
        var i :| 0 <= i < |kvs| && kvs[i].0 == k;
        if i < |kvs| - 1 {
          assert init[i].0 == k;
        }
      }
    }
  }

  /** A key that was already present keeps its value, whatever is inserted. */
  lemma {:induction false} InsertAllKeepsExisting<K, V>(m: map<K, V>, kvs: seq<(K, V)>, k: K)
    requires k in m
    ensures k in InsertAll(m, kvs) && InsertAll(m, kvs)[k] == m[k]
    decreases |kvs|
  {
    if kvs != [] {
      InsertAllKeepsExisting(m, kvs[..|kvs| - 1], k);
    }
  }

  /** A key that was absent gets the value of the first pair that carries it:
      later pairs with the same key are dropped. */
  lemma {:induction false} InsertAllFirstWins<K, V>(m: map<K, V>, kvs: seq<(K, V)>, k: K, i: int)
    requires k !in m && FirstKeyAt(kvs, k, i)
    ensures k in InsertAll(m, kvs) && InsertAll(m, kvs)[k] == kvs[i].1
    decreases |kvs|
  {
    var init := kvs[..|kvs| - 1];
    if i == |kvs| - 1 {
      InsertAllKeys(m, init, k);
    } else {
      assert FirstKeyAt(init, k, i);
      InsertAllFirstWins(m, init, k, i);
    }
  }

  /** When every pair carrying `k` agrees on one value, and so does the
      container if it already holds `k`, the key ends up with that value. */
  lemma {:induction false} InsertAllAgreeing<K, V>(m: map<K, V>, kvs: seq<(K, V)>, k: K, v: V)
    requires k in m ==> m[k] == v
    requires forall i :: 0 <= i < |kvs| && kvs[i].0 == k ==> kvs[i].1 == v
    ensures k in InsertAll(m, kvs) ==> InsertAll(m, kvs)[k] == v
    decreases |kvs|
  {
    if kvs != [] {
      var init := kvs[..|kvs| - 1];
      assert forall i :: 0 <= i < |init| && init[i].0 == k ==> kvs[i].1 == v;
      InsertAllAgreeing(m, init, k, v);
    }
  }

  /** Every value in the container was there before or comes from a pair
      with its key: `i` is -1 in the first case, the index of the pair in
      the second. */
  lemma {:induction false} InsertAllOrigin<K, V>(m: map<K, V>, kvs: seq<(K, V)>, k: K) returns (i: int)
    requires k in InsertAll(m, kvs)
    ensures -1 <= i < |kvs|
    ensures i == -1 ==> k in m && InsertAll(m, kvs)[k] == m[k]
    ensures 0 <= i ==> kvs[i].0 == k && InsertAll(m, kvs)[k] == kvs[i].1
    decreases |kvs|
  {
    if kvs == [] {
      i := -1;
    } else {
      var init := kvs[..|kvs| - 1];
      if k in InsertAll(m, init) {
        i := InsertAllOrigin(m, init, k);
        if i >= 0 {
          assert kvs[i] == init[i];
        }
      } else {
        i := |kvs| - 1;
      }
    }
  }
}
