/** A table written with `INSERT … ON CONFLICT (key) DO UPDATE` is a map from
    its conflict key to the row. A loop of such upserts is a left fold of map
    updates over the (key, row) pairs, in loop order. */
module Upserts {

  /** The conflict keys written by a sequence of upserts. */
  function KeysOf<K, V>(kvs: seq<(K, V)>): (ks: set<K>)
    ensures forall i | 0 <= i < |kvs| :: kvs[i].0 in ks
    ensures forall k | k in ks :: exists i | 0 <= i < |kvs| :: kvs[i].0 == k
  {
    if kvs == [] then {}
    else
      var front := KeysOf(kvs[..|kvs| - 1]);
      assert forall k | k in front :: exists i | 0 <= i < |kvs| - 1 :: kvs[i].0 == k;
      front + {kvs[|kvs| - 1].0}
  }

  /** The table after upserting every pair of `kvs`, first to last. */
  function UpsertAll<K, V>(m: map<K, V>, kvs: seq<(K, V)>): (r: map<K, V>)
    ensures r.Keys == m.Keys + KeysOf(kvs)
  {
    if kvs == [] then m
    else UpsertAll(m, kvs[..|kvs| - 1])[kvs[|kvs| - 1].0 := kvs[|kvs| - 1].1]
  }

  /** One more upsert of the loop: the table so far, updated at the next key. */
  lemma UpsertAllStep<K, V>(m: map<K, V>, kvs: seq<(K, V)>, i: nat)
    requires i < |kvs|
    ensures UpsertAll(m, kvs[..i + 1]) == UpsertAll(m, kvs[..i])[kvs[i].0 := kvs[i].1]
  {
    assert kvs[..i + 1][..i] == kvs[..i];
  }

  /** The position of the last upsert for key k. */
  ghost function LastIndex<K, V>(kvs: seq<(K, V)>, k: K): (i: nat)
    requires k in KeysOf(kvs)
    ensures i < |kvs| && kvs[i].0 == k
    ensures forall j | i < j < |kvs| :: kvs[j].0 != k
  {
    var n := |kvs| - 1;
    if kvs[n].0 == k then n
    else
      var i := LastIndex(kvs[..n], k);
      assert kvs[i] == kvs[..n][i];
      assert forall j | i < j < n :: kvs[j] == kvs[..n][j];
      i
  }

  /** The row written by the last upsert for key k. */
  ghost function LastValue<K, V>(kvs: seq<(K, V)>, k: K): V
    requires k in KeysOf(kvs)
  {
    kvs[LastIndex(kvs, k)].1
  }

  /** Each key holds the row of its last upsert; a key never upserted keeps its old row. */
  lemma UpsertAllAt<K, V>(m: map<K, V>, kvs: seq<(K, V)>, k: K)
    ensures k in KeysOf(kvs) ==> UpsertAll(m, kvs)[k] == LastValue(kvs, k)
    ensures k !in KeysOf(kvs) && k in m ==> UpsertAll(m, kvs)[k] == m[k]
  {
    if k in KeysOf(kvs) {
      UpsertAllLast(m, kvs, k);
    } else if k in m {
      UpsertAllUntouched(m, kvs, k);
    }
  }

  /** An upserted key holds the row of its last upsert. */
  lemma {:induction false} UpsertAllLast<K, V>(m: map<K, V>, kvs: seq<(K, V)>, k: K)
    requires k in KeysOf(kvs)
    ensures UpsertAll(m, kvs)[k] == LastValue(kvs, k)
  {
    var n := |kvs| - 1;
    var front := kvs[..n];
    if kvs[n].0 != k {
      assert k in KeysOf(front);
      UpsertAllLast(m, front, k);
      var i := LastIndex(front, k);
      assert kvs[i] == front[i];
    }
  }

  /** A key never upserted keeps its old row. */
  lemma {:induction false} UpsertAllUntouched<K, V>(m: map<K, V>, kvs: seq<(K, V)>, k: K)
    requires k !in KeysOf(kvs) && k in m
    ensures UpsertAll(m, kvs)[k] == m[k]
  {
    if kvs != [] {
      var n := |kvs| - 1;
      UpsertAllUntouched(m, kvs[..n], k);
    }
  }

  /** Re-running the same upserts leaves the table as one run left it. */
  lemma UpsertAllIdempotent<K, V>(m: map<K, V>, kvs: seq<(K, V)>)
    ensures UpsertAll(UpsertAll(m, kvs), kvs) == UpsertAll(m, kvs)
  {
    var once := UpsertAll(m, kvs);
    var twice := UpsertAll(once, kvs);
    forall k | k in twice ensures twice[k] == once[k] {
      UpsertAllAt(m, kvs, k);
      UpsertAllAt(once, kvs, k);
    }
  }

  /** When the upserted keys are distinct, every key holds exactly the row written for it. */
  lemma UpsertAllDistinct<K, V>(m: map<K, V>, kvs: seq<(K, V)>, i: nat)
    requires i < |kvs|
    requires forall a, b | 0 <= a < b < |kvs| :: kvs[a].0 != kvs[b].0
    ensures UpsertAll(m, kvs)[kvs[i].0] == kvs[i].1
  {
    UpsertAllAt(m, kvs, kvs[i].0);
  }

  /** Keys outside the upserted set are untouched: present exactly when present before, with the same row. */
  lemma UpsertAllOutside<K, V>(m: map<K, V>, kvs: seq<(K, V)>, k: K)
    requires k !in KeysOf(kvs)
    ensures k in UpsertAll(m, kvs) <==> k in m
    ensures k in m ==> UpsertAll(m, kvs)[k] == m[k]
  {
    UpsertAllAt(m, kvs, k);
  }
}
