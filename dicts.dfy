/**
 * Keyed assignment in order, as a run of `d[k] = v` statements or of
 * upserts into a table with a primary key performs it: a later pair
 * overwrites an earlier one with the same key, and nothing is removed.
 */
module Dicts {
  import opened Wrappers

  /** The map after assigning each pair in order: later pairs overwrite earlier ones. */
  function Assign<K(==), V>(m: map<K, V>, kvs: seq<(K, V)>): map<K, V>
    decreases |kvs|
  {
    if kvs == [] then m
    else Assign(m, kvs[..|kvs| - 1])[kvs[|kvs| - 1].0 := kvs[|kvs| - 1].1]
  }

  /** `kvs[i]` is the last pair with its key. */
  predicate LastWithKey<K(==), V>(kvs: seq<(K, V)>, i: int) {
    0 <= i < |kvs| && forall j | i < j < |kvs| :: kvs[j].0 != kvs[i].0
  }

  /**
   * The keys after a batch are the old keys and the batch's keys; a key the
   * batch mentions holds the value of its last occurrence; any other key keeps
   * its old value.
   */
  lemma {:induction false} AssignLastWins<K, V>(m: map<K, V>, kvs: seq<(K, V)>)
    ensures forall k :: k in Assign(m, kvs) <==> k in m || exists i | 0 <= i < |kvs| :: kvs[i].0 == k
    ensures forall i | LastWithKey(kvs, i) :: Assign(m, kvs)[kvs[i].0] == kvs[i].1
    ensures forall k | k in m && (forall i | 0 <= i < |kvs| :: kvs[i].0 != k) :: Assign(m, kvs)[k] == m[k]
    decreases |kvs|
  {
    AssignKeys(m, kvs);
    AssignLast(m, kvs);
    AssignUntouched(m, kvs);
  }

  lemma {:induction false} AssignKeys<K, V>(m: map<K, V>, kvs: seq<(K, V)>)
    ensures forall k :: k in Assign(m, kvs) <==> k in m || exists i | 0 <= i < |kvs| :: kvs[i].0 == k
    decreases |kvs|
  {
    if kvs != [] {
      var init := kvs[..|kvs| - 1];
      AssignKeys(m, init);
      forall k ensures k in Assign(m, kvs) <==> k in m || exists i | 0 <= i < |kvs| :: kvs[i].0 == k {
        if exists i | 0 <= i < |init| :: init[i].0 == k {
          var i :| 0 <= i < |init| && init[i].0 == k;
          assert kvs[i].0 == k;
        }
        if exists i | 0 <= i < |kvs| :: kvs[i].0 == k {
          var i :| 0 <= i < |kvs| && kvs[i].0 == k;
          if i < |init| {
            assert init[i].0 == k;
          }
        }
      }
    }
  }

  lemma {:induction false} AssignLast<K, V>(m: map<K, V>, kvs: seq<(K, V)>)
    ensures forall i | LastWithKey(kvs, i) :: kvs[i].0 in Assign(m, kvs) && Assign(m, kvs)[kvs[i].0] == kvs[i].1
    decreases |kvs|
  {
    if kvs != [] {
      var init := kvs[..|kvs| - 1];
      AssignLast(m, init);
      forall i | LastWithKey(kvs, i) ensures kvs[i].0 in Assign(m, kvs) && Assign(m, kvs)[kvs[i].0] == kvs[i].1 {
        if i < |init| {
          assert LastWithKey(init, i);
        }
      }
    }
  }

  lemma {:induction false} AssignUntouched<K, V>(m: map<K, V>, kvs: seq<(K, V)>)
    ensures forall k | k in m && (forall i | 0 <= i < |kvs| :: kvs[i].0 != k) :: k in Assign(m, kvs) && Assign(m, kvs)[k] == m[k]
    decreases |kvs|
  {
    if kvs != [] {
      var init := kvs[..|kvs| - 1];
      AssignUntouched(m, init);
      forall k | k in m && (forall i | 0 <= i < |kvs| :: kvs[i].0 != k) ensures k in Assign(m, kvs) && Assign(m, kvs)[k] == m[k] {
        assert forall i | 0 <= i < |init| :: init[i].0 == kvs[i].0;
      }
    }
  }

  /** The value of the last pair with key `k`, if any. */
  function LastValue<K(==), V>(kvs: seq<(K, V)>, k: K): Option<V>
    decreases |kvs|
  {
    if kvs == [] then None
    else if kvs[|kvs| - 1].0 == k then Some(kvs[|kvs| - 1].1)
    else LastValue(kvs[..|kvs| - 1], k)
  }

  /** Key by key: a batch's last value for a key wins, otherwise the old value stays. */
  lemma {:induction false} AssignAt<K, V>(m: map<K, V>, kvs: seq<(K, V)>, k: K)
    ensures k in Assign(m, kvs) <==> k in m || LastValue(kvs, k).Some?
    ensures k in Assign(m, kvs) ==>
      Assign(m, kvs)[k] == if LastValue(kvs, k).Some? then LastValue(kvs, k).value else m[k]
    decreases |kvs|
  {
    if kvs != [] {
      AssignAt(m, kvs[..|kvs| - 1], k);
    }
  }

  /** Repeating a batch changes nothing. */
  lemma AssignTwice<K, V>(m: map<K, V>, kvs: seq<(K, V)>)
    ensures Assign(Assign(m, kvs), kvs) == Assign(m, kvs)
  {
    var once := Assign(m, kvs);
    var twice := Assign(once, kvs);
    forall k ensures (k in twice <==> k in once) && (k in twice ==> twice[k] == once[k]) {
      AssignAt(m, kvs, k);
      AssignAt(once, kvs, k);
    }
    MapsEqual(twice, once);
  }

  lemma MapsEqual<K, V>(a: map<K, V>, b: map<K, V>)
    requires forall k :: (k in a <==> k in b) && (k in a ==> a[k] == b[k])
    ensures a == b
  {
  }

  /** The last pair with the key of `kvs[i]`. */
  function LastIndex<K(==), V>(kvs: seq<(K, V)>, i: nat): (j: nat)
    requires i < |kvs|
    ensures i <= j < |kvs| && kvs[j].0 == kvs[i].0 && LastWithKey(kvs, j)
    decreases |kvs| - i
  {
    if exists j | i < j < |kvs| :: kvs[j].0 == kvs[i].0 then
      var j :| i < j < |kvs| && kvs[j].0 == kvs[i].0;
      LastIndex(kvs, j)
    else i
  }
}
