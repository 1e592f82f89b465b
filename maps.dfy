/**
 * Object spread over several key/value objects, `{...m0, ...m1, ...}`, which
 * the container's `union` uses to combine entries.
 */
module Maps {
  import opened Seqs

  /**
   * All maps of `ms` merged left to right: on a shared key, the later map
   * wins. No key of any merged map is lost.
   */
  function MergeAll<K, V>(ms: seq<map<K, V>>): (r: map<K, V>)
    ensures forall j :: 0 <= j < |ms| ==> ms[j].Keys <= r.Keys
  {
    if ms == [] then map[]
    else
      var init := ms[..|ms| - 1];
      assert forall j :: 0 <= j < |init| ==> init[j] == ms[j];
      MergeAll(init) + ms[|ms| - 1]
  }

  /** Merging one more map on the right is a single right-biased merge. */
  lemma MergeAllSnoc<K, V>(ms: seq<map<K, V>>, m: map<K, V>)
    ensures MergeAll(ms + [m]) == MergeAll(ms) + m
  {
    assert (ms + [m])[..|ms|] == ms;
  }

  /** Merging a map in front of the others is a right-biased merge with their merge. */
  lemma {:induction false} MergeAllCons<K, V>(m: map<K, V>, ms: seq<map<K, V>>)
    ensures MergeAll([m] + ms) == m + MergeAll(ms)
  {
    if ms != [] {
      var n := |ms| - 1;
      var init := MergeAll(ms[..n]);
      assert MergeAll([m] + ms) == (m + init) + ms[n] by {
        assert ([m] + ms)[..|ms|] == [m] + ms[..n];
        MergeAllCons(m, ms[..n]);
      }
      assert (m + init) + ms[n] == m + (init + ms[n]);
    }
  }

  /** A key is in the merge exactly when some merged map holds it. */
  lemma {:induction false} MergeAllKeys<K, V>(ms: seq<map<K, V>>, k: K)
    ensures k in MergeAll(ms) <==> exists j :: 0 <= j < |ms| && k in ms[j]
  {
    if ms != [] {
      var init := ms[..|ms| - 1];
      MergeAllKeys(init, k);
      assert forall j :: 0 <= j < |init| ==> init[j] == ms[j];
    }
  }

  /**
   * Right-biased merge: a key takes its value from the right-most map that
   * holds it.
   */
  lemma {:induction false} MergeAllRightmost<K, V>(ms: seq<map<K, V>>, j: nat, k: K)
    requires j < |ms| && k in ms[j]
    requires forall j' :: j < j' < |ms| ==> k !in ms[j']
    ensures k in MergeAll(ms) && MergeAll(ms)[k] == ms[j][k]
  {
    var init := ms[..|ms| - 1];
    if j < |ms| - 1 {
      assert forall j' :: j < j' < |init| ==> init[j'] == ms[j'];
      MergeAllRightmost(init, j, k);
    }
  }

  /**
   * If each key sequence lists exactly the keys of its map, then their
   * concatenation lists exactly the keys of the merge.
   */
  lemma {:induction false} FlattenMatchesMerge<K, V>(ks: seq<seq<K>>, ms: seq<map<K, V>>)
    requires |ks| == |ms|
    requires forall j :: 0 <= j < |ks| ==> Elems(ks[j]) == ms[j].Keys
    ensures Elems(Flatten(ks)) == MergeAll(ms).Keys
  {
    if ks != [] {
      var n := |ks| - 1;
      FlattenMatchesMerge(ks[..n], ms[..n]);
      ElemsConcat(Flatten(ks[..n]), ks[n]);
    }
  }

  /**
   * The values of `m` read along a key sequence. Reading them along a
   * sequence that lists exactly the keys of `m` yields exactly the values of
   * `m`.
   */
  function ValuesAlong<K, V>(ks: seq<K>, m: map<K, V>): (r: seq<V>)
    requires forall i :: 0 <= i < |ks| ==> ks[i] in m
    ensures |r| == |ks| && forall i :: 0 <= i < |ks| ==> r[i] == m[ks[i]]
  {
    if ks == [] then [] else [m[ks[0]]] + ValuesAlong(ks[1..], m)
  }

  lemma ValuesAlongElems<K, V>(ks: seq<K>, m: map<K, V>)
    requires Elems(ks) == m.Keys
    ensures Elems(ValuesAlong(ks, m)) == m.Values
  {
    var r := ValuesAlong(ks, m);
    forall v | v in m.Values ensures v in r {
      var k :| k in m && m[k] == v;
      var i :| 0 <= i < |ks| && ks[i] == k;
      assert r[i] == v;
    }
  }
}
