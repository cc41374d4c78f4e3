/** JavaScript `Map` semantics as an association list.

    A `Map` iterates its entries in the order their keys were FIRST inserted;
    `set` on a key that is already present replaces the value in place and
    keeps the key's position. `checkForWords` builds `wordToTilesMap` and
    `allValidTilesMap` with `set`, and two rules iterate those maps, so the
    order is part of the observable behaviour. */
module JsMap {
  import opened Options

  type AList<K, V> = seq<(K, V)>

  /** The keys in iteration order (`Array.from(m.keys())`). */
  function Keys<K, V>(m: AList<K, V>): (ks: seq<K>)
    ensures |ks| == |m|
    ensures forall i :: 0 <= i < |m| ==> ks[i] == m[i].0
  {
    if |m| == 0 then [] else [m[0].0] + Keys(m[1..])
  }

  lemma KeysMembers<K, V>(m: AList<K, V>)
    ensures forall k :: k in Keys(m) <==> exists e :: e in m && e.0 == k
  {
    forall k | k in Keys(m) ensures exists e :: e in m && e.0 == k {
      var i :| 0 <= i < |m| && Keys(m)[i] == k;
      assert m[i] in m;
    }
    forall k | exists e :: e in m && e.0 == k ensures k in Keys(m) {
      var e :| e in m && e.0 == k;
      var i :| 0 <= i < |m| && m[i] == e;
      assert Keys(m)[i] == k;
    }
  }

  /** The values in iteration order (`m.values()`). */
  function Values<K, V>(m: AList<K, V>): (vs: seq<V>)
    ensures |vs| == |m|
    ensures forall i :: 0 <= i < |m| ==> vs[i] == m[i].1
  {
    if |m| == 0 then [] else [m[0].1] + Values(m[1..])
  }

  ghost predicate DistinctKeys<K, V>(m: AList<K, V>) {
    forall i, j :: 0 <= i < j < |m| ==> m[i].0 != m[j].0
  }

  /** `m.get(k)`: the value stored under `k`, if any. */
  function Get<K(==), V>(m: AList<K, V>, k: K): (r: Option<V>)
    ensures r.Some? <==> k in Keys(m)
  {
    if |m| == 0 then None
    else if m[0].0 == k then Some(m[0].1)
    else Get(m[1..], k)
  }

  /** With distinct keys, looking up an entry's key finds that entry's
      value. */
  lemma {:induction false} GetEntry<K, V>(m: AList<K, V>, i: int)
    requires DistinctKeys(m) && 0 <= i < |m|
    ensures Get(m, m[i].0) == Some(m[i].1)
    decreases |m|
  {
    if i > 0 {
      assert m[0].0 != m[i].0;
      assert m[1..][i - 1] == m[i];
      GetEntry(m[1..], i - 1);
    }
  }

  /** ...so every entry is what `get` returns for its key. */
  lemma GetEntries<K, V>(m: AList<K, V>)
    requires DistinctKeys(m)
    ensures forall e :: e in m ==> Get(m, e.0) == Some(e.1)
  {
    forall e | e in m ensures Get(m, e.0) == Some(e.1) {
      var i :| 0 <= i < |m| && m[i] == e;
      GetEntry(m, i);
    }
  }

  /** `m.set(k, v)`: replaces the value of an existing key in place, or
      appends a new entry at the end. */
  function Set<K(==), V>(m: AList<K, V>, k: K, v: V): (r: AList<K, V>)
  {
    if |m| == 0 then [(k, v)]
    else if m[0].0 == k then [(k, v)] + m[1..]
    else [m[0]] + Set(m[1..], k, v)
  }

  /** After `set`, the key reads back the new value and every other key reads
      what it read before. */
  lemma {:induction false} SetGet<K, V>(m: AList<K, V>, k: K, v: V, k': K)
    ensures Get(Set(m, k, v), k') == if k' == k then Some(v) else Get(m, k')
  {
    if |m| > 0 && m[0].0 != k {
      SetGet(m[1..], k, v, k');
    }
  }

  /** `set` keeps the key order, appending the key only when it was absent. */
  lemma {:induction false} SetKeys<K, V>(m: AList<K, V>, k: K, v: V)
    ensures k in Keys(m) ==> Keys(Set(m, k, v)) == Keys(m)
    ensures k !in Keys(m) ==> Keys(Set(m, k, v)) == Keys(m) + [k]
  {
    if |m| > 0 {
      assert Keys(m) == [m[0].0] + Keys(m[1..]);
      if m[0].0 != k {
        SetKeys(m[1..], k, v);
        assert Keys(Set(m, k, v)) == [m[0].0] + Keys(Set(m[1..], k, v));
      } else {
        assert Keys(Set(m, k, v)) == [k] + Keys(m[1..]);
      }
    }
  }

  /** Keys stay distinct under `set`. */
  lemma SetDistinct<K, V>(m: AList<K, V>, k: K, v: V)
    requires DistinctKeys(m)
    ensures DistinctKeys(Set(m, k, v))
  {
    var r := Set(m, k, v);
    SetKeys(m, k, v);
    var ks := Keys(r);
    assert forall i, j :: 0 <= i < j < |r| ==> ks[i] == r[i].0 && ks[j] == r[j].0;
    if k in Keys(m) {
      assert ks == Keys(m);
    } else {
      assert ks == Keys(m) + [k];
    }
  }

  /** Building a map by calling `set` once per pair, in order. */
  function FromPairs<K(==), V>(ps: seq<(K, V)>): (r: AList<K, V>)
  {
    if |ps| == 0 then []
    else Set(FromPairs(ps[..|ps| - 1]), ps[|ps| - 1].0, ps[|ps| - 1].1)
  }

  /** The value of the LAST pair whose key is `k`. */
  function LastValue<K(==), V>(ps: seq<(K, V)>, k: K): (r: Option<V>)
  {
    if |ps| == 0 then None
    else if ps[|ps| - 1].0 == k then Some(ps[|ps| - 1].1)
    else LastValue(ps[..|ps| - 1], k)
  }

  /** The keys of `ps` with repetitions removed, each at its FIRST occurrence. */
  function FirstOccurrences<K(==)>(ks: seq<K>): (r: seq<K>)
    ensures |r| <= |ks|
  {
    if |ks| == 0 then []
    else
      var d := FirstOccurrences(ks[..|ks| - 1]);
      if ks[|ks| - 1] in d then d else d + [ks[|ks| - 1]]
  }

  function PairKeys<K, V>(ps: seq<(K, V)>): (ks: seq<K>)
    ensures |ks| == |ps|
    ensures forall i :: 0 <= i < |ps| ==> ks[i] == ps[i].0
  {
    seq(|ps|, i requires 0 <= i < |ps| => ps[i].0)
  }

  /** A map built by repeated `set` answers every lookup with the last value
      set for that key, and lists its keys in first-insertion order. */
  lemma FromPairsSemantics<K(!new), V>(ps: seq<(K, V)>)
    ensures forall k :: Get(FromPairs(ps), k) == LastValue(ps, k)
    ensures Keys(FromPairs(ps)) == FirstOccurrences(PairKeys(ps))
    ensures DistinctKeys(FromPairs(ps))
  {
    forall k ensures Get(FromPairs(ps), k) == LastValue(ps, k) {
      FromPairsGet(ps, k);
    }
    FromPairsKeys(ps);
    FromPairsDistinct(ps);
  }

  lemma {:induction false} FromPairsGet<K, V>(ps: seq<(K, V)>, k: K)
    ensures Get(FromPairs(ps), k) == LastValue(ps, k)
  {
    if |ps| > 0 {
      var init := ps[..|ps| - 1];
      FromPairsGet(init, k);
      SetGet(FromPairs(init), ps[|ps| - 1].0, ps[|ps| - 1].1, k);
    }
  }

  lemma {:induction false} FromPairsKeys<K, V>(ps: seq<(K, V)>)
    ensures Keys(FromPairs(ps)) == FirstOccurrences(PairKeys(ps))
  {
    if |ps| > 0 {
      var init := ps[..|ps| - 1];
      FromPairsKeys(init);
      SetKeys(FromPairs(init), ps[|ps| - 1].0, ps[|ps| - 1].1);
      assert PairKeys(ps)[..|ps| - 1] == PairKeys(init);
    }
  }

  lemma {:induction false} FromPairsDistinct<K, V>(ps: seq<(K, V)>)
    ensures DistinctKeys(FromPairs(ps))
  {
    if |ps| > 0 {
      var init := ps[..|ps| - 1];
      FromPairsDistinct(init);
      SetDistinct(FromPairs(init), ps[|ps| - 1].0, ps[|ps| - 1].1);
    }
  }

  /** Every key of the built map occurs in the pairs, and conversely. */
  lemma {:induction false} FirstOccurrencesMembers<K>(ks: seq<K>)
    ensures forall k :: k in FirstOccurrences(ks) <==> k in ks
  {
    if |ks| > 0 {
      FirstOccurrencesMembers(ks[..|ks| - 1]);
      assert ks == ks[..|ks| - 1] + [ks[|ks| - 1]];
    }
  }

  /** `set` only ever stores the pair it is given or keeps an old entry. */
  lemma {:induction false} SetEntries<K, V>(m: AList<K, V>, k: K, v: V)
    ensures forall e :: e in Set(m, k, v) ==> e in m || e == (k, v)
  {
    if |m| > 0 && m[0].0 != k {
      SetEntries(m[1..], k, v);
      assert forall e :: e in m[1..] ==> e in m;
    } else if |m| > 0 {
      assert forall e :: e in m[1..] ==> e in m;
    }
  }

  /** Every entry of a map built from pairs is one of the pairs. */
  lemma {:induction false} FromPairsEntries<K, V>(ps: seq<(K, V)>)
    ensures forall e :: e in FromPairs(ps) ==> e in ps
  {
    if |ps| > 0 {
      var init := ps[..|ps| - 1];
      FromPairsEntries(init);
      SetEntries(FromPairs(init), ps[|ps| - 1].0, ps[|ps| - 1].1);
      assert forall e :: e in init ==> e in ps;
    }
  }

  /** `LastValue` is the value of the last pair carrying the key. */
  lemma {:induction false} LastValueSpec<K, V>(ps: seq<(K, V)>, k: K)
    ensures LastValue(ps, k).Some? <==> k in PairKeys(ps)
    ensures LastValue(ps, k).Some? ==>
      exists i :: 0 <= i < |ps| && ps[i] == (k, LastValue(ps, k).value)
        && forall j :: i < j < |ps| ==> ps[j].0 != k
  {
    if |ps| > 0 {
      var init := ps[..|ps| - 1];
      LastValueSpec(init, k);
      assert PairKeys(ps) == PairKeys(init) + [ps[|ps| - 1].0];
      if ps[|ps| - 1].0 != k && LastValue(init, k).Some? {
        var i :| 0 <= i < |init| && init[i] == (k, LastValue(init, k).value)
          && forall j :: i < j < |init| ==> init[j].0 != k;
        assert ps[i] == init[i];
      }
    }
  }

  ghost predicate NoRepeats<K>(ks: seq<K>) {
    forall i, j :: 0 <= i < j < |ks| ==> ks[i] != ks[j]
  }

  /** Removing repetitions leaves none behind. */
  lemma {:induction false} FirstOccurrencesDistinct<K>(ks: seq<K>)
    ensures NoRepeats(FirstOccurrences(ks))
  {
    if |ks| > 0 {
      FirstOccurrencesDistinct(ks[..|ks| - 1]);
    }
  }
}
