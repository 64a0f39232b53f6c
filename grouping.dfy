/** Selecting, in input order, the positions of a sequence that carry a given key. */
module Grouping {

  /** The indices i of `keys` with `keys[i] == k`, in ascending order. */
  function Positions<K(==)>(keys: seq<K>, k: K): seq<nat>
  {
    if keys == [] then []
    else
      var prev := Positions(keys[..|keys| - 1], k);
      if keys[|keys| - 1] == k then prev + [|keys| - 1] else prev
  }

  /** Every selected position is an index of `keys` that carries k. */
  lemma {:induction false} PositionsSound<K>(keys: seq<K>, k: K)
    ensures forall j :: 0 <= j < |Positions(keys, k)| ==>
              Positions(keys, k)[j] < |keys| && keys[Positions(keys, k)[j]] == k
  {
    if keys != [] {
      var init := keys[..|keys| - 1];
      PositionsSound(init, k);
      var prev, p := Positions(init, k), Positions(keys, k);
      forall j | 0 <= j < |p| ensures p[j] < |keys| && keys[p[j]] == k {
        if j < |prev| {
          assert p[j] == prev[j] && init[prev[j]] == keys[prev[j]];
        }
      }
    }
  }

  /** The positions are selected in ascending order. */
  lemma {:induction false} PositionsIncreasing<K>(keys: seq<K>, k: K)
    ensures forall j, j' :: 0 <= j < j' < |Positions(keys, k)| ==> Positions(keys, k)[j] < Positions(keys, k)[j']
  {
    if keys != [] {
      var init := keys[..|keys| - 1];
      PositionsSound(init, k);
      PositionsIncreasing(init, k);
    }
  }

  /** Every position that carries k is selected. */
  lemma {:induction false} PositionsComplete<K>(keys: seq<K>, k: K)
    ensures forall i :: 0 <= i < |keys| && keys[i] == k ==> i in Positions(keys, k)
  {
    if keys != [] {
      PositionsComplete(keys[..|keys| - 1], k);
    }
  }

  /** Extending the sequence by one key extends exactly the positions of that key. */
  lemma PositionsSnoc<K>(keys: seq<K>, x: K, k: K)
    ensures Positions(keys + [x], k) == if x == k then Positions(keys, k) + [|keys|] else Positions(keys, k)
  {
    assert (keys + [x])[..|keys|] == keys;
  }

  /** A key that occurs nowhere has no positions. */
  lemma {:induction false} PositionsAbsent<K>(keys: seq<K>, k: K)
    requires forall i :: 0 <= i < |keys| ==> keys[i] != k
    ensures Positions(keys, k) == []
  {
    if keys != [] {
      PositionsAbsent(keys[..|keys| - 1], k);
    }
  }

  /** Two different keys never share a position, so together they select at most
      as many positions as there are. */
  lemma {:induction false} PositionsDisjoint<K>(keys: seq<K>, a: K, b: K)
    requires a != b
    ensures |Positions(keys, a)| + |Positions(keys, b)| <= |keys|
    ensures forall i :: i in Positions(keys, a) ==> i !in Positions(keys, b)
  {
    if keys != [] {
      var init := keys[..|keys| - 1];
      PositionsDisjoint(init, a, b);
      PositionsSound(init, a);
      PositionsSound(init, b);
    }
  }
}
