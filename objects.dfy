/**
 * The object arm's map construction: members are inserted one by one in
 * source order, so a later member with the same key replaces an earlier one.
 */
module ObjectMaps {

  /** The map after inserting every pair of `ps`, left to right. */
  function FromPairs<K, V>(ps: seq<(K, V)>): map<K, V> {
    if ps == [] then map[]
    else FromPairs(ps[..|ps| - 1])[ps[|ps| - 1].0 := ps[|ps| - 1].1]
  }

  /** The keys of the map are exactly the keys of the pairs. */
  lemma {:induction false} FromPairsKeys<K, V>(ps: seq<(K, V)>)
    ensures FromPairs(ps).Keys == set i | 0 <= i < |ps| :: ps[i].0
  {
    if ps != [] {
      var p := ps[..|ps| - 1];
      FromPairsKeys(p);
      assert forall i :: 0 <= i < |p| ==> p[i] == ps[i];
      var last := ps[|ps| - 1].0;
      assert (set i | 0 <= i < |ps| :: ps[i].0) == (set i | 0 <= i < |p| :: p[i].0) + {last};
    }
  }

  /** Last write wins: a key maps to the value of the last pair carrying it. */
  lemma {:induction false} FromPairsLastWins<K, V>(ps: seq<(K, V)>, i: nat)
    requires i < |ps|
    requires forall j :: i < j < |ps| ==> ps[j].0 != ps[i].0
    ensures ps[i].0 in FromPairs(ps) && FromPairs(ps)[ps[i].0] == ps[i].1
  {
    if i < |ps| - 1 {
      var p := ps[..|ps| - 1];
      assert forall j :: 0 <= j < |p| ==> p[j] == ps[j];
      FromPairsLastWins(p, i);
    }
  }
}
