/** Numbers that order symbols so that each comes after what it depends on. */
module RankNumbers {

  type Ranks = seq<nat>

  function MaxRank(rank: Ranks): (m: nat)
    ensures forall i :: 0 <= i < |rank| ==> rank[i] <= m
  {
    if rank == [] then 0
    else
      var m := MaxRank(rank[..|rank| - 1]);
      if rank[|rank| - 1] > m then rank[|rank| - 1] else m
  }
}
