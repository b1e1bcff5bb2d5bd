/** Sequences of IDs without repetition. */
module DistinctIds {

  ghost predicate Distinct(ids: seq<int>) {
    forall i, j | 0 <= i < j < |ids| :: ids[i] != ids[j]
  }

  lemma DistinctRest(ids: seq<int>)
    requires Distinct(ids) && |ids| > 0
    ensures Distinct(ids[1..]) && ids[0] !in ids[1..]
  {
  }

  lemma DistinctAppend(ids: seq<int>, id: int)
    requires Distinct(ids) && id !in ids
    ensures Distinct(ids + [id])
  {
    var more := ids + [id];
    forall i, j | 0 <= i < j < |more|
      ensures more[i] != more[j]
    {
      assert more[i] == ids[i];
    }
  }
}
