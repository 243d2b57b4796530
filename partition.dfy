/**
 * Inventory preparation of `exportLandslideHazardMap`: each pool of labelled
 * points (landslides, the events, and non-landslides, the non-events) gets a
 * uniform tag from `randomColumn('random')`, points tagged below the split
 * fraction are kept for training, the rest are held out for the ROC analysis,
 * and the two training subsets are merged into one training collection.
 *
 * The random tags are an input here: a pool is a sequence of tagged points.
 */
module Partition {

  /** A labelled inventory point together with its partition tag. */
  datatype Tagged<P> = Tagged(point: P, tag: real)

  /** The split fraction the source uses for both pools (`split` and `nsplit`). */
  const SPLIT: real := 0.7

  /** `filter(ee.Filter.lt('random', split))`: the points tagged strictly below `split`. */
  function Training<P(==,!new)>(pool: seq<Tagged<P>>, split: real): (r: seq<Tagged<P>>)
    ensures |r| <= |pool|
    ensures forall x :: x in r <==> x in pool && x.tag < split
  {
    if pool == [] then []
    else if pool[0].tag < split then [pool[0]] + Training(pool[1..], split)
    else Training(pool[1..], split)
  }

  /** `filter(ee.Filter.gte('random', split))`: the points tagged at or above `split`. */
  function Testing<P(==,!new)>(pool: seq<Tagged<P>>, split: real): (r: seq<Tagged<P>>)
    ensures |r| <= |pool|
    ensures forall x :: x in r <==> x in pool && split <= x.tag
  {
    if pool == [] then []
    else if split <= pool[0].tag then [pool[0]] + Testing(pool[1..], split)
    else Testing(pool[1..], split)
  }

  /**
   * The two subsets of one pool share no point, and together they hold every
   * occurrence of every point of the pool exactly once.
   */
  lemma {:induction false} SplitIsPartition<P(!new)>(pool: seq<Tagged<P>>, split: real)
    ensures multiset(Training(pool, split)) + multiset(Testing(pool, split)) == multiset(pool)
    ensures |Training(pool, split)| + |Testing(pool, split)| == |pool|
    ensures forall x :: !(x in Training(pool, split) && x in Testing(pool, split))
  {
    if pool != [] {
      SplitIsPartition(pool[1..], split);
      assert pool == [pool[0]] + pool[1..];
      assert multiset(pool) == multiset{pool[0]} + multiset(pool[1..]);
    }
  }

  /**
   * `tr_slide.merge(tr_nslide)`: the training collection is the event training
   * subset followed by the non-event training subset.
   */
  function TrainingCollection<P(==,!new)>(events: seq<Tagged<P>>, nonEvents: seq<Tagged<P>>,
                                         split: real, nsplit: real): (r: seq<Tagged<P>>)
    ensures |r| <= |events| + |nonEvents|
    ensures forall x :: x in r <==> (x in events && x.tag < split) || (x in nonEvents && x.tag < nsplit)
  {
    Training(events, split) + Training(nonEvents, nsplit)
  }

  /**
   * Every point of both pools ends up exactly once in either the training
   * collection or one of the two held-out subsets.
   */
  lemma TrainingCollectionAccountsForAll<P(!new)>(events: seq<Tagged<P>>, nonEvents: seq<Tagged<P>>,
                                      split: real, nsplit: real)
    ensures |TrainingCollection(events, nonEvents, split, nsplit)| ==
            |Training(events, split)| + |Training(nonEvents, nsplit)|
    ensures multiset(TrainingCollection(events, nonEvents, split, nsplit))
            + multiset(Testing(events, split)) + multiset(Testing(nonEvents, nsplit))
            == multiset(events) + multiset(nonEvents)
  {
    SplitIsPartition(events, split);
    SplitIsPartition(nonEvents, nsplit);
  }
}
