/** `ObjectCounter<T>` (util/object_counter.h): created / alive / max-alive counters. */
module Counting {

  /**
   * The three static counters of one counted type. One object of this class stands
   * for the statics of `ObjectCounter<MatchPair>`; hence the fields start at 0.
   */
  class ObjectCounter {
    var created: nat
    var alive: nat
    var maxAlive: nat

    ghost predicate Valid()
      reads this
    {
      alive <= maxAlive && alive <= created
    }

    constructor ()
      ensures Valid()
      ensures created == 0 && alive == 0 && maxAlive == 0
    {
      created, alive, maxAlive := 0, 0, 0;
    }

    /** The counted type's constructor runs. */
    method Construct()
      requires Valid()
      modifies this
      ensures Valid()
      ensures created == old(created) + 1 && alive == old(alive) + 1
      ensures maxAlive == if old(maxAlive) >= alive then old(maxAlive) else alive
    {
      created := created + 1;
      alive := alive + 1;
      maxAlive := if maxAlive >= alive then maxAlive else alive;
    }

    /** The counted type's destructor runs; only a live object can be destroyed. */
    method Destruct()
      requires Valid() && alive >= 1
      modifies this
      ensures Valid()
      ensures alive == old(alive) - 1 && created == old(created) && maxAlive == old(maxAlive)
    {
      alive := alive - 1;
    }
  }
}
