/**
 * `MatchPair` (fast_simple_lcsk/match_pair.h): the record of one k-match ending at
 * (endRow, endCol), its DP value and the link to the match it extends.
 */
module MatchPairs {
  import opened Counting

  /**
   * The record holds its predecessor by `shared_ptr`; here the predecessor is held by
   * value. The fields of a record are only rewritten while a single event refers to
   * it (a pair just built, or an end event's pair before it enters any table), so
   * the value view loses nothing the algorithms observe.
   */
  datatype MatchPair = MatchPair(endRow: int, endCol: int, dp: int, prev: Prev)

  /** A possibly null `shared_ptr<MatchPair>`. */
  datatype Prev = Null | Link(to: MatchPair)

  /** The four-argument constructor: stores the fields as given; one more object created. */
  method NewMatchPair(counter: ObjectCounter, endRow: int, endCol: int, dp: int, prev: Prev)
    returns (p: MatchPair)
    requires counter.Valid()
    modifies counter
    ensures counter.Valid()
    ensures counter.created == old(counter.created) + 1 && counter.alive == old(counter.alive) + 1
    ensures counter.maxAlive == if old(counter.maxAlive) >= counter.alive then old(counter.maxAlive) else counter.alive
    ensures p == MatchPair(endRow, endCol, dp, prev)
  {
    counter.Construct();
    p := MatchPair(endRow, endCol, dp, prev);
  }

  /**
   * The default constructor: `prev` is null and the integer fields are left
   * uninitialised, which the model fills with 0; one more object created.
   */
  method NewDefaultMatchPair(counter: ObjectCounter) returns (p: MatchPair)
    requires counter.Valid()
    modifies counter
    ensures counter.Valid()
    ensures counter.created == old(counter.created) + 1 && counter.alive == old(counter.alive) + 1
    ensures counter.maxAlive == if old(counter.maxAlive) >= counter.alive then old(counter.maxAlive) else counter.alive
    ensures p.prev == Null
  {
    counter.Construct();
    p := MatchPair(0, 0, 0, Null);
  }
}
