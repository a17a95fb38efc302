/**
 * `MatchEventsQueue` (fast_simple_lcsk/match_events_queue.h): a FIFO of begin events
 * and a FIFO of end events; a pop only succeeds when the front event is on the
 * requested row.
 */
module Events {
  import opened MatchPairs

  /** An event (row, col, pair); begin events carry a null pair. */
  datatype Event = Event(row: int, col: int, pair: Prev)

  /** The number of leading events of q that are on the given row. */
  function RowPrefix(q: seq<Event>, row: int): (n: nat)
    ensures n <= |q|
    ensures forall x :: 0 <= x < n ==> q[x].row == row
    ensures n < |q| ==> q[n].row != row
  {
    if |q| == 0 || q[0].row != row then 0 else 1 + RowPrefix(q[1..], row)
  }

  class MatchEventsQueue {
    var begin: seq<Event>
    var end: seq<Event>

    constructor ()
      ensures begin == [] && end == []
    {
      begin, end := [], [];
    }

    method AddBegin(event: Event)
      modifies this`begin
      ensures begin == old(begin) + [event]
    {
      begin := begin + [event];
    }

    method AddEnd(event: Event)
      modifies this`end
      ensures end == old(end) + [event]
    {
      end := end + [event];
    }

    /**
     * Pops the front begin event when it is on `row`. `prior` is what the caller's
     * event variable held before; it is returned untouched when nothing is popped.
     */
    method PopBegin(row: int, prior: Event) returns (ok: bool, event: Event)
      modifies this`begin
      ensures ok <==> old(begin) != [] && old(begin)[0].row == row
      ensures ok ==> event == old(begin)[0] && begin == old(begin)[1..]
      ensures !ok ==> event == prior && begin == old(begin)
    {
      if begin != [] && begin[0].row == row {
        event := begin[0];
        begin := begin[1..];
        return true, event;
      }
      return false, prior;
    }

    /** The same as `PopBegin`, on the end events. */
    method PopEnd(row: int, prior: Event) returns (ok: bool, event: Event)
      modifies this`end
      ensures ok <==> old(end) != [] && old(end)[0].row == row
      ensures ok ==> event == old(end)[0] && end == old(end)[1..]
      ensures !ok ==> event == prior && end == old(end)
    {
      if end != [] && end[0].row == row {
        event := end[0];
        end := end[1..];
        return true, event;
      }
      return false, prior;
    }
  }

  /**
   * Popping while the pop succeeds removes exactly RowPrefix(q, row) events: one
   * successful pop leaves a queue whose row prefix is one shorter, and a pop fails
   * exactly when the row prefix is empty.
   */
  lemma {:induction false} DrainStep(q: seq<Event>, row: int)
    ensures (q != [] && q[0].row == row) <==> RowPrefix(q, row) > 0
    ensures RowPrefix(q, row) > 0 ==> RowPrefix(q[1..], row) == RowPrefix(q, row) - 1
    ensures RowPrefix(q, row) > 0 ==> q[RowPrefix(q, row)..] == q[1..][RowPrefix(q[1..], row)..]
  {
  }
}
