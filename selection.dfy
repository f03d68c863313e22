/** Selection controllers. A page holds an optional selected item; clicking a
    card picks that item and replaces whatever was selected before, and some
    pages also offer a close action that clears the selection again. */
module Selection {

  /** `null` or a value, as the pages' `useState<T | null>` cells hold. */
  datatype Option<T> = None | Some(value: T)

  /** A user action on a selection controller. */
  datatype Event<T> = Pick(item: T) | Clear

  /** The selection after one action: a pick sets it to the picked item,
      whatever it held, and a clear empties it. */
  function Step<T>(sel: Option<T>, e: Event<T>): (next: Option<T>)
    ensures next.Some? <==> e.Pick?
    ensures e.Pick? ==> next.value == e.item
  {
    match e
    case Pick(x) => Some(x)
    case Clear => None
  }

  /** The selection after a session of actions, applied oldest first. It is
      always either the selection the session started from or an item that
      was picked during the session. */
  function Replay<T>(sel: Option<T>, events: seq<Event<T>>): (last: Option<T>)
    ensures last.Some? ==> last == sel || exists k :: 0 <= k < |events| && events[k] == Pick(last.value)
    decreases |events|
  {
    if events == [] then sel else Replay(Step(sel, events[0]), events[1..])
  }

  /** A session made of picks only, as on a page with no close action. */
  predicate PicksOnly<T>(events: seq<Event<T>>)
  {
    forall k :: 0 <= k < |events| ==> events[k].Pick?
  }

  /** Only the last action of a session matters: after a final pick exactly
      that item is selected, whatever was selected before; after a final
      clear nothing is. */
  lemma {:induction false} LastActionDecides<T>(sel: Option<T>, events: seq<Event<T>>)
    requires events != []
    ensures events[|events| - 1].Pick? ==> Replay(sel, events) == Some(events[|events| - 1].item)
    ensures events[|events| - 1].Clear? ==> Replay(sel, events) == None
    decreases |events|
  {
    if |events| > 1 {
      LastActionDecides(Step(sel, events[0]), events[1..]);
      assert events[1..][|events[1..]| - 1] == events[|events| - 1];
    }
  }

  /** Without a close action the selection is empty only if it started empty
      and nothing was ever clicked: once set, it is never cleared. */
  lemma {:induction false} PicksNeverClear<T>(sel: Option<T>, events: seq<Event<T>>)
    requires PicksOnly(events)
    ensures Replay(sel, events).None? <==> sel.None? && events == []
    decreases |events|
  {
    if events != [] {
      assert events[0].Pick?;
      assert PicksOnly(events[1..]) by {
        forall k | 0 <= k < |events[1..]| ensures events[1..][k].Pick? {
          assert events[1..][k] == events[k + 1];
        }
      }
      PicksNeverClear(Step(sel, events[0]), events[1..]);
    }
  }
}
