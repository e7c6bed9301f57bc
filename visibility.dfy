/** The home page's progressive visibility rule: long lists are shown 500 points first,
    the rest once the browser is idle. */
module Visibility {

  /** The number of points rendered at once before the idle reveal. */
  const Threshold: nat := 500

  /** Whether a list is long enough to have its reveal deferred. */
  predicate Deferred<T>(full: seq<T>) { |full| > Threshold }

  /** What the effect shows at once: `locations.slice(0, 500)` for a long list, else the list. */
  function Immediate<T>(full: seq<T>): (v: seq<T>)
    ensures v <= full
    ensures |v| == if Deferred(full) then Threshold else |full|
  {
    if Deferred(full) then full[..Threshold] else full
  }

  /** What is shown once every idle callback has run: everything, or the first 500 forever
      when `requestIdleCallback` does not exist. */
  function Settled<T>(full: seq<T>, idleAvailable: bool): seq<T>
  {
    if Deferred(full) && idleAvailable then full else Immediate(full)
  }

  /** A short list is shown whole at once; a long one is not. */
  lemma ImmediateWhole<T>(full: seq<T>)
    ensures Immediate(full) == full <==> !Deferred(full)
  {
  }

  /** With idle callbacks the list eventually shows whole; without them exactly when it is short. */
  lemma SettledWhole<T>(full: seq<T>, idleAvailable: bool)
    ensures Settled(full, idleAvailable) == full <==> idleAvailable || !Deferred(full)
    ensures Settled(full, idleAvailable) <= full
  {
    ImmediateWhole(full);
  }

  /** 501 points: 500 at once, all 501 after the idle reveal. */
  lemma Example501<T>(full: seq<T>)
    requires |full| == 501
    ensures |Immediate(full)| == 500 && Immediate(full) == full[..500]
    ensures Settled(full, true) == full && |Settled(full, false)| == 500
  {
  }
}
