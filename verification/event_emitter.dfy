/** `EventEmitter`'s listener-count bookkeeping as a class whose methods
    update the count table in place. Handlers, dispatch and the underlying
    emitter are not part of this model; the only trace of the underlying
    emitter kept here is which once-wrappers are still registered, so that
    a wrapper firing is an explicit event. */
module Emitter {
  import opened JsNumber
  import opened ListenerCounts

  class EventEmitter {
    /** The per-event count table. */
    var listenerCounts: Table
    /** One entry per once-wrapper registered for an event and not yet fired. */
    var pendingOnce: multiset<string>

    /** A new emitter starts with an empty table. */
    constructor ()
      ensures listenerCounts == map[]
      ensures pendingOnce == multiset{}
    {
      listenerCounts := map[];
      pendingOnce := multiset{};
    }

    /** `on(event, handler)`: raises a truthy count by one, otherwise stores 1. */
    method On(event: string)
      modifies this
      ensures listenerCounts == OnTable(old(listenerCounts), event)
      ensures pendingOnce == old(pendingOnce)
    {
      var existingCounts := Get(listenerCounts, event);
      if Truthy(existingCounts) {
        listenerCounts := listenerCounts[event := Plus1(existingCounts.value)];
      } else {
        listenerCounts := listenerCounts[event := Int(1)];
      }
    }

    /** `off(event, handler)`: stores the old value minus one, unguarded. */
    method Off(event: string)
      modifies this
      ensures listenerCounts == OffTable(old(listenerCounts), event)
      ensures pendingOnce == old(pendingOnce)
    {
      var existingCounts := Get(listenerCounts, event);
      listenerCounts := listenerCounts[event := Minus1(existingCounts)];
    }

    /** `once(event, handler)`: registers a wrapper with the underlying
        emitter directly, so the count table is not touched. */
    method Once(event: string)
      modifies this
      ensures listenerCounts == old(listenerCounts)
      ensures pendingOnce == old(pendingOnce) + multiset{event}
    {
      pendingOnce := pendingOnce + multiset{event};
    }

    /** A once-wrapper for `event` fires: after the user's handler it calls
        `this.off`, which lowers the count exactly as `Off` does, and the
        wrapper is unregistered. */
    method FireOnce(event: string)
      requires event in pendingOnce
      modifies this
      ensures listenerCounts == OffTable(old(listenerCounts), event)
      ensures pendingOnce == old(pendingOnce) - multiset{event}
    {
      pendingOnce := pendingOnce - multiset{event};
      Off(event);
    }

    /** `listenerCount(event)`: the stored integer, 0 for an absent, zero or
        NaN entry. Changes nothing. */
    method ListenerCount(event: string) returns (n: int)
      ensures n == ListenerCountOf(listenerCounts, event)
    {
      n := OrZero(Get(listenerCounts, event));
    }
  }

  /** `once` is invisible to `listenerCount` until its wrapper fires, and the
      firing then lowers the count by one. So one `on` followed by a `once`
      that fires reports 0 although the `on` handler is still registered. */
  method OnThenOnceFired(event: string) returns (afterOn: int, afterOnce: int, afterFire: int)
    ensures afterOn == 1 && afterOnce == 1 && afterFire == 0
  {
    var emitter := new EventEmitter();
    emitter.On(event);
    afterOn := emitter.ListenerCount(event);
    emitter.Once(event);
    afterOnce := emitter.ListenerCount(event);
    emitter.FireOnce(event);
    afterFire := emitter.ListenerCount(event);
  }

  /** A once-wrapper registered on an event nobody subscribed to with `on`
      leaves NaN behind when it fires, which `listenerCount` reports as 0. */
  method OnceFiredOnFreshEvent(event: string) returns (stored: Count, reported: int)
    ensures stored == NaN && reported == 0
  {
    var emitter := new EventEmitter();
    emitter.Once(event);
    emitter.FireOnce(event);
    stored := emitter.listenerCounts[event];
    reported := emitter.ListenerCount(event);
  }
}
