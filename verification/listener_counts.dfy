/** The per-event listener-count table of `EventEmitter`, as values: what
    `on`, `off` and `listenerCount` do to and read from the table. The class
    in module Emitter is specified by these functions. */
module ListenerCounts {
  import opened JsNumber

  type Table = map<string, Count>

  /** `Map.prototype.get`. */
  function Get(t: Table, event: string): (v: Option<Count>)
    ensures v.Some? <==> event in t
    ensures event in t ==> v.value == t[event]
  {
    if event in t then Some(t[event]) else None
  }

  /** The table after `on(event, …)`: a truthy count is raised by one, an
      absent, zero or NaN count is reset to exactly 1. Only the entry for
      `event` changes, and after the call it is present. */
  function OnTable(t: Table, event: string): (r: Table)
    ensures r.Keys == t.Keys + {event}
    ensures forall k :: k in t && k != event ==> r[k] == t[k]
    ensures event !in t || t[event] == Int(0) || t[event] == NaN ==> r[event] == Int(1)
    ensures event in t && t[event].Int? && t[event].value != 0 ==> r[event] == Int(t[event].value + 1)
  {
    var existing := Get(t, event);
    if Truthy(existing) then t[event := Plus1(existing.value)] else t[event := Int(1)]
  }

  /** The table after `off(event, …)`: the old value minus one, with no lower
      bound; an absent or NaN count becomes NaN. Only the entry for `event`
      changes, and after the call it is present. */
  function OffTable(t: Table, event: string): (r: Table)
    ensures r.Keys == t.Keys + {event}
    ensures forall k :: k in t && k != event ==> r[k] == t[k]
    ensures event !in t || t[event] == NaN ==> r[event] == NaN
    ensures event in t && t[event].Int? ==> r[event] == Int(t[event].value - 1)
  {
    t[event := Minus1(Get(t, event))]
  }

  /** `listenerCount(event)`: the stored integer, or 0 when the entry is
      absent, zero or NaN. A negative count is reported as it is. */
  function ListenerCountOf(t: Table, event: string): (n: int)
    ensures n == (if event in t && t[event].Int? then t[event].value else 0)
  {
    OrZero(Get(t, event))
  }

  /** `off` has no floor: one `on` followed by two `off`s on a fresh event
      leaves -1 in the table, and `listenerCount` reports -1. */
  lemma OnThenTwoOffsReportsMinusOne(t: Table, event: string)
    requires event !in t
    ensures OffTable(OffTable(OnTable(t, event), event), event)[event] == Int(-1)
    ensures ListenerCountOf(OffTable(OffTable(OnTable(t, event), event), event), event) == -1
  {
  }

  /** `off` on an event with no entry stores NaN; `listenerCount` hides it as
      0, and a following `on` resets the count to 1. */
  lemma OffOnAbsentStoresNaN(t: Table, event: string)
    requires event !in t
    ensures OffTable(t, event)[event] == NaN
    ensures ListenerCountOf(OffTable(t, event), event) == 0
    ensures OnTable(OffTable(t, event), event)[event] == Int(1)
    ensures ListenerCountOf(OnTable(OffTable(t, event), event), event) == 1
  {
  }

  /** Updates for one event leave what `listenerCount` reports for every
      other event unchanged. */
  lemma OtherEventsUnaffected(t: Table, event: string, other: string)
    requires other != event
    ensures ListenerCountOf(OnTable(t, event), other) == ListenerCountOf(t, other)
    ensures ListenerCountOf(OffTable(t, event), other) == ListenerCountOf(t, other)
  {
  }

  /** As far as `listenerCount` can tell, `off` always undoes `on`: absent,
      zero and NaN entries go to 1 and back to 0, which all report 0. */
  lemma OffUndoesOn(t: Table, event: string)
    ensures ListenerCountOf(OffTable(OnTable(t, event), event), event) == ListenerCountOf(t, event)
  {
  }

  /** `on` undoes `off` exactly when the entry holds an integer: from an
      absent or NaN entry, `off` stores NaN and `on` then stores 1. */
  lemma OnUndoesOffIffInteger(t: Table, event: string)
    ensures ListenerCountOf(OnTable(OffTable(t, event), event), event) == ListenerCountOf(t, event)
            <==> event in t && t[event].Int?
  {
  }

  /** One registration-bookkeeping call on a single event. */
  datatype Op = On | Off

  /** The table after `ops`, applied in order to `event`. */
  function Run(t: Table, event: string, ops: seq<Op>): Table
    decreases |ops|
  {
    if ops == [] then t
    else
      var before := Run(t, event, ops[..|ops| - 1]);
      match ops[|ops| - 1]
      case On => OnTable(before, event)
      case Off => OffTable(before, event)
  }

  /** The count a balanced sequence should leave: +1 per `on`, -1 per `off`. */
  function Net(ops: seq<Op>): int
    decreases |ops|
  {
    if ops == [] then 0
    else Net(ops[..|ops| - 1]) + (if ops[|ops| - 1] == On then 1 else -1)
  }

  /** `Net` is the number of `on`s minus the number of `off`s. */
  lemma {:induction false} NetCountsOps(ops: seq<Op>)
    ensures Net(ops) == multiset(ops)[On] as int - multiset(ops)[Off] as int
    decreases |ops|
  {
    if ops != [] {
      var prefix := ops[..|ops| - 1];
      assert ops == prefix + [ops[|ops| - 1]];
      NetCountsOps(prefix);
    }
  }

  /** Every `off` in `ops` comes when the `on`s before it outnumber the
      `off`s before it, that is, when the count is at least 1. */
  ghost predicate NeverBelowOneBeforeOff(ops: seq<Op>)
  {
    forall i :: 0 <= i < |ops| && ops[i] == Off ==> Net(ops[..i]) >= 1
  }

  /** Starting from a table without `event`, a balanced sequence of `on`s
      and `off`s keeps a non-negative integer count equal to the number of
      `on`s minus the number of `off`s, and touches no other event. */
  lemma {:induction false} RunFromAbsent(t: Table, event: string, ops: seq<Op>)
    requires event !in t
    requires NeverBelowOneBeforeOff(ops)
    ensures Net(ops) >= 0
    ensures ops == [] ==> Run(t, event, ops) == t
    ensures ops != [] ==> Run(t, event, ops) == t[event := Int(Net(ops))]
  {
    if ops != [] {
      var prefix := ops[..|ops| - 1];
      forall i | 0 <= i < |prefix| && prefix[i] == Off
        ensures Net(prefix[..i]) >= 1
      {
        assert prefix[..i] == ops[..i];
      }
      RunFromAbsent(t, event, prefix);
      if ops[|ops| - 1] == Off {
        assert ops[..|ops| - 1] == prefix;
      }
    }
  }

  /** Starting from an empty table, `n` `on`s and `m` `off`s on one event, in
      which the count never drops below 1 before an `off`, leave
      `listenerCount` equal to n - m. */
  lemma BalancedRunReportsNet(event: string, ops: seq<Op>)
    requires NeverBelowOneBeforeOff(ops)
    ensures ListenerCountOf(Run(map[], event, ops), event) == multiset(ops)[On] as int - multiset(ops)[Off] as int
  {
    RunFromAbsent(map[], event, ops);
    NetCountsOps(ops);
  }
}
