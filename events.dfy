/**
 * The synchronous event dispatcher: a table from event classes to the
 * listeners registered for them, and `publish`, which calls the listeners for
 * the event's own class and then the wildcard (`EngineEvent`) listeners.
 * Listener calls are recorded as a trace of (listener, event) pairs.
 */
module Events {
  import opened Numeric
  import opened Domain
  import opened Trades

  datatype BookEventType = Add | Remove | CancelEvent

  /** The two concrete `EngineEvent` records. */
  datatype Event =
    | TradeExecutedEvent(trade: Trade, timestamp: Instant)
    | OrderBookEvent(side: OrderSide, price: i64, eventType: BookEventType, timestamp: Instant)

  /** The class objects listeners are registered under; `EngineEventClass` is the wildcard. */
  datatype EventClass = TradeExecutedClass | OrderBookClass | EngineEventClass

  /** `event.getClass()`: always a concrete record class, never the interface. */
  function ClassOf(e: Event): (c: EventClass)
    ensures c != EngineEventClass
  {
    match e
    case TradeExecutedEvent(_, _) => TradeExecutedClass
    case OrderBookEvent(_, _, _, _) => OrderBookClass
  }

  /** `listeners.get(c)`, with a missing entry as no listeners. */
  function Registered<L>(table: map<EventClass, seq<L>>, c: EventClass): seq<L> {
    if c in table then table[c] else []
  }

  /** One call of each listener in `ls` with `e`, in list order. */
  function Calls<L>(ls: seq<L>, e: Event): (calls: seq<(L, Event)>)
    ensures |calls| == |ls|
    ensures forall i :: 0 <= i < |ls| ==> calls[i] == (ls[i], e)
  {
    if ls == [] then [] else Calls(ls[..|ls| - 1], e) + [(ls[|ls| - 1], e)]
  }

  lemma CallsStep<L>(ls: seq<L>, i: nat, e: Event)
    requires i < |ls|
    ensures Calls(ls[..i + 1], e) == Calls(ls[..i], e) + [(ls[i], e)]
  {
    assert ls[..i + 1][..i] == ls[..i];
  }

  /** The calls `publish(e)` makes: exact-class listeners first, then wildcard listeners. */
  function Fanout<L>(table: map<EventClass, seq<L>>, e: Event): (calls: seq<(L, Event)>)
    ensures |calls| == |Registered(table, ClassOf(e))| + |Registered(table, EngineEventClass)|
    ensures forall k :: 0 <= k < |calls| ==> calls[k].1 == e
  {
    Calls(Registered(table, ClassOf(e)), e) + Calls(Registered(table, EngineEventClass), e)
  }

  /** A listener is called once per registration: the calls counted match the registrations counted. */
  lemma {:induction false} CallsCount<L>(ls: seq<L>, e: Event, l: L)
    ensures multiset(Calls(ls, e))[(l, e)] == multiset(ls)[l]
  {
    if ls != [] {
      var init := ls[..|ls| - 1];
      CallsCount(init, e, l);
      assert ls == init + [ls[|ls| - 1]];
    }
  }

  /**
   * Per publish, a listener is called as many times as it is registered under the
   * event's class plus as many times as it is registered as a wildcard listener.
   */
  lemma FanoutCount<L>(table: map<EventClass, seq<L>>, e: Event, l: L)
    ensures multiset(Fanout(table, e))[(l, e)]
         == multiset(Registered(table, ClassOf(e)))[l] + multiset(Registered(table, EngineEventClass))[l]
  {
    CallsCount(Registered(table, ClassOf(e)), e, l);
    CallsCount(Registered(table, EngineEventClass), e, l);
  }

  /** Every exact-class call comes before every wildcard call. */
  lemma ExactBeforeWildcard<L>(table: map<EventClass, seq<L>>, e: Event, i: nat, j: nat)
    requires i < |Registered(table, ClassOf(e))|
    requires j < |Registered(table, EngineEventClass)|
    ensures Fanout(table, e)[i] == (Registered(table, ClassOf(e))[i], e)
    ensures Fanout(table, e)[|Registered(table, ClassOf(e))| + j] == (Registered(table, EngineEventClass)[j], e)
  {
  }

  class EventDispatcher<L(==)> {
    var listeners: map<EventClass, seq<L>>
    /** The listener calls made so far, oldest first. */
    var invoked: seq<(L, Event)>

    constructor ()
      ensures listeners == map[] && invoked == []
    {
      listeners := map[];
      invoked := [];
    }

    /** `register`: appends the listener to its class's list, creating the list if absent. */
    method Register(eventType: EventClass, listener: L)
      modifies this
      ensures listeners == old(listeners)[eventType := Registered(old(listeners), eventType) + [listener]]
      ensures invoked == old(invoked)
    {
      var list := if eventType in listeners then listeners[eventType] else [];
      listeners := listeners[eventType := list + [listener]];
    }

    /** Calls each listener of `ls` with `event`, in list order. */
    method Notify(ls: seq<L>, event: Event)
      modifies this
      ensures listeners == old(listeners)
      ensures invoked == old(invoked) + Calls(ls, event)
    {
      for i := 0 to |ls|
        invariant listeners == old(listeners)
        invariant invoked == old(invoked) + Calls(ls[..i], event)
      {
        CallsStep(ls, i, event);
        invoked := invoked + [(ls[i], event)];
      }
      assert ls[..|ls|] == ls;
    }

    /** `publish`: calls the listeners for the event's class, then the wildcard listeners. */
    method Publish(event: Event)
      modifies this
      ensures listeners == old(listeners)
      ensures invoked == old(invoked) + Fanout(listeners, event)
    {
      Notify(Registered(listeners, ClassOf(event)), event);
      Notify(Registered(listeners, EngineEventClass), event);
    }
  }
}
