/** The FIFO of orders at one price level, keyed by order id in insertion order (a LinkedHashMap). */
module OrdersQueues {
  import opened Wrappers
  import opened Orders

  /** No two entries share an order id: the map's keys. */
  ghost predicate DistinctIds(entries: seq<Order>) {
    forall i, j :: 0 <= i < j < |entries| ==> entries[i].id != entries[j].id
  }

  /** The position of the entry keyed by `id`, if any. */
  function IndexOf(entries: seq<Order>, id: string): (r: Option<nat>)
    ensures r.Some? ==> r.value < |entries| && entries[r.value].id == id
    ensures r.Some? ==> forall j :: 0 <= j < r.value ==> entries[j].id != id
    ensures r.None? <==> forall j :: 0 <= j < |entries| ==> entries[j].id != id
  {
    if entries == [] then None
    else if entries[0].id == id then Some(0)
    else match IndexOf(entries[1..], id)
      case None => None
      case Some(k) => Some(k + 1)
  }

  /**
   * `put(order.getId(), order)`: a new id goes to the tail; an id already present keeps
   * its position and only the order stored under it is replaced.
   */
  function Put(entries: seq<Order>, o: Order): (r: seq<Order>)
    requires DistinctIds(entries)
    ensures DistinctIds(r)
    ensures (forall j :: 0 <= j < |entries| ==> entries[j].id != o.id) ==> r == entries + [o]
    ensures forall i :: 0 <= i < |entries| && entries[i].id == o.id ==> r == entries[i := o]
  {
    match IndexOf(entries, o.id)
    case None => entries + [o]
    case Some(i) => entries[i := o]
  }

  /** `remove(id)`: exactly the entry keyed by `id` goes; the others keep their relative order. */
  function Remove(entries: seq<Order>, id: string): (r: seq<Order>)
    requires DistinctIds(entries)
    ensures DistinctIds(r)
    ensures (forall j :: 0 <= j < |entries| ==> entries[j].id != id) ==> r == entries
    ensures forall i :: 0 <= i < |entries| && entries[i].id == id ==> r == entries[..i] + entries[i + 1..]
    ensures forall j :: 0 <= j < |r| ==> r[j].id != id
  {
    match IndexOf(entries, id)
    case None => entries
    case Some(i) => entries[..i] + entries[i + 1..]
  }

  class OrdersQueue {
    /** The map's entries in insertion order; each is keyed by its order's id. */
    var entries: seq<Order>

    ghost predicate Valid()
      reads this
    {
      DistinctIds(entries)
    }

    constructor()
      ensures Valid() && entries == []
    {
      entries := [];
    }

    function IsEmpty(): (r: bool)
      reads this
      ensures r <==> |entries| == 0
    {
      entries == []
    }

    method Add(order: Order)
      requires Valid()
      modifies this
      ensures Valid()
      ensures entries == Put(old(entries), order)
    {
      entries := Put(entries, order);
    }

    /** The earliest-inserted order, or null; nothing changes. */
    function PeekOldest(): (r: Option<Order>)
      reads this
      ensures r.None? <==> entries == []
      ensures r.Some? ==> r.value == entries[0]
    {
      if entries == [] then None else Some(entries[0])
    }

    /** Removes and returns the earliest-inserted order; null and no change when empty. */
    method RemoveOldest() returns (r: Option<Order>)
      requires Valid()
      modifies this
      ensures Valid()
      ensures old(entries) == [] ==> r.None? && entries == []
      ensures old(entries) != [] ==> r == Some(old(entries)[0]) && entries == old(entries)[1..]
    {
      if entries == [] {
        return None;
      }
      r := Some(entries[0]);
      entries := entries[1..];
    }

    /** Removes and returns the order keyed by `orderId`; null and no change when absent. */
    method RemoveById(orderId: string) returns (r: Option<Order>)
      requires Valid()
      modifies this
      ensures Valid()
      ensures entries == Remove(old(entries), orderId)
      ensures r.None? <==> forall j :: 0 <= j < |old(entries)| ==> old(entries)[j].id != orderId
      ensures r.Some? ==> r.value.id == orderId && r.value in old(entries)
    {
      match IndexOf(entries, orderId)
      case None =>
        r := None;
      case Some(i) =>
        r := Some(entries[i]);
        entries := entries[..i] + entries[i + 1..];
    }
  }
}
