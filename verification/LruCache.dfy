/** The cache that github.com/hashicorp/golang-lru provides to the MAC switch: entries from
    oldest to newest; whatever is removed is handed back, in the order in which the library
    calls the eviction callback. */
module LruCache {
  import opened MachineInts

  type Mac = nat

  datatype Entry = Entry(mac: Mac, time: int)

  function Keys(order: seq<Entry>): (keys: set<Mac>) {
    set e | e in order :: e.mac
  }

  predicate Distinct(order: seq<Entry>) {
    forall i, j | 0 <= i < j < |order| :: order[i].mac != order[j].mac
  }

  /** The entries but the one of `mac`. */
  function Without(order: seq<Entry>, mac: Mac): (rest: seq<Entry>)
    ensures forall e :: e in rest <==> e in order && e.mac != mac
    ensures Distinct(order) ==> Distinct(rest)
  {
    if order == [] then []
    else if order[0].mac == mac then Without(order[1..], mac)
    else
      var rest := Without(order[1..], mac);
      assert forall e | e in rest :: e in order[1..];
      [order[0]] + rest
  }

  /** A known key becomes the newest with a new time; a new key is the newest, and the oldest
      entry goes if the cache is then too large. */
  function Added(order: seq<Entry>, size: int, mac: Mac, time: int): seq<Entry> {
    if mac in Keys(order) then Without(order, mac) + [Entry(mac, time)]
    else if |order| + 1 > size then (order + [Entry(mac, time)])[1..]
    else order + [Entry(mac, time)]
  }

  /** The newest `size` entries, all of them if there are fewer. */
  function Resized(order: seq<Entry>, size: int): seq<Entry> {
    if |order| <= size then order
    else if size <= 0 then []
    else order[|order| - size..]
  }

  class Cache {
    var size: int
    var order: seq<Entry>

    constructor (size: int)
      ensures this.size == size && order == []
    {
      this.size, order := size, [];
    }

    predicate Contains(mac: Mac)
      reads this
    {
      mac in Keys(order)
    }

    function Len(): nat
      reads this
    {
      |order|
    }

    function GetOldest(): Option<Entry>
      reads this
    {
      if order == [] then None else Some(order[0])
    }

    method Add(mac: Mac, time: int) returns (evicted: set<Mac>)
      requires Distinct(order)
      modifies `order
      ensures order == Added(old(order), size, mac, time)
      ensures evicted == Keys(old(order)) + {mac} - Keys(order)
      ensures Distinct(order)
    {
      evicted := {};
      if mac in Keys(order) {
        order := Without(order, mac) + [Entry(mac, time)];
        return;
      }
      var longer := order + [Entry(mac, time)];
      if |longer| > size {
        evicted := {longer[0].mac};
        order := longer[1..];
        SplitKeys(longer);
      } else {
        order := longer;
      }
      AppendKeys(old(order), Entry(mac, time));
    }

    method Remove(mac: Mac) returns (evicted: set<Mac>)
      requires Distinct(order)
      modifies `order
      ensures order == Without(old(order), mac)
      ensures evicted == Keys(old(order)) - Keys(order)
    {
      evicted := if mac in Keys(order) then {mac} else {};
      order := Without(order, mac);
    }

    method Resize(newSize: int) returns (evicted: set<Mac>)
      requires Distinct(order)
      modifies this
      ensures size == newSize
      ensures order == Resized(old(order), newSize)
      ensures evicted == Keys(old(order)) - Keys(order)
      ensures Distinct(order)
    {
      ghost var was := order;
      var diff := |order| - newSize;
      evicted := {};
      var i := 0;
      while i < diff && order != []
        invariant 0 <= i <= |was|
        invariant i <= diff || i == 0
        invariant order == was[i..]
        invariant evicted == Keys(was) - Keys(order)
        invariant Distinct(order)
        decreases diff - i
      {
        SplitKeys(order);
        evicted := evicted + {order[0].mac};
        order := order[1..];
        i := i + 1;
      }
      size := newSize;
    }

    method Purge() returns (evicted: set<Mac>)
      modifies `order
      ensures order == []
      ensures evicted == Keys(old(order))
    {
      evicted := Keys(order);
      order := [];
    }
  }

  lemma SplitKeys(order: seq<Entry>)
    requires order != [] && Distinct(order)
    ensures Keys(order) == {order[0].mac} + Keys(order[1..])
    ensures order[0].mac !in Keys(order[1..])
    ensures Distinct(order[1..])
  {
    assert order == [order[0]] + order[1..];
  }

  lemma AppendKeys(order: seq<Entry>, e: Entry)
    ensures Keys(order + [e]) == Keys(order) + {e.mac}
  {
  }

  lemma {:induction false} KeysCount(order: seq<Entry>)
    requires Distinct(order)
    ensures |Keys(order)| == |order|
  {
    if order != [] {
      SplitKeys(order);
      KeysCount(order[1..]);
    } else {
      assert Keys(order) == {};
    }
  }
}
