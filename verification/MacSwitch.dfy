/** The learning switch of server/macswitch. `macTable` says which socket owns a MAC address;
    each registered socket has a bounded cache of its own addresses, and removals from a cache
    are passed on to `macTable`. Every handler is one atomic step. The functions on `Switch`
    values say what the methods of `MACSwitch` do. */
module MacSwitch {
  import opened MachineInts
  import opened LruCache

  type SocketId = nat

  datatype Table = Table(size: int, order: seq<Entry>)

  /** A registered socket's cache; None where creating it failed. */
  type Tables = map<SocketId, Option<Table>>

  datatype Config = Config(allowMACChanging: bool, allowedMACs: int, timeout: int)

  datatype Switch = Switch(config: Config, macs: map<Mac, SocketId>, tables: Tables)

  function KeysOf(tables: Tables, s: SocketId): set<Mac> {
    if s in tables && tables[s].Some? then Keys(tables[s].value.order) else {}
  }

  /** Some socket's cache had the key before and has not after. */
  predicate Forgets(before: Tables, after: Tables, mac: Mac) {
    exists s | s in before :: mac in KeysOf(before, s) && mac !in KeysOf(after, s)
  }

  /** The MAC table after the eviction callbacks of all caches that changed. */
  function AfterEvictions(macs: map<Mac, SocketId>, before: Tables, after: Tables): map<Mac, SocketId> {
    map mac | mac in macs && !Forgets(before, after, mac) :: macs[mac]
  }

  function Unregister(sw: Switch, s: SocketId): Switch {
    if s in sw.tables && sw.tables[s].Some? then
      sw.(macs := sw.macs - KeysOf(sw.tables, s), tables := sw.tables - {s})
    else sw
  }

  /** A cache cannot be created for a limit that is not positive. The library is taken to return
      nil along with its error then; the code stores what it returns. */
  function Register(sw: Switch, s: SocketId): Switch {
    sw.(tables := sw.tables[s := if sw.config.allowedMACs > 0 then Some(Table(sw.config.allowedMACs, [])) else None])
  }

  datatype Learned = Learned(sw: Switch, accepted: bool, collision: bool)

  /** A frame from socket `s` with source `mac`. */
  function Learn(sw: Switch, s: SocketId, mac: Mac, unicast: bool, now: int): Learned {
    if !unicast || s !in sw.tables || sw.tables[s].None? then Learned(sw, false, false)
    else
      var t := sw.tables[s].value;
      var added := Table(t.size, Added(t.order, t.size, mac, now));
      if mac in Keys(t.order) then Learned(sw.(tables := sw.tables[s := Some(added)]), true, false)
      else if !sw.config.allowMACChanging && |t.order| > 0 then Learned(sw, false, false)
      else if mac in sw.macs then Learned(Unregister(sw, s), false, true)
      else
        Learned(sw.(macs := sw.macs[mac := s] - (Keys(t.order) + {mac} - Keys(added.order)),
                    tables := sw.tables[s := Some(added)]),
          true, false)
  }

  /** A configuration update or a clean-up tick dereferences every cache and panics at a
      missing one. */
  predicate AllPresent(tables: Tables) {
    forall s | s in tables :: tables[s].Some?
  }

  function ResizedTables(tables: Tables, size: int): Tables {
    map s | s in tables :: if tables[s].Some? then Some(Table(size, Resized(tables[s].value.order, size))) else None
  }

  function Reconfigure(sw: Switch, config: Config): Switch {
    var tables := ResizedTables(sw.tables, config.allowedMACs);
    Switch(config, AfterEvictions(sw.macs, sw.tables, tables), tables)
  }

  /** Drop entries from the oldest on, up to the first that is not too old. */
  function DropExpired(order: seq<Entry>, now: int, timeout: int): seq<Entry> {
    if order == [] || now - order[0].time <= timeout then order else DropExpired(order[1..], now, timeout)
  }

  function CleanedTables(tables: Tables, now: int, timeout: int): Tables {
    map s | s in tables ::
      if tables[s].Some? then Some(Table(tables[s].value.size, DropExpired(tables[s].value.order, now, timeout)))
      else None
  }

  /** A tick of the clean-up timer. */
  function Cleanup(sw: Switch, now: int): Switch {
    if !sw.config.allowMACChanging then sw
    else
      var tables := CleanedTables(sw.tables, now, sw.config.timeout);
      sw.(macs := AfterEvictions(sw.macs, sw.tables, tables), tables := tables)
  }

  // --- loops over all caches ------------------------------------------------------------

  /** Some of the caches already replaced. */
  function Mixed(before: Tables, after: Tables, todo: set<SocketId>): Tables
    requires before.Keys == after.Keys
  {
    map s | s in before :: if s in todo then before[s] else after[s]
  }

  lemma MixedAll(before: Tables, after: Tables)
    requires before.Keys == after.Keys
    ensures Mixed(before, after, before.Keys) == before
    ensures Mixed(before, after, {}) == after
  {
  }

  lemma NothingForgotten(macs: map<Mac, SocketId>, tables: Tables)
    ensures AfterEvictions(macs, tables, tables) == macs
  {
  }

  lemma MixedAt(before: Tables, after: Tables, todo: set<SocketId>, s: SocketId)
    requires before.Keys == after.Keys && s in todo && todo <= before.Keys
    ensures Mixed(before, after, todo).Keys == before.Keys && Mixed(before, after, todo)[s] == before[s]
  {
  }

  /** Replacing one more cache and removing what it forgot from the MAC table. */
  lemma MixedStep(macs: map<Mac, SocketId>, before: Tables, after: Tables, todo: set<SocketId>, s: SocketId)
    requires before.Keys == after.Keys && s in todo && todo <= before.Keys
    ensures Mixed(before, after, todo - {s}) == Mixed(before, after, todo)[s := after[s]]
    ensures AfterEvictions(macs, before, Mixed(before, after, todo - {s}))
         == AfterEvictions(macs, before, Mixed(before, after, todo)) - (KeysOf(before, s) - KeysOf(after, s))
  {
    var x, y := Mixed(before, after, todo), Mixed(before, after, todo - {s});
    assert y == x[s := after[s]];
    forall mac
      ensures Forgets(before, y, mac) <==> Forgets(before, x, mac) || mac in KeysOf(before, s) - KeysOf(after, s)
    {
      ForgetsOneMore(before, x, y, s, mac);
    }
  }

  lemma ForgetsOneMore(before: Tables, x: Tables, y: Tables, s: SocketId, mac: Mac)
    requires s in before && s in x && s in y && x[s] == before[s] && y == x[s := y[s]]
    ensures Forgets(before, y, mac) <==> Forgets(before, x, mac) || mac in KeysOf(before, s) - KeysOf(y, s)
  {
    if Forgets(before, x, mac) {
      var t :| t in before && mac in KeysOf(before, t) && mac !in KeysOf(x, t);
      assert mac !in KeysOf(y, t);
    }
    if Forgets(before, y, mac) {
      var t :| t in before && mac in KeysOf(before, t) && mac !in KeysOf(y, t);
      assert t != s ==> mac !in KeysOf(x, t);
    }
  }

  lemma ResizedKeys(tables: Tables, size: int, s: SocketId)
    requires s in tables && tables[s].Some?
    ensures KeysOf(tables, s) == Keys(tables[s].value.order)
    ensures KeysOf(ResizedTables(tables, size), s) == Keys(Resized(tables[s].value.order, size))
  {
  }

  class MACSwitch {
    var allowMACChanging: bool
    var allowedMACsPerConnection: int
    var macTableTimeout: int
    var macTable: map<Mac, SocketId>
    var socketTable: map<SocketId, Cache?>
    ghost var Repr: set<Cache>

    constructor ()
      ensures Valid() && View() == Switch(Config(true, 1, 600_000_000_000), map[], map[])
    {
      allowMACChanging, allowedMACsPerConnection, macTableTimeout := true, 1, 600_000_000_000;
      macTable, socketTable, Repr := map[], map[], {};
    }

    /** The caches are objects of `Repr`; no two sockets share one; no key occurs twice in one. */
    ghost predicate Valid()
      reads `socketTable, `Repr, Repr
    {
      && (forall s | s in socketTable && socketTable[s] != null ::
            socketTable[s] in Repr && Distinct(socketTable[s].order))
      && forall s, t | s in socketTable && t in socketTable && s != t && socketTable[s] != null ::
        socketTable[s] != socketTable[t]
    }

    ghost function TableView(): Tables
      requires Valid()
      reads `socketTable, `Repr, Repr
    {
      map s | s in socketTable ::
        if socketTable[s] == null then None else Some(Table(socketTable[s].size, socketTable[s].order))
    }

    ghost function View(): Switch
      requires Valid()
      reads this, Repr
    {
      Switch(Config(allowMACChanging, allowedMACsPerConnection, macTableTimeout), macTable, TableView())
    }

    /** The eviction callbacks of one cache operation. */
    method OnMACsEvicted(evicted: set<Mac>)
      modifies `macTable
      ensures macTable == old(macTable) - evicted
    {
      var todo := evicted;
      while todo != {}
        invariant todo <= evicted
        invariant macTable == old(macTable) - (evicted - todo)
      {
        var key :| key in todo;
        macTable := macTable - {key};
        todo := todo - {key};
      }
    }

    method RegisterSocket(s: SocketId) returns (failed: bool)
      requires Valid()
      modifies `socketTable, `Repr
      ensures Valid() && fresh(Repr - old(Repr))
      ensures View() == Register(old(View()), s)
      ensures failed == (allowedMACsPerConnection <= 0)
    {
      failed := allowedMACsPerConnection <= 0;
      if failed {
        socketTable := socketTable[s := null];
        assert TableView() == old(TableView())[s := None];
      } else {
        StoreCache(s);
      }
    }

    method StoreCache(s: SocketId)
      requires Valid()
      modifies `socketTable, `Repr
      ensures Valid() && fresh(Repr - old(Repr))
      ensures TableView() == old(TableView())[s := Some(Table(allowedMACsPerConnection, []))]
    {
      var cache := new Cache(allowedMACsPerConnection);
      socketTable := socketTable[s := cache];
      Repr := Repr + {cache};
    }

    /** Take a socket's cache out of the table; nobody else has it. */
    method DropCache(s: SocketId) returns (cache: Cache)
      requires Valid() && s in socketTable && socketTable[s] != null
      modifies `socketTable
      ensures Valid() && cache in Repr && forall t | t in socketTable :: socketTable[t] != cache
      ensures TableView() == old(TableView()) - {s}
      ensures cache.order == old(TableView())[s].value.order
    {
      cache := socketTable[s];
      socketTable := socketTable - {s};
    }

    method PurgeDropped(cache: Cache)
      requires Valid() && cache in Repr && forall t | t in socketTable :: socketTable[t] != cache
      modifies `macTable, cache
      ensures Valid() && TableView() == old(TableView())
      ensures macTable == old(macTable) - Keys(old(cache.order))
    {
      var purged := cache.Purge();
      OnMACsEvicted(purged);
    }

    method UnregisterSocket(s: SocketId)
      requires Valid()
      modifies `macTable, `socketTable, Repr
      ensures Valid()
      ensures View() == Unregister(old(View()), s)
    {
      if s !in socketTable || socketTable[s] == null {
        return;
      }
      hide Keys;
      OnMACsEvicted(Keys(socketTable[s].order));
      var cache := DropCache(s);
      PurgeDropped(cache);
    }

    /** What HandlePacket does with the source address; `collision` is a call of CloseError,
        which unregisters the socket. */
    method SetMACFrom(s: SocketId, mac: Mac, unicast: bool, now: int) returns (accepted: bool, collision: bool)
      requires Valid()
      modifies `macTable, `socketTable, Repr
      ensures Valid()
      ensures Learned(View(), accepted, collision) == Learn(old(View()), s, mac, unicast, now)
    {
      hide Added, Keys;
      if !unicast {
        return false, false;
      }
      if s !in socketTable || socketTable[s] == null {
        return false, false;
      }
      var cache := socketTable[s];
      if cache.Contains(mac) {
        var _ := AddEntry(s, mac, now);
        return true, false;
      }
      if !allowMACChanging && cache.Len() > 0 {
        return false, false;
      }
      if mac in macTable {
        UnregisterSocket(s);
        return false, true;
      }
      LearnMAC(s, mac, now);
      return true, false;
    }

    method LearnMAC(s: SocketId, mac: Mac, now: int)
      requires Valid() && s in socketTable && socketTable[s] != null
      modifies `macTable, Repr
      ensures Valid()
      ensures
        var t := old(TableView())[s].value;
        var added := Added(t.order, t.size, mac, now);
        && TableView() == old(TableView())[s := Some(Table(t.size, added))]
        && macTable == old(macTable)[mac := s] - (Keys(t.order) + {mac} - Keys(added))
    {
      macTable := macTable[mac := s];
      var evicted := AddEntry(s, mac, now);
      OnMACsEvicted(evicted);
    }

    method AddEntry(s: SocketId, mac: Mac, now: int) returns (evicted: set<Mac>)
      requires Valid() && s in socketTable && socketTable[s] != null
      modifies Repr
      ensures Valid()
      ensures
        var t := old(TableView())[s].value;
        var added := Added(t.order, t.size, mac, now);
        && TableView() == old(TableView())[s := Some(Table(t.size, added))]
        && evicted == Keys(t.order) + {mac} - Keys(added)
    {
      evicted := socketTable[s].Add(mac, now);
    }

    /** A configuration reload: settings are assigned, then every cache is resized. */
    method Reload(config: Config) returns (panicked: bool)
      requires Valid()
      modifies `allowMACChanging, `allowedMACsPerConnection, `macTableTimeout, `macTable, Repr
      ensures Valid()
      ensures panicked <==> !AllPresent(old(TableView()))
      ensures !panicked ==> View() == Reconfigure(old(View()), config)
    {
      hide ResizedTables, AfterEvictions, AllPresent;
      allowMACChanging, allowedMACsPerConnection, macTableTimeout :=
        config.allowMACChanging, config.allowedMACs, config.timeout;
      panicked := ConfigUpdate();
    }

    /** Go walks the caches in any order; a missing one ends the process. */
    method ConfigUpdate() returns (panicked: bool)
      requires Valid()
      modifies `macTable, Repr
      ensures Valid()
      ensures panicked <==> !AllPresent(old(TableView()))
      ensures !panicked ==>
        && TableView() == ResizedTables(old(TableView()), allowedMACsPerConnection)
        && macTable == AfterEvictions(old(macTable), old(TableView()), TableView())
    {
      ghost var before, after := TableView(), ResizedTables(TableView(), allowedMACsPerConnection);
      MixedAll(before, after);
      NothingForgotten(macTable, before);
      hide Resized, AfterEvictions, Mixed, KeysOf, ResizedTables;
      var todo := socketTable.Keys;
      while todo != {}
        invariant Valid() && todo <= socketTable.Keys
        invariant TableView() == Mixed(before, after, todo)
        invariant macTable == AfterEvictions(old(macTable), before, Mixed(before, after, todo))
        invariant forall s | s in socketTable && s !in todo :: before[s].Some?
      {
        var s :| s in todo;
        MixedAt(before, after, todo, s);
        if socketTable[s] == null {
          return true;
        }
        ResizeNext(s, old(macTable), before, after, todo);
        todo := todo - {s};
      }
      return false;
    }

    /** One round of the walk. */
    method ResizeNext(s: SocketId, ghost macs: map<Mac, SocketId>, ghost before: Tables, ghost after: Tables,
        ghost todo: set<SocketId>)
      requires Valid() && s in socketTable && socketTable[s] != null
      requires after == ResizedTables(before, allowedMACsPerConnection) && s in todo && todo <= before.Keys
      requires TableView() == Mixed(before, after, todo)
      requires macTable == AfterEvictions(macs, before, Mixed(before, after, todo))
      modifies `macTable, Repr
      ensures Valid()
      ensures TableView() == Mixed(before, after, todo - {s})
      ensures macTable == AfterEvictions(macs, before, Mixed(before, after, todo - {s}))
    {
      MixedAt(before, after, todo, s);
      MixedStep(macs, before, after, todo, s);
      ResizedKeys(before, allowedMACsPerConnection, s);
      hide Resized, AfterEvictions, Mixed, KeysOf;
      var evicted := ResizeEntry(s, allowedMACsPerConnection);
      OnMACsEvicted(evicted);
    }

    method ResizeEntry(s: SocketId, size: int) returns (evicted: set<Mac>)
      requires Valid() && s in socketTable && socketTable[s] != null
      modifies Repr
      ensures Valid()
      ensures
        var t := old(TableView())[s].value;
        && TableView() == old(TableView())[s := Some(Table(size, Resized(t.order, size)))]
        && evicted == Keys(t.order) - Keys(Resized(t.order, size))
    {
      evicted := socketTable[s].Resize(size);
    }

    /** One tick of the timer; the loop around it and its one-shot timer are not modelled. */
    method CleanupAllMACs(now: int) returns (panicked: bool)
      requires Valid()
      modifies `macTable, Repr
      ensures Valid()
      ensures panicked <==> allowMACChanging && !AllPresent(old(TableView()))
      ensures !panicked ==> View() == Cleanup(old(View()), now)
    {
      if !allowMACChanging {
        return false;
      }
      panicked := CleanupTables(now);
    }

    method CleanupTables(now: int) returns (panicked: bool)
      requires Valid()
      modifies `macTable, Repr
      ensures Valid()
      ensures panicked <==> !AllPresent(old(TableView()))
      ensures !panicked ==>
        && TableView() == CleanedTables(old(TableView()), now, macTableTimeout)
        && macTable == AfterEvictions(old(macTable), old(TableView()), TableView())
    {
      ghost var before, after := TableView(), CleanedTables(TableView(), now, macTableTimeout);
      MixedAll(before, after);
      NothingForgotten(macTable, before);
      hide DropExpired, AfterEvictions, Mixed, KeysOf, CleanedTables;
      var todo := socketTable.Keys;
      while todo != {}
        invariant Valid() && todo <= socketTable.Keys
        invariant TableView() == Mixed(before, after, todo)
        invariant macTable == AfterEvictions(old(macTable), before, Mixed(before, after, todo))
        invariant forall s | s in socketTable && s !in todo :: before[s].Some?
      {
        var s :| s in todo;
        MixedAt(before, after, todo, s);
        if socketTable[s] == null {
          return true;
        }
        CleanupNext(s, now, old(macTable), before, after, todo);
        todo := todo - {s};
      }
      return false;
    }

    method CleanupNext(s: SocketId, now: int, ghost macs: map<Mac, SocketId>, ghost before: Tables,
        ghost after: Tables, ghost todo: set<SocketId>)
      requires Valid() && s in socketTable && socketTable[s] != null
      requires after == CleanedTables(before, now, macTableTimeout) && s in todo && todo <= before.Keys
      requires TableView() == Mixed(before, after, todo)
      requires macTable == AfterEvictions(macs, before, Mixed(before, after, todo))
      modifies `macTable, Repr
      ensures Valid()
      ensures TableView() == Mixed(before, after, todo - {s})
      ensures macTable == AfterEvictions(macs, before, Mixed(before, after, todo - {s}))
    {
      MixedAt(before, after, todo, s);
      MixedStep(macs, before, after, todo, s);
      CleanedKeys(before, now, macTableTimeout, s);
      hide DropExpired, AfterEvictions, Mixed, KeysOf;
      CleanupMACs(s, now);
    }

    /** Remove the oldest entry again and again until it is fresh or none is left. */
    method CleanupMACs(s: SocketId, now: int)
      requires Valid() && s in socketTable && socketTable[s] != null
      modifies `macTable, Repr
      ensures Valid()
      ensures
        var t := old(TableView())[s].value;
        var left := DropExpired(t.order, now, macTableTimeout);
        && TableView() == old(TableView())[s := Some(Table(t.size, left))]
        && macTable == old(macTable) - (Keys(t.order) - Keys(left))
    {
      ghost var before := TableView();
      var cache := socketTable[s];
      ghost var size := cache.size;
      var oldest := cache.GetOldest();
      while oldest.Some? && now - oldest.value.time > macTableTimeout
        invariant Valid()
        invariant oldest == cache.GetOldest()
        invariant TableView() == before[s := Some(Table(size, cache.order))]
        invariant DropExpired(cache.order, now, macTableTimeout) == DropExpired(old(cache.order), now, macTableTimeout)
        invariant Keys(cache.order) <= Keys(old(cache.order))
        invariant macTable == old(macTable) - (Keys(old(cache.order)) - Keys(cache.order))
        decreases |cache.order|
      {
        RemoveOldest(s);
        oldest := cache.GetOldest();
      }
    }

    method RemoveOldest(s: SocketId)
      requires Valid() && s in socketTable && socketTable[s] != null && socketTable[s].order != []
      modifies `macTable, Repr
      ensures Valid()
      ensures socketTable[s].order == old(socketTable[s].order)[1..]
      ensures
        var t := old(TableView())[s].value;
        && TableView() == old(TableView())[s := Some(Table(t.size, t.order[1..]))]
        && macTable == old(macTable) - {t.order[0].mac}
      ensures Keys(old(socketTable[s].order)) == {old(socketTable[s].order)[0].mac} + Keys(socketTable[s].order)
      ensures old(socketTable[s].order)[0].mac !in Keys(socketTable[s].order)
    {
      var cache := socketTable[s];
      SplitKeys(cache.order);
      WithoutFirst(cache.order);
      var evicted := cache.Remove(cache.order[0].mac);
      OnMACsEvicted(evicted);
    }
  }

  lemma WithoutFirst(order: seq<Entry>)
    requires order != [] && Distinct(order)
    ensures Without(order, order[0].mac) == order[1..]
  {
    WithoutAbsent(order[1..], order[0].mac);
  }

  lemma {:induction false} WithoutAbsent(order: seq<Entry>, mac: Mac)
    requires forall i | 0 <= i < |order| :: order[i].mac != mac
    ensures Without(order, mac) == order
  {
    if order != [] {
      WithoutAbsent(order[1..], mac);
    }
  }

  lemma CleanedKeys(tables: Tables, now: int, timeout: int, s: SocketId)
    requires s in tables && tables[s].Some?
    ensures KeysOf(tables, s) == Keys(tables[s].value.order)
    ensures KeysOf(CleanedTables(tables, now, timeout), s) == Keys(DropExpired(tables[s].value.order, now, timeout))
  {
  }
}
