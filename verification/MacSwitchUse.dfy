/** What the MAC switch does for its sockets: which frames are accepted, and which addresses are
    kept, told from what the sockets have sent. */
module MacSwitchUse {
  import opened MachineInts
  import opened LruCache
  import opened MacSwitch
  import opened MacSwitchRuns

  predicate HasCache(sw: Switch, s: SocketId) {
    s in sw.tables && sw.tables[s].Some?
  }

  predicate Owns(sw: Switch, s: SocketId, mac: Mac) {
    mac in sw.macs && sw.macs[mac] == s
  }

  // --- frames ---------------------------------------------------------------------------

  /** In every reachable state, a frame is accepted exactly if its source is unicast, the socket
      has a cache, and the address is its own, or nobody's and the socket may take it. */
  lemma AcceptedExactly(config: Config, ops: seq<Op>, s: SocketId, mac: Mac, unicast: bool, now: int)
    requires LegalRun(config, ops)
    ensures
      var sw := Exec(config, ops);
      Learn(sw, s, mac, unicast, now).accepted <==>
        && unicast && HasCache(sw, s)
        && (Owns(sw, s, mac)
            || (mac !in sw.macs && (sw.config.allowMACChanging || forall m | m in sw.macs :: sw.macs[m] != s)))
  {
    RunKeepsInvariant(config, ops);
    AcceptedInState(Exec(config, ops), Time(ops), s, mac, unicast, now);
  }

  lemma AcceptedInState(sw: Switch, clock: int, s: SocketId, mac: Mac, unicast: bool, now: int)
    requires Inv(sw, clock)
    ensures Learn(sw, s, mac, unicast, now).accepted <==>
      && unicast && HasCache(sw, s)
      && (Owns(sw, s, mac)
          || (mac !in sw.macs && (sw.config.allowMACChanging || forall m | m in sw.macs :: sw.macs[m] != s)))
  {
    if HasCache(sw, s) {
      var order := sw.tables[s].value.order;
      NoKeysNoEntries(order);
      OwnsNothing(sw, s);
      assert mac in KeysOf(sw.tables, s) <==> Owns(sw, s, mac);
    }
  }

  lemma OwnsNothing(sw: Switch, s: SocketId)
    requires Agree(sw.macs, sw.tables)
    ensures KeysOf(sw.tables, s) == {} <==> forall m | m in sw.macs :: sw.macs[m] != s
  {
    if m :| m in KeysOf(sw.tables, s) {
      assert m in sw.macs && sw.macs[m] == s;
    }
    if m :| m in sw.macs && sw.macs[m] == s {
      assert m in KeysOf(sw.tables, s);
    }
  }

  lemma NoKeysNoEntries(order: seq<Entry>)
    ensures Keys(order) == {} <==> order == []
    ensures order != [] ==> order[0].mac in Keys(order)
  {
    if order != [] {
      assert order[0].mac in Keys(order);
    } else {
      assert Keys(order) == {};
    }
  }

  /** An accepted frame leaves its source address with the socket, if any address is allowed, and
      takes none from others; a frame refused without collision changes nothing. */
  lemma AcceptedOwns(config: Config, ops: seq<Op>, s: SocketId, mac: Mac, unicast: bool, now: int)
    requires LegalRun(config, ops) && now >= Time(ops)
    ensures
      var sw := Exec(config, ops);
      var learned := Learn(sw, s, mac, unicast, now);
      && (learned.accepted && sw.config.allowedMACs >= 1 ==>
            Owns(learned.sw, s, mac) && mac in KeysOf(learned.sw.tables, s))
      && (learned.accepted ==> !learned.collision && learned.sw.tables - {s} == sw.tables - {s})
      && (learned.accepted && mac in KeysOf(sw.tables, s) ==> KeysOf(learned.sw.tables, s) == KeysOf(sw.tables, s))
      && (!learned.accepted && !learned.collision ==> learned.sw == sw)
  {
    hide Exec, LegalRun, Learn, KeysOf;
    RunKeepsInvariant(config, ops);
    AcceptedOwnsInState(Exec(config, ops), Time(ops), s, mac, unicast, now);
  }

  lemma AcceptedOwnsInState(sw: Switch, clock: int, s: SocketId, mac: Mac, unicast: bool, now: int)
    requires Inv(sw, clock) && now >= clock
    ensures
      var learned := Learn(sw, s, mac, unicast, now);
      && (learned.accepted && sw.config.allowedMACs >= 1 ==>
            Owns(learned.sw, s, mac) && mac in KeysOf(learned.sw.tables, s))
      && (learned.accepted ==> !learned.collision && learned.sw.tables - {s} == sw.tables - {s})
      && (learned.accepted && mac in KeysOf(sw.tables, s) ==> KeysOf(learned.sw.tables, s) == KeysOf(sw.tables, s))
      && (!learned.accepted && !learned.collision ==> learned.sw == sw)
  {
    hide Added, Keys, InTimeOrder;
    FrameKeeps(sw, clock, s, mac, unicast, now);
    var learned := Learn(sw, s, mac, unicast, now);
    if learned.accepted {
      AddedOk(sw.tables[s].value, sw.config.allowedMACs, mac, clock, now);
      assert mac in KeysOf(learned.sw.tables, s) ==> Owns(learned.sw, s, mac);
    }
  }

  /** Unregistering takes the socket and its addresses out and leaves all else as it is. */
  lemma LeaveForgets(config: Config, ops: seq<Op>, s: SocketId)
    requires LegalRun(config, ops) && HasCache(Exec(config, ops), s)
    ensures
      var sw := Exec(config, ops);
      var next := Unregister(sw, s);
      && next.tables == sw.tables - {s} && next.config == sw.config
      && (forall mac :: mac in next.macs <==> mac in sw.macs && sw.macs[mac] != s)
      && forall mac | mac in next.macs :: next.macs[mac] == sw.macs[mac]
  {
    RunKeepsInvariant(config, ops);
  }

  // --- use ------------------------------------------------------------------------------

  /** When socket `s` last sent a unicast frame from `mac`: its position in the run. */
  function LastUse(ops: seq<Op>, s: SocketId, mac: Mac): (last: Option<nat>)
    ensures last.Some? ==> last.value < |ops| && Uses(ops[last.value], s, mac)
  {
    if ops == [] then None
    else if Uses(ops[|ops| - 1], s, mac) then Some(|ops| - 1)
    else LastUse(ops[..|ops| - 1], s, mac)
  }

  predicate Uses(op: Op, s: SocketId, mac: Mac) {
    op.Frame? && op.s == s && op.mac == mac && op.unicast
  }

  /** A cache's entries carry the times of their last uses, in the order of these. */
  predicate ByLastUse(ops: seq<Op>, s: SocketId, order: seq<Entry>) {
    && (forall i | 0 <= i < |order| :: UsedAt(ops, s, order[i]))
    && forall i, j | 0 <= i < j < |order| :: Before(ops, s, order[i].mac, order[j].mac)
  }

  predicate UsedAt(ops: seq<Op>, s: SocketId, e: Entry) {
    var last := LastUse(ops, s, e.mac);
    last.Some? && ops[last.value].now == e.time
  }

  /** The last use of the one address came before the last use of the other. */
  predicate Before(ops: seq<Op>, s: SocketId, a: Mac, b: Mac) {
    LastUse(ops, s, a).Some? && LastUse(ops, s, b).Some? && LastUse(ops, s, a).value < LastUse(ops, s, b).value
  }

  lemma LastUseGrows(before: seq<Op>, op: Op, s: SocketId, mac: Mac)
    ensures LastUse(before + [op], s, mac) == if Uses(op, s, mac) then Some(|before|) else LastUse(before, s, mac)
    ensures !Uses(op, s, mac) && LastUse(before, s, mac).Some? ==>
      (before + [op])[LastUse(before, s, mac).value] == before[LastUse(before, s, mac).value]
  {
    assert (before + [op])[..|before + [op]| - 1] == before;
  }

  lemma StillByLastUse(before: seq<Op>, op: Op, s: SocketId, order: seq<Entry>)
    requires ByLastUse(before, s, order) && forall i | 0 <= i < |order| :: !Uses(op, s, order[i].mac)
    ensures ByLastUse(before + [op], s, order)
  {
    hide LastUse, Uses;
    forall i | 0 <= i < |order| ensures UsedAt(before + [op], s, order[i]) {
      assert UsedAt(before, s, order[i]);
      LastUseGrows(before, op, s, order[i].mac);
    }
    forall i, j | 0 <= i < j < |order| ensures Before(before + [op], s, order[i].mac, order[j].mac) {
      assert Before(before, s, order[i].mac, order[j].mac);
      LastUseGrows(before, op, s, order[i].mac);
      LastUseGrows(before, op, s, order[j].mac);
    }
  }

  lemma SuffixByLastUse(ops: seq<Op>, s: SocketId, order: seq<Entry>, k: nat)
    requires ByLastUse(ops, s, order) && k <= |order|
    ensures ByLastUse(ops, s, order[k..])
  {
    hide LastUse, Uses, UsedAt, Before;
  }

  /** The address used now becomes the newest. */
  lemma NewestByLastUse(before: seq<Op>, op: Op, s: SocketId, order: seq<Entry>)
    requires ByLastUse(before, s, order) && op.Frame? && Uses(op, s, op.mac) && op.mac !in Keys(order)
    ensures ByLastUse(before + [op], s, order + [Entry(op.mac, op.now)])
  {
    hide LastUse;
    var ops, longer := before + [op], order + [Entry(op.mac, op.now)];
    forall i | 0 <= i < |order| ensures order[i].mac != op.mac {
      assert order[i] in order;
    }
    StillByLastUse(before, op, s, order);
    LastUseGrows(before, op, s, op.mac);
    assert ops[|before|] == op;
    forall i, j | 0 <= i < j < |longer| ensures Before(ops, s, longer[i].mac, longer[j].mac) {
      if j < |order| {
        assert Before(ops, s, order[i].mac, order[j].mac);
      } else {
        assert UsedAt(before, s, order[i]);
        LastUseGrows(before, op, s, order[i].mac);
      }
    }
    forall i | 0 <= i < |longer| ensures UsedAt(ops, s, longer[i]) {
      if i < |order| {
        assert UsedAt(ops, s, order[i]);
      }
    }
  }

  lemma {:induction false} WithoutByLastUse(ops: seq<Op>, s: SocketId, order: seq<Entry>, mac: Mac)
    requires ByLastUse(ops, s, order)
    ensures ByLastUse(ops, s, Without(order, mac))
  {
    hide LastUse, UsedAt, Before;
    if order != [] {
      SuffixByLastUse(ops, s, order, 1);
      WithoutByLastUse(ops, s, order[1..], mac);
      if order[0].mac != mac {
        var rest := Without(order[1..], mac);
        forall e | e in rest ensures Before(ops, s, order[0].mac, e.mac) {
          assert e in order[1..];
          var k :| 0 <= k < |order[1..]| && order[1..][k] == e;
          assert order[k + 1] == e;
        }
        OldestInFront(ops, s, order[0], rest);
      }
    }
  }

  lemma OldestInFront(ops: seq<Op>, s: SocketId, e: Entry, rest: seq<Entry>)
    requires UsedAt(ops, s, e) && ByLastUse(ops, s, rest) && forall f | f in rest :: Before(ops, s, e.mac, f.mac)
    ensures ByLastUse(ops, s, [e] + rest)
  {
    hide LastUse, UsedAt, Before;
  }

  lemma AddedByLastUse(before: seq<Op>, op: Op, s: SocketId, t: Table)
    requires ByLastUse(before, s, t.order) && op.Frame? && Uses(op, s, op.mac)
    ensures ByLastUse(before + [op], s, Added(t.order, t.size, op.mac, op.now))
  {
    hide ByLastUse, Uses;
    if op.mac in Keys(t.order) {
      WithoutByLastUse(before, s, t.order, op.mac);
      assert op.mac !in Keys(Without(t.order, op.mac));
      NewestByLastUse(before, op, s, Without(t.order, op.mac));
    } else {
      NewestByLastUse(before, op, s, t.order);
      SuffixByLastUse(before + [op], s, t.order + [Entry(op.mac, op.now)], 1);
    }
  }

  lemma {:induction false} DroppedIsSuffix(order: seq<Entry>, now: int, timeout: int) returns (k: nat)
    ensures k <= |order| && DropExpired(order, now, timeout) == order[k..]
  {
    if order == [] || now - order[0].time <= timeout {
      k := 0;
    } else {
      k := DroppedIsSuffix(order[1..], now, timeout);
      k := k + 1;
    }
  }

  ghost predicate AllByLastUse(ops: seq<Op>, tables: Tables) {
    forall s | s in tables && tables[s].Some? :: ByLastUse(ops, s, tables[s].value.order)
  }

  /** After every run, every cache lists its addresses in the order of their last uses, each with
      the time of that use. */
  lemma {:induction false} CachesFollowUse(config: Config, ops: seq<Op>)
    requires LegalRun(config, ops)
    ensures AllByLastUse(ops, Exec(config, ops).tables)
  {
    if ops != [] {
      var before, op := ops[..|ops| - 1], ops[|ops| - 1];
      assert ops == before + [op];
      CachesFollowUse(config, before);
      RunKeepsInvariant(config, before);
      forall s | s in Exec(config, ops).tables && Exec(config, ops).tables[s].Some?
        ensures ByLastUse(ops, s, Exec(config, ops).tables[s].value.order)
      {
        StepFollowsUse(before, Exec(config, before), op, s);
      }
    }
  }

  lemma StepFollowsUse(before: seq<Op>, sw: Switch, op: Op, s: SocketId)
    requires AllByLastUse(before, sw.tables) && HasCache(Apply(sw, op), s)
    ensures ByLastUse(before + [op], s, Apply(sw, op).tables[s].value.order)
  {
    hide ByLastUse, Added, Resized, DropExpired, Keys;
    var order := Apply(sw, op).tables[s].value.order;
    match op
    case Frame(_, _, _, _) => FrameFollowsUse(before, sw, op, s);
    case Join(t) =>
      if t == s {
        NoEntries(before + [op], s);
      } else {
        NotUsed(before, op, s, order);
      }
    case Leave(_) => NotUsed(before, op, s, order);
    case Reload(config) =>
      var k := ResizedIsSuffix(sw.tables[s].value.order, config.allowedMACs);
      SuffixByLastUse(before, s, sw.tables[s].value.order, k);
      NotUsed(before, op, s, order);
    case Tick(now) =>
      var k := DroppedIsSuffix(sw.tables[s].value.order, now, sw.config.timeout);
      SuffixByLastUse(before, s, sw.tables[s].value.order, k);
      NotUsed(before, op, s, order);
  }

  lemma NoEntries(ops: seq<Op>, s: SocketId)
    ensures ByLastUse(ops, s, [])
  {
  }

  lemma NotUsed(before: seq<Op>, op: Op, s: SocketId, order: seq<Entry>)
    requires ByLastUse(before, s, order) && (op.Frame? ==> op.s != s || !op.unicast || op.mac !in Keys(order))
    ensures ByLastUse(before + [op], s, order)
  {
    hide ByLastUse;
    forall i | 0 <= i < |order| ensures !Uses(op, s, order[i].mac) {
      assert order[i] in order;
    }
    StillByLastUse(before, op, s, order);
  }

  lemma ResizedIsSuffix(order: seq<Entry>, size: int) returns (k: nat)
    ensures k <= |order| && Resized(order, size) == order[k..]
    ensures k == if |order| <= size then 0 else if size <= 0 then |order| else |order| - size
  {
    k := if |order| <= size then 0 else if size <= 0 then |order| else |order| - size;
  }

  lemma FrameFollowsUse(before: seq<Op>, sw: Switch, op: Op, s: SocketId)
    requires AllByLastUse(before, sw.tables) && op.Frame? && HasCache(Apply(sw, op), s)
    ensures ByLastUse(before + [op], s, Apply(sw, op).tables[s].value.order)
  {
    hide ByLastUse, Added;
    var learned := Learn(sw, op.s, op.mac, op.unicast, op.now);
    if op.s == s && learned.accepted {
      AddedByLastUse(before, op, s, sw.tables[s].value);
    } else {
      NotUsed(before, op, s, sw.tables[s].value.order);
    }
  }

  // --- what that means for the addresses ------------------------------------------------

  /** After every run, a socket's entry for an address has the time of the latest unicast frame
      that the socket sent from it. */
  lemma EntryTimeIsLastUse(config: Config, ops: seq<Op>, s: SocketId, e: Entry)
    requires LegalRun(config, ops) && HasCache(Exec(config, ops), s) && e in Exec(config, ops).tables[s].value.order
    ensures
      var last := LastUse(ops, s, e.mac);
      last.Some? && ops[last.value].now == e.time
  {
    hide LastUse, Exec, LegalRun;
    CachesFollowUse(config, ops);
    var order := Exec(config, ops).tables[s].value.order;
    var i :| 0 <= i < |order| && order[i] == e;
    assert UsedAt(ops, s, order[i]);
  }

  /** A tick takes from a socket exactly the addresses that it has not used for longer than the
      timeout. */
  lemma TickTakesExactlyUnused(config: Config, ops: seq<Op>, now: int, s: SocketId, mac: Mac)
    requires LegalRun(config, ops) && now >= Time(ops)
    requires
      var sw := Exec(config, ops);
      sw.config.allowMACChanging && AllPresent(sw.tables) && Owns(sw, s, mac)
    ensures
      var last := LastUse(ops, s, mac);
      last.Some? &&
      (Owns(Cleanup(Exec(config, ops), now), s, mac) <==>
        now - ops[last.value].now <= Exec(config, ops).config.timeout)
  {
    hide LastUse, DropExpired, Cleanup;
    RunKeepsInvariant(config, ops);
    var sw, next := Exec(config, ops), Cleanup(Exec(config, ops), now);
    hide Exec;
    assert mac in KeysOf(sw.tables, s);
    var order := sw.tables[s].value.order;
    var e :| e in order && e.mac == mac;
    EntryTimeIsLastUse(config, ops, s, e);
    CleanupRemovesExactlyExpired(config, ops, now, s);
    assert Owns(next, s, mac) <==> mac in KeysOf(next.tables, s);
    if f :| f in next.tables[s].value.order && f.mac == mac {
      SameEntry(order, e, f);
    }
  }

  lemma SameEntry(order: seq<Entry>, e: Entry, f: Entry)
    requires Distinct(order) && e in order && f in order && e.mac == f.mac
    ensures e == f
  {
    var i :| 0 <= i < |order| && order[i] == e;
    var j :| 0 <= j < |order| && order[j] == f;
    assert i == j;
  }

  /** A new address is added to the socket's own as long as there is room; otherwise the one that
      the socket has not used for longest, `oldest`, makes room for it. */
  lemma NewAddressEvictsLeastRecentlyUsed(config: Config, ops: seq<Op>, s: SocketId, mac: Mac, now: int)
      returns (oldest: Mac)
    requires LegalRun(config, ops) && now >= Time(ops) && Exec(config, ops).config.allowedMACs >= 1
    requires Learn(Exec(config, ops), s, mac, true, now).accepted && mac !in KeysOf(Exec(config, ops).tables, s)
    ensures
      var own := KeysOf(Exec(config, ops).tables, s);
      var next := KeysOf(Learn(Exec(config, ops), s, mac, true, now).sw.tables, s);
      if |own| < Exec(config, ops).config.allowedMACs then next == own + {mac}
      else
        && oldest in own && next == own - {oldest} + {mac}
        && forall other | other in own && other != oldest :: Before(ops, s, oldest, other)
  {
    hide LastUse, Exec, LegalRun, KeysOf, Learn;
    RunKeepsInvariant(config, ops);
    CachesFollowUse(config, ops);
    oldest := NewAddressInState(ops, Exec(config, ops), Time(ops), s, mac, now);
  }

  lemma NewAddressInState(ops: seq<Op>, sw: Switch, clock: int, s: SocketId, mac: Mac, now: int) returns (oldest: Mac)
    requires Inv(sw, clock) && AllByLastUse(ops, sw.tables) && sw.config.allowedMACs >= 1
    requires Learn(sw, s, mac, true, now).accepted && mac !in KeysOf(sw.tables, s)
    ensures
      var own, next := KeysOf(sw.tables, s), KeysOf(Learn(sw, s, mac, true, now).sw.tables, s);
      if |own| < sw.config.allowedMACs then next == own + {mac}
      else
        && oldest in own && next == own - {oldest} + {mac}
        && forall other | other in own && other != oldest :: Before(ops, s, oldest, other)
  {
    hide LastUse, Keys, ByLastUse, InTimeOrder;
    var t := sw.tables[s].value;
    KeysCount(t.order);
    AppendKeys(t.order, Entry(mac, now));
    oldest := mac;
    if |t.order| >= t.size {
      oldest := t.order[0].mac;
      FirstIsOldest(ops, s, t.order, mac, now);
    }
  }

  lemma FirstIsOldest(ops: seq<Op>, s: SocketId, order: seq<Entry>, mac: Mac, now: int)
    requires order != [] && Distinct(order) && ByLastUse(ops, s, order) && mac !in Keys(order)
    ensures Keys((order + [Entry(mac, now)])[1..]) == Keys(order) - {order[0].mac} + {mac}
    ensures order[0].mac in Keys(order)
    ensures forall other | other in Keys(order) && other != order[0].mac :: Before(ops, s, order[0].mac, other)
  {
    hide LastUse, Before, UsedAt;
    SplitKeys(order);
    AppendKeys(order[1..], Entry(mac, now));
    assert (order + [Entry(mac, now)])[1..] == order[1..] + [Entry(mac, now)];
    assert order[0] in order;
    forall other | other in Keys(order) && other != order[0].mac ensures Before(ops, s, order[0].mac, other) {
      var i :| 0 <= i < |order| && order[i].mac == other;
    }
  }

  /** A reload keeps as many of a socket's addresses as the new limit allows, and those it keeps
      have been used later than those it takes. */
  lemma ReloadKeepsLatestUsed(config: Config, ops: seq<Op>, to: Config, s: SocketId)
    requires LegalRun(config, ops) && HasCache(Exec(config, ops), s)
    ensures
      var own := KeysOf(Exec(config, ops).tables, s);
      var kept := KeysOf(Reconfigure(Exec(config, ops), to).tables, s);
      && kept <= own
      && |kept| == (if |own| <= to.allowedMACs then |own| else if to.allowedMACs <= 0 then 0 else to.allowedMACs)
      && forall a, b | a in own - kept && b in kept :: Before(ops, s, a, b)
  {
    hide LastUse;
    RunKeepsInvariant(config, ops);
    CachesFollowUse(config, ops);
    var order := Exec(config, ops).tables[s].value.order;
    hide Exec, LegalRun, Resized;
    var k := ResizedIsSuffix(order, to.allowedMACs);
    KeysCount(order);
    KeysCount(order[k..]);
    forall a, b | a in Keys(order) - Keys(order[k..]) && b in Keys(order[k..]) ensures Before(ops, s, a, b) {
      OlderThanSuffix(ops, s, order, k, a, b);
    }
  }

  lemma OlderThanSuffix(ops: seq<Op>, s: SocketId, order: seq<Entry>, k: nat, a: Mac, b: Mac)
    requires ByLastUse(ops, s, order) && k <= |order| && a in Keys(order) - Keys(order[k..]) && b in Keys(order[k..])
    ensures Before(ops, s, a, b)
  {
    hide LastUse, Before, UsedAt;
    KeysSplit(order, k);
    var i :| 0 <= i < k && order[..k][i].mac == a;
    var j :| 0 <= j < |order[k..]| && order[k..][j].mac == b;
    assert order[i].mac == a && order[k + j].mac == b;
  }

  lemma KeysSplit(order: seq<Entry>, k: nat)
    requires k <= |order|
    ensures Keys(order) == Keys(order[..k]) + Keys(order[k..])
  {
    assert order == order[..k] + order[k..];
  }
}
