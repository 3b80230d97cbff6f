/** Runs of the MAC switch: sequences of atomic handler steps in any order. */
module MacSwitchRuns {
  import opened MachineInts
  import opened LruCache
  import opened MacSwitch

  datatype Op =
    | Frame(s: SocketId, mac: Mac, unicast: bool, now: int)
    | Join(s: SocketId)
    | Leave(s: SocketId)
    | Reload(config: Config)
    | Tick(now: int)

  function Apply(sw: Switch, op: Op): Switch {
    match op
    case Frame(s, mac, unicast, now) => Learn(sw, s, mac, unicast, now).sw
    case Join(s) => Register(sw, s)
    case Leave(s) => Unregister(sw, s)
    case Reload(config) => Reconfigure(sw, config)
    case Tick(now) => Cleanup(sw, now)
  }

  function Clock(clock: int, op: Op): int {
    if op.Frame? || op.Tick? then op.now else clock
  }

  /** The clock does not go back; a socket is registered only while it owns no address (each
      socket is served once); and the step does not end the process. */
  predicate Legal(sw: Switch, clock: int, op: Op) {
    && Clock(clock, op) >= clock
    && (op.Join? ==> KeysOf(sw.tables, op.s) == {})
    && (op.Reload? || (op.Tick? && sw.config.allowMACChanging) ==> AllPresent(sw.tables))
  }

  // --- the invariant --------------------------------------------------------------------

  /** The MAC table and the caches say the same. */
  ghost predicate Agree(macs: map<Mac, SocketId>, tables: Tables) {
    forall mac, s :: mac in macs && macs[mac] == s <==> mac in KeysOf(tables, s)
  }

  /** Oldest to newest is in order of time, and nothing is from the future. */
  predicate InTimeOrder(order: seq<Entry>, clock: int) {
    && (forall i, j | 0 <= i < j < |order| :: order[i].time <= order[j].time)
    && forall i | 0 <= i < |order| :: order[i].time <= clock
  }

  predicate TableOk(t: Table, allowedMACs: int, clock: int) {
    && Distinct(t.order)
    && t.size == allowedMACs
    && (|t.order| <= t.size || t.order == [])
    && InTimeOrder(t.order, clock)
  }

  ghost predicate Inv(sw: Switch, clock: int) {
    && Agree(sw.macs, sw.tables)
    && forall s | s in sw.tables && sw.tables[s].Some? :: TableOk(sw.tables[s].value, sw.config.allowedMACs, clock)
  }

  // --- caches ---------------------------------------------------------------------------

  lemma {:induction false} WithoutKeeps(order: seq<Entry>, mac: Mac, clock: int)
    requires InTimeOrder(order, clock) && Distinct(order)
    ensures InTimeOrder(Without(order, mac), clock)
    ensures |Without(order, mac)| == |order| - if mac in Keys(order) then 1 else 0
    ensures Keys(Without(order, mac)) == Keys(order) - {mac}
  {
    if order != [] {
      SplitKeys(order);
      WithoutKeeps(order[1..], mac, clock);
      if order[0].mac != mac {
        var rest := Without(order[1..], mac);
        forall e | e in rest ensures order[0].time <= e.time {
          assert e in order[1..];
        }
        OlderFirst(order[0], rest, clock);
      }
    }
  }

  lemma OlderFirst(e: Entry, rest: seq<Entry>, clock: int)
    requires InTimeOrder(rest, clock) && e.time <= clock && forall f | f in rest :: e.time <= f.time
    ensures InTimeOrder([e] + rest, clock) && Keys([e] + rest) == {e.mac} + Keys(rest)
  {
  }

  lemma AddedOk(t: Table, allowedMACs: int, mac: Mac, clock: int, now: int)
    requires TableOk(t, allowedMACs, clock) && clock <= now
    ensures TableOk(Table(t.size, Added(t.order, t.size, mac, now)), allowedMACs, now)
    ensures Keys(Added(t.order, t.size, mac, now)) <= Keys(t.order) + {mac}
    ensures mac in Keys(t.order) ==> Keys(Added(t.order, t.size, mac, now)) == Keys(t.order)
    ensures t.size >= 1 ==> mac in Keys(Added(t.order, t.size, mac, now))
  {
    hide Keys, Without, InTimeOrder, Distinct;
    if mac in Keys(t.order) {
      WithoutKeeps(t.order, mac, clock);
      NewestOk(Without(t.order, mac), mac, clock, now);
      AppendKeys(Without(t.order, mac), Entry(mac, now));
      HasKeys(t.order, mac);
    } else {
      NewestOk(t.order, mac, clock, now);
      AppendKeys(t.order, Entry(mac, now));
      OldestGoes(t.order + [Entry(mac, now)], mac, now);
    }
  }

  lemma NewestOk(order: seq<Entry>, mac: Mac, clock: int, now: int)
    requires Distinct(order) && InTimeOrder(order, clock) && clock <= now && mac !in Keys(order)
    ensures Distinct(order + [Entry(mac, now)]) && InTimeOrder(order + [Entry(mac, now)], now)
  {
    forall i | 0 <= i < |order| ensures order[i].mac != mac {
      assert order[i] in order;
    }
  }

  lemma HasKeys(order: seq<Entry>, mac: Mac)
    requires mac in Keys(order)
    ensures order != []
  {
  }

  lemma OldestGoes(order: seq<Entry>, mac: Mac, now: int)
    requires order != [] && Distinct(order) && InTimeOrder(order, now) && order[|order| - 1].mac == mac
    ensures Distinct(order[1..]) && InTimeOrder(order[1..], now)
    ensures Keys(order[1..]) <= Keys(order)
    ensures |order| >= 2 ==> mac in Keys(order[1..])
  {
    if |order| >= 2 {
      assert order[|order| - 1] in order[1..];
    }
  }

  lemma ResizedOk(t: Table, clock: int, size: int)
    requires Distinct(t.order) && InTimeOrder(t.order, clock)
    ensures TableOk(Table(size, Resized(t.order, size)), size, clock)
    ensures Keys(Resized(t.order, size)) <= Keys(t.order)
  {
  }

  lemma {:induction false} DroppedOk(order: seq<Entry>, clock: int, now: int, timeout: int)
    requires Distinct(order) && InTimeOrder(order, clock)
    ensures
      var left := DropExpired(order, now, timeout);
      && Distinct(left) && InTimeOrder(left, clock) && |left| <= |order|
      && (forall e :: e in left <==> e in order && now - e.time <= timeout)
      && Keys(left) <= Keys(order)
  {
    if order != [] && now - order[0].time > timeout {
      DroppedOk(order[1..], clock, now, timeout);
      assert order == [order[0]] + order[1..];
    }
  }

  // --- agreement ------------------------------------------------------------------------

  /** Under agreement, evictions take from the MAC table just what the caches forgot. */
  lemma EvictionsKeepAgreement(macs: map<Mac, SocketId>, before: Tables, after: Tables)
    requires Agree(macs, before) && before.Keys == after.Keys
    requires forall s | s in before :: KeysOf(after, s) <= KeysOf(before, s)
    ensures Agree(AfterEvictions(macs, before, after), after)
  {
    var left := AfterEvictions(macs, before, after);
    forall mac, s ensures mac in left && left[mac] == s <==> mac in KeysOf(after, s) {
      if mac in KeysOf(after, s) {
        assert mac in KeysOf(before, s);
        forall t | t in before && mac in KeysOf(before, t) ensures t == s {
          assert macs[mac] == t && macs[mac] == s;
        }
        assert !Forgets(before, after, mac);
      }
      if mac in left && left[mac] == s {
        assert mac in KeysOf(before, s);
      }
    }
  }

  lemma ReloadKeeps(sw: Switch, clock: int, config: Config)
    requires Inv(sw, clock)
    ensures Inv(Reconfigure(sw, config), clock)
  {
    var after := ResizedTables(sw.tables, config.allowedMACs);
    forall s | s in sw.tables
      ensures KeysOf(after, s) <= KeysOf(sw.tables, s)
      ensures after[s].Some? ==> TableOk(after[s].value, config.allowedMACs, clock)
    {
      if sw.tables[s].Some? {
        ResizedOk(sw.tables[s].value, clock, config.allowedMACs);
      }
    }
    EvictionsKeepAgreement(sw.macs, sw.tables, after);
  }

  lemma CleanupKeeps(sw: Switch, clock: int, now: int)
    requires Inv(sw, clock) && clock <= now
    ensures Inv(Cleanup(sw, now), now)
  {
    var after := CleanedTables(sw.tables, now, sw.config.timeout);
    forall s | s in sw.tables
      ensures KeysOf(after, s) <= KeysOf(sw.tables, s)
      ensures after[s].Some? ==> TableOk(after[s].value, sw.config.allowedMACs, now)
    {
      if sw.tables[s].Some? {
        DroppedOk(sw.tables[s].value.order, clock, now, sw.config.timeout);
      }
    }
    EvictionsKeepAgreement(sw.macs, sw.tables, after);
  }

  lemma UnregisterKeeps(sw: Switch, clock: int, s: SocketId)
    requires Inv(sw, clock)
    ensures Inv(Unregister(sw, s), clock)
  {
    var next := Unregister(sw, s);
    forall mac, t ensures mac in next.macs && next.macs[mac] == t <==> mac in KeysOf(next.tables, t) {
      assert mac in KeysOf(sw.tables, t) <==> mac in sw.macs && sw.macs[mac] == t;
      assert mac in KeysOf(sw.tables, s) <==> mac in sw.macs && sw.macs[mac] == s;
    }
  }

  /** Registering a socket keeps the agreement exactly if the socket owns no address. */
  lemma RegisterKeepsExactly(sw: Switch, s: SocketId)
    requires Agree(sw.macs, sw.tables)
    ensures Agree(Register(sw, s).macs, Register(sw, s).tables) <==> KeysOf(sw.tables, s) == {}
  {
    var next := Register(sw, s);
    assert KeysOf(next.tables, s) == {};
    assert forall t | t != s :: KeysOf(next.tables, t) == KeysOf(sw.tables, t);
    if mac :| mac in KeysOf(sw.tables, s) {
      assert mac in next.macs && next.macs[mac] == s;
      assert mac !in KeysOf(next.tables, s);
    }
  }

  lemma RegisterKeeps(sw: Switch, clock: int, s: SocketId)
    requires Inv(sw, clock) && KeysOf(sw.tables, s) == {}
    ensures Inv(Register(sw, s), clock)
  {
    RegisterKeepsExactly(sw, s);
  }

  lemma LaterClock(sw: Switch, clock: int, now: int)
    requires Inv(sw, clock) && clock <= now
    ensures Inv(sw, now)
  {
  }

  lemma FrameKeeps(sw: Switch, clock: int, s: SocketId, mac: Mac, unicast: bool, now: int)
    requires Inv(sw, clock) && clock <= now
    ensures Inv(Learn(sw, s, mac, unicast, now).sw, now)
  {
    LaterClock(sw, clock, now);
    var learned := Learn(sw, s, mac, unicast, now);
    if learned.collision {
      UnregisterKeeps(sw, now, s);
    } else if learned.accepted {
      var t := sw.tables[s].value;
      AddedOk(t, sw.config.allowedMACs, mac, clock, now);
      LearnedAgrees(sw, s, mac, Added(t.order, t.size, mac, now), learned.sw);
    }
  }

  lemma LearnedAgrees(sw: Switch, s: SocketId, mac: Mac, added: seq<Entry>, next: Switch)
    requires Agree(sw.macs, sw.tables) && s in sw.tables && sw.tables[s].Some?
    requires Keys(added) <= KeysOf(sw.tables, s) + {mac}
    requires next.tables == sw.tables[s := Some(Table(sw.tables[s].value.size, added))]
    requires
      if mac in KeysOf(sw.tables, s) then next.macs == sw.macs && Keys(added) == KeysOf(sw.tables, s)
      else mac !in sw.macs && next.macs == sw.macs[mac := s] - (KeysOf(sw.tables, s) + {mac} - Keys(added))
    ensures Agree(next.macs, next.tables)
  {
    assert KeysOf(next.tables, s) == Keys(added);
    forall m, t ensures m in next.macs && next.macs[m] == t <==> m in KeysOf(next.tables, t) {
      assert m in KeysOf(sw.tables, t) <==> m in sw.macs && sw.macs[m] == t;
      assert m in KeysOf(sw.tables, s) <==> m in sw.macs && sw.macs[m] == s;
      if t != s {
        assert KeysOf(next.tables, t) == KeysOf(sw.tables, t);
      }
    }
  }

  lemma StepKeeps(sw: Switch, clock: int, op: Op)
    requires Inv(sw, clock) && Legal(sw, clock, op)
    ensures Inv(Apply(sw, op), Clock(clock, op))
  {
    match op
    case Frame(s, mac, unicast, now) => FrameKeeps(sw, clock, s, mac, unicast, now);
    case Join(s) => RegisterKeeps(sw, clock, s);
    case Leave(s) => UnregisterKeeps(sw, clock, s);
    case Reload(config) => ReloadKeeps(sw, clock, config);
    case Tick(now) =>
      LaterClock(sw, clock, now);
      CleanupKeeps(sw, clock, now);
  }

  // --- runs -----------------------------------------------------------------------------

  function Time(ops: seq<Op>): int {
    if ops == [] then 0 else Clock(Time(ops[..|ops| - 1]), ops[|ops| - 1])
  }

  function Exec(config: Config, ops: seq<Op>): Switch {
    if ops == [] then Switch(config, map[], map[])
    else Apply(Exec(config, ops[..|ops| - 1]), ops[|ops| - 1])
  }

  predicate LegalRun(config: Config, ops: seq<Op>) {
    ops != [] ==>
      var before := ops[..|ops| - 1];
      LegalRun(config, before) && Legal(Exec(config, before), Time(before), ops[|ops| - 1])
  }

  /** After every run the MAC table and the caches agree, no cache is over its limit, and every
      cache is in order of time. */
  lemma {:induction false} RunKeepsInvariant(config: Config, ops: seq<Op>)
    requires LegalRun(config, ops)
    ensures Inv(Exec(config, ops), Time(ops))
  {
    if ops != [] {
      var before := ops[..|ops| - 1];
      RunKeepsInvariant(config, before);
      StepKeeps(Exec(config, before), Time(before), ops[|ops| - 1]);
    }
  }

  /** No address is in two caches. */
  lemma OneOwner(config: Config, ops: seq<Op>, mac: Mac, s: SocketId, t: SocketId)
    requires LegalRun(config, ops)
    requires mac in KeysOf(Exec(config, ops).tables, s) && mac in KeysOf(Exec(config, ops).tables, t)
    ensures s == t && mac in Exec(config, ops).macs && Exec(config, ops).macs[mac] == s
  {
    hide Exec, KeysOf;
    RunKeepsInvariant(config, ops);
    AgreedOwner(Exec(config, ops).macs, Exec(config, ops).tables, mac, s);
    AgreedOwner(Exec(config, ops).macs, Exec(config, ops).tables, mac, t);
  }

  lemma AgreedOwner(macs: map<Mac, SocketId>, tables: Tables, mac: Mac, s: SocketId)
    requires Agree(macs, tables) && mac in KeysOf(tables, s)
    ensures mac in macs && macs[mac] == s
  {
  }

  /** The configuration in force after a run. */
  function ConfigAfter(config: Config, ops: seq<Op>): Config {
    if ops == [] then config
    else if ops[|ops| - 1].Reload? then ops[|ops| - 1].config
    else ConfigAfter(config, ops[..|ops| - 1])
  }

  /** The latest registration of `s` was under a limit that allows no address. */
  predicate JoinedWithoutLimit(config: Config, ops: seq<Op>, s: SocketId) {
    ops != [] &&
    if ops[|ops| - 1] == Join(s) then ConfigAfter(config, ops[..|ops| - 1]).allowedMACs <= 0
    else JoinedWithoutLimit(config, ops[..|ops| - 1], s)
  }

  lemma {:induction false} ConfigIsAfter(config: Config, ops: seq<Op>)
    ensures Exec(config, ops).config == ConfigAfter(config, ops)
  {
    if ops != [] {
      ConfigIsAfter(config, ops[..|ops| - 1]);
    }
  }

  /** A socket's cache is missing exactly if its latest registration was under a limit that
      allows no address; unregistering it does not help. */
  lemma {:induction false} MissingExactly(config: Config, ops: seq<Op>, s: SocketId)
    ensures
      var tables := Exec(config, ops).tables;
      s in tables && tables[s].None? <==> JoinedWithoutLimit(config, ops, s)
  {
    if ops != [] {
      MissingExactly(config, ops[..|ops| - 1], s);
      ConfigIsAfter(config, ops[..|ops| - 1]);
    }
  }

  lemma {:induction false} JoinedSomewhere(config: Config, ops: seq<Op>, s: SocketId)
    requires JoinedWithoutLimit(config, ops, s)
    ensures Join(s) in ops
  {
    if ops[|ops| - 1] != Join(s) {
      JoinedSomewhere(config, ops[..|ops| - 1], s);
    }
  }

  /** After a run, a reload (or a tick, while addresses may change) ends the process exactly if
      some socket's latest registration was under a limit that allows no address. */
  lemma PanicsExactly(config: Config, ops: seq<Op>)
    ensures !AllPresent(Exec(config, ops).tables) <==>
      exists k | 0 <= k < |ops| && ops[k].Join? :: JoinedWithoutLimit(config, ops, ops[k].s)
  {
    hide Exec, JoinedWithoutLimit;
    var tables := Exec(config, ops).tables;
    if s :| s in tables && tables[s].None? {
      MissingExactly(config, ops, s);
      JoinedSomewhere(config, ops, s);
      var k :| 0 <= k < |ops| && ops[k] == Join(s);
      assert JoinedWithoutLimit(config, ops, ops[k].s);
    }
    forall k | 0 <= k < |ops| && ops[k].Join? && JoinedWithoutLimit(config, ops, ops[k].s)
      ensures !AllPresent(tables)
    {
      MissingExactly(config, ops, ops[k].s);
    }
  }

  /** As long as every configuration allows at least one address, no cache is ever missing, so
      no reload and no clean-up ends the process. */
  lemma {:induction false} PositiveLimitsNeverPanic(config: Config, ops: seq<Op>)
    requires config.allowedMACs >= 1
    requires forall k | 0 <= k < |ops| && ops[k].Reload? :: ops[k].config.allowedMACs >= 1
    ensures AllPresent(Exec(config, ops).tables) && Exec(config, ops).config.allowedMACs >= 1
  {
    if ops != [] {
      PositiveLimitsNeverPanic(config, ops[..|ops| - 1]);
    }
  }

  /** The shortest such run: one registration under a limit of 0, then a reload or a tick. */
  lemma PanickingRun(timeout: int, config: Config)
    ensures
      var start := Config(true, 0, timeout);
      && LegalRun(start, [Join(1)])
      && !Legal(Exec(start, [Join(1)]), 0, Reload(config))
      && !Legal(Exec(start, [Join(1)]), 0, Tick(0))
  {
    var start, ops := Config(true, 0, timeout), [Join(1)];
    assert ops[..0] == [];
    assert Exec(start, []) == Switch(start, map[], map[]);
    var tables := Exec(start, ops).tables;
    assert 1 in tables && tables[1].None?;
    assert !AllPresent(tables);
    assert LegalRun(start, ops[..0]);
  }

  ghost function Total(tables: Tables, sockets: set<SocketId>): nat {
    if sockets == {} then 0
    else
      var s :| s in sockets;
      (if s in tables && tables[s].Some? then |tables[s].value.order| else 0) + Total(tables, sockets - {s})
  }

  function OwnedBy(macs: map<Mac, SocketId>, sockets: set<SocketId>): set<Mac> {
    set mac | mac in macs && macs[mac] in sockets
  }

  lemma OwnedByOneMore(macs: map<Mac, SocketId>, tables: Tables, sockets: set<SocketId>, s: SocketId)
    requires Agree(macs, tables) && s in sockets
    ensures |OwnedBy(macs, sockets)| == |OwnedBy(macs, sockets - {s})| + |KeysOf(tables, s)|
  {
    hide KeysOf;
    var mine := KeysOf(tables, s);
    assert OwnedBy(macs, sockets) == OwnedBy(macs, sockets - {s}) + mine;
    assert OwnedBy(macs, sockets - {s}) !! mine;
  }

  lemma {:induction false} OwnedCount(sw: Switch, clock: int, sockets: set<SocketId>)
    requires Inv(sw, clock)
    ensures |OwnedBy(sw.macs, sockets)| == Total(sw.tables, sockets)
  {
    if sockets == {} {
      assert OwnedBy(sw.macs, sockets) == {};
    } else {
      var s :| s in sockets && Total(sw.tables, sockets) ==
        (if s in sw.tables && sw.tables[s].Some? then |sw.tables[s].value.order| else 0)
        + Total(sw.tables, sockets - {s});
      OwnedCount(sw, clock, sockets - {s});
      OwnedByOneMore(sw.macs, sw.tables, sockets, s);
      if s in sw.tables && sw.tables[s].Some? {
        KeysCount(sw.tables[s].value.order);
      }
    }
  }

  /** The MAC table has as many entries as all caches together. */
  lemma TableSizesAddUp(config: Config, ops: seq<Op>)
    requires LegalRun(config, ops)
    ensures
      var sw := Exec(config, ops);
      |sw.macs| == Total(sw.tables, sw.tables.Keys)
  {
    RunKeepsInvariant(config, ops);
    var sw := Exec(config, ops);
    OwnedCount(sw, Time(ops), sw.tables.Keys);
    forall mac | mac in sw.macs ensures sw.macs[mac] in sw.tables.Keys {
      assert mac in KeysOf(sw.tables, sw.macs[mac]);
    }
    assert OwnedBy(sw.macs, sw.tables.Keys) == sw.macs.Keys;
  }

  /** In every reachable state, stopping at the first fresh entry loses nothing: a clean-up
      removes exactly the entries older than the timeout, from the caches and the MAC table. */
  lemma CleanupRemovesExactlyExpired(config: Config, ops: seq<Op>, now: int, s: SocketId)
    requires LegalRun(config, ops) && now >= Time(ops)
    requires
      var sw := Exec(config, ops);
      sw.config.allowMACChanging && AllPresent(sw.tables) && s in sw.tables
    ensures
      var sw := Exec(config, ops);
      var next := Cleanup(sw, now);
      && s in next.tables && next.tables[s].Some?
      && (forall e :: e in next.tables[s].value.order <==>
            e in sw.tables[s].value.order && now - e.time <= sw.config.timeout)
      && (forall mac :: mac in next.macs && next.macs[mac] == s <==> mac in KeysOf(next.tables, s))
  {
    hide Exec, Cleanup, Inv, KeysOf;
    RunKeepsInvariant(config, ops);
    CleanupDropsExpired(Exec(config, ops), Time(ops), now, s);
  }

  lemma CleanupDropsExpired(sw: Switch, clock: int, now: int, s: SocketId)
    requires Inv(sw, clock) && clock <= now
    requires sw.config.allowMACChanging && s in sw.tables && sw.tables[s].Some?
    ensures
      var next := Cleanup(sw, now);
      && s in next.tables && next.tables[s].Some?
      && (forall e :: e in next.tables[s].value.order <==>
            e in sw.tables[s].value.order && now - e.time <= sw.config.timeout)
      && (forall mac :: mac in next.macs && next.macs[mac] == s <==> mac in KeysOf(next.tables, s))
  {
    hide KeysOf, DropExpired, AfterEvictions;
    DroppedOk(sw.tables[s].value.order, clock, now, sw.config.timeout);
    CleanupKeeps(sw, clock, now);
  }

  // --- ownership ------------------------------------------------------------------------

  /** Socket `s` has itself sent a frame from `mac` since it last joined. */
  predicate ClaimedSinceJoining(ops: seq<Op>, s: SocketId, mac: Mac) {
    ops != [] &&
    var op := ops[|ops| - 1];
    (op.Frame? && op.s == s && op.mac == mac && op.unicast)
    || (op != Join(s) && ClaimedSinceJoining(ops[..|ops| - 1], s, mac))
  }

  /** An address belongs only to a socket that has used it itself since it joined. */
  lemma {:induction false} OwnersClaimed(config: Config, ops: seq<Op>, mac: Mac)
    requires LegalRun(config, ops)
    requires mac in Exec(config, ops).macs
    ensures ClaimedSinceJoining(ops, Exec(config, ops).macs[mac], mac)
  {
    var before, op := ops[..|ops| - 1], ops[|ops| - 1];
    var sw, next := Exec(config, before), Exec(config, ops);
    RunKeepsInvariant(config, before);
    RunKeepsInvariant(config, ops);
    var s := next.macs[mac];
    if !(op.Frame? && op.s == s && op.mac == mac && op.unicast) {
      OldOwner(sw, Time(before), op, mac);
      OwnersClaimed(config, before, mac);
      assert mac in KeysOf(next.tables, s);
    }
  }

  /** Only a socket's own unicast frame can give it an address. */
  lemma OldOwner(sw: Switch, clock: int, op: Op, mac: Mac)
    requires Inv(sw, clock) && Legal(sw, clock, op)
    requires mac in Apply(sw, op).macs
    requires !(op.Frame? && op.s == Apply(sw, op).macs[mac] && op.mac == mac && op.unicast)
    ensures mac in sw.macs && sw.macs[mac] == Apply(sw, op).macs[mac]
  {
  }

  /** Frames of other sockets do not touch an address; a socket that presents an owned address
      is closed and loses its own addresses, all of them and no others. */
  lemma OthersCannotTake(sw: Switch, clock: int, mac: Mac, t: SocketId, claimed: Mac, unicast: bool, now: int)
    requires Inv(sw, clock) && mac in sw.macs && sw.macs[mac] != t
    ensures
      var learned := Learn(sw, t, claimed, unicast, now);
      && mac in learned.sw.macs && learned.sw.macs[mac] == sw.macs[mac]
      && (learned.collision <==>
            && unicast && claimed in sw.macs && sw.macs[claimed] != t && t in sw.tables && sw.tables[t].Some?
            && (sw.config.allowMACChanging || KeysOf(sw.tables, t) == {}))
      && (learned.collision ==>
            && learned.sw.tables == sw.tables - {t}
            && forall m :: m in learned.sw.macs <==> m in sw.macs && sw.macs[m] != t)
  {
    if t in sw.tables && sw.tables[t].Some? {
      var order := sw.tables[t].value.order;
      assert claimed in KeysOf(sw.tables, t) <==> claimed in sw.macs && sw.macs[claimed] == t;
      assert mac !in KeysOf(sw.tables, t);
      assert order != [] ==> order[0].mac in Keys(order);
    }
  }

  // --- fixed addresses ------------------------------------------------------------------

  /** Address changing is off and at least one address is allowed, before and after. */
  predicate KeepsAddressesFixed(config: Config, op: Op) {
    && !config.allowMACChanging && config.allowedMACs >= 1
    && (op.Reload? ==> !op.config.allowMACChanging && op.config.allowedMACs >= 1)
  }

  predicate AtMostOneEach(sw: Switch) {
    forall s | s in sw.tables && sw.tables[s].Some? :: |sw.tables[s].value.order| <= 1
  }

  /** While addresses may not change, a socket that stays registered goes from no address to
      one by its own frame, and from one to no other. */
  lemma AddressFixedStep(sw: Switch, clock: int, op: Op, s: SocketId)
    requires Inv(sw, clock) && Legal(sw, clock, op) && AtMostOneEach(sw)
    requires KeepsAddressesFixed(sw.config, op)
    requires s in sw.tables && sw.tables[s].Some? && s in Apply(sw, op).tables && op != Join(s)
    ensures Apply(sw, op).tables[s].Some?
    ensures KeysOf(sw.tables, s) != {} ==> KeysOf(Apply(sw, op).tables, s) == KeysOf(sw.tables, s)
    ensures KeysOf(sw.tables, s) == {} ==>
      KeysOf(Apply(sw, op).tables, s) == {} || (op.Frame? && op.s == s && KeysOf(Apply(sw, op).tables, s) == {op.mac})
  {
    var order := sw.tables[s].value.order;
    if op.Frame? && op.s == s {
      AddedOk(sw.tables[s].value, sw.config.allowedMACs, op.mac, clock, op.now);
      if order != [] {
        assert order[0].mac in Keys(order);
      }
    }
  }

  lemma AtMostOneKept(sw: Switch, clock: int, op: Op)
    requires Inv(sw, clock) && Legal(sw, clock, op) && AtMostOneEach(sw) && KeepsAddressesFixed(sw.config, op)
    ensures AtMostOneEach(Apply(sw, op))
    ensures !Apply(sw, op).config.allowMACChanging && Apply(sw, op).config.allowedMACs >= 1
  {
    if op.Frame? && op.s in sw.tables && sw.tables[op.s].Some? && op.mac in KeysOf(sw.tables, op.s) {
      WithoutKeeps(sw.tables[op.s].value.order, op.mac, clock);
    }
  }

  predicate FixedRun(config: Config, ops: seq<Op>) {
    && !config.allowMACChanging && config.allowedMACs >= 1
    && forall k | 0 <= k < |ops| && ops[k].Reload? :: !ops[k].config.allowMACChanging && ops[k].config.allowedMACs >= 1
  }

  lemma {:induction false} FixedRunHasAtMostOne(config: Config, ops: seq<Op>)
    requires LegalRun(config, ops) && FixedRun(config, ops)
    ensures AtMostOneEach(Exec(config, ops))
    ensures !Exec(config, ops).config.allowMACChanging && Exec(config, ops).config.allowedMACs >= 1
  {
    if ops != [] {
      var before := ops[..|ops| - 1];
      FixedRunHasAtMostOne(config, before);
      RunKeepsInvariant(config, before);
      AtMostOneKept(Exec(config, before), Time(before), ops[|ops| - 1]);
    }
  }

  /** From `from` on, socket `s` is registered all the time. */
  predicate StaysRegistered(config: Config, ops: seq<Op>, from: nat, s: SocketId) {
    forall k | from <= k <= |ops| ::
      && s in Exec(config, ops[..k]).tables
      && (k < |ops| ==> ops[k] != Join(s))
  }

  /** In a run that never allows changing addresses, once a socket has an address it keeps that
      one and gets no other until it is unregistered, across resizes and clean-up ticks. */
  lemma {:induction false} AddressFixedForGood(config: Config, ops: seq<Op>, from: nat, s: SocketId)
    requires LegalRun(config, ops) && FixedRun(config, ops) && from <= |ops|
    requires StaysRegistered(config, ops, from, s)
    requires KeysOf(Exec(config, ops[..from]).tables, s) != {}
    ensures KeysOf(Exec(config, ops).tables, s) == KeysOf(Exec(config, ops[..from]).tables, s)
  {
    if from == |ops| {
      assert ops[..from] == ops;
    } else {
      var before := ops[..|ops| - 1];
      assert forall k | 0 <= k <= |before| :: before[..k] == ops[..k];
      AddressFixedForGood(config, before, from, s);
      RunKeepsInvariant(config, before);
      FixedRunHasAtMostOne(config, before);
      assert ops[..|ops|] == ops;
      AddressFixedStep(Exec(config, before), Time(before), ops[|ops| - 1], s);
    }
  }

  /** Resizing below one address does take a fixed address away. */
  lemma ReloadKeepsFixedAddressExactly(sw: Switch, clock: int, config: Config, s: SocketId)
    requires Inv(sw, clock) && AtMostOneEach(sw) && KeysOf(sw.tables, s) != {}
    ensures KeysOf(Reconfigure(sw, config).tables, s) == KeysOf(sw.tables, s) <==> config.allowedMACs >= 1
  {
    assert sw.tables[s].value.order != [];
  }
}
