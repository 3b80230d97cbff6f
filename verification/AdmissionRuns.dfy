/** Runs of many connections through admission: each goes through the steps of serveSocket in
    order, interleaved in any way with the others and with closes from anywhere. */
module AdmissionRuns {
  import opened MachineInts
  import opened VpnNet
  import opened IpSwitch
  import opened Admission

  /** How far a connection has come. The deferred actions run in the order leave the lists,
      close the socket, free the slot. */
  datatype Phase =
    | Slotted     // has a slot
    | Listed      // admitted
    | Serving     // registered with the IP switch
    | Left        // no longer in the lists, or never admitted
    | Finished    // deferred close done
    | Freed       // slot given back

  /** `registered`: registered and not unregistered since; `late`: registered when already closing. */
  datatype Conn = Conn(slot: nat, phase: Phase, closing: bool, registered: bool, late: bool)

  datatype State = State(
    used: set<nat>,
    peak: nat,                    // most slots ever held at once
    table: IPTable,
    lists: Lists,
    sockets: set<ConnId>,
    arrivals: seq<ConnId>,        // every admitted connection, in order of admission
    users: map<ConnId, User>,
    conns: map<ConnId, Conn>)

  const START: State := State({}, 0, map[], map[], {}, [], map[], map[])

  datatype Op =
    | Connect(c: ConnId, user: User)
    | Enter(c: ConnId, limit: int, mode: Mode)
    | Serve(c: ConnId)
    | Close(c: ConnId)            // Socket.Close: nothing if already closing
    | CloseError(c: ConnId)       // Socket.CloseError: always unregisters
    | Leave(c: ConnId)
    | Finish(c: ConnId)
    | Free(c: ConnId)             // at the end, or early if the interface cannot be set up

  function Addr(net: Net, conn: Conn): Option<nat> {
    net.ClientIP(conn.slot)
  }

  /** Socket.close: the socket is closing from now on and unregisters its address. */
  function Shut(net: Net, st: State, c: ConnId): State {
    if c !in st.conns then st
    else
      var conn := st.conns[c];
      st.(table := if Addr(net, conn).Some? then Unregistered(st.table, Addr(net, conn).value, c) else st.table,
          conns := st.conns[c := conn.(closing := true, registered := false, late := false)])
  }

  function Moved(st: State, c: ConnId, phase: Phase): State
    requires c in st.conns
  {
    st.(conns := st.conns[c := st.conns[c].(phase := phase)])
  }

  /** The present owner of an address is closed with an error. */
  function Displaced(net: Net, st: State, addr: nat): State {
    if addr in st.table then Shut(net, st, st.table[addr]) else st
  }

  function Registered(st: State, c: ConnId, addr: nat): State
    requires c in st.conns
  {
    var conn := st.conns[c];
    st.(table := st.table[addr := c],
        conns := st.conns[c := conn.(phase := Serving, registered := true, late := conn.closing)])
  }

  predicate Enabled(net: Net, st: State, op: Op) {
    match op
    case Connect(c, _) => c !in st.conns
    case Enter(c, _, _) => InPhase(st, c, {Slotted})
    case Serve(c) => InPhase(st, c, {Listed})
    case Close(c) => InPhase(st, c, {Listed, Serving, Left, Finished, Freed})
    case CloseError(c) => InPhase(st, c, {Listed, Serving, Left, Finished, Freed})
    case Leave(c) => InPhase(st, c, {Listed, Serving})
    case Finish(c) => InPhase(st, c, {Left})
    case Free(c) => InPhase(st, c, {Slotted, Finished})
  }

  predicate InPhase(st: State, c: ConnId, phases: set<Phase>) {
    c in st.conns && c in st.users && st.conns[c].phase in phases
  }

  function Next(net: Net, st: State, op: Op): State
    requires Enabled(net, st, op)
  {
    match op
    case Connect(c, user) =>
      var slot := Allocate(st.used, net.MaxSlot());
      if slot.None? then st
      else
        var phase := if net.ClientIP(slot.value).Some? then Slotted else Finished;
        var used := st.used + {slot.value};
        st.(used := used, peak := if |used| > st.peak then |used| else st.peak,
            users := st.users[c := user],
            conns := st.conns[c := Conn(slot.value, phase, false, false, false)])
    case Enter(c, limit, mode) =>
      var r := Admit(st.lists, st.users[c], c, limit, mode);
      if r.refused then Moved(Shut(net, st, c), c, Left)
      else
        var shut := if r.killed.Some? then Shut(net, st, r.killed.value) else st;
        Moved(shut, c, Listed).(lists := r.lists, sockets := st.sockets + {c}, arrivals := st.arrivals + [c])
    case Serve(c) =>
      var conn := st.conns[c];
      if Addr(net, conn).None? then Moved(st, c, Serving)
      else Registered(Displaced(net, st, Addr(net, conn).value), c, Addr(net, conn).value)
    case Close(c) => if st.conns[c].closing then st else Shut(net, st, c)
    case CloseError(c) => Shut(net, st, c)
    case Leave(c) =>
      Moved(st, c, Left).(lists := Departed(st.lists, st.users[c], c), sockets := st.sockets - {c})
    case Finish(c) => Moved(if st.conns[c].closing then st else Shut(net, st, c), c, Finished)
    case Free(c) => Moved(st, c, Freed).(used := st.used - {st.conns[c].slot})
  }

  // --- slots ----------------------------------------------------------------------------

  predicate Holds(st: State, c: ConnId) {
    c in st.conns && st.conns[c].phase != Freed
  }

  predicate IsHeld(st: State, slot: nat) {
    exists c | c in st.conns :: Holds(st, c) && st.conns[c].slot == slot
  }

  predicate UsedIsHeld(st: State) {
    && (forall c | c in st.conns && Holds(st, c) :: st.conns[c].slot in st.used)
    && forall s | s in st.used :: IsHeld(st, s)
  }

  predicate SlotsDiffer(st: State) {
    forall c, d | c in st.conns && d in st.conns && Holds(st, c) && Holds(st, d) && c != d ::
      st.conns[c].slot != st.conns[d].slot
  }

  predicate WithinPeak(used: set<nat>, peak: nat) {
    |used| <= peak && forall s | s in used :: 1 <= s <= peak
  }

  /** `used` is exactly the slots held, no two connections hold one slot, and no slot is above
      the most that were ever held at once. */
  predicate SlotsOk(st: State) {
    UsedIsHeld(st) && SlotsDiffer(st) && WithinPeak(st.used, st.peak)
  }

  /** Every connection but `c` has its slot and is freed or not as before. */
  predicate SameButFor(before: State, after: State, c: ConnId) {
    && before.conns.Keys <= after.conns.Keys <= before.conns.Keys + {c}
    && forall d | d in before.conns && d != c ::
      after.conns[d].slot == before.conns[d].slot && (Holds(after, d) <==> Holds(before, d))
  }

  lemma StillHeld(before: State, after: State, c: ConnId, slot: nat)
    requires SameButFor(before, after, c) && IsHeld(before, slot)
    requires c in before.conns && Holds(before, c) && before.conns[c].slot == slot ==>
      Holds(after, c) && after.conns[c].slot == slot
    ensures IsHeld(after, slot)
  {
    var d :| d in before.conns && Holds(before, d) && before.conns[d].slot == slot;
    assert d in after.conns && Holds(after, d);
  }

  /** Steps but Connect and Free leave the slots alone. */
  predicate SameSlots(before: State, after: State) {
    && after.used == before.used && after.peak == before.peak
    && after.conns.Keys == before.conns.Keys
    && forall c | c in before.conns ::
      after.conns[c].slot == before.conns[c].slot && (after.conns[c].phase == Freed <==> before.conns[c].phase == Freed)
  }

  lemma SameSlotsOk(before: State, after: State)
    requires SlotsOk(before) && SameSlots(before, after)
    ensures SlotsOk(after)
  {
    forall s | s in after.used ensures IsHeld(after, s) {
      assert IsHeld(before, s);
      var c :| c in before.conns && Holds(before, c) && before.conns[c].slot == s;
      assert Holds(after, c);
    }
    assert SlotsDiffer(after);
  }

  lemma ConnectKeepsSlots(net: Net, st: State, c: ConnId, user: User)
    requires SlotsOk(st) && c !in st.conns
    ensures SlotsOk(Next(net, st, Connect(c, user)))
  {
    AllocateIsSmallestFree(st.used, net.MaxSlot());
    hide Allocate;
    var slot := Allocate(st.used, net.MaxSlot());
    if slot.Some? {
      var next := Next(net, st, Connect(c, user));
      hide UsedIsHeld, SlotsDiffer;
      SlotTaken(st, next, c, slot.value);
      assert |next.used| == |st.used| + 1;
    }
  }

  lemma SlotTaken(before: State, after: State, c: ConnId, slot: nat)
    requires UsedIsHeld(before) && SlotsDiffer(before) && SameButFor(before, after, c)
    requires c !in before.conns && c in after.conns && Holds(after, c)
    requires after.conns[c].slot == slot && slot !in before.used && after.used == before.used + {slot}
    ensures UsedIsHeld(after) && SlotsDiffer(after)
  {
    forall s | s in after.used ensures IsHeld(after, s) {
      if s != slot {
        StillHeld(before, after, c, s);
      }
    }
  }

  lemma FreeKeepsSlots(net: Net, st: State, c: ConnId)
    requires SlotsOk(st) && Enabled(net, st, Free(c))
    ensures SlotsOk(Next(net, st, Free(c)))
  {
    var next := Next(net, st, Free(c));
    assert Holds(st, c);
    SlotGivenBack(st, next, c);
    SubsetNotLarger(next.used, st.used);
  }

  lemma SlotGivenBack(before: State, after: State, c: ConnId)
    requires UsedIsHeld(before) && SlotsDiffer(before) && SameButFor(before, after, c)
    requires c in before.conns && Holds(before, c) && c in after.conns && !Holds(after, c)
    requires after.used == before.used - {before.conns[c].slot}
    ensures UsedIsHeld(after) && SlotsDiffer(after)
  {
    forall s | s in after.used ensures IsHeld(after, s) {
      StillHeld(before, after, c, s);
    }
  }

  lemma SubsetNotLarger(x: set<nat>, y: set<nat>)
    requires x <= y
    ensures |x| <= |y|
  {
    assert y == x + (y - x);
  }

  lemma OthersKeepSlots(net: Net, st: State, op: Op)
    requires Enabled(net, st, op) && !op.Connect? && !op.Free?
    ensures SameSlots(st, Next(net, st, op))
  {
    hide Next, SameSlots;
    if op.Serve? {
      ServeKeepsSlots(net, st, op.c);
    } else if op.Enter? {
      EnterKeepsSlots(net, st, op.c, op.limit, op.mode);
    } else {
      SimpleStepKeepsSlots(net, st, op);
    }
  }

  lemma ServeKeepsSlots(net: Net, st: State, c: ConnId)
    requires Enabled(net, st, Serve(c))
    ensures SameSlots(st, Next(net, st, Serve(c)))
  {
    hide Unregistered;
  }

  lemma EnterKeepsSlots(net: Net, st: State, c: ConnId, limit: int, mode: Mode)
    requires Enabled(net, st, Enter(c, limit, mode))
    ensures SameSlots(st, Next(net, st, Enter(c, limit, mode)))
  {
    hide Admit, Unregistered;
  }

  lemma SimpleStepKeepsSlots(net: Net, st: State, op: Op)
    requires Enabled(net, st, op) && !op.Connect? && !op.Free? && !op.Serve? && !op.Enter?
    ensures SameSlots(st, Next(net, st, op))
  {
    hide Departed, Unregistered;
  }

  lemma SlotsKept(net: Net, st: State, op: Op)
    requires SlotsOk(st) && Enabled(net, st, op)
    ensures SlotsOk(Next(net, st, op))
  {
    hide SlotsOk, Next, SameSlots;
    match op
    case Connect(c, user) => ConnectKeepsSlots(net, st, c, user);
    case Free(c) => FreeKeepsSlots(net, st, c);
    case _ =>
      OthersKeepSlots(net, st, op);
      SameSlotsOk(st, Next(net, st, op));
  }

  // --- addresses ------------------------------------------------------------------------

  /** Facts about each connection on its own. */
  predicate ConnOk(net: Net, conn: Conn) {
    && (conn.registered ==> conn.phase in {Serving, Left, Finished, Freed} && Addr(net, conn).Some?)
    && (conn.late <==> conn.registered && conn.closing)
    && (conn.phase in {Finished, Freed} && conn.registered ==> conn.closing)
    && (conn.phase in {Slotted, Listed, Serving, Left} ==> Addr(net, conn).Some?)
  }

  /** A registered connection, with or without its slot, owns the address of the slot; an
      address in the table belongs to a registered connection with that address. */
  predicate TableOk(net: Net, st: State) {
    && (forall c | c in st.conns :: ConnOk(net, st.conns[c]))
    && (forall c | c in st.conns && st.conns[c].registered :: Owns(net, st, c))
    && forall a | a in st.table ::
      st.table[a] in st.conns && st.conns[st.table[a]].registered && Addr(net, st.conns[st.table[a]]) == Some(a)
  }

  predicate Owns(net: Net, st: State, c: ConnId)
    requires c in st.conns
  {
    Addr(net, st.conns[c]).Some? && var a := Addr(net, st.conns[c]).value; a in st.table && st.table[a] == c
  }

  /** Two connections that hold slots have different addresses. */
  lemma AddressesDiffer(net: Net, st: State, c: ConnId, d: ConnId)
    requires SlotsOk(st) && c != d && Holds(st, c) && Holds(st, d)
    ensures Addr(net, st.conns[c]).Some? ==> Addr(net, st.conns[c]) != Addr(net, st.conns[d])
  {
  }

  lemma ShutKeepsTable(net: Net, st: State, c: ConnId)
    requires TableOk(net, st)
    ensures TableOk(net, Shut(net, st, c))
  {
    var next := Shut(net, st, c);
    forall d | d in next.conns && next.conns[d].registered ensures Owns(net, next, d) {
      assert Owns(net, st, d);
    }
    forall a | a in next.table
      ensures next.table[a] in next.conns && next.conns[next.table[a]].registered
        && Addr(net, next.conns[next.table[a]]) == Some(a)
    {
      assert a in st.table;
    }
  }

  lemma ServeKeepsTable(net: Net, st: State, c: ConnId)
    requires TableOk(net, st) && Enabled(net, st, Serve(c))
    ensures TableOk(net, Next(net, st, Serve(c)))
  {
    assert ConnOk(net, st.conns[c]);
    var a := Addr(net, st.conns[c]).value;
    if a in st.table {
      ShutKeepsTable(net, st, st.table[a]);
    }
    DisplacedLeaves(net, st, c, a);
    RegisteredKeepsTable(net, Displaced(net, st, a), c, a);
  }

  lemma DisplacedLeaves(net: Net, st: State, c: ConnId, a: nat)
    requires TableOk(net, st) && c in st.conns && !st.conns[c].registered
    ensures
      var free := Displaced(net, st, a);
      a !in free.table && c in free.conns && free.conns[c] == st.conns[c]
  {
  }

  lemma RegisteredKeepsTable(net: Net, st: State, c: ConnId, a: nat)
    requires TableOk(net, st) && c in st.conns && Addr(net, st.conns[c]) == Some(a) && a !in st.table
    ensures TableOk(net, Registered(st, c, a))
  {
    var next := Registered(st, c, a);
    forall d | d in next.conns && next.conns[d].registered ensures Owns(net, next, d) {
      if d != c {
        assert Owns(net, st, d);
      }
    }
  }

  /** Moving on in phase changes no address and no registration. */
  lemma MoveKeepsTable(net: Net, st: State, c: ConnId, phase: Phase)
    requires TableOk(net, st) && c in st.conns && ConnOk(net, st.conns[c].(phase := phase))
    requires st.conns[c].phase == Freed ==> phase == Freed
    ensures TableOk(net, Moved(st, c, phase))
  {
    var next := Moved(st, c, phase);
    forall d | d in next.conns && next.conns[d].registered ensures Owns(net, next, d) {
      assert Owns(net, st, d);
    }
  }

  /** Only the table and the connections matter. */
  lemma TableOkDependsOn(net: Net, st: State, other: State)
    requires TableOk(net, st) && other.table == st.table && other.conns == st.conns
    ensures TableOk(net, other)
  {
    forall c | c in other.conns && other.conns[c].registered ensures Owns(net, other, c) {
      assert Owns(net, st, c);
    }
  }

  lemma ConnectKeepsTable(net: Net, st: State, c: ConnId, user: User)
    requires TableOk(net, st) && c !in st.conns
    ensures TableOk(net, Next(net, st, Connect(c, user)))
  {
    var next := Next(net, st, Connect(c, user));
    forall d | d in next.conns && next.conns[d].registered ensures Owns(net, next, d) {
      assert Owns(net, st, d);
    }
  }

  lemma EnterKeepsTable(net: Net, st: State, c: ConnId, limit: int, mode: Mode)
    requires TableOk(net, st) && Enabled(net, st, Enter(c, limit, mode))
    ensures TableOk(net, Next(net, st, Enter(c, limit, mode)))
  {
    var r := Admit(st.lists, st.users[c], c, limit, mode);
    var next := Next(net, st, Enter(c, limit, mode));
    assert ConnOk(net, st.conns[c]);
    if r.refused {
      ShutKeepsTable(net, st, c);
      MoveKeepsTable(net, Shut(net, st, c), c, Left);
    } else {
      var shut := if r.killed.Some? then Shut(net, st, r.killed.value) else st;
      if r.killed.Some? {
        ShutKeepsTable(net, st, r.killed.value);
      }
      MoveKeepsTable(net, shut, c, Listed);
      TableOkDependsOn(net, Moved(shut, c, Listed), next);
    }
  }

  lemma TableKept(net: Net, st: State, op: Op)
    requires TableOk(net, st) && SlotsOk(st) && Enabled(net, st, op)
    ensures TableOk(net, Next(net, st, op))
  {
    if !op.Connect? {
      assert ConnOk(net, st.conns[op.c]);
    }
    match op
    case Connect(c, user) => ConnectKeepsTable(net, st, c, user);
    case Enter(c, limit, mode) => EnterKeepsTable(net, st, c, limit, mode);
    case Serve(c) => ServeKeepsTable(net, st, c);
    case Close(c) => ShutKeepsTable(net, st, c);
    case CloseError(c) => ShutKeepsTable(net, st, c);
    case Leave(c) =>
      MoveKeepsTable(net, st, c, Left);
      TableOkDependsOn(net, Moved(st, c, Left), Next(net, st, op));
    case Finish(c) =>
      ShutKeepsTable(net, st, c);
      MoveKeepsTable(net, if st.conns[c].closing then st else Shut(net, st, c), c, Finished);
    case Free(c) =>
      MoveKeepsTable(net, st, c, Freed);
      TableOkDependsOn(net, Moved(st, c, Freed), Next(net, st, op));
  }
}
