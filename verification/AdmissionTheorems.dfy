/** What holds of admission after every run: slots, addresses and the per-user lists. */
module AdmissionTheorems {
  import opened MachineInts
  import opened VpnNet
  import opened IpSwitch
  import opened Admission
  import opened AdmissionRuns

  // --- a user's live connections, in order of arrival -----------------------------------

  predicate IsLive(sockets: set<ConnId>, users: map<ConnId, User>, user: User, c: ConnId) {
    c in sockets && c in users && users[c] == user
  }

  function LiveOf(arrivals: seq<ConnId>, sockets: set<ConnId>, users: map<ConnId, User>, user: User): seq<ConnId> {
    if arrivals == [] then []
    else
      var c := arrivals[|arrivals| - 1];
      LiveOf(arrivals[..|arrivals| - 1], sockets, users, user) + if IsLive(sockets, users, user, c) then [c] else []
  }

  function Live(st: State, user: User): seq<ConnId> {
    LiveOf(st.arrivals, st.sockets, st.users, user)
  }

  lemma {:induction false} LiveElements(arrivals: seq<ConnId>, sockets: set<ConnId>, users: map<ConnId, User>,
      user: User)
    ensures forall c ::
      c in LiveOf(arrivals, sockets, users, user) <==> c in arrivals && IsLive(sockets, users, user, c)
  {
    if arrivals != [] {
      LiveElements(arrivals[..|arrivals| - 1], sockets, users, user);
      assert arrivals == arrivals[..|arrivals| - 1] + [arrivals[|arrivals| - 1]];
    }
  }

  lemma {:induction false} LiveDependsOn(arrivals: seq<ConnId>, sockets: set<ConnId>, users: map<ConnId, User>,
      sockets': set<ConnId>, users': map<ConnId, User>, user: User)
    requires forall c | c in arrivals :: IsLive(sockets, users, user, c) <==> IsLive(sockets', users', user, c)
    ensures LiveOf(arrivals, sockets, users, user) == LiveOf(arrivals, sockets', users', user)
  {
    if arrivals != [] {
      LiveDependsOn(arrivals[..|arrivals| - 1], sockets, users, sockets', users', user);
    }
  }

  lemma {:induction false} LiveLeaves(arrivals: seq<ConnId>, sockets: set<ConnId>, users: map<ConnId, User>,
      user: User, c: ConnId)
    ensures LiveOf(arrivals, sockets - {c}, users, user) == Minus(LiveOf(arrivals, sockets, users, user), c)
  {
    if arrivals != [] {
      var last := arrivals[|arrivals| - 1];
      var rest := LiveOf(arrivals[..|arrivals| - 1], sockets, users, user);
      LiveLeaves(arrivals[..|arrivals| - 1], sockets, users, user, c);
      assert rest + [] == rest && Minus(rest, c) + [] == Minus(rest, c);
      assert (rest + [last])[..|rest + [last]| - 1] == rest;
    }
  }

  lemma {:induction false} MinusConcat(x: seq<ConnId>, y: seq<ConnId>, c: ConnId)
    ensures Minus(x + y, c) == Minus(x, c) + Minus(y, c)
  {
    if y == [] {
      assert x + y == x;
      assert Minus(x, c) + [] == Minus(x, c);
    } else {
      hide Minus;
      var init, last := y[..|y| - 1], y[|y| - 1];
      MinusConcat(x, init, c);
      assert y == init + [last] && x + y == (x + init) + [last];
      MinusAppend(x + init, last, c);
      MinusAppend(init, last, c);
    }
  }

  lemma MinusAppend(list: seq<ConnId>, d: ConnId, c: ConnId)
    ensures Minus(list + [d], c) == Minus(list, c) + if d == c then [] else [d]
  {
    assert (list + [d])[..|list + [d]| - 1] == list;
  }

  lemma {:induction false} MinusElements(list: seq<ConnId>, c: ConnId)
    ensures forall d :: d in Minus(list, c) <==> d in list && d != c
    ensures |Minus(list, c)| <= |list|
    ensures c !in list ==> Minus(list, c) == list
  {
    if list != [] {
      MinusElements(list[..|list| - 1], c);
      assert list == list[..|list| - 1] + [list[|list| - 1]];
    }
  }

  predicate NoRepeats(list: seq<ConnId>) {
    forall i, j | 0 <= i < j < |list| :: list[i] != list[j]
  }

  lemma {:induction false} LiveHasNoRepeats(arrivals: seq<ConnId>, sockets: set<ConnId>, users: map<ConnId, User>,
      user: User)
    requires NoRepeats(arrivals)
    ensures NoRepeats(LiveOf(arrivals, sockets, users, user))
  {
    if arrivals != [] {
      var before := arrivals[..|arrivals| - 1];
      LiveHasNoRepeats(before, sockets, users, user);
      LiveElements(before, sockets, users, user);
      var list := LiveOf(before, sockets, users, user);
      forall i | 0 <= i < |list| ensures list[i] != arrivals[|arrivals| - 1] {
        assert list[i] in before;
      }
    }
  }

  // --- the lists ------------------------------------------------------------------------

  predicate Closing(st: State, c: ConnId) {
    c in st.conns && st.conns[c].closing
  }

  /** The list is a suffix of the live connections, no longer than `cap`, and everything before
      it has been closed; without kills nothing is before it. */
  predicate SuffixOk(st: State, list: seq<ConnId>, live: seq<ConnId>, cap: nat, prevent: bool) {
    && |list| <= |live| && |list| <= cap
    && list == live[|live| - |list|..]
    && (forall j | 0 <= j < |live| - |list| :: Closing(st, live[j]))
    && (prevent ==> |list| == |live|)
  }

  ghost predicate UsersOk(st: State, cap: nat, prevent: bool) {
    forall u: User | u != "" :: SuffixOk(st, ListOf(st.lists, u), Live(st, u), cap, prevent)
  }

  predicate ArrivalsOk(st: State) {
    && st.users.Keys == st.conns.Keys
    && NoRepeats(st.arrivals)
    && (forall k | 0 <= k < |st.arrivals| :: st.arrivals[k] in st.conns && st.conns[st.arrivals[k]].phase != Slotted)
  }

  /** Limits are between 1 and `cap`; `prevent` says that new connections are refused, never
      old ones killed. */
  predicate PolicyOk(op: Op, cap: nat, prevent: bool) {
    op.Enter? ==> 1 <= op.limit <= cap && (prevent ==> op.mode == PreventNew)
  }

  /** A step that leaves lists and live connections alone and reopens nothing. */
  predicate SameLists(before: State, after: State) {
    && after.lists == before.lists && after.sockets == before.sockets && after.arrivals == before.arrivals
    && (forall c | c in before.arrivals ::
          c in before.users ==> c in after.users && after.users[c] == before.users[c])
    && (forall c | c in before.arrivals :: c in before.users)
    && forall c | c in before.conns && Closing(before, c) :: Closing(after, c)
  }

  lemma SameListsOk(before: State, after: State, cap: nat, prevent: bool)
    requires UsersOk(before, cap, prevent) && SameLists(before, after)
    ensures UsersOk(after, cap, prevent)
  {
    forall u: User | u != "" ensures SuffixOk(after, ListOf(after.lists, u), Live(after, u), cap, prevent) {
      LiveDependsOn(before.arrivals, before.sockets, before.users, after.sockets, after.users, u);
      assert SuffixOk(before, ListOf(before.lists, u), Live(before, u), cap, prevent);
    }
  }

  lemma LiveGrows(before: State, after: State, c: ConnId, u: User)
    requires ArrivalsOk(before) && c !in before.arrivals && c in before.users
    requires after.arrivals == before.arrivals + [c]
    requires after.sockets == before.sockets + {c} && after.users == before.users
    ensures Live(after, u) == Live(before, u) + if before.users[c] == u then [c] else []
  {
    assert after.arrivals[..|after.arrivals| - 1] == before.arrivals;
    LiveDependsOn(before.arrivals, before.sockets, before.users, after.sockets, after.users, u);
  }

  lemma EnterKeepsLists(net: Net, st: State, c: ConnId, limit: int, mode: Mode, cap: nat, prevent: bool)
    requires ArrivalsOk(st) && UsersOk(st, cap, prevent) && Enabled(net, st, Enter(c, limit, mode))
    requires PolicyOk(Enter(c, limit, mode), cap, prevent)
    requires !Admit(st.lists, st.users[c], c, limit, mode).refused
    ensures UsersOk(Next(net, st, Enter(c, limit, mode)), cap, prevent)
  {
    var next := Next(net, st, Enter(c, limit, mode));
    assert c !in st.arrivals;
    forall u: User | u != "" ensures SuffixOk(next, ListOf(next.lists, u), Live(next, u), cap, prevent) {
      LiveGrows(st, next, c, u);
      assert SuffixOk(st, ListOf(st.lists, u), Live(st, u), cap, prevent);
      LiveElements(st.arrivals, st.sockets, st.users, u);
      EntryKeepsSuffix(net, st, c, limit, mode, cap, prevent, u);
    }
  }

  lemma EntryKeepsSuffix(net: Net, st: State, c: ConnId, limit: int, mode: Mode, cap: nat, prevent: bool, u: User)
    requires Enabled(net, st, Enter(c, limit, mode)) && u != ""
    requires PolicyOk(Enter(c, limit, mode), cap, prevent)
    requires !Admit(st.lists, st.users[c], c, limit, mode).refused
    requires SuffixOk(st, ListOf(st.lists, u), Live(st, u), cap, prevent)
    requires forall d | d in Live(st, u) :: d in st.conns
    ensures
      var next := Next(net, st, Enter(c, limit, mode));
      SuffixOk(next, ListOf(next.lists, u), Live(st, u) + if st.users[c] == u then [c] else [], cap, prevent)
  {
    var next := Next(net, st, Enter(c, limit, mode));
    var list, live := ListOf(st.lists, u), Live(st, u);
    EnterReopensNothing(net, st, c, limit, mode);
    EnteredList(net, st, c, limit, mode, u);
    var r := Admit(st.lists, st.users[c], c, limit, mode);
    hide LiveOf, Next, Admit, Closing;
    if st.users[c] == u {
      if r.killed.Some? {
        ShiftKeepsSuffix(st, next, list, live, c, cap);
      } else {
        GrowthKeepsSuffix(st, next, list, live, c, cap, prevent);
      }
    }
  }

  lemma EnteredList(net: Net, st: State, c: ConnId, limit: int, mode: Mode, u: User)
    requires Enabled(net, st, Enter(c, limit, mode)) && u != "" && limit >= 1
    requires !Admit(st.lists, st.users[c], c, limit, mode).refused
    ensures
      var next := Next(net, st, Enter(c, limit, mode));
      var list := ListOf(st.lists, u);
      var r := Admit(st.lists, st.users[c], c, limit, mode);
      if st.users[c] != u then ListOf(next.lists, u) == list
      else if |list| < limit then r.killed.None? && ListOf(next.lists, u) == list + [c]
      else mode == KillOldest && r.killed == Some(list[0]) && ListOf(next.lists, u) == list[1..] + [c]
  {
  }

  lemma GrowthKeepsSuffix(st: State, next: State, list: seq<ConnId>, live: seq<ConnId>, c: ConnId, cap: nat,
      prevent: bool)
    requires SuffixOk(st, list, live, cap, prevent) && |list| < cap
    requires forall d | d in st.conns && Closing(st, d) :: Closing(next, d)
    ensures SuffixOk(next, list + [c], live + [c], cap, prevent)
  {
  }

  lemma ShiftKeepsSuffix(st: State, next: State, list: seq<ConnId>, live: seq<ConnId>, c: ConnId, cap: nat)
    requires SuffixOk(st, list, live, cap, false) && list != [] && Closing(next, list[0])
    requires forall d | d in st.conns && Closing(st, d) :: Closing(next, d)
    ensures SuffixOk(next, list[1..] + [c], live + [c], cap, false)
  {
    assert live[|live| - |list|] == list[0];
    assert live[|live| - |list|..][1..] == live[|live| - |list| + 1..];
  }

  lemma EnterReopensNothing(net: Net, st: State, c: ConnId, limit: int, mode: Mode)
    requires Enabled(net, st, Enter(c, limit, mode))
    ensures forall d | d in st.conns && Closing(st, d) :: Closing(Next(net, st, Enter(c, limit, mode)), d)
    ensures
      var r := Admit(st.lists, st.users[c], c, limit, mode);
      !r.refused && r.killed.Some? && r.killed.value in st.conns ==>
        Closing(Next(net, st, Enter(c, limit, mode)), r.killed.value)
  {
  }

  lemma LeaveKeepsLists(net: Net, st: State, c: ConnId, cap: nat, prevent: bool)
    requires ArrivalsOk(st) && UsersOk(st, cap, prevent) && Enabled(net, st, Leave(c))
    ensures UsersOk(Next(net, st, Leave(c)), cap, prevent)
  {
    var next := Next(net, st, Leave(c));
    forall u: User | u != "" ensures SuffixOk(next, ListOf(next.lists, u), Live(next, u), cap, prevent) {
      assert SuffixOk(st, ListOf(st.lists, u), Live(st, u), cap, prevent);
      LiveLeaves(st.arrivals, st.sockets, st.users, u, c);
      LiveElements(st.arrivals, st.sockets, st.users, u);
      DepartureKeepsSuffix(st, next, c, u, cap, prevent);
    }
  }

  lemma DepartureKeepsSuffix(st: State, next: State, c: ConnId, u: User, cap: nat, prevent: bool)
    requires u != "" && c in st.users && SuffixOk(st, ListOf(st.lists, u), Live(st, u), cap, prevent)
    requires next.lists == Departed(st.lists, st.users[c], c)
    requires c in Live(st, u) ==> st.users[c] == u
    requires forall d | d in st.conns && Closing(st, d) :: Closing(next, d)
    ensures SuffixOk(next, ListOf(next.lists, u), Minus(Live(st, u), c), cap, prevent)
  {
    hide LiveOf, Departed, Minus;
    var list, live := ListOf(st.lists, u), Live(st, u);
    DepartedList(st.lists, st.users[c], c, u);
    if st.users[c] == u {
      hide SuffixOk;
      MinusKeepsSuffix(st, next, list, live, c, cap, prevent);
    } else {
      MinusElements(live, c);
    }
  }

  lemma DepartedList(lists: Lists, user: User, c: ConnId, u: User)
    ensures ListOf(Departed(lists, user, c), u) ==
      if user == u && u != "" then Minus(ListOf(lists, u), c) else ListOf(lists, u)
  {
  }

  lemma MinusKeepsSuffix(st: State, next: State, list: seq<ConnId>, live: seq<ConnId>, c: ConnId, cap: nat,
      prevent: bool)
    requires SuffixOk(st, list, live, cap, prevent)
    requires forall d | d in st.conns && Closing(st, d) :: Closing(next, d)
    ensures SuffixOk(next, Minus(list, c), Minus(live, c), cap, prevent)
  {
    var older := live[..|live| - |list|];
    assert live == older + list;
    MinusConcat(older, list, c);
    MinusElements(older, c);
    MinusElements(list, c);
    forall j | 0 <= j < |Minus(older, c)| ensures Closing(next, Minus(older, c)[j]) {
      assert Minus(older, c)[j] in older;
    }
  }

  lemma ListsKept(net: Net, st: State, op: Op, cap: nat, prevent: bool)
    requires ArrivalsOk(st) && UsersOk(st, cap, prevent) && Enabled(net, st, op) && PolicyOk(op, cap, prevent)
    ensures UsersOk(Next(net, st, op), cap, prevent)
  {
    if op.Enter? && !Admit(st.lists, st.users[op.c], op.c, op.limit, op.mode).refused {
      EnterKeepsLists(net, st, op.c, op.limit, op.mode, cap, prevent);
    } else if op.Leave? {
      LeaveKeepsLists(net, st, op.c, cap, prevent);
    } else {
      OthersKeepLists(net, st, op);
      SameListsOk(st, Next(net, st, op), cap, prevent);
    }
  }

  lemma OthersKeepLists(net: Net, st: State, op: Op)
    requires ArrivalsOk(st) && Enabled(net, st, op) && !op.Leave?
    requires op.Enter? ==> Admit(st.lists, st.users[op.c], op.c, op.limit, op.mode).refused
    ensures SameLists(st, Next(net, st, op))
  {
    hide Next, SameLists, NoRepeats;
    if op.Enter? {
      RefusalKeepsLists(net, st, op.c, op.limit, op.mode);
    } else if op.Serve? {
      ServeKeepsLists(net, st, op.c);
    } else {
      SimpleStepKeepsLists(net, st, op);
    }
  }

  lemma ServeKeepsLists(net: Net, st: State, c: ConnId)
    requires ArrivalsOk(st) && Enabled(net, st, Serve(c))
    ensures SameLists(st, Next(net, st, Serve(c)))
  {
    hide NoRepeats, Unregistered;
  }

  lemma SimpleStepKeepsLists(net: Net, st: State, op: Op)
    requires ArrivalsOk(st) && Enabled(net, st, op) && !op.Leave? && !op.Enter? && !op.Serve?
    ensures SameLists(st, Next(net, st, op))
  {
    hide NoRepeats, Allocate, Unregistered;
  }

  lemma RefusalKeepsLists(net: Net, st: State, c: ConnId, limit: int, mode: Mode)
    requires ArrivalsOk(st) && Enabled(net, st, Enter(c, limit, mode))
    requires Admit(st.lists, st.users[c], c, limit, mode).refused
    ensures SameLists(st, Next(net, st, Enter(c, limit, mode)))
  {
    hide NoRepeats;
  }

  lemma ArrivalsKept(net: Net, st: State, op: Op)
    requires ArrivalsOk(st) && Enabled(net, st, op)
    ensures ArrivalsOk(Next(net, st, op))
  {
    var next := Next(net, st, op);
    PhasesAdvance(net, st, op);
    hide Next;
    forall k | 0 <= k < |next.arrivals|
      ensures next.arrivals[k] in next.conns && next.conns[next.arrivals[k]].phase != Slotted
    {
      if k < |st.arrivals| {
        assert next.arrivals[k] == st.arrivals[k];
      }
    }
  }

  /** Connections stay known and do not go back to their first phase; an arrival is new. */
  lemma PhasesAdvance(net: Net, st: State, op: Op)
    requires ArrivalsOk(st) && Enabled(net, st, op)
    ensures
      var next := Next(net, st, op);
      && next.users.Keys == next.conns.Keys
      && (forall c | c in st.conns ::
            c in next.conns && (st.conns[c].phase != Slotted ==> next.conns[c].phase != Slotted))
      && (next.arrivals == st.arrivals
          || (!op.Connect? && next.arrivals == st.arrivals + [op.c] && op.c in next.conns
              && st.conns[op.c].phase == Slotted && next.conns[op.c].phase != Slotted))
  {
    hide NoRepeats, Departed, Allocate;
    if op.Enter? {
      EntryAdvances(net, st, op.c, op.limit, op.mode);
    }
  }

  lemma EntryAdvances(net: Net, st: State, c: ConnId, limit: int, mode: Mode)
    requires ArrivalsOk(st) && Enabled(net, st, Enter(c, limit, mode))
    ensures
      var next := Next(net, st, Enter(c, limit, mode));
      && next.users == st.users && next.conns.Keys == st.conns.Keys
      && (forall d | d in st.conns && st.conns[d].phase != Slotted :: next.conns[d].phase != Slotted)
      && st.conns[c].phase == Slotted
      && (next.arrivals == st.arrivals || (next.arrivals == st.arrivals + [c] && next.conns[c].phase != Slotted))
  {
    hide NoRepeats, Admit;
  }

  // --- runs -----------------------------------------------------------------------------

  /** The state after a run; None if some step was not possible where it stands. */
  function Exec(net: Net, ops: seq<Op>): Option<State> {
    if ops == [] then Some(START)
    else
      var st := Exec(net, ops[..|ops| - 1]);
      if st.Some? && Enabled(net, st.value, ops[|ops| - 1]) then Some(Next(net, st.value, ops[|ops| - 1])) else None
  }

  lemma {:induction false} RunKeepsSlotsAndTable(net: Net, ops: seq<Op>)
    requires Exec(net, ops).Some?
    ensures SlotsOk(Exec(net, ops).value) && TableOk(net, Exec(net, ops).value)
  {
    if ops != [] {
      hide SlotsOk, TableOk, Next, Enabled;
      var before := ops[..|ops| - 1];
      RunKeepsSlotsAndTable(net, before);
      SlotsKept(net, Exec(net, before).value, ops[|ops| - 1]);
      TableKept(net, Exec(net, before).value, ops[|ops| - 1]);
    }
  }

  predicate AllHaveAddresses(net: Net, st: State) {
    forall c | c in st.conns :: Addr(net, st.conns[c]).Some?
  }

  lemma StepKeepsAddresses(net: Net, st: State, op: Op)
    requires net.Valid() && net.count >= 4 && AllHaveAddresses(net, st) && Enabled(net, st, op)
    ensures AllHaveAddresses(net, Next(net, st, op))
  {
    if op.Connect? {
      AllocateIsSmallestFree(st.used, net.MaxSlot());
      hide Allocate;
      var slot := Allocate(st.used, net.MaxSlot());
      if slot.Some? {
        SlotAddresses(net, slot.value);
        AllocatedBelow(st.used, net.MaxSlot());
      }
    } else if !op.Free? {
      OthersKeepSlots(net, st, op);
      hide Next;
    }
  }

  lemma AllocatedBelow(used: set<nat>, maxSlot: nat)
    requires maxSlot >= 1 && Allocate(used, maxSlot).Some?
    ensures Allocate(used, maxSlot).value <= maxSlot
  {
  }

  /** In a subnet of at least four addresses, no connection ever has a slot without one. */
  lemma {:induction false} RunKeepsAddresses(net: Net, ops: seq<Op>)
    requires net.Valid() && net.count >= 4 && Exec(net, ops).Some?
    ensures AllHaveAddresses(net, Exec(net, ops).value)
  {
    if ops != [] {
      hide AllHaveAddresses, Next, Enabled;
      var before := ops[..|ops| - 1];
      RunKeepsAddresses(net, before);
      StepKeepsAddresses(net, Exec(net, before).value, ops[|ops| - 1]);
    } else {
      assert START.conns == map[];
    }
  }

  /** After every run: connections that hold slots hold different ones, all of them at most the
      greatest number ever held at once, and have different addresses inside the subnet that
      are neither its base nor the server's. */
  lemma HoldersHaveDistinctAddresses(net: Net, ops: seq<Op>, c: ConnId, d: ConnId)
    requires net.Valid() && net.count >= 4 && Exec(net, ops).Some?
    requires
      var st := Exec(net, ops).value;
      c != d && Holds(st, c) && Holds(st, d)
    ensures
      var st := Exec(net, ops).value;
      var ip, other := Addr(net, st.conns[c]), Addr(net, st.conns[d]);
      && 1 <= st.conns[c].slot <= st.peak
      && st.conns[c].slot != st.conns[d].slot
      && ip.Some? && other.Some? && ip != other
      && net.base < ip.value < net.base + net.count && ip != net.GetServerIP()
  {
    RunKeepsSlotsAndTable(net, ops);
    RunKeepsAddresses(net, ops);
    var st := Exec(net, ops).value;
    hide Exec, TableOk;
    assert st.conns[c].slot in st.used;
    SlotAddresses(net, st.conns[c].slot);
    AddressesDiffer(net, st, c, d);
  }

  /** A connection that has given its slot back and whose address was that of the slot, still
      registered because it registered when it was already closing. */
  predicate Stale(net: Net, st: State, a: nat, d: ConnId) {
    d in st.conns && st.conns[d].phase == Freed && st.conns[d].late && Addr(net, st.conns[d]) == Some(a)
  }

  /** After every run, registering displaces somebody exactly if there is such a connection; so
      nobody is displaced as long as no connection registers late. */
  lemma OnlyStaleEntriesAreDisplaced(net: Net, ops: seq<Op>, c: ConnId)
    requires Exec(net, ops).Some? && Enabled(net, Exec(net, ops).value, Serve(c))
    ensures
      var st := Exec(net, ops).value;
      Addr(net, st.conns[c]).Some? &&
      var a := Addr(net, st.conns[c]).value;
      a in st.table <==> exists d | d in st.conns :: Stale(net, st, a, d)
  {
    RunKeepsSlotsAndTable(net, ops);
    var st := Exec(net, ops).value;
    hide Exec;
    assert ConnOk(net, st.conns[c]);
    var a := Addr(net, st.conns[c]).value;
    if a in st.table {
      var d := st.table[a];
      assert ConnOk(net, st.conns[d]);
      assert Holds(st, c);
      if Holds(st, d) {
        AddressesDiffer(net, st, c, d);
      }
      assert Stale(net, st, a, d);
    }
    if d :| d in st.conns && Stale(net, st, a, d) {
      assert ConnOk(net, st.conns[d]);
      assert Owns(net, st, d);
    }
  }

  /** After every run, a connection that has registered and has not unregistered since owns the
      address of its slot, even after it has given the slot back. */
  lemma RegisteredOwnsAddress(net: Net, ops: seq<Op>, c: ConnId)
    requires Exec(net, ops).Some?
    requires
      var st := Exec(net, ops).value;
      c in st.conns && st.conns[c].registered
    ensures Owns(net, Exec(net, ops).value, c)
  {
    RunKeepsSlotsAndTable(net, ops);
  }

  /** A close of one connection, however late, takes no other's address from it. */
  lemma LateCloseSparesSuccessor(net: Net, ops: seq<Op>, c: ConnId, d: ConnId)
    requires Exec(net, ops).Some?
    requires
      var st := Exec(net, ops).value;
      c != d && d in st.conns && c in st.conns && st.conns[c].registered
    ensures Owns(net, Shut(net, Exec(net, ops).value, d), c)
  {
    RegisteredOwnsAddress(net, ops, c);
  }

  /** Giving back its slot leaves the connection's address in the table exactly if the
      connection registered when it was already closing (and was not closed with an error
      after that): its deferred close then does nothing. */
  lemma StaleEntryExactlyIfRegisteredLate(net: Net, ops: seq<Op>, c: ConnId)
    requires Exec(net, ops).Some?
    requires
      var st := Exec(net, ops).value;
      c in st.conns && st.conns[c].phase == Finished && Addr(net, st.conns[c]).Some?
    ensures
      var st := Exec(net, ops).value;
      Enabled(net, st, Free(c)) &&
      var next := Next(net, st, Free(c));
      var a := Addr(net, st.conns[c]).value;
      (a in next.table && next.table[a] == c <==> st.conns[c].late)
  {
    hide Exec, SlotsOk, TableOk, ArrivalsOk, Next, Enabled;
    RunKeepsSlotsAndTable(net, ops);
    UsersAreConns(net, ops);
    FreeLeavesLate(net, Exec(net, ops).value, c);
  }

  lemma FreeLeavesLate(net: Net, st: State, c: ConnId)
    requires TableOk(net, st) && ArrivalsOk(st)
    requires c in st.conns && st.conns[c].phase == Finished && Addr(net, st.conns[c]).Some?
    ensures Enabled(net, st, Free(c))
    ensures
      var next, a := Next(net, st, Free(c)), Addr(net, st.conns[c]).value;
      a in next.table && next.table[a] == c <==> st.conns[c].late
  {
    assert ConnOk(net, st.conns[c]);
    if st.conns[c].registered {
      assert Owns(net, st, c);
    }
  }

  lemma {:induction false} UsersAreConns(net: Net, ops: seq<Op>)
    requires Exec(net, ops).Some?
    ensures ArrivalsOk(Exec(net, ops).value)
  {
    if ops != [] {
      var before := ops[..|ops| - 1];
      UsersAreConns(net, before);
      ArrivalsKept(net, Exec(net, before).value, ops[|ops| - 1]);
    }
  }

  lemma {:induction false} RunKeepsLists(net: Net, ops: seq<Op>, cap: nat, prevent: bool)
    requires Exec(net, ops).Some? && forall k | 0 <= k < |ops| :: PolicyOk(ops[k], cap, prevent)
    ensures UsersOk(Exec(net, ops).value, cap, prevent)
  {
    if ops == [] {
      forall u: User | u != "" ensures SuffixOk(START, ListOf(START.lists, u), Live(START, u), cap, prevent) {
      }
    } else {
      hide UsersOk, ArrivalsOk, Next, Enabled;
      var before := ops[..|ops| - 1];
      RunKeepsLists(net, before, cap, prevent);
      UsersAreConns(net, before);
      ListsKept(net, Exec(net, before).value, ops[|ops| - 1], cap, prevent);
    }
  }

  /** With positive limits of at most `cap`, after every run a user's list is the latest of the
      user's live connections in order of arrival, without repeats and at most `cap` of them;
      all live ones before the list have been closed; and if new connections are always
      refused rather than old ones killed, there are none before it. */
  lemma UserListIsSuffix(net: Net, ops: seq<Op>, cap: nat, prevent: bool, user: User)
    requires Exec(net, ops).Some? && user != "" && forall k | 0 <= k < |ops| :: PolicyOk(ops[k], cap, prevent)
    ensures
      var st := Exec(net, ops).value;
      var list, live := ListOf(st.lists, user), Live(st, user);
      && NoRepeats(live)
      && |list| <= cap && |list| <= |live|
      && list == live[|live| - |list|..]
      && (forall j | 0 <= j < |live| - |list| :: Closing(st, live[j]))
      && (prevent ==> list == live)
  {
    RunKeepsLists(net, ops, cap, prevent);
    UsersAreConns(net, ops);
    var st := Exec(net, ops).value;
    hide Exec;
    LiveHasNoRepeats(st.arrivals, st.sockets, st.users, user);
    assert SuffixOk(st, ListOf(st.lists, user), Live(st, user), cap, prevent);
  }

  // --- who gets in ----------------------------------------------------------------------

  /** Every listed connection has been admitted, and a connection that is not yet admitted is
      not closing. */
  predicate ListedHaveArrived(st: State) {
    && (forall u, k | u in st.lists && 0 <= k < |st.lists[u]| :: st.lists[u][k] in st.arrivals)
    && forall c | c in st.conns && st.conns[c].phase == Slotted :: !st.conns[c].closing
  }

  lemma EnterKeepsArrived(net: Net, st: State, c: ConnId, limit: int, mode: Mode)
    requires ListedHaveArrived(st) && ArrivalsOk(st) && Enabled(net, st, Enter(c, limit, mode))
    ensures ListedHaveArrived(Next(net, st, Enter(c, limit, mode)))
  {
    hide NoRepeats, Unregistered;
    var next := Next(net, st, Enter(c, limit, mode));
    forall u, k | u in next.lists && 0 <= k < |next.lists[u]| ensures next.lists[u][k] in next.arrivals {
      if u in st.lists {
        assert forall j | 0 <= j < |st.lists[u]| :: st.lists[u][j] in st.arrivals;
      }
    }
  }

  lemma LeaveKeepsArrived(net: Net, st: State, c: ConnId)
    requires ListedHaveArrived(st) && Enabled(net, st, Leave(c))
    ensures ListedHaveArrived(Next(net, st, Leave(c)))
  {
    var next := Next(net, st, Leave(c));
    forall u, k | u in next.lists && 0 <= k < |next.lists[u]| ensures next.lists[u][k] in next.arrivals {
      MinusElements(st.lists[u], c);
      assert next.lists[u][k] in next.lists[u];
    }
  }

  lemma OthersKeepArrived(net: Net, st: State, op: Op)
    requires ListedHaveArrived(st) && TableOk(net, st) && Enabled(net, st, op) && !op.Enter? && !op.Leave?
    ensures ListedHaveArrived(Next(net, st, op))
  {
    hide Unregistered, Allocate, Admit, Departed, Owns;
  }

  lemma {:induction false} RunKeepsArrived(net: Net, ops: seq<Op>)
    requires Exec(net, ops).Some?
    ensures ListedHaveArrived(Exec(net, ops).value)
  {
    if ops != [] {
      hide Next, Enabled, ArrivalsOk, ListedHaveArrived, TableOk, SlotsOk;
      RunKeepsSlotsAndTable(net, ops[..|ops| - 1]);
      var before, op := ops[..|ops| - 1], ops[|ops| - 1];
      RunKeepsArrived(net, before);
      UsersAreConns(net, before);
      match op
      case Enter(c, limit, mode) => EnterKeepsArrived(net, Exec(net, before).value, c, limit, mode);
      case Leave(c) => LeaveKeepsArrived(net, Exec(net, before).value, c);
      case _ => OthersKeepArrived(net, Exec(net, before).value, op);
    } else {
      assert ListedHaveArrived(START);
    }
  }

  /** The connections that a step closes. */
  ghost predicate ClosesJust(st: State, next: State, closed: set<ConnId>) {
    forall d :: Closing(next, d) <==> Closing(st, d) || d in closed
  }

  /** After every run, entering is refused, and the connection closed, exactly if its user is not
      anonymous, the limit is positive, new connections are to be prevented and the user's list
      has reached the limit. All others are admitted and stay open. A user who is not limited
      changes no list; a limited one goes to the end of the own list, from which the oldest goes,
      and is closed, exactly if the list had reached the limit. */
  lemma EnteringExactly(net: Net, ops: seq<Op>, c: ConnId, limit: int, mode: Mode)
    requires Exec(net, ops).Some? && Enabled(net, Exec(net, ops).value, Enter(c, limit, mode))
    ensures
      var st, next := Exec(net, ops).value, Next(net, Exec(net, ops).value, Enter(c, limit, mode));
      var user, list := st.users[c], ListOf(st.lists, st.users[c]);
      var limited, full := user != "" && limit > 0, |list| >= limit;
      && (forall u | u != user :: ListOf(next.lists, u) == ListOf(st.lists, u))
      && if limited && mode == PreventNew && full then
           && next.conns[c].phase == Left && c !in next.arrivals
           && next.sockets == st.sockets && next.arrivals == st.arrivals && next.lists == st.lists
           && ClosesJust(st, next, {c})
         else
           && next.conns[c].phase == Listed && !Closing(next, c)
           && next.sockets == st.sockets + {c} && next.arrivals == st.arrivals + [c]
           && (!limited ==> next.lists == st.lists && ClosesJust(st, next, {}))
           && (limited && !full ==> ListOf(next.lists, user) == list + [c] && ClosesJust(st, next, {}))
           && (limited && full ==> ListOf(next.lists, user) == list[1..] + [c] && ClosesJust(st, next, {list[0]}))
  {
    UsersAreConns(net, ops);
    RunKeepsArrived(net, ops);
    hide Exec, Enabled;
    EnteringInState(net, Exec(net, ops).value, c, limit, mode);
  }

  lemma EnteringInState(net: Net, st: State, c: ConnId, limit: int, mode: Mode)
    requires ArrivalsOk(st) && ListedHaveArrived(st) && Enabled(net, st, Enter(c, limit, mode))
    ensures
      var next := Next(net, st, Enter(c, limit, mode));
      var user, list := st.users[c], ListOf(st.lists, st.users[c]);
      var limited, full := user != "" && limit > 0, |list| >= limit;
      && (forall u | u != user :: ListOf(next.lists, u) == ListOf(st.lists, u))
      && if limited && mode == PreventNew && full then
           && next.conns[c].phase == Left && c !in next.arrivals
           && next.sockets == st.sockets && next.arrivals == st.arrivals && next.lists == st.lists
           && ClosesJust(st, next, {c})
         else
           && next.conns[c].phase == Listed && !Closing(next, c)
           && next.sockets == st.sockets + {c} && next.arrivals == st.arrivals + [c]
           && (!limited ==> next.lists == st.lists && ClosesJust(st, next, {}))
           && (limited && !full ==> ListOf(next.lists, user) == list + [c] && ClosesJust(st, next, {}))
           && (limited && full ==> ListOf(next.lists, user) == list[1..] + [c] && ClosesJust(st, next, {list[0]}))
  {
    hide NoRepeats, Unregistered;
    var list := ListOf(st.lists, st.users[c]);
    assert c !in st.arrivals;
    if list != [] {
      assert list[0] in st.arrivals;
    }
  }

  /** After every run, serving a connection registers it as the owner of its address, and leaves
      all other owners theirs; who had that address before is closed. */
  lemma ServingTakesAddress(net: Net, ops: seq<Op>, c: ConnId)
    requires Exec(net, ops).Some? && Enabled(net, Exec(net, ops).value, Serve(c))
    ensures
      var st, next := Exec(net, ops).value, Next(net, Exec(net, ops).value, Serve(c));
      && next.conns[c].registered && next.conns[c].phase == Serving && Owns(net, next, c)
      && (forall d | d in st.conns && st.conns[d].registered ::
            if Addr(net, st.conns[d]) == Addr(net, st.conns[c]) then next.conns[d].closing && !next.conns[d].registered
            else next.conns[d] == st.conns[d] && Owns(net, next, d))
  {
    RunKeepsSlotsAndTable(net, ops);
    hide Exec;
    ServingInState(net, Exec(net, ops).value, c);
  }

  lemma ServingInState(net: Net, st: State, c: ConnId)
    requires TableOk(net, st) && Enabled(net, st, Serve(c))
    ensures
      var next := Next(net, st, Serve(c));
      && next.conns[c].registered && next.conns[c].phase == Serving && Owns(net, next, c)
      && (forall d | d in st.conns && st.conns[d].registered ::
            if Addr(net, st.conns[d]) == Addr(net, st.conns[c]) then next.conns[d].closing && !next.conns[d].registered
            else next.conns[d] == st.conns[d] && Owns(net, next, d))
  {
    assert ConnOk(net, st.conns[c]);
    forall d | d in st.conns && st.conns[d].registered ensures Owns(net, st, d) {
    }
  }

  /** After every run, leaving takes just this connection from the tables and closes nobody. */
  lemma LeavingExactly(net: Net, ops: seq<Op>, c: ConnId, user: User)
    requires Exec(net, ops).Some? && Enabled(net, Exec(net, ops).value, Leave(c))
    ensures
      var st, next := Exec(net, ops).value, Next(net, Exec(net, ops).value, Leave(c));
      && next.sockets == st.sockets - {c} && ClosesJust(st, next, {})
      && (user == st.users[c] && user != "" ==>
            forall d :: d in ListOf(next.lists, user) <==> d in ListOf(st.lists, user) && d != c)
      && (user != st.users[c] || user == "" ==> ListOf(next.lists, user) == ListOf(st.lists, user))
  {
    var st := Exec(net, ops).value;
    hide Exec;
    DepartedList(st.lists, st.users[c], c, user);
    MinusElements(ListOf(st.lists, user), c);
  }

  /** After every run, a close with error, or a plain one of a connection that is not yet closing,
      leaves the connection closed and without the address, and touches no other. */
  lemma ClosingUnregisters(net: Net, ops: seq<Op>, c: ConnId, op: Op)
    requires Exec(net, ops).Some? && Enabled(net, Exec(net, ops).value, op)
    requires op == CloseError(c) || (op == Close(c) && !Closing(Exec(net, ops).value, c))
    ensures
      var st, next := Exec(net, ops).value, Next(net, Exec(net, ops).value, op);
      && Closing(next, c) && !next.conns[c].registered && !Owns(net, next, c)
      && (forall d | d in st.conns && d != c :: d in next.conns && next.conns[d] == st.conns[d])
      && (forall d | d in st.conns && d != c && st.conns[d].registered :: Owns(net, next, d))
  {
    RunKeepsSlotsAndTable(net, ops);
    var st, next := Exec(net, ops).value, Next(net, Exec(net, ops).value, op);
    hide Exec;
    forall d | d in st.conns && d != c && st.conns[d].registered ensures Owns(net, next, d) {
      assert Owns(net, st, d);
    }
  }

  /** A run that leaves a stale entry: connection 1 is closed between admission and
      registration; its address stays in the table after its slot is free. */
  lemma StaleEntryRun()
    ensures
      var net := Net(0, 8);
      var st := Exec(net,
        [Connect(1, "u"), Enter(1, 1, KillOldest), CloseError(1), Serve(1), Leave(1), Finish(1), Free(1)]);
      st.Some? && st.value.used == {} && st.value.table == map[2 := 1]
  {
    var net := Net(0, 8);
    var ops := [Connect(1, "u"), Enter(1, 1, KillOldest), CloseError(1), Serve(1)];
    ClosedBeforeServing();
    LeaveFinishFree(net, Exec(net, ops).value);
    ExecStep(net, ops, Leave(1));
    ExecStep(net, ops + [Leave(1)], Finish(1));
    ExecStep(net, ops + [Leave(1)] + [Finish(1)], Free(1));
    hide Exec, Next, Enabled;
    assert ops + [Leave(1)] + [Finish(1)] + [Free(1)] ==
      [Connect(1, "u"), Enter(1, 1, KillOldest), CloseError(1), Serve(1), Leave(1), Finish(1), Free(1)];
  }

  lemma LeaveFinishFree(net: Net, st: State)
    requires st.conns == map[1 := Conn(1, Serving, true, true, true)] && st.users == map[1 := "u"]
    requires st.used == {1} && st.table == map[2 := 1]
    ensures Enabled(net, st, Leave(1))
    ensures
      var left := Next(net, st, Leave(1));
      Enabled(net, left, Finish(1)) &&
      var finished := Next(net, left, Finish(1));
      Enabled(net, finished, Free(1)) &&
      var freed := Next(net, finished, Free(1));
      freed.used == {} && freed.table == map[2 := 1]
  {
    var left := Next(net, st, Leave(1));
    assert left.conns == map[1 := Conn(1, Left, true, true, true)];
    var finished := Next(net, left, Finish(1));
    assert finished.conns == map[1 := Conn(1, Finished, true, true, true)];
  }

  lemma ClosedBeforeServing()
    ensures
      var st := Exec(Net(0, 8), [Connect(1, "u"), Enter(1, 1, KillOldest), CloseError(1), Serve(1)]);
      && st.Some? && st.value.conns == map[1 := Conn(1, Serving, true, true, true)]
      && st.value.used == {1} && st.value.table == map[2 := 1] && st.value.users == map[1 := "u"]
  {
    var net := Net(0, 8);
    assert FirstFree({}, 1) == 1;
    assert Exec(net, []) == Some(START);
    ExecStep(net, [], Connect(1, "u"));
    var s1 := Next(net, START, Connect(1, "u"));
    assert [] + [Connect(1, "u")] == [Connect(1, "u")];
    ExecStep(net, [Connect(1, "u")], Enter(1, 1, KillOldest));
    var s2 := Next(net, s1, Enter(1, 1, KillOldest));
    assert s2.conns == map[1 := Conn(1, Listed, false, false, false)] && s2.used == {1};
    assert [Connect(1, "u")] + [Enter(1, 1, KillOldest)] == [Connect(1, "u"), Enter(1, 1, KillOldest)];
    ExecStep(net, [Connect(1, "u"), Enter(1, 1, KillOldest)], CloseError(1));
    var s3 := Next(net, s2, CloseError(1));
    assert s3.conns == map[1 := Conn(1, Listed, true, false, false)];
    assert [Connect(1, "u"), Enter(1, 1, KillOldest)] + [CloseError(1)]
        == [Connect(1, "u"), Enter(1, 1, KillOldest), CloseError(1)];
    ExecStep(net, [Connect(1, "u"), Enter(1, 1, KillOldest), CloseError(1)], Serve(1));
    assert [Connect(1, "u"), Enter(1, 1, KillOldest), CloseError(1)] + [Serve(1)]
        == [Connect(1, "u"), Enter(1, 1, KillOldest), CloseError(1), Serve(1)];
  }

  lemma ExecStep(net: Net, ops: seq<Op>, op: Op)
    ensures Exec(net, ops + [op]) ==
      if Exec(net, ops).Some? && Enabled(net, Exec(net, ops).value, op) then Some(Next(net, Exec(net, ops).value, op))
      else None
  {
    assert (ops + [op])[..|ops + [op]| - 1] == ops;
  }
}
