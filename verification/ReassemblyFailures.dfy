/** What comes out wrong when packets are mixed or repeated: not only does the receiver's buffer
    depart from what it should be, payloads are lost or come out twice. */
module ReassemblyFailures {
  import opened MachineInts
  import opened Fragmentation
  import opened Reassembly
  import opened ReassemblyRuns

  /** What has been passed up is not what was due. */
  predicate Wrong(world: World, es: seq<Event>)
    requires PossibleRun(world, es)
  {
    Run(world, es).delivered != Payloads(world, Deliveries(world, es))
  }

  predicate GoesWrongAt(world: World, es: seq<Event>, more: seq<Event>, k: nat) {
    k <= |more| && PossibleRun(world, es + more[..k]) && Wrong(world, es + more[..k])
  }

  /** Of the fragments below n, those not in `live`, once each. */
  function Rest(p: PacketId, live: set<Index>, n: nat, now: int): seq<Event>
    requires n <= MAX_FRAGMENTS
  {
    if n == 0 then [] else Rest(p, live, n - 1, now) + if n - 1 in live then [] else [Arrival(p, n - 1, now)]
  }

  function Below(live: set<Index>, n: nat): set<Index> {
    set i: Index | i < n && i !in live
  }

  lemma NoneBelow(live: set<Index>)
    ensures Below(live, 0) == {} && live + Below(live, 0) == live
  {
  }

  lemma BelowGrows(live: set<Index>, n: nat)
    requires 0 < n <= MAX_FRAGMENTS
    ensures Below(live, n) == Below(live, n - 1) + if n - 1 in live then {} else {n - 1}
    ensures n - 1 !in Below(live, n - 1)
  {
  }

  lemma {:induction false} RestIsPossible(world: World, es: seq<Event>, p: PacketId, live: set<Index>, n: nat, now: int)
    requires PossibleRun(world, es) && p in world && n <= |world[p].bodies| && n <= MAX_FRAGMENTS
    ensures PossibleRun(world, es + Rest(p, live, n, now))
  {
    hide Possible;
    if n == 0 {
      NoRest(es, p, live, now);
    } else {
      RestIsPossible(world, es, p, live, n - 1, now);
      RestGrows(es, p, live, n, now);
      PossibleGrows(world, es + Rest(p, live, n - 1, now), Arrival(p, n - 1, now));
    }
  }

  lemma PossibleGrows(world: World, es: seq<Event>, e: Event)
    requires PossibleRun(world, es) && e.Arrival? && e.packet in world && e.index < |world[e.packet].bodies|
    ensures PossibleRun(world, es + [e])
  {
  }

  lemma NoRest(es: seq<Event>, p: PacketId, live: set<Index>, now: int)
    ensures es + Rest(p, live, 0, now) == es
  {
  }

  /** Step by step: a longer rest is the shorter one and perhaps one more arrival. */
  lemma RestGrows(es: seq<Event>, p: PacketId, live: set<Index>, n: nat, now: int)
    requires 0 < n <= MAX_FRAGMENTS
    ensures es + Rest(p, live, n, now) ==
      if n - 1 in live then es + Rest(p, live, n - 1, now)
      else (es + Rest(p, live, n - 1, now)) + [Arrival(p, n - 1, now)]
  {
  }

  // --- the judgement --------------------------------------------------------------------

  lemma {:induction false} RestBecomesLive(es: seq<Event>, p: PacketId, live: set<Index>, n: nat, now: int)
    requires n <= MAX_FRAGMENTS
    ensures Live(es + Rest(p, live, n, now), p) == Live(es, p) + Below(live, n)
  {
    hide Live, Rest;
    if n == 0 {
      NoRest(es, p, live, now);
    } else {
      RestBecomesLive(es, p, live, n - 1, now);
      BelowGrows(live, n);
      RestGrows(es, p, live, n, now);
      ThisPacketGrows(es + Rest(p, live, n - 1, now), Arrival(p, n - 1, now));
    }
  }

  lemma {:induction false} RestLeavesOthers(es: seq<Event>, p: PacketId, live: set<Index>, n: nat, now: int,
      q: PacketId)
    requires n <= MAX_FRAGMENTS && q != p
    ensures Live(es + Rest(p, live, n, now), q) == Live(es, q)
  {
    hide Live, Rest;
    if n == 0 {
      NoRest(es, p, live, now);
    } else {
      RestLeavesOthers(es, p, live, n - 1, now, q);
      RestGrows(es, p, live, n, now);
      OtherPacketUntouched(es + Rest(p, live, n - 1, now), Arrival(p, n - 1, now), q);
    }
  }

  lemma {:induction false} LiveWithin(world: World, es: seq<Event>, p: PacketId)
    requires PossibleRun(world, es) && p in world
    ensures Live(es, p) <= world[p].All()
  {
    if es != [] {
      LiveWithin(world, es[..|es| - 1], p);
      assert Possible(world, es[|es| - 1]);
    }
  }

  /** The missing fragments of an incomplete packet make it due, with the last of them. */
  lemma {:induction false} RestIsDue(world: World, es: seq<Event>, p: PacketId, n: nat, now: int)
    requires PossibleRun(world, es) && p in world && n <= |world[p].bodies| && n <= MAX_FRAGMENTS
    requires Live(es, p) != world[p].All()
    ensures
      var run := es + Rest(p, Live(es, p), n, now);
      && PossibleRun(world, run)
      && Deliveries(world, run) == Deliveries(world, es) +
        if Live(es, p) + Below(Live(es, p), n) == world[p].All() then [Packet(p)] else []
  {
    hide Live, FirstIndices, Deliveries, Rest, Below, PossibleRun, Incomplete;
    var live := Live(es, p);
    RestIsPossible(world, es, p, live, n, now);
    if n == 0 {
      NoRest(es, p, live, now);
      NoneBelow(live);
    } else {
      RestIsDue(world, es, p, n - 1, now);
      BelowGrows(live, n);
      RestGrows(es, p, live, n, now);
      var before := es + Rest(p, live, n - 1, now);
      RestBecomesLive(es, p, live, n - 1, now);
      if n - 1 !in live {
        NotYetAll(world[p], live + Below(live, n - 1), n - 1);
        DueAt(world, before, p, n - 1, now);
      }
    }
  }

  lemma DueAt(world: World, before: seq<Event>, p: PacketId, index: Index, now: int)
    requires PossibleRun(world, before + [Arrival(p, index, now)]) && PossibleRun(world, before)
    requires p in world && Live(before, p) != world[p].All()
    ensures Deliveries(world, before + [Arrival(p, index, now)]) ==
      Deliveries(world, before) + if Live(before, p) + {index} == world[p].All() then [Packet(p)] else []
  {
    hide Live, Deliveries, FirstIndices;
    RunExtends(world, before, Arrival(p, index, now));
  }

  lemma NotYetAll(sent: Sent, have: set<Index>, missing: nat)
    requires missing !in have && missing < |sent.bodies|
    ensures have != sent.All()
  {
    assert missing in sent.All();
  }

  lemma RestCompletes(sent: Sent, live: set<Index>)
    requires live <= sent.All() && |sent.bodies| <= MAX_FRAGMENTS
    ensures live + Below(live, |sent.bodies|) == sent.All()
  {
    forall i | i in sent.All() ensures i in live + Below(live, |sent.bodies|) {
      var j: Index := i;
    }
  }

  // --- the receiver ---------------------------------------------------------------------

  /** From no group on, the receiver collects the rest, and passes up only a rest that is all. */
  lemma {:induction false} RestReceived(world: World, es: seq<Event>, p: PacketId, live: set<Index>, n: nat, now: int)
    requires ValidWorld(world) && PossibleRun(world, es) && p in world
    requires n <= |world[p].bodies| && n <= MAX_FRAGMENTS && world[p].key !in Run(world, es).buffer
    ensures
      var sent, run := world[p], es + Rest(p, live, n, now);
      var have := Below(live, n);
      && PossibleRun(world, run) && have <= sent.All()
      && Run(world, run).delivered == Run(world, es).delivered + (if have == sent.All() then [sent.Data()] else [])
      && (have == {} ==> sent.key !in Run(world, run).buffer)
      && (have != {} && have != sent.All() ==>
            sent.key in Run(world, run).buffer && Run(world, run).buffer[sent.key] == Partial(sent, have, now))
  {
    hide Run, Partial, FirstIndices, ReceivePiece, Rest, Below, PossibleRun;
    var sent := world[p];
    NoneBelow(live);
    RestIsPossible(world, es, p, live, n, now);
    AllIsNotEmpty(sent, n, live);
    if n == 0 {
      NoRest(es, p, live, now);
    } else {
      RestReceived(world, es, p, live, n - 1, now);
      BelowGrows(live, n);
      RestGrows(es, p, live, n, now);
      if n - 1 !in live {
        var before, have := es + Rest(p, live, n - 1, now), Below(live, n - 1);
        NotYetAll(sent, have, n - 1);
        PieceCollected(world, before, p, have, n - 1, now);
      }
    }
  }

  lemma PieceCollected(world: World, before: seq<Event>, p: PacketId, have: set<Index>, index: Index, now: int)
    requires ValidWorld(world) && PossibleRun(world, before) && PossibleRun(world, before + [Arrival(p, index, now)])
    requires p in world && index < |world[p].bodies| && have < world[p].All()
    requires
      var sent, buffer := world[p], Run(world, before).buffer;
      if have == {} then sent.key !in buffer else sent.key in buffer && buffer[sent.key] == Partial(sent, have, now)
    ensures
      var sent, run := world[p], before + [Arrival(p, index, now)];
      var all := have + {index} == sent.All();
      && have + {index} <= sent.All()
      && Run(world, run).delivered == Run(world, before).delivered + (if all then [sent.Data()] else [])
      && (!all ==>
            && sent.key in Run(world, run).buffer
            && Run(world, run).buffer[sent.key] == Partial(sent, have + {index}, now))
  {
    hide Run, Partial, ReceivePiece, Sent.Data;
    RunExtends(world, before, Arrival(p, index, now));
    ReceiveOne(Run(world, before).buffer, world[p], have, now, index, now);
    assert Run(world, before).delivered + [] == Run(world, before).delivered;
  }

  lemma AllIsNotEmpty(sent: Sent, n: nat, live: set<Index>)
    requires sent.Valid() && n <= |sent.bodies|
    ensures sent.All() != {} && Below(live, n) <= sent.All() && forall i: nat :: i in sent.All() <==> i < |sent.bodies|
  {
    assert (0 as nat) in sent.All();
  }

  // --- mixing ---------------------------------------------------------------------------

  /** The rest of an incomplete packet ends with its last missing fragment. */
  lemma {:induction false} RestEnds(sent: Sent, p: PacketId, live: set<Index>, n: nat, now: int) returns (m: nat)
    requires n <= MAX_FRAGMENTS && n <= |sent.bodies| && live + Below(live, n) == sent.All() && live != sent.All()
    ensures m < n && m !in live
    ensures Rest(p, live, n, now) == Rest(p, live, m, now) + [Arrival(p, m, now)]
    ensures live + Below(live, m) != sent.All()
  {
    hide Below, FirstIndices;
    m := 0;
    NoneBelow(live);
    if n == 0 {
    } else if n - 1 in live {
      BelowGrows(live, n);
      m := RestEnds(sent, p, live, n - 1, now);
    } else {
      BelowGrows(live, n);
      m := n - 1;
      NotYetAll(sent, live + Below(live, m), m);
    }
  }

  /** If an incomplete packet's rest leads to the right deliveries all along, then there is no
      group under its wire id afterwards. */
  lemma RightRestClearsGroup(world: World, es: seq<Event>, q: PacketId, now: int) returns (k: nat)
    requires ValidWorld(world) && PossibleRun(world, es) && IncompleteAfter(world, es, q)
    requires |world[q].bodies| <= MAX_FRAGMENTS
    ensures
      var rest := Rest(q, Live(es, q), |world[q].bodies|, now);
      && k < |rest| && PossibleRun(world, es + rest[..k]) && PossibleRun(world, es + rest)
      && (Wrong(world, es + rest[..k]) || Wrong(world, es + rest) || world[q].key !in Run(world, es + rest).buffer)
  {
    var sent, live := world[q], Live(es, q);
    hide Live, Run, Deliveries, Payloads, ReceivePiece, FirstIndices;
    LiveWithin(world, es, q);
    RestCompletes(sent, live);
    var m := RestEnds(sent, q, live, |sent.bodies|, now);
    var rest, part := Rest(q, live, |sent.bodies|, now), Rest(q, live, m, now);
    k := |part|;
    assert rest[..k] == part;
    RestIsDue(world, es, q, m, now);
    RestIsDue(world, es, q, |sent.bodies|, now);
    var e := Arrival(q, m, now);
    assert es + rest == (es + part) + [e];
    RunExtends(world, es + part, e);
    DueGrows(world, Deliveries(world, es), Packet(q));
    DeliveryClearsGroup(Run(world, es + part).buffer, sent, m, now);
  }

  lemma DueGrows(world: World, ds: seq<Delivery>, d: Delivery)
    ensures Payloads(world, ds + []) == Payloads(world, ds)
    ensures |Payloads(world, ds + [d])| == |Payloads(world, ds)| + 1
  {
    assert ds + [] == ds;
  }

  lemma DeliveryClearsGroup(buffer: Buffer, sent: Sent, index: Index, now: int)
    requires index < |sent.bodies|
    ensures
      var r := ReceivePiece(buffer, sent, index, now);
      r.delivered.Some? ==> sent.key !in r.buffer
  {
  }

  /** Two incomplete packets under one wire id: if then just their missing fragments arrive, each
      once, first those of the one and then those of the other, the receiver goes wrong, by
      what it passes up or by what it does not. */
  lemma MixedPacketsGoWrong(world: World, es: seq<Event>, p: PacketId, q: PacketId, now: int) returns (k: nat)
    requires ValidWorld(world) && PossibleRun(world, es)
    requires IncompleteAfter(world, es, p) && IncompleteAfter(world, es, q) && p != q && world[p].key == world[q].key
    requires |world[p].bodies| <= MAX_FRAGMENTS && |world[q].bodies| <= MAX_FRAGMENTS
    ensures
      var more := Rest(q, Live(es, q), |world[q].bodies|, now) + Rest(p, Live(es, p), |world[p].bodies|, now);
      GoesWrongAt(world, es, more, k)
  {
    hide Live, Run, Deliveries, Payloads, FirstIndices, Wrong, Partial;
    var restQ, restP := Rest(q, Live(es, q), |world[q].bodies|, now), Rest(p, Live(es, p), |world[p].bodies|, now);
    var more := restQ + restP;
    k := RightRestClearsGroup(world, es, q, now);
    assert more[..k] == restQ[..k] && more[..|restQ|] == restQ && more[..|more|] == more;
    if !Wrong(world, es + more[..k]) {
      k := |restQ|;
      if !Wrong(world, es + more[..k]) {
        k := |more|;
        RestLeavesOthers(es, q, Live(es, q), |world[q].bodies|, now, p);
        LostAfterwards(world, es + restQ, p, now);
        assert es + more == (es + restQ) + restP;
      }
    }
  }

  /** A mixed arrival does leave two such packets, if it does not meet them. */
  lemma MixedArrivalLeavesTwo(world: World, before: seq<Event>, e: Event) returns (q: PacketId)
    requires ValidWorld(world) && PossibleRun(world, before) && e.Arrival? && Possible(world, e)
    requires NotLate(world, before, e) && !NotMixed(world, before, e)
    ensures q in world && q != e.packet && world[q].key == world[e.packet].key && IncompleteAfter(world, before, q)
    ensures IncompleteAfter(world, before, e.packet)
      || (IncompleteAfter(world, before + [e], q) && IncompleteAfter(world, before + [e], e.packet))
  {
    hide Live, FirstIndices;
    q :| q in world && q != e.packet && world[q].key == world[e.packet].key && Incomplete(world[q], Live(before, q));
    OtherPacketUntouched(before, e, q);
    ThisPacketGrows(before, e);
    OneIsNotAll(world[e.packet], e.index);
  }

  lemma OneIsNotAll(sent: Sent, index: Index)
    requires sent.Valid()
    ensures {index} != sent.All()
  {
    assert (0 as nat) in sent.All() && (1 as nat) in sent.All();
  }

  /** An incomplete packet without a group is lost. */
  lemma LostAfterwards(world: World, es: seq<Event>, p: PacketId, now: int)
    requires ValidWorld(world) && PossibleRun(world, es) && !Wrong(world, es)
    requires IncompleteAfter(world, es, p) && world[p].key !in Run(world, es).buffer
    requires |world[p].bodies| <= MAX_FRAGMENTS
    ensures
      var run := es + Rest(p, Live(es, p), |world[p].bodies|, now);
      PossibleRun(world, run) && Wrong(world, run)
  {
    hide Live, Run, Deliveries, Payloads, FirstIndices, Partial;
    var sent, live := world[p], Live(es, p);
    LiveWithin(world, es, p);
    RestCompletes(sent, live);
    RestIsDue(world, es, p, |sent.bodies|, now);
    RestReceived(world, es, p, live, |sent.bodies|, now);
    var i :| i in live;
    assert i !in Below(live, |sent.bodies|);
    DueGrows(world, Deliveries(world, es), Packet(p));
    assert Run(world, es).delivered + [] == Run(world, es).delivered;
  }

  // --- repeats --------------------------------------------------------------------------

  lemma {:induction false} NothingDueAgain(world: World, es: seq<Event>, p: PacketId, n: nat, now: int)
    requires PossibleRun(world, es) && p in world && Live(es, p) == world[p].All()
    requires n <= |world[p].bodies| && n <= MAX_FRAGMENTS
    ensures
      var run := es + Rest(p, {}, n, now);
      && PossibleRun(world, run) && Live(run, p) == world[p].All() && Deliveries(world, run) == Deliveries(world, es)
  {
    hide Live, Deliveries, Rest, PossibleRun, FirstIndices;
    RestIsPossible(world, es, p, {}, n, now);
    if n == 0 {
      NoRest(es, p, {}, now);
    } else {
      NothingDueAgain(world, es, p, n - 1, now);
      var before, e := es + Rest(p, {}, n - 1, now), Arrival(p, n - 1, now);
      RestGrows(es, p, {}, n, now);
      RunExtends(world, before, e);
      ThisPacketGrows(before, e);
    }
  }

  /** If after its completion all fragments of a packet arrive once more before it expires, with
      no other packet under its wire id, the packet is passed up a second time. */
  lemma RepeatedPacketComesTwice(world: World, es: seq<Event>, p: PacketId, now: int)
    requires ValidWorld(world) && PossibleRun(world, es) && p in world && Live(es, p) == world[p].All()
    requires world[p].key !in Run(world, es).buffer
    ensures |world[p].bodies| <= MAX_FRAGMENTS
    ensures
      var run := es + Rest(p, {}, |world[p].bodies|, now);
      && PossibleRun(world, run)
      && Deliveries(world, run) == Deliveries(world, es)
      && Run(world, run).delivered == Run(world, es).delivered + [world[p].Data()]
  {
    hide Live, Run, Deliveries, Partial;
    AllFitIndex(world[p], Live(es, p));
    NothingDueAgain(world, es, p, |world[p].bodies|, now);
    RestReceived(world, es, p, {}, |world[p].bodies|, now);
    RestCompletes(world[p], {});
    assert {} + Below({}, |world[p].bodies|) == Below({}, |world[p].bodies|);
  }
}
