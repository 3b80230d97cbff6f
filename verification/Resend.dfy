/** One packet that had to be sent again under smaller and smaller limits: whatever the network
    loses, reorders or delays of all the attempts' datagrams, when does the packet come out at
    most once, and nothing else? */
module Resend {
  import opened MachineInts
  import opened Fragmentation
  import opened FragmentSender
  import opened Reassembly
  import opened ReassemblyRuns
  import opened RoundTrip
  import opened Arrivals

  /** The attempts of the packet. */
  function Attempts(data: seq<Byte>, log: seq<Attempt>): (tries: seq<Try>)
    requires |data| > 0 && ValidLog(data, log)
    ensures ValidTries(tries) && |tries| == |log|
    ensures forall j | 0 <= j < |log| :: tries[j] == Try(0, data, log[j]) && tries[j].Valid()
    ensures forall j | 0 <= j < |log| - 1 :: !tries[j].Done()
  {
    LogMakesValidTries(0, data, log);
    OnlyLastIsDone(0, data, log);
    assert forall j | 0 <= j < |log| :: TriesOf(0, data, log)[j] in TriesOf(0, data, log);
    TriesOf(0, data, log)
  }

  /** The last attempt sent all its fragments. */
  predicate EndsInPieces(tries: seq<Try>)
    requires ValidTries(tries)
  {
    tries != [] && var last := tries[|tries| - 1]; last.Valid() && last.InPieces() && last.Done()
  }

  /** Attempt i has sent a fragment under the last attempt's wire id. */
  predicate Intrudes(tries: seq<Try>, i: nat)
    requires i < |tries|
  {
    tries[i].InPieces() && tries[i].attempt.sent > 0 && tries[i].Key() == tries[|tries| - 1].Key()
  }

  /** If the last attempt sent all its fragments, no other has sent one under its wire id.
      Attempts that were given up may share theirs. */
  predicate LastIdOwn(tries: seq<Try>)
    requires ValidTries(tries)
  {
    EndsInPieces(tries) ==> forall i | 0 <= i < |tries| - 1 :: !Intrudes(tries, i)
  }

  predicate OnceOrNever(delivered: seq<seq<Byte>>, data: seq<Byte>) {
    delivered == [] || delivered == [data]
  }

  /** What holds of the attempts of one packet. */
  predicate OnePacketsTries(tries: seq<Try>, data: seq<Byte>) {
    && ValidTries(tries)
    && (forall t | t in tries :: t.data == data)
    && (forall j | 0 <= j < |tries| :: tries[j].Valid())
    && forall j | 0 <= j < |tries| - 1 :: !tries[j].Done()
  }

  lemma AttemptsAreOnePackets(data: seq<Byte>, log: seq<Attempt>)
    requires |data| > 0 && ValidLog(data, log)
    ensures OnePacketsTries(Attempts(data, log), data)
  {
  }

  // --- attempts that were given up ------------------------------------------------------

  /** A fragment that is not the last of its attempt. */
  predicate NotLastFragment(t: Try, index: nat) {
    t.Valid() && t.InPieces() && index < t.attempt.sent <= MAX_FRAGMENTS && index != |t.Datagrams()| - 1
  }

  predicate NeverEnds(group: Group) {
    group.lastIndex < 0
  }

  /** Such a fragment completes nothing in a group that has no last fragment. */
  lemma NotLastIsKept(buffer: Buffer, sent: Sent, index: Index, now: int)
    requires index < |sent.bodies| - 1
    requires sent.key in buffer ==> NeverEnds(buffer[sent.key])
    ensures
      var r := ReceivePiece(buffer, sent, index, now);
      && r.delivered.None? && sent.key in r.buffer && NeverEnds(r.buffer[sent.key])
      && r.buffer - {sent.key} == buffer - {sent.key}
  {
    var group := Store(GroupOf(buffer, sent.key, now), index, false, sent.bodies[index], now);
    assert index in group.data;
    UpdateThenDrop(buffer, sent.key, group);
  }

  /** Nothing sent in pieces but by a complete last attempt ever ends. */
  lemma PiecesWithoutEnd(tries: seq<Try>, data: seq<Byte>, e: Incident)
    requires OnePacketsTries(tries, data) && MarkerNotSent(tries) && WasSent(tries, e) && e.Got?
    requires tries[e.attempt].InPieces() && !(EndsInPieces(tries) && e.attempt == |tries| - 1)
    ensures NotLastFragment(tries[e.attempt], e.index)
  {
    hide Emits, TakesFragmentBranch;
    assert tries[e.attempt].Valid();
  }

  // --- no complete attempt in pieces ----------------------------------------------------

  predicate GotWhole(tries: seq<Try>, es: seq<Incident>) {
    exists k | 0 <= k < |es| :: IsWhole(tries, es[k])
  }

  predicate IsWhole(tries: seq<Try>, e: Incident) {
    e.Got? && e.attempt < |tries| && !tries[e.attempt].InPieces()
  }

  lemma GotWholeGrows(tries: seq<Try>, before: seq<Incident>, e: Incident)
    ensures GotWhole(tries, before + [e]) <==> GotWhole(tries, before) || IsWhole(tries, e)
  {
    var es := before + [e];
    assert es[|before|] == e && forall k | 0 <= k < |before| :: es[k] == before[k];
  }

  /** A whole packet is the only datagram of the last attempt. */
  lemma WholeIsLast(tries: seq<Try>, data: seq<Byte>, e: Incident)
    requires OnePacketsTries(tries, data) && WasSent(tries, e) && IsWhole(tries, e)
    ensures e.attempt == |tries| - 1 && e.index == 0
  {
    WholeAttempt(tries[e.attempt]);
  }

  lemma WholeOnce(tries: seq<Try>, data: seq<Byte>, before: seq<Incident>, e: Incident)
    requires OnePacketsTries(tries, data) && Arrivable(tries, before + [e]) && NoDuplicates(before + [e])
    requires IsWhole(tries, e)
    ensures !GotWhole(tries, before)
  {
    ArrivableBefore(tries, before, e);
    FirstTime(before, e);
    WholeIsLast(tries, data, e);
    if k :| 0 <= k < |before| && IsWhole(tries, before[k]) {
      WholeIsLast(tries, data, before[k]);
    }
  }

  lemma {:induction false} OnlyWholesComeOut(tries: seq<Try>, data: seq<Byte>, es: seq<Incident>)
    requires OnePacketsTries(tries, data) && MarkerNotSent(tries) && !EndsInPieces(tries)
    requires Arrivable(tries, es) && NoDuplicates(es)
    ensures
      var st := After(tries, es);
      && (forall key | key in st.buffer :: NeverEnds(st.buffer[key]))
      && st.delivered == if GotWhole(tries, es) then [data] else []
  {
    if es != [] {
      hide NoDuplicates, Arrivable, MarkerNotSent, OnePacketsTries, GotWhole, WasSent, Happens, EndsInPieces,
        Try.InPieces;
      var before, e := es[..|es| - 1], es[|es| - 1];
      assert es == before + [e];
      ArrivableBefore(tries, before, e);
      FirstTime(before, e);
      OnlyWholesComeOut(tries, data, before);
      AfterOneMore(tries, before, e);
      GotWholeGrows(tries, before, e);
      if IsWhole(tries, e) {
        WholeOnce(tries, data, before, e);
      }
      StepWithoutEnd(tries, data, After(tries, before), e);
    }
  }

  lemma StepWithoutEnd(tries: seq<Try>, data: seq<Byte>, st: State, e: Incident)
    requires OnePacketsTries(tries, data) && MarkerNotSent(tries) && !EndsInPieces(tries) && WasSent(tries, e)
    requires forall key | key in st.buffer :: NeverEnds(st.buffer[key])
    ensures
      var next := Happens(tries, st, e);
      && (forall key | key in next.buffer :: NeverEnds(next.buffer[key]))
      && next.delivered == st.delivered + if IsWhole(tries, e) then [data] else []
  {
    hide Incoming, ReceivePiece, EndsInPieces, NeverEnds, Try.InPieces;
    assert st.delivered + [] == st.delivered;
    if e.Got? {
      var t := tries[e.attempt];
      DatagramActs(st, t, e.index, e.now);
      if t.InPieces() {
        PiecesWithoutEnd(tries, data, e);
        NotLastIsKept(st.buffer, Pieces(t), e.index, e.now);
        var next := Happens(tries, st, e).buffer;
        forall key | key in next ensures NeverEnds(next[key]) {
          if key != t.Key() {
            SameRest(next, st.buffer, t.Key(), key);
          }
        }
      }
    }
  }

  lemma SameRest(x: Buffer, y: Buffer, key: uint32, other: uint32)
    requires x - {key} == y - {key} && other != key
    ensures other in x <==> other in y
    ensures other in x ==> x[other] == y[other]
  {
    assert other in x <==> other in x - {key};
    assert other in y <==> other in y - {key};
    if other in x {
      assert (x - {key})[other] == (y - {key})[other];
    }
  }

  // --- a complete attempt in pieces -----------------------------------------------------

  function MineAt(e: Incident, last: nat): seq<Event> {
    match e
    case Got(j, index, now) => if j == last && index < MAX_FRAGMENTS then [Arrival(last, index, now)] else []
    case Swept(now) => [Cleanup(now)]
  }

  /** Of what happens, the last attempt's fragments and the clean-ups. */
  function Mine(es: seq<Incident>, last: nat): seq<Event> {
    if es == [] then []
    else
      Mine(es[..|es| - 1], last) + MineAt(es[|es| - 1], last)
  }

  function LastAlone(tries: seq<Try>): (world: World)
    requires ValidTries(tries) && EndsInPieces(tries)
    ensures ValidWorld(world) && OwnKeys(world)
  {
    map[|tries| - 1 := Pieces(tries[|tries| - 1])]
  }

  predicate NoWholes(events: seq<Event>) {
    forall k | 0 <= k < |events| :: !events[k].Whole?
  }

  lemma {:induction false} MineIsPossible(tries: seq<Try>, es: seq<Incident>)
    requires ValidTries(tries) && EndsInPieces(tries) && Arrivable(tries, es)
    ensures PossibleRun(LastAlone(tries), Mine(es, |tries| - 1))
    ensures NoWholes(Mine(es, |tries| - 1))
  {
    hide Emits, TakesFragmentBranch, LastAlone, Possible, EndsInPieces, WasSent, MineAt;
    if es != [] {
      var before, e := es[..|es| - 1], es[|es| - 1];
      assert es == before + [e];
      ArrivableBefore(tries, before, e);
      MineIsPossible(tries, before);
      LastIsInPieces(tries);
      MineGrows(before, e, |tries| - 1);
      MineAtIsPossible(tries, e);
    }
  }

  lemma MineAtIsPossible(tries: seq<Try>, e: Incident)
    requires ValidTries(tries) && EndsInPieces(tries) && WasSent(tries, e)
    ensures PossibleRun(LastAlone(tries), MineAt(e, |tries| - 1)) && NoWholes(MineAt(e, |tries| - 1))
  {
    hide Emits, TakesFragmentBranch, WireId;
  }

  lemma {:induction false} MineWasGot(es: seq<Incident>, last: nat, index: nat)
    requires HasArrived(Mine(es, last), last, index)
    ensures HasGot(es, last, index)
  {
    var mine := Mine(es, last);
    if es != [] {
      var before, e := es[..|es| - 1], es[|es| - 1];
      assert es == before + [e];
      HadGot(before, e, last, index);
      var k :| 0 <= k < |mine| && mine[k].Arrival? && mine[k].packet == last && mine[k].index == index;
      if k < |Mine(before, last)| {
        assert Mine(before, last)[k] == mine[k];
        MineWasGot(before, last, index);
      }
    }
  }

  lemma {:induction false} MineArrivesOnce(es: seq<Incident>, last: nat)
    requires NoDuplicates(es)
    ensures ArrivesOnce(Mine(es, last))
    ensures forall k | 0 <= k < |Mine(es, last)| && Mine(es, last)[k].Arrival? :: Mine(es, last)[k].packet == last
  {
    if es != [] {
      hide NoDuplicates;
      var before, e := es[..|es| - 1], es[|es| - 1];
      assert es == before + [e];
      FirstTime(before, e);
      MineArrivesOnce(before, last);
      var earlier, mine := Mine(before, last), Mine(es, last);
      forall j, k | 0 <= j < k < |mine| && mine[j].Arrival? && mine[k].Arrival?
        ensures mine[j].packet != mine[k].packet || mine[j].index != mine[k].index
      {
        assert mine[j] == earlier[j];
        if k == |earlier| && mine[j].index == e.index {
          assert HasArrived(earlier, last, e.index);
          MineWasGot(before, last, e.index);
        }
      }
    }
  }

  /** The receiver of all attempts and one of the last attempt alone. */
  predicate Alike(st: State, alone: State, key: uint32) {
    && st.delivered == alone.delivered
    && (key in st.buffer <==> key in alone.buffer)
    && (key in st.buffer ==> st.buffer[key] == alone.buffer[key])
    && forall k | k in st.buffer && k != key :: NeverEnds(st.buffer[k])
  }

  lemma PieceAlike(st: State, alone: State, sent: Sent, index: Index, now: int)
    requires index < |sent.bodies| && Alike(st, alone, sent.key)
    ensures Alike(Then(st, ReceivePiece(st.buffer, sent, index, now)),
              Then(alone, ReceivePiece(alone.buffer, sent, index, now)), sent.key)
  {
    hide Join, Store, NeverEnds;
  }

  lemma SweepAlike(st: State, alone: State, key: uint32, now: int)
    requires Alike(st, alone, key)
    ensures Alike(State(Sweep(st.buffer, now), st.delivered), State(Sweep(alone.buffer, now), alone.delivered), key)
  {
  }

  lemma OtherAlike(st: State, alone: State, key: uint32, sent: Sent, index: Index, now: int)
    requires Alike(st, alone, key) && sent.key != key && index < |sent.bodies| - 1
    ensures Alike(Then(st, ReceivePiece(st.buffer, sent, index, now)), alone, key)
  {
    hide ReceivePiece, NeverEnds;
    NotLastIsKept(st.buffer, sent, index, now);
    var next := ReceivePiece(st.buffer, sent, index, now).buffer;
    forall k: uint32 | k != sent.key
      ensures (k in next <==> k in st.buffer) && (k in next ==> next[k] == st.buffer[k])
    {
      SameRest(next, st.buffer, sent.key, k);
    }
  }

  lemma {:induction false} OthersDoNotMatter(tries: seq<Try>, data: seq<Byte>, es: seq<Incident>)
    requires OnePacketsTries(tries, data) && MarkerNotSent(tries) && EndsInPieces(tries) && LastIdOwn(tries)
    requires Arrivable(tries, es)
    ensures PossibleRun(LastAlone(tries), Mine(es, |tries| - 1))
    ensures Alike(After(tries, es), Run(LastAlone(tries), Mine(es, |tries| - 1)), tries[|tries| - 1].Key())
  {
    hide Arrivable, MarkerNotSent, WasSent, Happens, EndsInPieces, Try.InPieces, LastIdOwn, Alike, Step, PossibleRun,
      Emits, WireId;
    MineIsPossible(tries, es);
    LastIsInPieces(tries);
    if es == [] {
      AlikeAtFirst(tries[|tries| - 1].Key());
    } else {
      var before, e := es[..|es| - 1], es[|es| - 1];
      assert es == before + [e];
      ArrivableBefore(tries, before, e);
      OthersDoNotMatter(tries, data, before);
      AfterOneMore(tries, before, e);
      MineGrows(before, e, |tries| - 1);
      StepAlike(tries, data, After(tries, before), Mine(before, |tries| - 1), e);
    }
  }

  lemma AlikeAtFirst(key: uint32)
    ensures Alike(State(map[], []), State(map[], []), key)
  {
  }

  lemma MineGrows(before: seq<Incident>, e: Incident, last: nat)
    ensures Mine(before + [e], last) == Mine(before, last) + MineAt(e, last)
  {
    assert (before + [e])[..|before + [e]| - 1] == before;
  }

  lemma StepAlike(tries: seq<Try>, data: seq<Byte>, st: State, mine: seq<Event>, e: Incident)
    requires OnePacketsTries(tries, data) && MarkerNotSent(tries) && EndsInPieces(tries) && LastIdOwn(tries)
    requires WasSent(tries, e) && PossibleRun(LastAlone(tries), mine)
    requires PossibleRun(LastAlone(tries), mine + MineAt(e, |tries| - 1))
    requires Alike(st, Run(LastAlone(tries), mine), tries[|tries| - 1].Key())
    ensures Alike(Happens(tries, st, e), Run(LastAlone(tries), mine + MineAt(e, |tries| - 1)), tries[|tries| - 1].Key())
  {
    hide Alike, Run, PossibleRun, Incoming, LastAlone, LastIdOwn, EndsInPieces, Emits, WireId;
    LastIsInPieces(tries);
    if e.Swept? {
      RunExtends(LastAlone(tries), mine, Cleanup(e.now));
      SweepAlike(st, Run(LastAlone(tries), mine), tries[|tries| - 1].Key(), e.now);
    } else if e.attempt == |tries| - 1 {
      LastStepAlike(tries, st, mine, e);
    } else {
      assert mine + [] == mine;
      EarlierStepAlike(tries, data, st, Run(LastAlone(tries), mine), e);
    }
  }

  lemma LastStepAlike(tries: seq<Try>, st: State, mine: seq<Event>, e: Incident)
    requires ValidTries(tries) && MarkerNotSent(tries) && EndsInPieces(tries)
    requires e.Got? && e.attempt == |tries| - 1 && WasSent(tries, e) && PossibleRun(LastAlone(tries), mine)
    requires PossibleRun(LastAlone(tries), mine + [Arrival(e.attempt, e.index, e.now)])
    requires Alike(st, Run(LastAlone(tries), mine), tries[e.attempt].Key())
    ensures Alike(Happens(tries, st, e), Run(LastAlone(tries), mine + [Arrival(e.attempt, e.index, e.now)]),
              tries[e.attempt].Key())
  {
    hide Incoming, ReceivePiece, EndsInPieces, Alike, Run, PossibleRun, Emits, WireId;
    var t := tries[e.attempt];
    LastIsInPieces(tries);
    DatagramActs(st, t, e.index, e.now);
    RunExtends(LastAlone(tries), mine, Arrival(e.attempt, e.index, e.now));
    PieceAlike(st, Run(LastAlone(tries), mine), Pieces(t), e.index, e.now);
  }

  lemma EarlierStepAlike(tries: seq<Try>, data: seq<Byte>, st: State, alone: State, e: Incident)
    requires OnePacketsTries(tries, data) && MarkerNotSent(tries) && EndsInPieces(tries) && LastIdOwn(tries)
    requires e.Got? && e.attempt != |tries| - 1 && WasSent(tries, e) && Alike(st, alone, tries[|tries| - 1].Key())
    ensures Alike(Happens(tries, st, e), alone, tries[|tries| - 1].Key())
  {
    hide Incoming, ReceivePiece, EndsInPieces, Alike, Emits, WireId;
    var t := tries[e.attempt];
    EarlierIsInPieces(tries, data, e);
    DatagramActs(st, t, e.index, e.now);
    PiecesWithoutEnd(tries, data, e);
    assert !Intrudes(tries, e.attempt);
    OtherAlike(st, alone, tries[|tries| - 1].Key(), Pieces(t), e.index, e.now);
  }

  lemma LastIsInPieces(tries: seq<Try>)
    requires ValidTries(tries) && EndsInPieces(tries)
    ensures tries != [] && tries[|tries| - 1] in tries && tries[|tries| - 1].InPieces()
  {
  }

  lemma EarlierIsInPieces(tries: seq<Try>, data: seq<Byte>, e: Incident)
    requires OnePacketsTries(tries, data) && WasSent(tries, e) && e.Got? && e.attempt != |tries| - 1
    ensures tries[e.attempt].InPieces()
  {
    if !tries[e.attempt].InPieces() {
      WholeAttempt(tries[e.attempt]);
    }
  }

  lemma {:induction false} CountAll(ds: seq<Delivery>, d: Delivery)
    requires forall k | 0 <= k < |ds| :: ds[k] == d
    ensures multiset(ds)[d] == |ds|
  {
    if ds != [] {
      assert ds == [ds[0]] + ds[1..];
      CountAll(ds[1..], d);
    }
  }

  lemma AloneOnce(tries: seq<Try>, data: seq<Byte>, es: seq<Incident>)
    requires OnePacketsTries(tries, data) && EndsInPieces(tries) && Arrivable(tries, es) && NoDuplicates(es)
    ensures PossibleRun(LastAlone(tries), Mine(es, |tries| - 1))
    ensures OnceOrNever(Run(LastAlone(tries), Mine(es, |tries| - 1)).delivered, data)
  {
    hide EndsInPieces, Mine, Run, PossibleRun, Arrivable, NoDuplicates, Emits, WireId;
    hide LastAlone;
    AloneCarries(tries, data);
    MineIsPossible(tries, es);
    MineArrivesOnce(es, |tries| - 1);
    SinglePacketOnce(LastAlone(tries), Mine(es, |tries| - 1), |tries| - 1);
  }

  lemma AloneCarries(tries: seq<Try>, data: seq<Byte>)
    requires OnePacketsTries(tries, data) && EndsInPieces(tries)
    ensures tries != [] && LastAlone(tries).Keys == {|tries| - 1} && LastAlone(tries)[|tries| - 1].Data() == data
  {
    hide Emits, WireId;
    assert tries[|tries| - 1] in tries;
  }

  /** A run of one packet's fragments, each at most once, yields it at most once. */
  lemma SinglePacketOnce(world: World, events: seq<Event>, p: PacketId)
    requires ValidWorld(world) && world.Keys == {p} && PossibleRun(world, events)
    requires ArrivesOnce(events) && NoWholes(events)
    ensures OnceOrNever(Run(world, events).delivered, world[p].Data())
  {
    hide Run, Deliveries, FirstIndices, HasArrived, Sent.Data;
    OwnKeysNeverMix(world, events);
    RunsDeliverOnlyWhatWasSent(world, events);
    var ds := Deliveries(world, events);
    forall k | 0 <= k < |ds| ensures ds[k] == Packet(p) {
      assert ds[k] in ds;
      assert ds[k].Unfragmented? ==> SentWhole(events, ds[k].data);
    }
    CountAll(ds, Packet(p));
  }

  // --- the theorems ---------------------------------------------------------------------

  /** Whatever part of all the attempts' datagrams arrives, in whatever order and with clean-ups
      anywhere, the receiver passes up the packet once or not at all, and nothing else. Attempts
      that were given up need not have fitted the format, and may share wire ids. */
  lemma ResendDeliversAtMostOnce(data: seq<Byte>, log: seq<Attempt>, es: seq<Incident>)
    requires |data| > 0 && ValidLog(data, log)
    requires MarkerNotSent(Attempts(data, log)) && LastIdOwn(Attempts(data, log))
    requires Arrivable(Attempts(data, log), es) && NoDuplicates(es)
    ensures OnceOrNever(After(Attempts(data, log), es).delivered, data)
  {
    hide Attempts, After, MarkerNotSent, LastIdOwn, Arrivable, NoDuplicates, EndsInPieces, ValidLog, Run, Mine,
      OnePacketsTries;
    var tries := Attempts(data, log);
    AttemptsAreOnePackets(data, log);
    if EndsInPieces(tries) {
      AloneOnce(tries, data, es);
      OthersDoNotMatter(tries, data, es);
    } else {
      OnlyWholesComeOut(tries, data, es);
    }
  }

  /** Fragment 128 alone makes the receiver pass up something that is not the packet. */
  lemma MarkerMisread(tries: seq<Try>, j: nat)
    requires ValidTries(tries) && j < |tries| && tries[j] in tries && tries[j].attempt.sent > MAX_FRAGMENTS
    ensures Arrivable(tries, [Got(j, MAX_FRAGMENTS, 0)]) && NoDuplicates([Got(j, MAX_FRAGMENTS, 0)])
    ensures !OnceOrNever(After(tries, [Got(j, MAX_FRAGMENTS, 0)]).delivered, tries[j].data)
  {
    hide Emits, Incoming, After, OnceOrNever;
    OneArrival(tries, j, MAX_FRAGMENTS);
    MarkerDatagram(tries[j]);
    MarkerPassedUp(tries[j]);
    NotThePacket(tries[j].Datagrams()[MAX_FRAGMENTS][1..], tries[j].data);
  }

  lemma OneArrival(tries: seq<Try>, j: nat, index: nat)
    requires ValidTries(tries) && j < |tries| && tries[j] in tries && index < tries[j].attempt.sent
    ensures
      var es := [Got(j, index, 0)];
      Arrivable(tries, es) && NoDuplicates(es) && After(tries, es) == Incoming(State(map[], []), tries[j], index, 0)
  {
    hide Emits, Incoming;
    var e := Got(j, index, 0);
    assert [] + [e] == [e];
    AfterOneMore(tries, [], e);
  }

  lemma NotThePacket(m: seq<Byte>, data: seq<Byte>)
    requires |m| != |data|
    ensures !OnceOrNever([m], data)
  {
    assert [m][0] != [data][0];
  }

  lemma MarkerPassedUp(t: Try)
    requires t.Valid() && t.attempt.sent > MAX_FRAGMENTS
    ensures
      var m := t.Datagrams()[MAX_FRAGMENTS];
      |m| >= 2 && Incoming(State(map[], []), t, MAX_FRAGMENTS, 0).delivered == [m[1..]]
  {
    hide Emits, ReceiveFragment;
    MarkerDatagram(t);
  }

  lemma MarkerDatagram(t: Try)
    requires t.Valid() && t.attempt.sent > MAX_FRAGMENTS
    ensures
      var m := t.Datagrams()[MAX_FRAGMENTS];
      |m| >= 2 && m[0] == WHOLE && |m[1..]| < |t.data|
  {
    if !t.InPieces() {
      WholeAttempt(t);
    }
    hide FragmentCount, IdBytes;
    var chunk := t.attempt.limit - HEADER_LENGTH;
    FragmentInside(|t.data|, chunk, MAX_FRAGMENTS);
    assert t.Datagrams()[MAX_FRAGMENTS] == Framed(Cut(t.data, chunk), t.attempt.id, MAX_FRAGMENTS);
  }

  // --- an intruder ----------------------------------------------------------------------

  /** Fragment 0 of attempt i, then all the others of the last attempt. */
  function Intrusion(i: nat, last: nat, k: nat): (es: seq<Incident>)
    ensures |es| == k && forall x | 0 <= x < k :: es[x] == if x == 0 then Got(i, 0, 0) else Got(last, x, 0)
  {
    seq(k, x requires 0 <= x < k => if x == 0 then Got(i, 0, 0) else Got(last, x, 0))
  }

  lemma {:induction false} LengthWithOtherFirst(bodies: seq<seq<Byte>>, b: seq<Byte>, k: nat)
    requires 1 <= k <= |bodies|
    ensures |Concat(bodies[0 := b], k)| == |Concat(bodies, k)| - |bodies[0]| + |b|
  {
    if k > 1 {
      LengthWithOtherFirst(bodies, b, k - 1);
    } else {
      assert Concat(bodies, 0) == [] && Concat(bodies[0 := b], 0) == [];
    }
  }

  /** The pieces of the last attempt with the intruder's first. */
  function MixedPieces(tries: seq<Try>, i: nat): (sent: Sent)
    requires ValidTries(tries) && EndsInPieces(tries) && i < |tries| && tries[i].Valid() && tries[i].InPieces()
    ensures sent.Valid() && |sent.bodies| == |Pieces(tries[|tries| - 1]).bodies|
  {
    var mine, other := Pieces(tries[|tries| - 1]), Pieces(tries[i]);
    Sent(mine.key, mine.bodies[0 := other.bodies[0]])
  }

  /** Bodies get shorter as limits fall, so the mixture has another length than the packet. */
  lemma MixtureIsLonger(tries: seq<Try>, i: nat, data: seq<Byte>)
    requires OnePacketsTries(tries, data) && EndsInPieces(tries) && i < |tries| - 1 && tries[i].InPieces()
    requires tries[i].attempt.limit > tries[|tries| - 1].attempt.limit
    ensures |MixedPieces(tries, i).Data()| > |data|
  {
    hide Emits;
    var last, t := tries[|tries| - 1], tries[i];
    assert last in tries && t in tries;
    var mine, other := Pieces(last).bodies, Pieces(t).bodies;
    assert other[0] == Body(data, t.attempt.limit - HEADER_LENGTH, 0);
    assert mine[0] == Body(data, last.attempt.limit - HEADER_LENGTH, 0);
    LengthWithOtherFirst(mine, other[0], |mine|);
  }

  lemma IntrusionArrives(tries: seq<Try>, i: nat, k: nat)
    requires ValidTries(tries) && EndsInPieces(tries) && i < |tries| - 1 && Intrudes(tries, i) && tries[i] in tries
    requires k <= |Pieces(tries[|tries| - 1]).bodies|
    ensures Arrivable(tries, Intrusion(i, |tries| - 1, k)) && NoDuplicates(Intrusion(i, |tries| - 1, k))
  {
    hide Emits;
  }

  lemma {:induction false} IntrusionIsRun(tries: seq<Try>, data: seq<Byte>, i: nat, k: nat)
    requires OnePacketsTries(tries, data) && MarkerNotSent(tries) && EndsInPieces(tries)
    requires i < |tries| - 1 && Intrudes(tries, i) && k <= |Pieces(tries[|tries| - 1]).bodies| <= MAX_FRAGMENTS
    ensures Arrivable(tries, Intrusion(i, |tries| - 1, k))
    ensures
      var world := map[THE_PACKET := MixedPieces(tries, i)];
      && PossibleRun(world, InOrder(k, 0))
      && After(tries, Intrusion(i, |tries| - 1, k)) == Run(world, InOrder(k, 0))
  {
    hide Emits, WireId, Happens, ReceivePiece, After, Run, WasSent, PossibleRun, MarkerNotSent, EndsInPieces, Pieces,
      Intrudes, MixedPieces, Arrivable;
    IntrudersAreThere(tries, data, i);
    IntrusionArrives(tries, i, k);
    var world := map[THE_PACKET := MixedPieces(tries, i)];
    InOrderIsPossible(world, k);
    if k == 0 {
      assert Intrusion(i, |tries| - 1, 0) == [] && InOrder(0, 0) == [];
      FirstStates(tries, world);
    } else {
      var before, e := Intrusion(i, |tries| - 1, k - 1), if k == 1 then Got(i, 0, 0) else Got(|tries| - 1, k - 1, 0);
      assert Intrusion(i, |tries| - 1, k) == before + [e];
      assert InOrder(k, 0) == InOrder(k - 1, 0) + [Arrival(THE_PACKET, k - 1, 0)];
      IntrusionIsRun(tries, data, i, k - 1);
      AfterOneMore(tries, before, e);
      RunExtends(world, InOrder(k - 1, 0), Arrival(THE_PACKET, k - 1, 0));
      IntruderActs(tries, data, i, k, After(tries, before));
    }
  }

  lemma IntrudersAreThere(tries: seq<Try>, data: seq<Byte>, i: nat)
    requires OnePacketsTries(tries, data) && EndsInPieces(tries) && i < |tries| - 1 && Intrudes(tries, i)
    ensures tries[i] in tries && tries[i].Valid() && tries[i].InPieces()
  {
  }

  lemma InOrderIsPossible(world: World, k: nat)
    requires THE_PACKET in world && k <= |world[THE_PACKET].bodies| && k <= MAX_FRAGMENTS
    ensures PossibleRun(world, InOrder(k, 0))
  {
  }

  lemma FirstStates(tries: seq<Try>, world: World)
    requires ValidTries(tries)
    ensures Arrivable(tries, []) && PossibleRun(world, []) && After(tries, []) == Run(world, []) == State(map[], [])
  {
  }

  lemma IntruderActs(tries: seq<Try>, data: seq<Byte>, i: nat, k: nat, st: State)
    requires OnePacketsTries(tries, data) && MarkerNotSent(tries) && EndsInPieces(tries)
    requires i < |tries| - 1 && Intrudes(tries, i) && 1 <= k <= |Pieces(tries[|tries| - 1]).bodies| <= MAX_FRAGMENTS
    ensures
      var e := if k == 1 then Got(i, 0, 0) else Got(|tries| - 1, k - 1, 0);
      WasSent(tries, e) && Happens(tries, st, e) == Then(st, ReceivePiece(st.buffer, MixedPieces(tries, i), k - 1, 0))
  {
    hide Emits, WireId, Incoming, ReceivePiece, TakesFragmentBranch;
    var last, t := tries[|tries| - 1], tries[i];
    assert last in tries && t in tries;
    if k == 1 {
      DatagramActs(st, t, 0, 0);
      SamePiece(st.buffer, Pieces(t), MixedPieces(tries, i), 0);
    } else {
      DatagramActs(st, last, k - 1, 0);
      SamePiece(st.buffer, Pieces(last), MixedPieces(tries, i), k - 1);
    }
  }

  lemma SamePiece(buffer: Buffer, x: Sent, y: Sent, index: Index)
    requires index < |x.bodies| && index < |y.bodies| && x.key == y.key && x.bodies[index] == y.bodies[index]
    requires index == |x.bodies| - 1 <==> index == |y.bodies| - 1
    ensures ReceivePiece(buffer, x, index, 0) == ReceivePiece(buffer, y, index, 0)
  {
  }

  /** If an earlier attempt has sent a fragment under a complete last attempt's wire id, then its
      first fragment together with all but the first of the last attempt come out as one packet
      that was not sent. */
  lemma IntruderMixes(data: seq<Byte>, log: seq<Attempt>, i: nat) returns (es: seq<Incident>)
    requires |data| > 0 && ValidLog(data, log)
    requires MarkerNotSent(Attempts(data, log)) && EndsInPieces(Attempts(data, log))
    requires i < |log| - 1 && Intrudes(Attempts(data, log), i)
    ensures Arrivable(Attempts(data, log), es) && NoDuplicates(es)
    ensures !OnceOrNever(After(Attempts(data, log), es).delivered, data)
  {
    hide Attempts, After, Run, MarkerNotSent, EndsInPieces, Intrudes, Arrivable, OnePacketsTries, FirstIndices,
      Emits, WireId;
    var tries, m := Attempts(data, log), 0;
    AttemptsAreOnePackets(data, log);
    LastIsInPieces(tries);
    IntrudersAreThere(tries, data, i);
    LastHasFewPieces(tries, data);
    m := |Pieces(tries[|tries| - 1]).bodies|;
    es := Intrusion(i, |tries| - 1, m);
    var sent := MixedPieces(tries, i);
    IntrusionArrives(tries, i, m);
    IntrusionIsRun(tries, data, i, m);
    InOrderComesOut(sent, m);
    MixtureIsLonger(tries, i, data);
  }

  lemma LastHasFewPieces(tries: seq<Try>, data: seq<Byte>)
    requires OnePacketsTries(tries, data) && MarkerNotSent(tries) && EndsInPieces(tries)
    ensures tries[|tries| - 1].Valid() && tries[|tries| - 1].InPieces()
    ensures |Pieces(tries[|tries| - 1]).bodies| <= MAX_FRAGMENTS
  {
    assert tries[|tries| - 1] in tries;
  }

  lemma InOrderComesOut(sent: Sent, m: nat)
    requires sent.Valid() && m == |sent.bodies| <= MAX_FRAGMENTS
    ensures PossibleRun(map[THE_PACKET := sent], InOrder(m, 0))
    ensures Run(map[THE_PACKET := sent], InOrder(m, 0)) == State(map[], [sent.Data()])
  {
    hide Run;
    var world, es := map[THE_PACKET := sent], InOrder(m, 0);
    var before, e := es[..m - 1], es[m - 1];
    assert es == before + [e];
    forall i | i in sent.All() ensures HasArrived(before + [e], THE_PACKET, i) {
      assert es[i].index == i;
    }
    assert forall k | 0 <= k < m - 1 :: before[k] == es[k];
    AnyOrderEnds(world, before, e, THE_PACKET);
  }

  const SEVEN_BYTES: seq<Byte> := [1, 2, 3, 4, 5, 6, 7]

  /** The counter wraps between two attempts at a packet of seven bytes. */
  const WRAPPING_LOG: seq<Attempt> := [Attempt(7, 0xFFFF_FFFF, 1), Attempt(6, 0, 7)]

  lemma WrapIntrudes()
    ensures ValidLog(SEVEN_BYTES, WRAPPING_LOG)
    ensures
      var tries := Attempts(SEVEN_BYTES, WRAPPING_LOG);
      MarkerNotSent(tries) && EndsInPieces(tries) && Intrudes(tries, 0)
  {
    hide IdBytes, Cut, AllFramed;
    EmitsFragments(SEVEN_BYTES, 7, 0xFFFF_FFFF);
    EmitsFragments(SEVEN_BYTES, 6, 0);
    WrapSharesId();
    assert forall a | a in WRAPPING_LOG :: a == WRAPPING_LOG[0] || a == WRAPPING_LOG[1];
  }

  /** So, for everything that can arrive, the packet comes out at most once and nothing else
      does, exactly if no attempt got as far as its fragment 128 and, where the last attempt sent
      all its fragments, no earlier one had sent any under its wire id. */
  lemma ResendDeliversAtMostOnceExactly(data: seq<Byte>, log: seq<Attempt>)
    requires |data| > 0 && ValidLog(data, log)
    ensures
      var tries := Attempts(data, log);
      (forall es: seq<Incident> | Arrivable(tries, es) && NoDuplicates(es) ::
        OnceOrNever(After(tries, es).delivered, data))
      <==> MarkerNotSent(tries) && LastIdOwn(tries)
  {
    hide Attempts, After, Arrivable, NoDuplicates, OnceOrNever, EndsInPieces, Intrudes, ValidLog;
    var tries := Attempts(data, log);
    if MarkerNotSent(tries) && LastIdOwn(tries) {
      forall es: seq<Incident> | Arrivable(tries, es) && NoDuplicates(es)
        ensures OnceOrNever(After(tries, es).delivered, data)
      {
        ResendDeliversAtMostOnce(data, log, es);
      }
    } else if !MarkerNotSent(tries) {
      var t :| t in tries && t.attempt.sent > MAX_FRAGMENTS;
      var j :| 0 <= j < |tries| && tries[j] == t;
      MarkerMisread(tries, j);
    } else {
      var i :| 0 <= i < |tries| - 1 && Intrudes(tries, i);
      var es := IntruderMixes(data, log, i);
    }
  }

  /** Up to 255 attempts have different wire ids, unless the 32-bit counter wraps to 0 between
      two of them. */
  lemma FewAttemptsApart(data: seq<Byte>, log: seq<Attempt>)
    requires |data| > 0 && ValidLog(data, log) && |log| <= 0xFF
    requires forall j | 0 < j < |log| && TakesFragmentBranch(|data|, log[j - 1].limit) :: log[j].id != 0
    ensures LastIdOwn(Attempts(data, log))
  {
    hide WireId, Emits;
    var tries := Attempts(data, log);
    forall i | 0 <= i < |tries| - 1 && tries[i].InPieces() ensures !Intrudes(tries, i) {
      var last := |log| - 1;
      NearbyCountersShareOnlyAtWrap(log[i].id, last - i);
      if log[i].id == 0xFFFF_FFFF {
        assert log[i + 1].id == (log[i].id + 1) % 0x1_0000_0000;
      }
    }
  }

  lemma FewAttemptsDeliverAtMostOnce(data: seq<Byte>, log: seq<Attempt>, es: seq<Incident>)
    requires |data| > 0 && ValidLog(data, log) && MarkerNotSent(Attempts(data, log)) && |log| <= 0xFF
    requires forall j | 0 < j < |log| && TakesFragmentBranch(|data|, log[j - 1].limit) :: log[j].id != 0
    requires Arrivable(Attempts(data, log), es) && NoDuplicates(es)
    ensures OnceOrNever(After(Attempts(data, log), es).delivered, data)
  {
    hide LastIdOwn, FallingLimits, OnceOrNever, After, Arrivable, NoDuplicates;
    FewAttemptsApart(data, log);
    ResendDeliversAtMostOnce(data, log, es);
  }
}
