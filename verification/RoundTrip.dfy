/** Sender and receiver together: what comes out at the far end for every packet, limit and
    order of arrival, and across the attempts of a packet that had to be sent again. */
module RoundTrip {
  import opened MachineInts
  import opened Fragmentation
  import opened FragmentSender
  import opened Reassembly
  import opened ReassemblyRuns

  lemma InitAndLast(es: seq<Event>)
    requires es != []
    ensures es == es[..|es| - 1] + [es[|es| - 1]]
  {
  }

  /** A run about a single packet. */
  const THE_PACKET: PacketId := 0

  function OnePacket(bodies: seq<seq<Byte>>, id: uint32): (world: World)
    requires Sent(WireId(id), bodies).Valid()
    ensures ValidWorld(world) && world.Keys == {THE_PACKET} && Counters(world, map[THE_PACKET := id])
  {
    map[THE_PACKET := Sent(WireId(id), bodies)]
  }

  /** Only fragments of packet `p`, and no clean-up. */
  predicate OnlyFragmentsOf(es: seq<Event>, p: PacketId) {
    forall k | 0 <= k < |es| :: es[k].Arrival? && es[k].packet == p
  }

  lemma {:induction false} ArrivedIsLive(es: seq<Event>, p: PacketId, index: nat)
    requires OnlyFragmentsOf(es, p) && HasArrived(es, p, index)
    ensures index < 0x80 && index in Live(es, p)
  {
    var before, e := es[..|es| - 1], es[|es| - 1];
    assert es == before + [e];
    ThisPacketGrows(before, e);
    if e.index != index {
      var k :| 0 <= k < |es| && es[k].Arrival? && es[k].packet == p && es[k].index == index;
      assert before[k] == es[k];
      ArrivedIsLive(before, p, index);
    }
  }

  /** As long as one fragment is missing, nothing is due. */
  lemma {:induction false} NothingDueWhileMissing(world: World, es: seq<Event>, p: PacketId, missing: nat)
    requires PossibleRun(world, es) && OnlyFragmentsOf(es, p)
    requires p in world && missing in world[p].All() && !HasArrived(es, p, missing)
    ensures NoLateRepeats(world, es) && Deliveries(world, es) == []
  {
    forall k | 0 <= k < |es| && es[k].Arrival? ensures NotLate(world, es[..k], es[k]) {
      MissingNotLive(es, k, p, missing);
    }
    if es != [] {
      var before := es[..|es| - 1];
      assert !HasArrived(before, p, missing);
      NothingDueWhileMissing(world, before, p, missing);
      MissingNotLive(es, |es| - 1, p, missing);
      assert es[|es| - 1].index != missing;
    }
  }

  lemma MissingNotLive(es: seq<Event>, k: nat, p: PacketId, missing: nat)
    requires k <= |es| && !HasArrived(es, p, missing)
    ensures missing !in Live(es[..k], p)
  {
    if missing in Live(es[..k], p) {
      LiveHasArrived(es[..k], p, missing);
    }
  }

  lemma PrefixFacts(world: World, before: seq<Event>, e: Event, p: PacketId)
    requires PossibleRun(world, before + [e]) && OnlyFragmentsOf(before + [e], p)
    ensures PossibleRun(world, before) && Possible(world, e) && OnlyFragmentsOf(before, p)
    ensures e.Arrival? && e.packet == p
  {
    assert (before + [e])[|before|] == e;
    assert forall k | 0 <= k < |before| :: before[k] == (before + [e])[k];
  }

  lemma AllLive(world: World, es: seq<Event>, p: PacketId)
    requires p in world && PossibleRun(world, es) && OnlyFragmentsOf(es, p) && Follows(world, es)
    requires forall i | i in world[p].All() :: HasArrived(es, p, i)
    ensures Live(es, p) == world[p].All()
  {
    hide Live, LastSeen, FirstIndices, HasArrived, Partial;
    assert TracksPacket(world, es, Run(world, es).buffer, p);
    forall i | i in world[p].All() ensures i in Live(es, p) {
      ArrivedIsLive(es, p, i);
    }
  }

  /** The last missing fragment completes the packet. */
  lemma LastMissingIsDue(world: World, before: seq<Event>, e: Event, p: PacketId)
    requires ValidWorld(world) && world.Keys == {p} && e.Arrival?
    requires PossibleRun(world, before + [e]) && OnlyFragmentsOf(before + [e], p)
    requires forall i | i in world[p].All() :: HasArrived(before + [e], p, i)
    requires !HasArrived(before, p, e.index)
    ensures Follows(world, before + [e])
    ensures Deliveries(world, before + [e]) == [Packet(p)]
    ensures Live(before + [e], p) == world[p].All()
  {
    hide Live, LastSeen, FirstIndices, HasArrived, Follows, NoLateRepeats;
    PrefixFacts(world, before, e, p);
    NothingDueWhileMissing(world, before, p, e.index);
    OwnKeysNeverMix(world, before);
    ReceiverFollowsJudgement(world, before);
    assert before[..|before|] == before;
    MissingNotLive(before, |before|, p, e.index);
    StepFollows(world, before, e);
    AllLive(world, before + [e], p);
    ThisPacketGrows(before, e);
    RunExtends(world, before, e);
  }

  lemma NothingKept(world: World, es: seq<Event>, p: PacketId)
    requires world.Keys == {p} && PossibleRun(world, es)
    requires Follows(world, es) && Live(es, p) == world[p].All()
    ensures Run(world, es).buffer == map[]
  {
    hide Live, LastSeen, Partial;
    var buffer := Run(world, es).buffer;
    assert !IncompleteAfter(world, es, p);
    assert forall key | key in buffer :: Expected(world, es, key);
  }

  /** A packet in pieces whose datagrams arrive in any order, with any repeats before the last
      missing one, is passed up exactly once, and nothing of it is kept. */
  lemma AnyOrderDelivers(bodies: seq<seq<Byte>>, id: uint32, es: seq<Event>)
    requires Sent(WireId(id), bodies).Valid()
    requires es != [] && OnlyFragmentsOf(es, THE_PACKET) && PossibleRun(OnePacket(bodies, id), es)
    requires forall i | 0 <= i < |bodies| :: HasArrived(es, THE_PACKET, i)
    requires !HasArrived(es[..|es| - 1], THE_PACKET, es[|es| - 1].index)
    ensures WireRun(OnePacket(bodies, id), map[THE_PACKET := id], es) == State(map[], [Concat(bodies, |bodies|)])
  {
    hide WireId, WireRun, Run, HasArrived;
    var world := OnePacket(bodies, id);
    var before, e := es[..|es| - 1], es[|es| - 1];
    InitAndLast(es);
    AnyOrderEnds(world, before, e, THE_PACKET);
    WireRunIsRun(world, map[THE_PACKET := id], es);
  }

  lemma AnyOrderEnds(world: World, before: seq<Event>, e: Event, p: PacketId)
    requires ValidWorld(world) && world.Keys == {p} && e.Arrival?
    requires PossibleRun(world, before + [e]) && OnlyFragmentsOf(before + [e], p)
    requires forall i | i in world[p].All() :: HasArrived(before + [e], p, i)
    requires !HasArrived(before, p, e.index)
    ensures Run(world, before + [e]) == State(map[], [world[p].Data()])
  {
    hide HasArrived, Partial, Concat, FirstIndices, Tracks;
    LastMissingIsDue(world, before, e, p);
    NothingKept(world, before + [e], p);
  }

  /** The same for a packet cut by the sender. */
  lemma AnyOrderDeliversPacket(data: seq<Byte>, limit: uint16, id: uint32, es: seq<Event>)
    requires FitsFragmented(|data|, limit)
    requires
      var bodies := Cut(data, limit - HEADER_LENGTH);
      && Sent(WireId(id), bodies).Valid()
      && es != [] && OnlyFragmentsOf(es, THE_PACKET) && PossibleRun(OnePacket(bodies, id), es)
      && (forall i | 0 <= i < |bodies| :: HasArrived(es, THE_PACKET, i))
      && !HasArrived(es[..|es| - 1], THE_PACKET, es[|es| - 1].index)
    ensures WireRun(OnePacket(Cut(data, limit - HEADER_LENGTH), id), map[THE_PACKET := id], es)
         == State(map[], [data])
  {
    CutInPieces(data, limit);
    AnyOrderDelivers(Cut(data, limit - HEADER_LENGTH), id, es);
  }

  // --- exactly which packets survive ----------------------------------------------------

  /** The datagrams of a packet sent over a network that accepts everything; None if the
      attempt ends in an error or a panic. */
  function WireOutput(data: seq<Byte>, limit: uint16, id: uint32): Option<seq<Message>>
    requires |data| > 0
  {
    if Completes(|data|, limit) then Some(Emits(data, limit, id)) else None
  }

  /** A fresh receiver fed with datagrams in the order they were sent. */
  function ReceiveAll(ms: seq<Message>, now: int): State {
    if ms == [] then State(map[], [])
    else
      var st := ReceiveAll(ms[..|ms| - 1], now);
      Then(st, Receive(st.buffer, ms[|ms| - 1], now))
  }

  lemma {:induction false} InOrderIsWireRun(bodies: seq<seq<Byte>>, id: uint32, now: int, k: nat)
    requires Sent(WireId(id), bodies).Valid() && k <= |bodies| <= MAX_FRAGMENTS
    ensures
      var world := OnePacket(bodies, id);
      var es := InOrder(k, now);
      && PossibleRun(world, es)
      && ReceiveAll(AllFramed(bodies, id)[..k], now) == WireRun(world, map[THE_PACKET := id], es)
  {
    hide WireId, Receive, Framed;
    if k > 0 {
      InOrderIsWireRun(bodies, id, now, k - 1);
      assert InOrder(k, now)[..k - 1] == InOrder(k - 1, now);
      var ms := AllFramed(bodies, id);
      assert ms[..k][..k - 1] == ms[..k - 1];
      assert ms[..k][k - 1] == Framed(bodies, id, k - 1);
    }
  }

  function InOrder(count: nat, now: int): (es: seq<Event>)
    requires count <= MAX_FRAGMENTS
    ensures |es| == count && forall k | 0 <= k < count :: es[k] == Arrival(THE_PACKET, k, now)
  {
    seq(count, k requires 0 <= k < count => Arrival(THE_PACKET, k, now))
  }

  lemma FragmentedArrives(data: seq<Byte>, limit: uint16, id: uint32, now: int)
    requires FitsFragmented(|data|, limit)
    ensures ReceiveAll(Emits(data, limit, id), now) == State(map[], [data])
  {
    CutInPieces(data, limit);
    InOrderArrives(Cut(data, limit - HEADER_LENGTH), id, now);
  }

  lemma InOrderArrives(bodies: seq<seq<Byte>>, id: uint32, now: int)
    requires Sent(WireId(id), bodies).Valid() && |bodies| <= MAX_FRAGMENTS
    ensures ReceiveAll(AllFramed(bodies, id), now) == State(map[], [Concat(bodies, |bodies|)])
  {
    hide WireId, WireRun, ReceiveAll, Framed;
    InOrderIsWireRun(bodies, id, now, |bodies|);
    var es := InOrder(|bodies|, now);
    assert AllFramed(bodies, id)[..|bodies|] == AllFramed(bodies, id);
    forall i | 0 <= i < |bodies| ensures HasArrived(es, THE_PACKET, i) {
      assert es[i].index == i;
    }
    assert forall k | 0 <= k < |bodies| - 1 :: es[..|bodies| - 1][k] == es[k];
    AnyOrderDelivers(bodies, id, es);
  }

  lemma WholeArrives(data: seq<Byte>, limit: uint16, id: uint32, now: int)
    requires |data| > 0 && FitsWhole(|data|, limit)
    ensures ReceiveAll(Emits(data, limit, id), now) == State(map[], [data])
  {
    var m := [WHOLE] + data;
    var ms: seq<Message> := [m];
    assert Emits(data, limit, id) == ms;
    assert m[1..] == data;
    assert ms[..0] == [];
    assert ReceiveAll([], now) == State(map[], []);
  }

  /** No body in the buffer is longer than this. */
  predicate AllShort(buffer: Buffer, longest: nat) {
    forall id | id in buffer :: GroupShort(buffer[id], longest)
  }

  predicate GroupShort(group: Group, longest: nat) {
    forall i | i in group.data :: |group.data[i]| <= longest
  }

  lemma {:induction false} JoinShort(data: map<Byte, seq<Byte>>, n: nat, longest: nat)
    requires n <= 0x100 && forall i | i in data :: |data[i]| <= longest
    ensures |Join(data, n)| <= n * longest
  {
    if n > 0 {
      JoinShort(data, n - 1, longest);
      assert n * longest == (n - 1) * longest + longest;
    }
  }

  lemma StoreShort(group: Group, index: Index, isLast: bool, body: seq<Byte>, now: int, longest: nat)
    requires GroupShort(group, longest) && |body| <= longest
    ensures
      var full := Store(group, index, isLast, body, now);
      && GroupShort(full, longest)
      && forall i | i in full.data :: |full.data[i]| <= longest
  {
  }

  lemma FragmentDeliversShort(buffer: Buffer, id: uint32, index: Index, isLast: bool, body: seq<Byte>, now: int,
      longest: nat)
    requires AllShort(buffer, longest) && |body| <= longest
    ensures
      var r := ReceiveFragment(buffer, id, index, isLast, body, now);
      && AllShort(r.buffer, longest)
      && (r.delivered.Some? ==> |r.delivered.value| <= MAX_FRAGMENTS * longest)
  {
    hide Join;
    var group := Store(GroupOf(buffer, id, now), index, isLast, body, now);
    StoreShort(GroupOf(buffer, id, now), index, isLast, body, now, longest);
    hide Store, GroupOf, GroupShort;
    if |group.data| == group.lastIndex + 1 {
      JoinShort(group.data, group.lastIndex + 1, longest);
      Monotone(group.lastIndex + 1, MAX_FRAGMENTS, longest);
    }
  }

  /** From datagrams with bodies of at most `longest` bytes nothing comes out that is longer
      than 128 such bodies and a header. */
  lemma {:induction false} ShortDatagramsDeliverShort(ms: seq<Message>, now: int, longest: nat)
    requires longest >= 1 && forall m | m in ms :: |m| <= HEADER_LENGTH + longest
    ensures AllShort(ReceiveAll(ms, now).buffer, longest)
    ensures forall d | d in ReceiveAll(ms, now).delivered :: |d| <= MAX_FRAGMENTS * longest
  {
    if ms != [] {
      hide ReceiveFragment;
      var m := ms[|ms| - 1];
      var st := ReceiveAll(ms[..|ms| - 1], now);
      ShortDatagramsDeliverShort(ms[..|ms| - 1], now, longest);
      if 6 <= |m| && m[0] != WHOLE {
        FragmentDeliversShort(st.buffer, IdFromBytes(m[1..5]), m[0] % 0x80, m[0] >= 0x80, m[5..], now, longest);
      }
    }
  }

  /** A packet in more than 128 fragments never comes out, whatever else does: the receiver
      takes fragment 128 for a whole packet and the indices after it for those from 1 on. */
  lemma TooManyFragmentsMisread(data: seq<Byte>, limit: uint16, id: uint32, ms: seq<Message>, now: int)
    requires |data| > 0 && Completes(|data|, limit) && !FitsWhole(|data|, limit)
    requires FragmentCount(|data|, limit - HEADER_LENGTH) > MAX_FRAGMENTS
    requires forall m | m in ms :: m in Emits(data, limit, id)
    ensures data !in ReceiveAll(ms, now).delivered
  {
    var chunk := limit - HEADER_LENGTH;
    var all, bodies := Emits(data, limit, id), Cut(data, chunk);
    forall m | m in ms ensures |m| <= HEADER_LENGTH + chunk {
      var i :| 0 <= i < |all| && all[i] == m;
      assert m == Framed(bodies, id, i) && bodies[i] == Body(data, chunk, i);
    }
    ShortDatagramsDeliverShort(ms, now, chunk);
    FragmentInside(|data|, chunk, MAX_FRAGMENTS);
  }

  /** The law at the centre: over a network that loses nothing, a packet comes out at the far
      end, once and unchanged, exactly for the sizes and limits of `Sendable`. */
  lemma RoundTripExactly(data: seq<Byte>, limit: uint16, id: uint32, now: int)
    requires 0 < |data| <= 0xFFFF
    ensures
      var out := WireOutput(data, limit, id);
      out.Some? && ReceiveAll(out.value, now).delivered == [data] <==> Sendable(|data|, limit)
  {
    hide ReceiveAll, Emits, FragmentCount;
    if FitsWhole(|data|, limit) {
      WholeArrives(data, limit, id, now);
    } else if FitsFragmented(|data|, limit) {
      FragmentedArrives(data, limit, id, now);
    } else if Completes(|data|, limit) {
      TooManyFragmentsMisread(data, limit, id, Emits(data, limit, id), now);
    }
  }

  /** Packets under one wire id are mixed: of two two-byte packets, under the counters 256 and
      511, the first fragment of one and the last of the other come out as a third packet. */
  lemma SharedWireIdMixes()
    ensures
      var p, q: seq<seq<Byte>> := [[1], [2]], [[3], [4]];
      ReceiveAll([Framed(p, 256, 0), Framed(q, 511, 1)], 0).delivered == [[1, 4]]
  {
    hide Framed, IdBytes;
    var p, q: seq<seq<Byte>> := [[1], [2]], [[3], [4]];
    var ms, one: seq<Message> := [Framed(p, 256, 0), Framed(q, 511, 1)], [Framed(p, 256, 0)];
    assert ms[..1] == one && one[..0] == [];
    assert ReceiveAll([], 0) == State(map[], []);
    WireIdsRepeat();
    var group := Group(NOT_SET, map[0 := [1]], 0);
    DatagramReadsBack(map[], p, 256, 0, 0);
    assert Store(GroupOf(map[], 0x0101, 0), 0, false, [1], 0) == group;
    assert ReceiveAll(one, 0) == State(map[0x0101 := group], []);
    DatagramReadsBack(map[0x0101 := group], q, 511, 1, 0);
    MixedGroupCompletes(group);
  }

  lemma MixedGroupCompletes(group: Group)
    requires group == Group(NOT_SET, map[0 := [1]], 0)
    ensures ReceiveFragment(map[0x0101 := group], 0x0101, 1, true, [4], 0).delivered == Some([1, 4])
  {
    var full := Store(group, 1, true, [4], 0);
    assert full.data == map[0 := [1], 1 := [4]];
    assert full.data.Keys == {0, 1};
    assert |full.data| == |full.data.Keys| == 2;
    assert Join(full.data, 0) == [];
    assert Join(full.data, 1) == [] + [1] == [1];
    assert Join(full.data, 2) == [1] + [4] == [1, 4];
  }
}
