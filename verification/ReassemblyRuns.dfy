/** Whole runs of a receiver: datagrams of many packets lost, reordered and interleaved, with
    expiry sweeps anywhere between. Packets may share wire ids. The network is judged by what
    has arrived, with no mention of the receiver's buffer; the receiver is then shown to follow
    that judgement, and exactly when it does. */
module ReassemblyRuns {
  import opened MachineInts
  import opened Fragmentation
  import opened Reassembly

  /** What the 7 index bits can say. */
  type Index = x: nat | x < 0x80

  /** The numbers 0 to n - 1. */
  function FirstIndices(n: nat): (all: set<nat>)
    ensures |all| == n
    ensures forall i: nat :: i in all <==> i < n
  {
    if n == 0 then {} else FirstIndices(n - 1) + {n - 1}
  }

  /** A packet sent in pieces, under a wire id. There may be more pieces than indices. */
  datatype Sent = Sent(key: uint32, bodies: seq<seq<Byte>>) {
    predicate Valid() {
      && 2 <= |bodies|
      && forall i | 0 <= i < |bodies| :: bodies[i] != []
    }

    function Data(): seq<Byte> {
      Concat(bodies, |bodies|)
    }

    function All(): set<nat> {
      FirstIndices(|bodies|)
    }
  }

  type PacketId = nat

  /** The fragmented packets of a run. */
  type World = map<PacketId, Sent>

  predicate ValidWorld(world: World) {
    forall p | p in world :: world[p].Valid()
  }

  datatype Event =
    | Arrival(packet: PacketId, index: Index, now: int)   // a fragment
    | Whole(data: seq<Byte>, now: int)                    // a packet sent in one piece
    | Cleanup(now: int)

  predicate Possible(world: World, e: Event) {
    match e
    case Arrival(p, index, _) => p in world && index < |world[p].bodies|
    case Whole(data, _) => data != []
    case Cleanup(_) => true
  }

  predicate PossibleRun(world: World, es: seq<Event>) {
    forall k | 0 <= k < |es| :: Possible(world, es[k])
  }

  // --- the receiver ---------------------------------------------------------------------

  datatype State = State(buffer: Buffer, delivered: seq<seq<Byte>>)

  function Then(st: State, r: Received): State {
    State(r.buffer, Deliver(st.delivered, r.delivered))
  }

  function ReceivePiece(buffer: Buffer, sent: Sent, index: Index, now: int): Received
    requires index < |sent.bodies|
  {
    ReceiveFragment(buffer, sent.key, index, index == |sent.bodies| - 1, sent.bodies[index], now)
  }

  function Step(world: World, st: State, e: Event): State
    requires Possible(world, e)
  {
    match e
    case Arrival(p, index, now) => Then(st, ReceivePiece(st.buffer, world[p], index, now))
    case Whole(data, now) => Then(st, PassUp(st.buffer, data))
    case Cleanup(now) => State(Sweep(st.buffer, now), st.delivered)
  }

  function Run(world: World, es: seq<Event>): State
    requires PossibleRun(world, es)
  {
    if es == [] then State(map[], [])
    else Step(world, Run(world, es[..|es| - 1]), es[|es| - 1])
  }

  // --- the judgement --------------------------------------------------------------------

  /** When a fragment of packet `p` last arrived. */
  function LastSeen(es: seq<Event>, p: PacketId): int {
    if es == [] then 0
    else
      var e := es[|es| - 1];
      if e.Arrival? && e.packet == p then e.now else LastSeen(es[..|es| - 1], p)
  }

  /** The fragments of packet `p` that have arrived and have not expired since: a clean-up
      drops them all when the latest of them is older than 30 seconds. */
  function Live(es: seq<Event>, p: PacketId): set<Index> {
    if es == [] then {}
    else
      var before := es[..|es| - 1];
      match es[|es| - 1]
      case Arrival(q, index, _) => if q == p then Live(before, p) + {index} else Live(before, p)
      case Whole(_, _) => Live(before, p)
      case Cleanup(now) => if now - LastSeen(before, p) > EXPIRY then {} else Live(before, p)
  }

  /** Some fragments of the packet are live, but not all. */
  predicate Incomplete(sent: Sent, live: set<Index>) {
    live != {} && live != sent.All()
  }

  /** No fragment arrives again between the completion of its packet and its expiry. (A
      fragment may be repeated before completion.) */
  predicate NoLateRepeats(world: World, es: seq<Event>)
    requires PossibleRun(world, es)
  {
    forall k | 0 <= k < |es| && es[k].Arrival? :: NotLate(world, es[..k], es[k])
  }

  predicate NotLate(world: World, before: seq<Event>, e: Event) {
    e.Arrival? && e.packet in world ==> Live(before, e.packet) != world[e.packet].All()
  }

  /** No fragment arrives while another packet under its wire id is incomplete. */
  predicate NoMixing(world: World, es: seq<Event>)
    requires PossibleRun(world, es)
  {
    forall k | 0 <= k < |es| && es[k].Arrival? :: NotMixed(world, es[..k], es[k])
  }

  predicate NotMixed(world: World, before: seq<Event>, e: Event) {
    e.Arrival? && e.packet in world ==>
      forall q | q in world && q != e.packet && world[q].key == world[e.packet].key ::
        !Incomplete(world[q], Live(before, q))
  }

  datatype Delivery = Packet(packet: PacketId) | Unfragmented(data: seq<Byte>)

  /** What has to be passed up at an event: a packet when its last missing live fragment
      arrives (not again when a fragment is repeated later), an unfragmented packet always. */
  function Due(world: World, before: seq<Event>, e: Event): seq<Delivery>
    requires Possible(world, e)
  {
    match e
    case Arrival(p, index, _) =>
      if Live(before, p) != world[p].All() && Live(before, p) + {index} == world[p].All() then [Packet(p)] else []
    case Whole(data, _) => [Unfragmented(data)]
    case Cleanup(_) => []
  }

  function Deliveries(world: World, es: seq<Event>): seq<Delivery>
    requires PossibleRun(world, es)
  {
    if es == [] then []
    else Deliveries(world, es[..|es| - 1]) + Due(world, es[..|es| - 1], es[|es| - 1])
  }

  function Payload(world: World, d: Delivery): seq<Byte> {
    match d
    case Packet(p) => if p in world then world[p].Data() else []
    case Unfragmented(data) => data
  }

  function Payloads(world: World, ds: seq<Delivery>): seq<seq<Byte>> {
    seq(|ds|, i requires 0 <= i < |ds| => Payload(world, ds[i]))
  }

  // --- one fragment ---------------------------------------------------------------------

  /** What the receiver holds for a packet of which the fragments in `have` are live. */
  function Partial(sent: Sent, have: set<Index>, time: int): Group
    requires have <= sent.All()
  {
    Group(if |sent.bodies| - 1 in have then |sent.bodies| - 1 else NOT_SET,
      map i: Byte | i in have :: sent.bodies[i],
      time)
  }

  /** Counting decides completion: n distinct indices below n are all of them. */
  lemma CountingDecides(have: set<Index>, n: nat)
    requires have <= FirstIndices(n)
    ensures |have| == n <==> have == FirstIndices(n)
  {
    if have != FirstIndices(n) {
      SubsetSmaller(have, FirstIndices(n));
    }
  }

  lemma SubsetSmaller(x: set<nat>, y: set<nat>)
    requires x < y
    ensures |x| < |y|
  {
    assert y == x + (y - x);
    assert y - x != {};
  }

  /** A packet with all its fragments live has no more of them than there are indices. */
  lemma AllFitIndex(sent: Sent, have: set<Index>)
    requires have == sent.All()
    ensures |sent.bodies| <= 0x80
  {
    assert forall i | i in have :: i < 0x80;
    assert 0x80 in sent.All() <==> 0x80 < |sent.bodies|;
  }

  /** Joining the stored bodies gives the first so many bytes of the packet. */
  lemma {:induction false} JoinIsConcat(sent: Sent, data: map<Byte, seq<Byte>>, n: nat)
    requires n <= |sent.bodies| && n <= 0x80
    requires forall i: Byte | i < n :: i in data && data[i] == sent.bodies[i]
    ensures Join(data, n) == Concat(sent.bodies, n)
  {
    if n > 0 {
      JoinIsConcat(sent, data, n - 1);
    }
  }

  lemma StoreExtends(sent: Sent, have: set<Index>, time: int, index: Index, now: int)
    requires have <= sent.All() && index in sent.All()
    ensures Store(Partial(sent, have, time), index, index == |sent.bodies| - 1, sent.bodies[index], now)
         == Partial(sent, have + {index}, now)
  {
    var body := sent.bodies[index];
    assert Partial(sent, have, time).data[index := body] == Partial(sent, have + {index}, now).data;
  }

  /** Receiving one fragment of a packet that is not yet complete: the packet is passed up
      if the fragment was the last one missing, and recorded otherwise. */
  lemma ReceiveOne(buffer: Buffer, sent: Sent, have: set<Index>, time: int, index: Index, now: int)
    requires sent.Valid() && have < sent.All() && index in sent.All()
    requires if have == {} then sent.key !in buffer
      else sent.key in buffer && buffer[sent.key] == Partial(sent, have, time)
    ensures ReceivePiece(buffer, sent, index, now) ==
      if have + {index} == sent.All() then Received(buffer - {sent.key}, Some(sent.Data()), true)
      else Received(buffer[sent.key := Partial(sent, have + {index}, now)], None, true)
  {
    hide Store, GroupOf, Partial, FirstIndices, Join, Concat;
    PieceStored(buffer, sent, have, time, index, now);
    CompleteWhenCounted(sent, have + {index}, now);
    if have + {index} == sent.All() {
      CompleteJoins(sent, have + {index}, now);
    }
  }

  lemma PieceStored(buffer: Buffer, sent: Sent, have: set<Index>, time: int, index: Index, now: int)
    requires have <= sent.All() && index in sent.All()
    requires if have == {} then sent.key !in buffer
      else sent.key in buffer && buffer[sent.key] == Partial(sent, have, time)
    ensures Store(GroupOf(buffer, sent.key, now), index, index == |sent.bodies| - 1, sent.bodies[index], now)
         == Partial(sent, have + {index}, now)
  {
    hide Store, FirstIndices;
    if have == {} {
      StoreExtends(sent, have, now, index, now);
      assert Partial(sent, have, now) == GroupOf(buffer, sent.key, now);
    } else {
      StoreExtends(sent, have, time, index, now);
    }
  }

  lemma CompleteJoins(sent: Sent, have: set<Index>, time: int)
    requires sent.Valid() && have == sent.All()
    ensures |sent.bodies| <= 0x80 && Join(Partial(sent, have, time).data, |sent.bodies|) == sent.Data() != []
    ensures Partial(sent, have, time).lastIndex == |sent.bodies| - 1
  {
    AllFitIndex(sent, have);
    JoinIsConcat(sent, Partial(sent, have, time).data, |sent.bodies|);
    ConcatGrows(sent.bodies, |sent.bodies|);
  }

  lemma ConcatGrows(bodies: seq<seq<Byte>>, k: nat)
    requires 1 <= k <= |bodies| && forall i | 0 <= i < |bodies| :: bodies[i] != []
    ensures Concat(bodies, k) != []
  {
  }

  lemma CompleteWhenCounted(sent: Sent, have: set<Index>, time: int)
    requires sent.Valid() && have <= sent.All()
    ensures
      var group := Partial(sent, have, time);
      |group.data| == group.lastIndex + 1 <==> have == sent.All()
  {
    var group := Partial(sent, have, time);
    assert group.data.Keys == have;
    assert |group.data| == |group.data.Keys|;
    CountingDecides(have, |sent.bodies|);
    if have == sent.All() {
      AllFitIndex(sent, have);
    }
  }

  // --- whole runs -----------------------------------------------------------------------

  predicate IncompleteAfter(world: World, es: seq<Event>, p: PacketId) {
    p in world && Incomplete(world[p], Live(es, p))
  }

  /** The buffer holds exactly the live fragments of a packet, if it is incomplete. */
  predicate TracksPacket(world: World, es: seq<Event>, buffer: Buffer, p: PacketId) {
    p in world ==>
      && Live(es, p) <= world[p].All()
      && (IncompleteAfter(world, es, p) ==>
            world[p].key in buffer && buffer[world[p].key] == Partial(world[p], Live(es, p), LastSeen(es, p)))
  }

  /** Each incomplete packet has its group in the buffer, and there are no others. */
  predicate Tracks(world: World, es: seq<Event>, buffer: Buffer) {
    && (forall p | p in world :: TracksPacket(world, es, buffer, p))
    && forall key | key in buffer :: Expected(world, es, key)
  }

  predicate Expected(world: World, es: seq<Event>, key: uint32) {
    exists p | p in world :: IncompleteAfter(world, es, p) && world[p].key == key
  }

  predicate Follows(world: World, es: seq<Event>)
    requires PossibleRun(world, es)
  {
    && Tracks(world, es, Run(world, es).buffer)
    && Run(world, es).delivered == Payloads(world, Deliveries(world, es))
  }

  lemma RunExtends(world: World, before: seq<Event>, e: Event)
    requires PossibleRun(world, before + [e])
    ensures PossibleRun(world, before) && Possible(world, e)
    ensures Run(world, before + [e]) == Step(world, Run(world, before), e)
    ensures Deliveries(world, before + [e]) == Deliveries(world, before) + Due(world, before, e)
  {
    var es := before + [e];
    assert es[|before|] == e && es[..|es| - 1] == before;
    assert forall k | 0 <= k < |before| :: before[k] == es[k];
  }

  lemma PayloadsAppend(world: World, ds: seq<Delivery>, more: seq<Delivery>)
    ensures Payloads(world, ds + more) == Payloads(world, ds) + Payloads(world, more)
  {
  }

  /** After every run without late repeats and mixing, the buffer holds exactly the incomplete
      packets' live fragments, and what was passed up is exactly what the judgement asks for,
      in that order. */
  lemma {:induction false} ReceiverFollowsJudgement(world: World, es: seq<Event>)
    requires ValidWorld(world) && PossibleRun(world, es) && NoLateRepeats(world, es) && NoMixing(world, es)
    ensures Follows(world, es)
  {
    if es != [] {
      hide Follows, NotLate, NotMixed;
      var before, e := es[..|es| - 1], es[|es| - 1];
      assert es == before + [e];
      WellBehavedBefore(world, before, e);
      ReceiverFollowsJudgement(world, before);
      StepFollows(world, before, e);
    }
  }

  lemma WellBehavedBefore(world: World, before: seq<Event>, e: Event)
    requires PossibleRun(world, before + [e]) && NoLateRepeats(world, before + [e]) && NoMixing(world, before + [e])
    ensures PossibleRun(world, before) && NoLateRepeats(world, before) && NoMixing(world, before)
    ensures Possible(world, e) && NotLate(world, before, e) && NotMixed(world, before, e)
  {
    hide NotLate, NotMixed;
    var es := before + [e];
    assert es[|before|] == e && es[..|before|] == before;
    assert forall k | 0 <= k < |before| :: before[k] == es[k] && before[..k] == es[..k];
    if !e.Arrival? {
      NothingToMix(world, before, e);
    }
  }

  lemma NothingToMix(world: World, before: seq<Event>, e: Event)
    requires !e.Arrival?
    ensures NotLate(world, before, e) && NotMixed(world, before, e)
  {
  }

  lemma StepFollows(world: World, before: seq<Event>, e: Event)
    requires ValidWorld(world) && PossibleRun(world, before + [e]) && PossibleRun(world, before) && Possible(world, e)
    requires Follows(world, before) && NotLate(world, before, e) && NotMixed(world, before, e)
    ensures Follows(world, before + [e])
  {
    hide Live, LastSeen, Partial, FirstIndices, Tracks, ReceiveFragment, NotLate, NotMixed;
    RunExtends(world, before, e);
    PayloadsAppend(world, Deliveries(world, before), Due(world, before, e));
    var st := Run(world, before);
    match e
    case Arrival(_, _, _) => ArrivalStep(world, before, e, st);
    case Whole(_, _) => WholeStep(world, before, e, st.buffer);
    case Cleanup(_) => CleanupStep(world, before, e, st.buffer);
  }

  // --- how the judgement changes --------------------------------------------------------

  lemma ThisPacketGrows(before: seq<Event>, e: Event)
    requires e.Arrival?
    ensures Live(before + [e], e.packet) == Live(before, e.packet) + {e.index}
    ensures LastSeen(before + [e], e.packet) == e.now
  {
    assert (before + [e])[..|before + [e]| - 1] == before;
  }

  lemma OtherPacketUntouched(before: seq<Event>, e: Event, p: PacketId)
    requires e.Whole? || (e.Arrival? && e.packet != p)
    ensures Live(before + [e], p) == Live(before, p)
    ensures LastSeen(before + [e], p) == LastSeen(before, p)
  {
    assert (before + [e])[..|before + [e]| - 1] == before;
  }

  lemma CleanupDropsExpired(before: seq<Event>, e: Event, p: PacketId)
    requires e.Cleanup?
    ensures Live(before + [e], p) == if e.now - LastSeen(before, p) > EXPIRY then {} else Live(before, p)
    ensures LastSeen(before + [e], p) == LastSeen(before, p)
  {
    assert (before + [e])[..|before + [e]| - 1] == before;
  }

  // --- an arrival -----------------------------------------------------------------------

  /** Before an arrival that is neither late nor mixed, the buffer has under its wire id the
      packet's own live fragments or nothing. */
  lemma OwnGroup(world: World, before: seq<Event>, e: Event, buffer: Buffer)
    requires Tracks(world, before, buffer) && e.Arrival? && Possible(world, e)
    requires NotLate(world, before, e) && NotMixed(world, before, e)
    ensures
      var sent, live := world[e.packet], Live(before, e.packet);
      && live < sent.All()
      && if live == {} then sent.key !in buffer
         else sent.key in buffer && buffer[sent.key] == Partial(sent, live, LastSeen(before, e.packet))
  {
    hide Live, LastSeen, Partial, FirstIndices;
    assert TracksPacket(world, before, buffer, e.packet);
    if world[e.packet].key in buffer {
      assert Expected(world, before, world[e.packet].key);
    }
  }

  predicate SameBut(x: Buffer, y: Buffer, key: uint32) {
    forall k: uint32 | k != key :: (k in x <==> k in y) && (k in x ==> x[k] == y[k])
  }

  /** The buffer after an arrival, if it differs only under the wire id and is right there. */
  lemma ArrivalTracks(world: World, before: seq<Event>, e: Event, buffer: Buffer, next: Buffer)
    requires Tracks(world, before, buffer) && e.Arrival? && Possible(world, e) && NotMixed(world, before, e)
    requires SameBut(next, buffer, world[e.packet].key)
    requires Live(before + [e], e.packet) <= world[e.packet].All()
    requires
      var sent := world[e.packet];
      && (sent.key in next <==> IncompleteAfter(world, before + [e], e.packet))
      && (sent.key in next ==>
            next[sent.key] == Partial(sent, Live(before + [e], e.packet), LastSeen(before + [e], e.packet)))
    ensures Tracks(world, before + [e], next)
  {
    hide Live, LastSeen, Partial, FirstIndices, Incomplete;
    forall p | p in world ensures TracksPacket(world, before + [e], next, p) {
      assert TracksPacket(world, before, buffer, p);
      if p != e.packet {
        OtherPacketUntouched(before, e, p);
        assert world[p].key == world[e.packet].key ==> !IncompleteAfter(world, before, p);
      }
    }
    forall key | key in next ensures Expected(world, before + [e], key) {
      if key != world[e.packet].key {
        assert Expected(world, before, key);
        var p :| p in world && IncompleteAfter(world, before, p) && world[p].key == key;
        OtherPacketUntouched(before, e, p);
        assert IncompleteAfter(world, before + [e], p);
      }
    }
  }

  lemma ArrivalStep(world: World, before: seq<Event>, e: Event, st: State)
    requires ValidWorld(world) && Tracks(world, before, st.buffer)
    requires e.Arrival? && Possible(world, e) && NotLate(world, before, e) && NotMixed(world, before, e)
    ensures Tracks(world, before + [e], Step(world, st, e).buffer)
    ensures Step(world, st, e).delivered == st.delivered + Payloads(world, Due(world, before, e))
  {
    hide Live, LastSeen, Partial, FirstIndices, Tracks, ReceivePiece, NotLate, NotMixed;
    var sent, live := world[e.packet], Live(before, e.packet);
    OwnGroup(world, before, e, st.buffer);
    ReceiveOne(st.buffer, sent, live, LastSeen(before, e.packet), e.index, e.now);
    ThisPacketGrows(before, e);
    ArrivalTracks(world, before, e, st.buffer, Step(world, st, e).buffer);
  }

  // --- the other events -----------------------------------------------------------------

  lemma WholeStep(world: World, before: seq<Event>, e: Event, buffer: Buffer)
    requires Tracks(world, before, buffer) && e.Whole?
    ensures Tracks(world, before + [e], buffer)
  {
    hide Live, LastSeen, Partial, FirstIndices, Incomplete;
    forall p: PacketId
      ensures Live(before + [e], p) == Live(before, p) && LastSeen(before + [e], p) == LastSeen(before, p)
    {
      OtherPacketUntouched(before, e, p);
    }
    assert forall p | p in world :: TracksPacket(world, before, buffer, p);
    assert forall p :: IncompleteAfter(world, before + [e], p) == IncompleteAfter(world, before, p);
    forall key | key in buffer ensures Expected(world, before + [e], key) {
      assert Expected(world, before, key);
    }
  }

  lemma CleanupAtPacket(world: World, before: seq<Event>, e: Event, buffer: Buffer, p: PacketId)
    requires p in world && TracksPacket(world, before, buffer, p) && e.Cleanup?
    ensures TracksPacket(world, before + [e], Sweep(buffer, e.now), p)
    ensures IncompleteAfter(world, before + [e], p) <==>
      IncompleteAfter(world, before, p) && e.now - LastSeen(before, p) <= EXPIRY
  {
    CleanupDropsExpired(before, e, p);
  }

  lemma CleanupStep(world: World, before: seq<Event>, e: Event, buffer: Buffer)
    requires Tracks(world, before, buffer) && e.Cleanup?
    ensures Tracks(world, before + [e], Sweep(buffer, e.now))
  {
    hide Live, LastSeen, FirstIndices, Incomplete;
    forall p | p in world
      ensures TracksPacket(world, before + [e], Sweep(buffer, e.now), p)
      ensures IncompleteAfter(world, before + [e], p) <==>
        IncompleteAfter(world, before, p) && e.now - LastSeen(before, p) <= EXPIRY
    {
      assert TracksPacket(world, before, buffer, p);
      CleanupAtPacket(world, before, e, buffer, p);
    }
    forall key | key in Sweep(buffer, e.now) ensures Expected(world, before + [e], key) {
      assert Expected(world, before, key);
      var p :| p in world && IncompleteAfter(world, before, p) && world[p].key == key;
      assert TracksPacket(world, before, buffer, p);
      assert IncompleteAfter(world, before + [e], p);
    }
  }

  // --- exactly when the receiver follows ------------------------------------------------

  /** A fragment that comes back after completion, with no incomplete packet under its wire id,
      opens a group that should not be there. */
  lemma LateRepeatDeparts(world: World, before: seq<Event>, e: Event)
    requires ValidWorld(world) && PossibleRun(world, before + [e]) && PossibleRun(world, before)
    requires Follows(world, before) && e.Arrival? && Possible(world, e)
    requires !NotLate(world, before, e) && NotMixed(world, before, e)
    ensures !Follows(world, before + [e])
  {
    hide Live, LastSeen, Partial, ReceivePiece, FirstIndices;
    var st, sent := Run(world, before), world[e.packet];
    RunExtends(world, before, e);
    ThisPacketGrows(before, e);
    assert Live(before, e.packet) + {e.index} == Live(before, e.packet);
    SameIncomplete(world, before, e);
    assert !Expected(world, before, sent.key);
    assert !Expected(world, before + [e], sent.key);
    OneFragmentIsKept(st.buffer, sent, e.index, e.now);
  }

  lemma SameIncomplete(world: World, before: seq<Event>, e: Event)
    requires e.Arrival? && Live(before + [e], e.packet) == Live(before, e.packet)
    ensures forall p | p in world :: IncompleteAfter(world, before + [e], p) == IncompleteAfter(world, before, p)
  {
    forall p | p in world ensures IncompleteAfter(world, before + [e], p) == IncompleteAfter(world, before, p) {
      if p != e.packet {
        OtherPacketUntouched(before, e, p);
      }
    }
  }

  lemma OneFragmentIsKept(buffer: Buffer, sent: Sent, index: Index, now: int)
    requires sent.Valid() && index < |sent.bodies| && sent.key !in buffer
    ensures ReceivePiece(buffer, sent, index, now).delivered.None?
    ensures sent.key in ReceivePiece(buffer, sent, index, now).buffer
  {
    var group := Store(GroupOf(buffer, sent.key, now), index, index == |sent.bodies| - 1, sent.bodies[index], now);
    assert group.data.Keys == {index};
    assert |group.data| == |group.data.Keys|;
  }

  /** No two arrivals are at the same time. */
  predicate RisingTimes(es: seq<Event>) {
    forall j, k | 0 <= j < k < |es| && es[j].Arrival? && es[k].Arrival? :: es[j].now < es[k].now
  }

  lemma {:induction false} SeenBefore(es: seq<Event>, e: Event, p: PacketId)
    requires RisingTimes(es + [e]) && e.Arrival? && Live(es, p) != {}
    ensures LastSeen(es, p) < e.now
  {
    var before, last := es[..|es| - 1], es[|es| - 1];
    assert (es + [e])[|es| - 1] == last && (es + [e])[|es|] == e;
    if !(last.Arrival? && last.packet == p) {
      var shorter := before + [e];
      assert forall k | 0 <= k < |before| :: shorter[k] == (es + [e])[k];
      assert shorter[|before|] == e;
      SeenBefore(before, e, p);
    }
  }

  /** After a fragment, the group under its wire id is gone or has the fragment's time. */
  lemma TimeRenewed(buffer: Buffer, sent: Sent, index: Index, now: int)
    requires index < |sent.bodies|
    ensures
      var next := ReceivePiece(buffer, sent, index, now).buffer;
      sent.key in next ==> next[sent.key].time == now
  {
  }

  /** A fragment that arrives while another packet under its wire id is incomplete destroys that
      packet's group or renews its time, so that it no longer expires when it should. */
  lemma MixingDeparts(world: World, before: seq<Event>, e: Event)
    requires ValidWorld(world) && PossibleRun(world, before + [e]) && PossibleRun(world, before)
    requires e.Arrival? && Possible(world, e) && RisingTimes(before + [e])
    requires !NotMixed(world, before, e)
    ensures !Follows(world, before + [e])
  {
    hide Live, LastSeen, FirstIndices, ReceivePiece;
    var q :| q in world && q != e.packet && world[q].key == world[e.packet].key
      && Incomplete(world[q], Live(before, q));
    RunExtends(world, before, e);
    OtherPacketUntouched(before, e, q);
    SeenBefore(before, e, q);
    TimeRenewed(Run(world, before).buffer, world[e.packet], e.index, e.now);
    assert IncompleteAfter(world, before + [e], q);
    assert !TracksPacket(world, before + [e], Run(world, before + [e]).buffer, q);
  }

  predicate FollowsThroughout(world: World, es: seq<Event>)
    requires PossibleRun(world, es)
  {
    forall k | 0 <= k <= |es| :: PossibleRun(world, es[..k]) && Follows(world, es[..k])
  }

  /** The receiver keeps to the judgement at every point of a run if no fragment is repeated
      between the completion of its packet and its expiry, and none arrives while another packet
      under its wire id is incomplete; and, if no two fragments arrive at the same time, only then. */
  lemma FollowsThroughoutExactly(world: World, es: seq<Event>)
    requires ValidWorld(world) && PossibleRun(world, es)
    ensures NoLateRepeats(world, es) && NoMixing(world, es) ==> FollowsThroughout(world, es)
    ensures RisingTimes(es) && FollowsThroughout(world, es) ==> NoLateRepeats(world, es) && NoMixing(world, es)
  {
    hide Follows, NotLate, NotMixed;
    if NoLateRepeats(world, es) && NoMixing(world, es) {
      forall k | 0 <= k <= |es| ensures PossibleRun(world, es[..k]) && Follows(world, es[..k]) {
        assert forall j | 0 <= j < k :: es[..k][j] == es[j] && es[..k][..j] == es[..j];
        ReceiverFollowsJudgement(world, es[..k]);
      }
    } else if RisingTimes(es) {
      var k :| 0 <= k < |es| && es[k].Arrival? && !(NotLate(world, es[..k], es[k]) && NotMixed(world, es[..k], es[k]));
      assert es[..k] + [es[k]] == es[..k + 1];
      assert forall j | 0 <= j < k + 1 :: es[..k + 1][j] == es[j];
      assert forall j | 0 <= j < k :: es[..k][j] == es[j];
      if NotMixed(world, es[..k], es[k]) {
        if Follows(world, es[..k]) {
          LateRepeatDeparts(world, es[..k], es[k]);
        }
      } else {
        MixingDeparts(world, es[..k], es[k]);
      }
    }
  }

  // --- when packets are not mixed -------------------------------------------------------

  predicate OwnKeys(world: World) {
    forall p, q | p in world && q in world && p != q :: world[p].key != world[q].key
  }

  lemma OwnKeysNeverMix(world: World, es: seq<Event>)
    requires PossibleRun(world, es) && OwnKeys(world)
    ensures NoMixing(world, es)
  {
  }

  /** Fewer than 255 increments lead from one counter value to the other, in either direction,
      and they are not the pair around the wrap. */
  predicate Near(a: uint32, b: uint32) {
    && a != b && ((b - a) % 0x1_0000_0000 < 0xFF || (a - b) % 0x1_0000_0000 < 0xFF)
    && !(a == 0xFFFF_FFFF && b == 0) && !(a == 0 && b == 0xFFFF_FFFF)
  }

  lemma NearMeansApart(a: uint32, b: uint32)
    requires Near(a, b)
    ensures WireId(a) != WireId(b)
  {
    hide WireId;
    if (b - a) % 0x1_0000_0000 < 0xFF {
      NearbyCountersShareOnlyAtWrap(a, (b - a) % 0x1_0000_0000);
    } else {
      NearbyCountersShareOnlyAtWrap(b, (a - b) % 0x1_0000_0000);
    }
  }

  /** Whenever a fragment arrives, each other packet that is incomplete at that time has a
      counter value near the arriving packet's. */
  predicate WithinWindow(world: World, ids: map<PacketId, uint32>, es: seq<Event>)
    requires world.Keys <= ids.Keys
  {
    forall k, q | 0 <= k < |es| && q in world && es[k].Arrival? && es[k].packet in world ::
      IncompleteAfter(world, es[..k], q) ==> q == es[k].packet || Near(ids[q], ids[es[k].packet])
  }

  /** However many packets a run has, they are not mixed as long as those under way at any
      time are within such a window. */
  lemma WindowNeverMixes(world: World, ids: map<PacketId, uint32>, es: seq<Event>)
    requires PossibleRun(world, es) && Counters(world, ids) && WithinWindow(world, ids, es)
    ensures NoMixing(world, es)
  {
    hide WireId, Live, Incomplete, Near;
    forall k | 0 <= k < |es| && es[k].Arrival? ensures NotMixed(world, es[..k], es[k]) {
      var p := es[k].packet;
      forall q | q in world && q != p && world[q].key == world[p].key ensures !Incomplete(world[q], Live(es[..k], q)) {
        if IncompleteAfter(world, es[..k], q) {
          NearMeansApart(ids[q], ids[p]);
        }
      }
    }
  }

  // --- each packet at most once ---------------------------------------------------------

  /** Every fragment arrives at most once. */
  predicate ArrivesOnce(es: seq<Event>) {
    forall j, k | 0 <= j < k < |es| && es[j].Arrival? && es[k].Arrival? ::
      es[j].packet != es[k].packet || es[j].index != es[k].index
  }

  predicate HasArrived(es: seq<Event>, p: PacketId, index: nat) {
    exists k | 0 <= k < |es| :: es[k].Arrival? && es[k].packet == p && es[k].index == index
  }

  lemma HadArrived(before: seq<Event>, e: Event, p: PacketId, index: nat)
    requires HasArrived(before, p, index)
    ensures HasArrived(before + [e], p, index)
  {
    var k :| 0 <= k < |before| && before[k].Arrival? && before[k].packet == p && before[k].index == index;
    assert (before + [e])[k] == before[k];
  }

  lemma {:induction false} LiveHasArrived(es: seq<Event>, p: PacketId, index: Index)
    requires index in Live(es, p)
    ensures HasArrived(es, p, index)
  {
    var before, e := es[..|es| - 1], es[|es| - 1];
    if !(e.Arrival? && e.packet == p && e.index == index) {
      LiveHasArrived(before, p, index);
      HadArrived(before, e, p, index);
      assert es == before + [e];
    }
  }

  lemma {:induction false} DeliveredHasArrived(world: World, es: seq<Event>, p: PacketId, index: nat)
    requires PossibleRun(world, es)
    requires Packet(p) in Deliveries(world, es)
    requires p in world && index in world[p].All()
    ensures HasArrived(es, p, index)
  {
    var before, e := es[..|es| - 1], es[|es| - 1];
    assert es == before + [e];
    if Packet(p) in Deliveries(world, before) {
      DeliveredHasArrived(world, before, p, index);
      HadArrived(before, e, p, index);
    } else {
      ThisPacketGrows(before, e);
      LiveHasArrived(es, p, index);
    }
  }

  lemma NotYetArrived(es: seq<Event>, k: nat)
    requires ArrivesOnce(es) && k < |es| && es[k].Arrival?
    ensures !HasArrived(es[..k], es[k].packet, es[k].index)
  {
  }

  lemma OnceMeansNoLateRepeats(world: World, es: seq<Event>)
    requires PossibleRun(world, es) && ArrivesOnce(es)
    ensures NoLateRepeats(world, es)
  {
    forall k | 0 <= k < |es| && es[k].Arrival? ensures NotLate(world, es[..k], es[k]) {
      assert Possible(world, es[k]);
      NotYetArrived(es, k);
      if es[k].index in Live(es[..k], es[k].packet) {
        LiveHasArrived(es[..k], es[k].packet, es[k].index);
      }
    }
  }

  lemma {:induction false} DeliveredOnce(world: World, es: seq<Event>, p: PacketId)
    requires PossibleRun(world, es) && ArrivesOnce(es)
    ensures multiset(Deliveries(world, es))[Packet(p)] <= 1
  {
    if es != [] {
      var before, e := es[..|es| - 1], es[|es| - 1];
      assert Possible(world, e);
      DeliveredOnce(world, before, p);
      if e.Arrival? && e.packet == p {
        NotYetArrived(es, |es| - 1);
        if Packet(p) in Deliveries(world, before) {
          DeliveredHasArrived(world, before, p, e.index);
        }
      }
    }
  }

  predicate SentWhole(es: seq<Event>, data: seq<Byte>) {
    exists k | 0 <= k < |es| :: es[k].Whole? && es[k].data == data
  }

  lemma {:induction false} DeliveriesWereSent(world: World, es: seq<Event>, d: Delivery)
    requires PossibleRun(world, es) && d in Deliveries(world, es)
    ensures match d
      case Packet(p) => p in world
      case Unfragmented(data) => SentWhole(es, data)
  {
    var before, e := es[..|es| - 1], es[|es| - 1];
    assert Possible(world, e);
    if d in Deliveries(world, before) {
      DeliveriesWereSent(world, before, d);
      if d.Unfragmented? {
        var k :| 0 <= k < |before| && before[k].Whole? && before[k].data == d.data;
        assert es[k] == before[k];
      }
    } else if d.Unfragmented? {
      assert es[|es| - 1].Whole?;
    }
  }

  /** If every fragment arrives at most once and packets are not mixed, then in every run what
      is passed up are packets of which every fragment has arrived, each at most once, and
      packets that arrived in one piece. */
  lemma RunsDeliverOnlyWhatWasSent(world: World, es: seq<Event>)
    requires ValidWorld(world) && PossibleRun(world, es) && ArrivesOnce(es) && NoMixing(world, es)
    ensures Run(world, es).delivered == Payloads(world, Deliveries(world, es))
    ensures forall p :: multiset(Deliveries(world, es))[Packet(p)] <= 1
    ensures forall p | Packet(p) in Deliveries(world, es) ::
      p in world && forall i | i in world[p].All() :: HasArrived(es, p, i)
    ensures forall data | Unfragmented(data) in Deliveries(world, es) :: SentWhole(es, data)
  {
    hide Deliveries, Run, FirstIndices, HasArrived, SentWhole, NoLateRepeats;
    OnceMeansNoLateRepeats(world, es);
    ReceiverFollowsJudgement(world, es);
    forall p ensures multiset(Deliveries(world, es))[Packet(p)] <= 1 {
      DeliveredOnce(world, es, p);
    }
    forall p | Packet(p) in Deliveries(world, es)
      ensures p in world && forall i | i in world[p].All() :: HasArrived(es, p, i)
    {
      DeliveriesWereSent(world, es, Packet(p));
      forall i | i in world[p].All() ensures HasArrived(es, p, i) {
        DeliveredHasArrived(world, es, p, i);
      }
    }
    forall data | Unfragmented(data) in Deliveries(world, es) ensures SentWhole(es, data) {
      DeliveriesWereSent(world, es, Unfragmented(data));
    }
  }

  /** At an arrival the receiver passes the packet up if all its fragments are now live, and
      nothing otherwise. */
  lemma DeliveredWhenLastMissingArrives(world: World, before: seq<Event>, e: Event)
    requires ValidWorld(world) && PossibleRun(world, before + [e]) && e.Arrival?
    requires ArrivesOnce(before + [e]) && NoMixing(world, before + [e])
    ensures PossibleRun(world, before) && e.packet in world
    ensures Run(world, before + [e]).delivered == Run(world, before).delivered +
      if Live(before, e.packet) + {e.index} == world[e.packet].All() then [world[e.packet].Data()] else []
  {
    hide Live, LastSeen, Partial, FirstIndices, Tracks, ReceivePiece, NotMixed;
    OnceMeansNoLateRepeats(world, before + [e]);
    WellBehavedBefore(world, before, e);
    ReceiverFollowsJudgement(world, before);
    ArrivalStep(world, before, e, Run(world, before));
    RunExtends(world, before, e);
  }

  // --- the same run on the wire ---------------------------------------------------------

  /** The packets' wire ids come from these counter values. */
  predicate Counters(world: World, ids: map<PacketId, uint32>) {
    world.Keys <= ids.Keys && forall p | p in world :: world[p].key == WireId(ids[p])
  }

  /** The datagram an event brings, for packets sent under the counter values `ids`. */
  function Datagram(world: World, ids: map<PacketId, uint32>, e: Event): Message
    requires Counters(world, ids) && Possible(world, e) && !e.Cleanup?
  {
    match e
    case Arrival(p, index, _) => Framed(world[p].bodies, ids[p], index)
    case Whole(data, _) => [WHOLE] + data
  }

  function WireStep(world: World, ids: map<PacketId, uint32>, st: State, e: Event): State
    requires Counters(world, ids) && Possible(world, e)
  {
    if e.Cleanup? then State(Sweep(st.buffer, e.now), st.delivered)
    else Then(st, Receive(st.buffer, Datagram(world, ids, e), e.now))
  }

  /** A receiver fed with datagrams. */
  function WireRun(world: World, ids: map<PacketId, uint32>, es: seq<Event>): State
    requires Counters(world, ids) && PossibleRun(world, es)
  {
    if es == [] then State(map[], [])
    else WireStep(world, ids, WireRun(world, ids, es[..|es| - 1]), es[|es| - 1])
  }

  /** A fragment's datagram has on the receiver the effect of that fragment of that packet. */
  lemma DatagramReadsBack(buffer: Buffer, bodies: seq<seq<Byte>>, id: uint32, index: Index, now: int)
    requires Sent(WireId(id), bodies).Valid() && index < |bodies|
    ensures Receive(buffer, Framed(bodies, id, index), now)
         == ReceivePiece(buffer, Sent(WireId(id), bodies), index, now)
  {
    hide IdBytes, IdFromBytes, WireId, Flag, ReceiveFragment;
    FramedReadsBack(bodies, id, index);
  }

  /** A run over datagrams is the run over fragments. */
  lemma {:induction false} WireRunIsRun(world: World, ids: map<PacketId, uint32>, es: seq<Event>)
    requires ValidWorld(world) && PossibleRun(world, es) && Counters(world, ids)
    ensures WireRun(world, ids, es) == Run(world, es)
  {
    hide WireId, Framed;
    if es != [] {
      var e := es[|es| - 1];
      WireRunIsRun(world, ids, es[..|es| - 1]);
      assert Possible(world, e);
      var st := Run(world, es[..|es| - 1]);
      if e.Arrival? {
        DatagramReadsBack(st.buffer, world[e.packet].bodies, ids[e.packet], e.index, e.now);
      } else if e.Whole? {
        assert ([WHOLE] + e.data)[1..] == e.data;
      }
    }
  }
}
