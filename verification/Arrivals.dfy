/** What of the sender's attempts arrives at a receiver, in any order: datagrams by attempt and
    number. A run of such arrivals is a run over fragments. */
module Arrivals {
  import opened MachineInts
  import opened Fragmentation
  import opened FragmentSender
  import opened Reassembly
  import opened ReassemblyRuns

  /** One attempt at sending a packet, for the `call`-th call of WritePacket. */
  datatype Try = Try(call: nat, data: seq<Byte>, attempt: Attempt) {
    predicate Valid() {
      |data| > 0 && ValidAttempt(data, attempt)
    }

    /** The attempt can put fragments on the wire. Under a limit of 5 or less, none does. */
    predicate InPieces() {
      TakesFragmentBranch(|data|, attempt.limit) && attempt.limit > HEADER_LENGTH
    }

    function Datagrams(): seq<Message>
      requires Valid()
    {
      Emits(data, attempt.limit, attempt.id)
    }

    /** All of it was sent. */
    predicate Done()
      requires Valid()
    {
      Complete(data, attempt)
    }

    function Key(): uint32 {
      WireId(attempt.id)
    }
  }

  predicate ValidTries(tries: seq<Try>) {
    forall t | t in tries :: t.Valid()
  }

  /** The attempts that a call of WritePacket made. */
  function TriesOf(call: nat, data: seq<Byte>, log: seq<Attempt>): (tries: seq<Try>)
    ensures |tries| == |log| && forall j | 0 <= j < |log| :: tries[j] == Try(call, data, log[j])
  {
    seq(|log|, j requires 0 <= j < |log| => Try(call, data, log[j]))
  }

  lemma LogMakesValidTries(call: nat, data: seq<Byte>, log: seq<Attempt>)
    requires |data| > 0 && ValidLog(data, log)
    ensures ValidTries(TriesOf(call, data, log))
  {
    var tries := TriesOf(call, data, log);
    forall t | t in tries ensures t.Valid() {
      var j :| 0 <= j < |tries| && tries[j] == t;
      assert log[j] in log;
    }
  }

  lemma OnlyLastIsDone(call: nat, data: seq<Byte>, log: seq<Attempt>)
    requires |data| > 0 && ValidLog(data, log)
    ensures
      var tries := TriesOf(call, data, log);
      forall j | 0 <= j < |tries| - 1 :: tries[j].Valid() && !tries[j].Done()
  {
    var tries := TriesOf(call, data, log);
    forall j | 0 <= j < |tries| - 1 ensures tries[j].Valid() && !tries[j].Done() {
      assert log[j] in log;
      assert Abandoned(data, log[j]);
    }
  }

  /** No attempt got as far as its fragment 128, whose first byte is that of a whole packet. */
  predicate MarkerNotSent(tries: seq<Try>) {
    forall t | t in tries :: t.attempt.sent <= MAX_FRAGMENTS
  }

  /** Datagram `index` of attempt `attempt` arrives, or a clean-up happens. */
  datatype Incident = Got(attempt: nat, index: nat, now: int) | Swept(now: int)

  predicate WasSent(tries: seq<Try>, e: Incident) {
    e.Got? ==> e.attempt < |tries| && tries[e.attempt] in tries && e.index < tries[e.attempt].attempt.sent
  }

  /** Only datagrams that were sent arrive. */
  predicate Arrivable(tries: seq<Try>, es: seq<Incident>) {
    forall k | 0 <= k < |es| :: WasSent(tries, es[k])
  }

  /** No datagram arrives twice. */
  predicate NoDuplicates(es: seq<Incident>) {
    forall j, k | 0 <= j < k < |es| && es[j].Got? && es[k].Got? ::
      es[j].attempt != es[k].attempt || es[j].index != es[k].index
  }

  predicate HasGot(es: seq<Incident>, j: nat, index: nat) {
    exists k | 0 <= k < |es| :: es[k].Got? && es[k].attempt == j && es[k].index == index
  }

  lemma HadGot(before: seq<Incident>, e: Incident, j: nat, index: nat)
    ensures HasGot(before + [e], j, index) <==>
      HasGot(before, j, index) || (e.Got? && e.attempt == j && e.index == index)
  {
    var es := before + [e];
    assert es[|before|] == e && forall k | 0 <= k < |before| :: es[k] == before[k];
  }

  lemma FirstTime(before: seq<Incident>, e: Incident)
    requires NoDuplicates(before + [e])
    ensures NoDuplicates(before) && (e.Got? ==> !HasGot(before, e.attempt, e.index))
  {
    var es := before + [e];
    assert es[|before|] == e && forall k | 0 <= k < |before| :: es[k] == before[k];
  }

  lemma ArrivableBefore(tries: seq<Try>, before: seq<Incident>, e: Incident)
    requires Arrivable(tries, before + [e])
    ensures Arrivable(tries, before) && WasSent(tries, e)
  {
    hide WasSent;
    var es := before + [e];
    assert es[|before|] == e && forall k | 0 <= k < |before| :: es[k] == before[k];
  }

  // --- the receiver ---------------------------------------------------------------------

  function Incoming(st: State, t: Try, index: nat, now: int): State
    requires t.Valid() && index < t.attempt.sent
  {
    Then(st, Receive(st.buffer, t.Datagrams()[index], now))
  }

  function Happens(tries: seq<Try>, st: State, e: Incident): State
    requires ValidTries(tries) && WasSent(tries, e)
  {
    match e
    case Got(j, index, now) => Incoming(st, tries[j], index, now)
    case Swept(now) => State(Sweep(st.buffer, now), st.delivered)
  }

  /** A fresh receiver after these datagrams and clean-ups. */
  function After(tries: seq<Try>, es: seq<Incident>): State
    requires ValidTries(tries) && Arrivable(tries, es)
  {
    if es == [] then State(map[], [])
    else Happens(tries, After(tries, es[..|es| - 1]), es[|es| - 1])
  }

  lemma AfterOneMore(tries: seq<Try>, before: seq<Incident>, e: Incident)
    requires ValidTries(tries) && Arrivable(tries, before + [e])
    ensures Arrivable(tries, before) && WasSent(tries, e)
    ensures After(tries, before + [e]) == Happens(tries, After(tries, before), e)
  {
    ArrivableBefore(tries, before, e);
    assert (before + [e])[..|before + [e]| - 1] == before;
  }

  // --- the same as a run over fragments -------------------------------------------------

  function Pieces(t: Try): (sent: Sent)
    requires t.Valid() && t.InPieces()
    ensures sent.Valid() && sent.Data() == t.data && sent.bodies == Cut(t.data, t.attempt.limit - HEADER_LENGTH)
    ensures t.Datagrams() == AllFramed(sent.bodies, t.attempt.id) && |sent.bodies| == |t.Datagrams()|
    ensures sent.key == t.Key()
  {
    CutInPieces(t.data, t.attempt.limit);
    Sent(t.Key(), Cut(t.data, t.attempt.limit - HEADER_LENGTH))
  }

  /** The attempts that send fragments, each a packet of its own. */
  function WorldOf(tries: seq<Try>): (world: World)
    requires ValidTries(tries)
    ensures ValidWorld(world)
  {
    map j: nat | j < |tries| && tries[j] in tries && tries[j].InPieces() :: Pieces(tries[j])
  }

  function AsEvent(tries: seq<Try>, e: Incident): Event
    requires WasSent(tries, e) && MarkerNotSent(tries)
  {
    match e
    case Got(j, index, now) => if tries[j].InPieces() then Arrival(j, index, now) else Whole(tries[j].data, now)
    case Swept(now) => Cleanup(now)
  }

  function AsEvents(tries: seq<Try>, es: seq<Incident>): (events: seq<Event>)
    requires Arrivable(tries, es) && MarkerNotSent(tries)
    ensures |events| == |es| && forall k | 0 <= k < |es| :: WasSent(tries, es[k]) && events[k] == AsEvent(tries, es[k])
  {
    seq(|es|, k requires 0 <= k < |es| => AsEvent(tries, es[k]))
  }

  lemma AsEventsGrow(tries: seq<Try>, before: seq<Incident>, e: Incident)
    requires Arrivable(tries, before + [e]) && MarkerNotSent(tries)
    ensures Arrivable(tries, before) && WasSent(tries, e)
    ensures AsEvents(tries, before + [e]) == AsEvents(tries, before) + [AsEvent(tries, e)]
  {
    hide WasSent, AsEvent;
    ArrivableBefore(tries, before, e);
    var es := before + [e];
    assert es[|before|] == e && forall k | 0 <= k < |before| :: es[k] == before[k];
  }

  lemma WholeAttempt(t: Try)
    requires t.Valid() && !t.InPieces() && t.attempt.sent > 0
    ensures t.Done() && t.attempt.sent == 1 && t.Datagrams() == [[WHOLE] + t.data]
  {
  }

  lemma WholeReadsBack(buffer: Buffer, data: seq<Byte>, now: int)
    requires data != []
    ensures Receive(buffer, [WHOLE] + data, now) == PassUp(buffer, data)
  {
    assert ([WHOLE] + data)[1..] == data;
  }

  /** A datagram acts on the receiver as the fragment or the whole packet that it carries. */
  lemma DatagramActs(st: State, t: Try, index: nat, now: int)
    requires t.Valid() && index < t.attempt.sent <= MAX_FRAGMENTS
    ensures Incoming(st, t, index, now) ==
      Then(st, if t.InPieces() then ReceivePiece(st.buffer, Pieces(t), index, now) else PassUp(st.buffer, t.data))
  {
    hide Emits, WireId, Receive, ReceivePiece, TakesFragmentBranch;
    if t.InPieces() {
      DatagramReadsBack(st.buffer, Pieces(t).bodies, t.attempt.id, index, now);
    } else {
      WholeAttempt(t);
      WholeReadsBack(st.buffer, t.data, now);
    }
  }

  lemma IncidentActsAsEvent(tries: seq<Try>, st: State, e: Incident)
    requires ValidTries(tries) && MarkerNotSent(tries) && WasSent(tries, e)
    ensures Possible(WorldOf(tries), AsEvent(tries, e))
    ensures Happens(tries, st, e) == Step(WorldOf(tries), st, AsEvent(tries, e))
  {
    hide Emits, WireId, Receive, ReceivePiece, TakesFragmentBranch, Incoming;
    if e.Got? {
      DatagramActs(st, tries[e.attempt], e.index, e.now);
    }
  }

  lemma {:induction false} AfterIsRun(tries: seq<Try>, es: seq<Incident>)
    requires ValidTries(tries) && MarkerNotSent(tries) && Arrivable(tries, es)
    ensures PossibleRun(WorldOf(tries), AsEvents(tries, es))
    ensures After(tries, es) == Run(WorldOf(tries), AsEvents(tries, es))
  {
    hide WorldOf, Happens, AsEvent, Step, WasSent, AsEvents, Possible;
    if es == [] {
      NoEvents(tries);
    } else {
      var before, e := es[..|es| - 1], es[|es| - 1];
      assert es == before + [e];
      AsEventsGrow(tries, before, e);
      AfterIsRun(tries, before);
      AfterOneMore(tries, before, e);
      IncidentActsAsEvent(tries, After(tries, before), e);
      assert AsEvents(tries, es)[..|before|] == AsEvents(tries, before);
    }
  }

  lemma NoEvents(tries: seq<Try>)
    requires MarkerNotSent(tries)
    ensures AsEvents(tries, []) == []
  {
  }

  lemma EventsArriveOnce(tries: seq<Try>, es: seq<Incident>)
    requires Arrivable(tries, es) && MarkerNotSent(tries) && NoDuplicates(es)
    ensures ArrivesOnce(AsEvents(tries, es))
  {
    hide Try.InPieces, WasSent;
  }
}
