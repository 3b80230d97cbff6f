/** Many calls of WritePacket, each with its attempts, into one receiver over a network that
    loses, reorders and delays. */
module Session {
  import opened MachineInts
  import opened Fragmentation
  import opened FragmentSender
  import opened Reassembly
  import opened ReassemblyRuns
  import opened Arrivals

  /** A call of WritePacket: the packet, and the attempts that the call made. */
  datatype Call = Call(data: seq<Byte>, log: seq<Attempt>)

  predicate ValidCalls(calls: seq<Call>) {
    forall c | c in calls :: |c.data| > 0 && ValidLog(c.data, c.log)
  }

  predicate OfCalls(calls: seq<Call>, tries: seq<Try>) {
    forall t | t in tries :: t.call < |calls| && t.data == calls[t.call].data
  }

  /** Of the attempts of one call, at most one sent everything. */
  predicate OneDonePerCall(tries: seq<Try>)
    requires ValidTries(tries)
  {
    forall i, j | 0 <= i < j < |tries| && tries[i].Valid() && tries[j].Valid() && tries[i].Done() && tries[j].Done() ::
      tries[i].call != tries[j].call
  }

  lemma AppendTries(calls: seq<Call>, earlier: seq<Try>, latest: seq<Try>)
    requires calls != [] && ValidTries(earlier) && ValidTries(latest)
    requires OfCalls(calls[..|calls| - 1], earlier) && OneDonePerCall(earlier)
    requires forall t | t in latest :: t.call == |calls| - 1 && t.data == calls[|calls| - 1].data
    requires forall j | 0 <= j < |latest| - 1 :: latest[j].Valid() && !latest[j].Done()
    ensures ValidTries(earlier + latest) && OfCalls(calls, earlier + latest) && OneDonePerCall(earlier + latest)
  {
    hide Try.Valid, Try.Done;
    var tries := earlier + latest;
    assert forall t | t in tries :: t in earlier || t in latest;
    forall i, j | 0 <= i < j < |tries| && tries[i].Valid() && tries[j].Valid() && tries[i].Done() && tries[j].Done()
      ensures tries[i].call != tries[j].call
    {
      if j >= |earlier| {
        assert tries[j] == latest[j - |earlier|] && tries[j] in latest;
        if i < |earlier| {
          assert tries[i] == earlier[i] && tries[i] in earlier;
        }
      } else {
        assert tries[i] == earlier[i] && tries[j] == earlier[j];
      }
    }
  }

  /** All attempts of all calls. */
  function Tries(calls: seq<Call>): (tries: seq<Try>)
    requires ValidCalls(calls)
    ensures ValidTries(tries) && OfCalls(calls, tries) && OneDonePerCall(tries)
  {
    if calls == [] then []
    else
      var n := |calls| - 1;
      assert calls[n] in calls;
      var earlier, latest := Tries(calls[..n]), TriesOf(n, calls[n].data, calls[n].log);
      LogMakesValidTries(n, calls[n].data, calls[n].log);
      OnlyLastIsDone(n, calls[n].data, calls[n].log);
      AppendTries(calls, earlier, latest);
      earlier + latest
  }

  // --- which attempt each delivery comes from -------------------------------------------

  function DueTry(tries: seq<Try>, before: seq<Incident>, e: Incident): seq<nat>
    requires ValidTries(tries) && MarkerNotSent(tries) && Arrivable(tries, before) && WasSent(tries, e)
    requires Possible(WorldOf(tries), AsEvent(tries, e))
  {
    if e.Got? && Due(WorldOf(tries), AsEvents(tries, before), AsEvent(tries, e)) != [] then [e.attempt] else []
  }

  function DueTries(tries: seq<Try>, es: seq<Incident>): seq<nat>
    requires ValidTries(tries) && MarkerNotSent(tries) && Arrivable(tries, es)
  {
    if es == [] then []
    else
      var before, e := es[..|es| - 1], es[|es| - 1];
      IncidentActsAsEvent(tries, State(map[], []), e);
      DueTries(tries, before) + DueTry(tries, before, e)
  }

  function DataOf(tries: seq<Try>, due: seq<nat>): seq<seq<Byte>> {
    seq(|due|, k requires 0 <= k < |due| => if due[k] < |tries| then tries[due[k]].data else [])
  }

  lemma DueTriesGrow(tries: seq<Try>, before: seq<Incident>, e: Incident)
    requires ValidTries(tries) && MarkerNotSent(tries) && Arrivable(tries, before + [e])
    ensures Arrivable(tries, before) && WasSent(tries, e) && Possible(WorldOf(tries), AsEvent(tries, e))
    ensures DueTries(tries, before + [e]) == DueTries(tries, before) + DueTry(tries, before, e)
  {
    hide WasSent, AsEvent, WorldOf, Possible, DueTry;
    ArrivableBefore(tries, before, e);
    IncidentActsAsEvent(tries, State(map[], []), e);
    assert (before + [e])[..|before + [e]| - 1] == before;
  }

  lemma OneDue(tries: seq<Try>, before: seq<Incident>, e: Incident)
    requires ValidTries(tries) && MarkerNotSent(tries) && Arrivable(tries, before) && WasSent(tries, e)
    requires Possible(WorldOf(tries), AsEvent(tries, e))
    ensures Payloads(WorldOf(tries), Due(WorldOf(tries), AsEvents(tries, before), AsEvent(tries, e)))
         == DataOf(tries, DueTry(tries, before, e))
  {
    hide Live, AsEvents, FirstIndices, Try.InPieces;
    if e.Got? {
      assert tries[e.attempt] in tries;
    }
  }

  lemma DataOfAppend(tries: seq<Try>, due: seq<nat>, more: seq<nat>)
    ensures DataOf(tries, due + more) == DataOf(tries, due) + DataOf(tries, more)
  {
  }

  lemma {:induction false} PayloadsAreData(tries: seq<Try>, es: seq<Incident>)
    requires ValidTries(tries) && MarkerNotSent(tries) && Arrivable(tries, es)
    ensures PossibleRun(WorldOf(tries), AsEvents(tries, es))
    ensures Payloads(WorldOf(tries), Deliveries(WorldOf(tries), AsEvents(tries, es)))
         == DataOf(tries, DueTries(tries, es))
  {
    hide WasSent, AsEvent, WorldOf, Possible, DueTry, Due, Run, AsEvents, PossibleRun;
    AfterIsRun(tries, es);
    if es == [] {
      NoEvents(tries);
    } else {
      var before, e := es[..|es| - 1], es[|es| - 1];
      assert es == before + [e];
      DueTriesGrow(tries, before, e);
      PayloadsAreData(tries, before);
      AsEventsGrow(tries, before, e);
      RunExtends(WorldOf(tries), AsEvents(tries, before), AsEvent(tries, e));
      OneDue(tries, before, e);
      PayloadsAppend(WorldOf(tries), Deliveries(WorldOf(tries), AsEvents(tries, before)),
        Due(WorldOf(tries), AsEvents(tries, before), AsEvent(tries, e)));
      DataOfAppend(tries, DueTries(tries, before), DueTry(tries, before, e));
    }
  }

  // --- what is due has arrived in full --------------------------------------------------

  predicate GotAll(tries: seq<Try>, es: seq<Incident>, j: nat)
    requires ValidTries(tries)
  {
    && j < |tries| && tries[j] in tries && tries[j].Datagrams() != []
    && forall index | 0 <= index < |tries[j].Datagrams()| :: HasGot(es, j, index)
  }

  lemma {:induction false} LiveWasGot(tries: seq<Try>, es: seq<Incident>, j: nat, index: Index)
    requires MarkerNotSent(tries) && Arrivable(tries, es) && index in Live(AsEvents(tries, es), j)
    ensures HasGot(es, j, index)
  {
    LiveHasArrived(AsEvents(tries, es), j, index);
    var events := AsEvents(tries, es);
    var k :| 0 <= k < |events| && events[k].Arrival? && events[k].packet == j && events[k].index == index;
    assert WasSent(tries, es[k]) && events[k] == AsEvent(tries, es[k]);
  }

  lemma DueGotAll(tries: seq<Try>, before: seq<Incident>, e: Incident, j: nat)
    requires ValidTries(tries) && MarkerNotSent(tries) && Arrivable(tries, before + [e]) && Arrivable(tries, before)
    requires WasSent(tries, e) && Possible(WorldOf(tries), AsEvent(tries, e)) && j in DueTry(tries, before, e)
    ensures GotAll(tries, before + [e], j)
  {
    hide Live, AsEvents, FirstIndices, Emits, TakesFragmentBranch;
    var t := tries[j];
    forall index | 0 <= index < |t.Datagrams()| ensures HasGot(before + [e], j, index) {
      HadGot(before, e, j, index);
      if t.InPieces() {
        assert index in Pieces(t).All();
        if index != e.index {
          assert index in Live(AsEvents(tries, before), j);
          LiveWasGot(tries, before, j, index);
        }
      } else {
        WholeAttempt(t);
      }
    }
  }

  lemma GotAllStays(tries: seq<Try>, before: seq<Incident>, e: Incident, j: nat)
    requires ValidTries(tries) && GotAll(tries, before, j)
    ensures GotAll(tries, before + [e], j)
  {
    hide HasGot, Try.Datagrams;
    forall index | 0 <= index < |tries[j].Datagrams()| ensures HasGot(before + [e], j, index) {
      HadGot(before, e, j, index);
    }
  }

  predicate NoRepeats(list: seq<nat>) {
    forall i, j | 0 <= i < j < |list| :: list[i] != list[j]
  }

  /** Everything of an attempt whose packet was passed up has arrived; so, as nothing arrives
      twice, no attempt's packet is passed up twice. */
  lemma {:induction false} DueOnce(tries: seq<Try>, es: seq<Incident>)
    requires ValidTries(tries) && MarkerNotSent(tries) && Arrivable(tries, es) && NoDuplicates(es)
    ensures NoRepeats(DueTries(tries, es))
    ensures forall j | j in DueTries(tries, es) :: GotAll(tries, es, j)
  {
    hide WasSent, AsEvent, WorldOf, Possible, Due, GotAll, NoDuplicates, Arrivable;
    if es != [] {
      var before, e := es[..|es| - 1], es[|es| - 1];
      assert es == before + [e];
      DueTriesGrow(tries, before, e);
      FirstTime(before, e);
      DueOnce(tries, before);
      forall j | j in DueTries(tries, es) ensures GotAll(tries, es, j) {
        if j in DueTries(tries, before) {
          GotAllStays(tries, before, e, j);
        } else {
          DueGotAll(tries, before, e, j);
        }
      }
      if DueTry(tries, before, e) != [] {
        NotDueBefore(tries, before, e);
      }
    }
  }

  lemma NotDueBefore(tries: seq<Try>, before: seq<Incident>, e: Incident)
    requires ValidTries(tries) && e.Got? && WasSent(tries, e) && !HasGot(before, e.attempt, e.index)
    ensures !GotAll(tries, before, e.attempt)
  {
    assert tries[e.attempt].Valid();
  }

  lemma GotAllIsDone(tries: seq<Try>, es: seq<Incident>, j: nat)
    requires ValidTries(tries) && Arrivable(tries, es) && GotAll(tries, es, j)
    ensures tries[j].Valid() && tries[j].Done()
  {
    hide Emits;
    var n := |tries[j].Datagrams()|;
    assert HasGot(es, j, n - 1);
    var k :| 0 <= k < |es| && es[k].Got? && es[k].attempt == j && es[k].index == n - 1;
    assert WasSent(tries, es[k]);
  }

  // --- the theorem ----------------------------------------------------------------------

  /** The packets passed up are those of these calls, no call twice. */
  predicate Explains(calls: seq<Call>, delivered: seq<seq<Byte>>, from: seq<nat>) {
    && |from| == |delivered| && NoRepeats(from)
    && forall k | 0 <= k < |from| :: from[k] < |calls| && delivered[k] == calls[from[k]].data
  }

  function CallsOf(tries: seq<Try>, due: seq<nat>): seq<nat> {
    seq(|due|, k requires 0 <= k < |due| => if due[k] < |tries| then tries[due[k]].call else 0)
  }

  lemma CallsDiffer(calls: seq<Call>, tries: seq<Try>, es: seq<Incident>, due: seq<nat>)
    requires ValidTries(tries) && OfCalls(calls, tries) && OneDonePerCall(tries) && Arrivable(tries, es)
    requires NoRepeats(due) && forall j | j in due :: GotAll(tries, es, j)
    ensures Explains(calls, DataOf(tries, due), CallsOf(tries, due))
  {
    hide Try.Datagrams, Try.Done, Arrivable;
    var from := CallsOf(tries, due);
    forall i, j | 0 <= i < j < |from| ensures from[i] != from[j] {
      assert due[i] in due && due[j] in due;
      GotAllIsDone(tries, es, due[i]);
      GotAllIsDone(tries, es, due[j]);
      var a, b := if due[i] < due[j] then due[i] else due[j], if due[i] < due[j] then due[j] else due[i];
      assert tries[a].call != tries[b].call;
    }
    forall k | 0 <= k < |from| ensures from[k] < |calls| && DataOf(tries, due)[k] == calls[from[k]].data {
      assert due[k] in due;
      assert tries[due[k]] in tries;
    }
  }

  /** No fragment arrives while another attempt under its wire id is incomplete at the receiver. */
  predicate Unmixed(tries: seq<Try>, es: seq<Incident>)
    requires ValidTries(tries) && MarkerNotSent(tries) && Arrivable(tries, es)
  {
    AfterIsRun(tries, es);
    NoMixing(WorldOf(tries), AsEvents(tries, es))
  }

  /** Whatever of the datagrams of any number of calls arrives, in whatever order and with
      clean-ups anywhere: as long as no fragment meets an incomplete attempt under its wire id,
      the receiver passes up only packets that were written, each at most once per call. */
  lemma SessionPassesUpWhatWasWritten(calls: seq<Call>, es: seq<Incident>) returns (from: seq<nat>)
    requires ValidCalls(calls) && MarkerNotSent(Tries(calls))
    requires Arrivable(Tries(calls), es) && NoDuplicates(es)
    requires Unmixed(Tries(calls), es)
    ensures Explains(calls, After(Tries(calls), es).delivered, from)
  {
    var tries := Tries(calls);
    hide Tries, Explains, After, Run, Deliveries, DueTries, NoMixing, NoDuplicates, Arrivable, MarkerNotSent, GotAll,
      WorldOf;
    AfterIsRun(tries, es);
    EventsArriveOnce(tries, es);
    RunsDeliverOnlyWhatWasSent(WorldOf(tries), AsEvents(tries, es));
    PayloadsAreData(tries, es);
    DueOnce(tries, es);
    var due := DueTries(tries, es);
    from := CallsOf(tries, due);
    CallsDiffer(calls, tries, es, due);
  }

  function Ids(tries: seq<Try>): (ids: map<PacketId, uint32>)
    requires ValidTries(tries)
    ensures Counters(WorldOf(tries), ids)
  {
    map j: nat | j < |tries| :: tries[j].attempt.id
  }

  /** In particular if at every arrival the attempts still incomplete at the receiver have
      counter values near the arriving one's, however many calls the session has. */
  lemma SessionWithinWindow(calls: seq<Call>, es: seq<Incident>) returns (from: seq<nat>)
    requires ValidCalls(calls) && MarkerNotSent(Tries(calls))
    requires Arrivable(Tries(calls), es) && NoDuplicates(es)
    requires WithinWindow(WorldOf(Tries(calls)), Ids(Tries(calls)), AsEvents(Tries(calls), es))
    ensures Explains(calls, After(Tries(calls), es).delivered, from)
  {
    hide Tries, After, WithinWindow, Explains, NoMixing, AsEvents, Near;
    var tries := Tries(calls);
    AfterIsRun(tries, es);
    WindowNeverMixes(WorldOf(tries), Ids(tries), AsEvents(tries, es));
    from := SessionPassesUpWhatWasWritten(calls, es);
  }
}
