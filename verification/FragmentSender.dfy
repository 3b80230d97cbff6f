/** The sending side: WritePacket and writePacketFragmented of shared/sockets/data_message.go
    over the datagram adapter of shared/sockets/adapters/webtransport.go. */
module FragmentSender {
  import opened MachineInts
  import opened Fragmentation

  /** What QUIC answers to a datagram. */
  datatype SendOutcome = Accepted | TooLarge(max: int) | Broken

  datatype Result =
    | Done
    | LimitReduced       // the one error that makes WritePacket try again
    | PayloadTooLarge
    | NotReady
    | SendFailed
    | SizeOutOfBounds
    | Panicked           // Go run-time panic: division by zero or slice bounds

  /** The datagram half of the adapter. `network` is the environment: what the k-th call of
      SendDatagram will return. Accepted datagrams are recorded in `wire`. */
  class WebTransportAdapter {
    var isFullyInitialized: bool
    var maxPayloadLen: uint16
    var wire: seq<Message>
    var calls: nat
    const network: nat -> SendOutcome

    constructor (network: nat -> SendOutcome)
      ensures this.network == network && wire == [] && calls == 0
      ensures !isFullyInitialized && maxPayloadLen == 0
    {
      this.network := network;
      isFullyInitialized, maxPayloadLen, wire, calls := false, 0, [], 0;
    }

    method RefreshFeatures()
      modifies `maxPayloadLen
      ensures maxPayloadLen == 1184
    {
      maxPayloadLen := 1200 - 16;
    }

    /** The network reports no negative size limits; a conversion to 16 bits would make large
        ones of them, and every attempt could raise the limit again. */
    ghost predicate SizesNotNegative() {
      forall k :: network(k).TooLarge? ==> network(k).max >= 0
    }

    /** A datagram is on the wire exactly when the answer is Done; the limit changes
        exactly when the answer is LimitReduced. */
    method WriteDataMessage(message: Message) returns (r: Result)
      modifies `maxPayloadLen, `wire, `calls
      ensures r == NotReady <==> !isFullyInitialized
      ensures r == PayloadTooLarge <==> isFullyInitialized && |message| > old(maxPayloadLen)
      ensures calls == old(calls) + if r == NotReady || r == PayloadTooLarge then 0 else 1
      ensures r == Done <==>
        isFullyInitialized && |message| <= old(maxPayloadLen) && network(old(calls)) == Accepted
      ensures wire == old(wire) + if r == Done then [message] else []
      ensures r == LimitReduced <==>
        && isFullyInitialized && |message| <= old(maxPayloadLen)
        && network(old(calls)).TooLarge? && network(old(calls)).max < old(maxPayloadLen)
      ensures maxPayloadLen == if r == LimitReduced then network(old(calls)).max % 0x1_0000 else old(maxPayloadLen)
      ensures r in {Done, LimitReduced, PayloadTooLarge, NotReady, SendFailed}
    {
      if !isFullyInitialized {
        return NotReady;
      }
      if |message| > maxPayloadLen {
        return PayloadTooLarge;
      }
      var outcome := network(calls);
      calls := calls + 1;
      match outcome {
        case Accepted =>
          wire := wire + [message];
          r := Done;
        case TooLarge(max) =>
          if max < maxPayloadLen {
            maxPayloadLen := max % 0x1_0000;
            r := LimitReduced;
          } else {
            r := SendFailed;
          }
        case Broken =>
          r := SendFailed;
      }
    }
  }

  /** The branch that writePacketFragmented takes: 65535 + 1 is 0 in 16 bits, so a packet of
      65535 bytes is never fragmented. */
  predicate TakesFragmentBranch(n: nat, limit: uint16) {
    n < 0xFFFF && !FitsWhole(n, limit)
  }

  /** Every datagram of one attempt, under the limit and counter value it used; none if the
      attempt cannot produce a first datagram that the adapter takes. */
  function Emits(data: seq<Byte>, limit: uint16, id: uint32): seq<Message>
    requires |data| > 0
  {
    if |data| < 0xFFFF && (FitsWhole(|data|, limit) || limit > HEADER_LENGTH) then Datagrams(data, limit, id) else []
  }

  /** Sizes and limits for which an attempt over a network that accepts everything gets to its end. */
  predicate Completes(n: nat, limit: uint16)
    requires n > 0
  {
    && n < 0xFFFF
    && (FitsWhole(n, limit) ||
        (limit > HEADER_LENGTH &&
         FragmentCount(n, limit - HEADER_LENGTH) * (limit - HEADER_LENGTH) <= 0xFFFF))
  }

  /** One attempt at sending a packet: the limit and counter value in force, and how many of
      its datagrams were accepted. */
  datatype Attempt = Attempt(limit: uint16, id: uint32, sent: nat)

  predicate ValidAttempt(data: seq<Byte>, a: Attempt)
    requires |data| > 0
  {
    a.sent <= |Emits(data, a.limit, a.id)|
  }

  predicate Complete(data: seq<Byte>, a: Attempt)
    requires |data| > 0
  {
    a.sent > 0 && a.sent == |Emits(data, a.limit, a.id)|
  }

  /** What a sequence of attempts put on the wire. */
  function OnWire(data: seq<Byte>, log: seq<Attempt>): seq<Message>
    requires |data| > 0 && forall a | a in log :: ValidAttempt(data, a)
  {
    if log == [] then []
    else
      var a := log[|log| - 1];
      assert ValidAttempt(data, a);
      OnWire(data, log[..|log| - 1]) + Emits(data, a.limit, a.id)[..a.sent]
  }

  /** Counter values from the first fragmenting attempt on are consecutive. */
  predicate FreshCounters(n: nat, log: seq<Attempt>) {
    forall i, j | 0 <= i < j < |log| && TakesFragmentBranch(n, log[i].limit) ::
      && TakesFragmentBranch(n, log[j].limit)
      && log[j].id == (log[i].id + (j - i)) % 0x1_0000_0000
  }

  predicate FallingLimits(log: seq<Attempt>) {
    forall i, j | 0 <= i < j < |log| :: log[i].limit > log[j].limit
  }

  /** The attempt's last datagram was not sent. */
  predicate Abandoned(data: seq<Byte>, a: Attempt)
    requires |data| > 0
  {
    a.sent < |Emits(data, a.limit, a.id)|
  }

  /** What holds of the attempts of one packet: limits go strictly down, every attempt but the
      last was given up before its last datagram, and each attempt that fragments uses the
      counter value after the one before. */
  predicate ValidLog(data: seq<Byte>, log: seq<Attempt>)
    requires |data| > 0
  {
    && (forall a | a in log :: ValidAttempt(data, a))
    && FallingLimits(log)
    && (forall i | 0 <= i < |log| - 1 :: Abandoned(data, log[i]))
    && FreshCounters(|data|, log)
  }

  /** Attempt i is the first that fragments. */
  predicate FirstToFragment(n: nat, log: seq<Attempt>, i: nat)
    requires i < |log|
  {
    TakesFragmentBranch(n, log[i].limit) && (i == 0 || !TakesFragmentBranch(n, log[i - 1].limit))
  }

  /** The first attempt that fragments takes the counter value after `start`. */
  predicate FirstCounter(n: nat, log: seq<Attempt>, start: uint32) {
    forall i | 0 <= i < |log| && FirstToFragment(n, log, i) :: log[i].id == Inc32(start)
  }

  lemma FirstCounterGrows(n: nat, log: seq<Attempt>, a: Attempt, start: uint32)
    requires FirstCounter(n, log, start)
    requires FirstToFragment(n, log + [a], |log|) ==> a.id == Inc32(start)
    ensures FirstCounter(n, log + [a], start)
  {
    var longer := log + [a];
    forall i | 0 <= i < |longer| && FirstToFragment(n, longer, i) ensures longer[i].id == Inc32(start) {
      if i < |log| {
        assert FirstToFragment(n, log, i);
      }
    }
  }

  /** An attempt under a lower limit and, if it fragments, with the next counter value
      extends a log of attempts that were all given up. */
  lemma LogGrows(data: seq<Byte>, log: seq<Attempt>, a: Attempt)
    requires |data| > 0 && ValidLog(data, log) && ValidAttempt(data, a)
    requires forall i | 0 <= i < |log| :: Abandoned(data, log[i]) && log[i].limit > a.limit
    requires log != [] && TakesFragmentBranch(|data|, log[|log| - 1].limit) ==>
      a.id == Inc32(log[|log| - 1].id)
    ensures ValidLog(data, log + [a])
    ensures OnWire(data, log + [a]) == OnWire(data, log) + Emits(data, a.limit, a.id)[..a.sent]
  {
    OnWireGrows(data, log, a);
    hide Emits, OnWire;
    var longer := log + [a];
    forall i | 0 <= i < |longer| - 1 ensures Abandoned(data, longer[i]) {
      assert longer[i] == log[i];
    }
    forall b | b in longer ensures ValidAttempt(data, b) {
      assert b == a || b in log;
    }
    CountersGrow(|data|, log, a);
  }

  lemma OnWireGrows(data: seq<Byte>, log: seq<Attempt>, a: Attempt)
    requires |data| > 0 && ValidAttempt(data, a) && forall b | b in log :: ValidAttempt(data, b)
    ensures forall b | b in log + [a] :: ValidAttempt(data, b)
    ensures OnWire(data, log + [a]) == OnWire(data, log) + Emits(data, a.limit, a.id)[..a.sent]
  {
    hide Emits;
    var longer := log + [a];
    assert longer[..|longer| - 1] == log;
  }

  lemma CountersGrow(n: nat, log: seq<Attempt>, a: Attempt)
    requires FreshCounters(n, log)
    requires log != [] ==> a.limit < log[|log| - 1].limit
    requires log != [] && TakesFragmentBranch(n, log[|log| - 1].limit) ==> a.id == Inc32(log[|log| - 1].id)
    ensures FreshCounters(n, log + [a])
  {
    var longer := log + [a];
    forall i, j | 0 <= i < j < |longer| && TakesFragmentBranch(n, longer[i].limit)
      ensures TakesFragmentBranch(n, longer[j].limit)
      ensures longer[j].id == (longer[i].id + (j - i)) % 0x1_0000_0000
    {
      if j == |log| {
        var last := |log| - 1;
        assert i < last ==> log[last].id == (log[i].id + (last - i)) % 0x1_0000_0000;
        StepsAdd(log[i].id, last - i);
      }
    }
  }

  lemma StepsAdd(id: uint32, d: nat)
    ensures Inc32((id + d) % 0x1_0000_0000) == (id + (d + 1)) % 0x1_0000_0000
  {
  }

  /** Where the 16-bit start and end of a fragment agree with the mathematical ones: always,
      except that the end of the last fragment may wrap to below its start. */
  lemma SixteenBitBounds(n: nat, chunk: uint16, i: uint16)
    requires 0 < n < 0xFFFF && chunk > 0 && i < FragmentCount(n, chunk)
    ensures Mul16(i, chunk) == i * chunk
    ensures
      var end := Add16(Mul16(i, chunk), chunk);
      if (i + 1) * chunk <= 0xFFFF then end == (i + 1) * chunk
      else end < i * chunk && end <= n && i + 1 == FragmentCount(n, chunk)
  {
    FragmentInside(n, chunk, i);
    var start := i * chunk;
    assert start < n;
    SumWraps(start, chunk);
  }

  lemma SumWraps(x: uint16, y: uint16)
    ensures Add16(x, y) == if x + y <= 0xFFFF then x + y else x + y - 0x1_0000
  {
  }

  /** Between two attempts: all so far were given up, under limits above the present one,
      and the counter stands where the last of them left it. */
  predicate AllGivenUp(data: seq<Byte>, log: seq<Attempt>, start: uint32, counter: uint32, limit: uint16)
    requires |data| > 0
  {
    && ValidLog(data, log)
    && FirstCounter(|data|, log, start)
    && (forall i | 0 <= i < |log| :: Abandoned(data, log[i]) && log[i].limit > limit)
    && counter == if log != [] && TakesFragmentBranch(|data|, log[|log| - 1].limit) then log[|log| - 1].id else start
  }

  lemma NoAttemptsYet(data: seq<Byte>, start: uint32, limit: uint16)
    requires |data| > 0
    ensures AllGivenUp(data, [], start, start, limit) && OnWire(data, []) == []
  {
  }

  lemma NextAttempt(data: seq<Byte>, log: seq<Attempt>, start: uint32, counter: uint32, a: Attempt)
    requires |data| > 0 && AllGivenUp(data, log, start, counter, a.limit) && ValidAttempt(data, a)
    requires a.id == if TakesFragmentBranch(|data|, a.limit) then Inc32(counter) else counter
    ensures ValidLog(data, log + [a]) && FirstCounter(|data|, log + [a], start)
    ensures OnWire(data, log + [a]) == OnWire(data, log) + Emits(data, a.limit, a.id)[..a.sent]
    ensures forall limit: uint16 | limit < a.limit && Abandoned(data, a) ::
      AllGivenUp(data, log + [a], start, a.id, limit)
  {
    hide Emits, OnWire, FreshCounters, FirstCounter;
    LogGrows(data, log, a);
    FirstCounterGrows(|data|, log, a, start);
  }

  lemma EmitsFragments(data: seq<Byte>, limit: uint16, id: uint32)
    requires |data| > 0 && TakesFragmentBranch(|data|, limit)
    ensures Emits(data, limit, id) ==
      if limit > HEADER_LENGTH then AllFramed(Cut(data, limit - HEADER_LENGTH), id) else []
    ensures limit > HEADER_LENGTH ==> |Emits(data, limit, id)| == FragmentCount(|data|, limit - HEADER_LENGTH) > 0
  {
    if limit > HEADER_LENGTH {
      CountBounds(|data|, limit - HEADER_LENGTH);
    }
  }

  lemma BelowHeader(limit: uint16)
    ensures Sub16(limit, HEADER_LENGTH) ==
      if limit >= HEADER_LENGTH then limit - HEADER_LENGTH else limit + 0x1_0000 - HEADER_LENGTH
  {
  }

  /** How an attempt ended, in terms of the network's answers to the calls `from` to `to`, and what
      became of the limit. Every datagram sent was accepted; at most one more call was made. */
  ghost predicate EndedAs(network: nat -> SendOutcome, initialized: bool, n: nat, limit: uint16, sent: nat,
      from: nat, to: nat, limitAfter: uint16, r: Result)
    requires n > 0
  {
    && (forall k | from <= k < from + sent :: network(k) == Accepted)
    && (sent > 0 ==> initialized)
    && (r != LimitReduced ==> limitAfter == limit)
    && match r
      case Done => to == from + sent
      case LimitReduced =>
        && initialized && to == from + sent + 1 && network(from + sent).TooLarge?
        && network(from + sent).max < limit && limitAfter == network(from + sent).max % 0x1_0000
      case SendFailed =>
        && initialized && to == from + sent + 1
        && (network(from + sent).Broken? || (network(from + sent).TooLarge? && network(from + sent).max >= limit))
      case NotReady => !initialized && to == from && sent == 0
      case PayloadTooLarge =>
        initialized && to == from && sent == 0 && (n == 0xFFFF || (limit < HEADER_LENGTH && !FitsWhole(n, limit)))
      case Panicked =>
        && to == from + sent && TakesFragmentBranch(n, limit) && limit >= HEADER_LENGTH && !Completes(n, limit)
        && sent == if limit == HEADER_LENGTH then 0 else FragmentCount(n, limit - HEADER_LENGTH) - 1
      case SizeOutOfBounds => false
  }

  /** From this call on, the network accepts every datagram or names a lower limit, under which
      the packet can still be sent. */
  ghost predicate Helpful(network: nat -> SendOutcome, n: nat, limit: uint16, from: nat) {
    && Sendable(n, limit)
    && (forall k | k >= from :: network(k) == Accepted ||
          (network(k).TooLarge? && 0 <= network(k).max < limit && Sendable(n, network(k).max)))
    && forall j, k | from <= j < k && network(j).TooLarge? && network(k).TooLarge? :: network(k).max < network(j).max
  }

  lemma HelpfulStep(network: nat -> SendOutcome, n: nat, limit: uint16, sent: nat, from: nat, to: nat,
      limitAfter: uint16, r: Result)
    requires n > 0 && Helpful(network, n, limit, from)
    requires EndedAs(network, true, n, limit, sent, from, to, limitAfter, r)
    ensures r == Done || (r == LimitReduced && Helpful(network, n, limitAfter, to))
  {
    hide FragmentCount;
    assert network(from + sent) == network(from + sent);
  }

  /** A datagram of `length` bytes that was not sent ends the attempt. */
  lemma WriteEnds(network: nat -> SendOutcome, initialized: bool, n: nat, limit: uint16, sent: nat, from: nat, to: nat,
      limitAfter: uint16, r: Result, length: nat)
    requires n > 0 && (forall k | from <= k < from + sent :: network(k) == Accepted) && (sent > 0 ==> initialized)
    requires r in {LimitReduced, PayloadTooLarge, NotReady, SendFailed}
    requires r == NotReady <==> !initialized
    requires r == PayloadTooLarge <==> initialized && length > limit
    requires r == LimitReduced <==> initialized && length <= limit && ReducesTo(network(from + sent), limit)
    requires !(initialized && length <= limit && network(from + sent) == Accepted)
    requires to == from + sent + if r == NotReady || r == PayloadTooLarge then 0 else 1
    requires limitAfter == if r == LimitReduced then network(from + sent).max % 0x1_0000 else limit
    requires length > limit ==> sent == 0 && (n == 0xFFFF || (limit < HEADER_LENGTH && !FitsWhole(n, limit)))
    ensures EndedAs(network, initialized, n, limit, sent, from, to, limitAfter, r)
  {
    hide Completes, FragmentCount;
  }

  predicate ReducesTo(outcome: SendOutcome, limit: uint16) {
    outcome.TooLarge? && outcome.max < limit
  }

  lemma AllSentEnds(network: nat -> SendOutcome, initialized: bool, n: nat, limit: uint16, sent: nat, from: nat)
    requires n > 0 && (forall k | from <= k < from + sent :: network(k) == Accepted) && (sent > 0 ==> initialized)
    ensures EndedAs(network, initialized, n, limit, sent, from, from + sent, limit, Done)
  {
  }

  /** The last fragment's end does not fit into 16 bits. */
  lemma PanicEnds(network: nat -> SendOutcome, initialized: bool, n: nat, limit: uint16, sent: nat, from: nat)
    requires n > 0 && (forall k | from <= k < from + sent :: network(k) == Accepted) && (sent > 0 ==> initialized)
    requires TakesFragmentBranch(n, limit) && limit > HEADER_LENGTH
    requires sent == FragmentCount(n, limit - HEADER_LENGTH) - 1 && !Completes(n, limit)
    ensures EndedAs(network, initialized, n, limit, sent, from, from + sent, limit, Panicked)
  {
  }

  lemma CallsMade(network: nat -> SendOutcome, initialized: bool, n: nat, limit: uint16, sent: nat, from: nat, to: nat,
      limitAfter: uint16, r: Result)
    requires n > 0 && EndedAs(network, initialized, n, limit, sent, from, to, limitAfter, r) && r != LimitReduced
    ensures from == to - sent - if r == SendFailed then 1 else 0
  {
  }

  lemma LastOnWire(data: seq<Byte>, log: seq<Attempt>)
    requires |data| > 0 && log != [] && forall a | a in log :: ValidAttempt(data, a)
    ensures
      var a := log[|log| - 1];
      ValidAttempt(data, a) && Complete(data, a) ==> EndsWith(OnWire(data, log), Emits(data, a.limit, a.id))
  {
    var a := log[|log| - 1];
    assert a in log;
    assert Emits(data, a.limit, a.id)[..|Emits(data, a.limit, a.id)|] == Emits(data, a.limit, a.id);
  }

  predicate EndsWith(wire: seq<Message>, ms: seq<Message>) {
    |ms| <= |wire| && wire[|wire| - |ms|..] == ms
  }

  lemma EndsWithAppend(wire: seq<Message>, more: seq<Message>, ms: seq<Message>)
    requires EndsWith(more, ms)
    ensures EndsWith(wire + more, ms)
  {
  }

  lemma LastDoesNotFit(n: nat, limit: uint16, chunk: uint16, count: nat)
    requires n > 0 && chunk > 0 && count == FragmentCount(n, chunk) && count * chunk > 0xFFFF
    requires limit >= HEADER_LENGTH && chunk + HEADER_LENGTH == limit && !FitsWhole(n, limit)
    ensures !Completes(n, limit)
  {
  }

  /** Fragments keep to the limit; below the header's length none does. */
  lemma MessageLength(data: seq<Byte>, chunk: uint16, id: uint32, i: nat, limit: uint16)
    requires 0 < |data| && chunk > 0 && i < FragmentCount(|data|, chunk)
    requires limit >= HEADER_LENGTH ==> chunk + HEADER_LENGTH == limit
    ensures
      var length := |AllFramed(Cut(data, chunk), id)[i]|;
      if limit >= HEADER_LENGTH then length <= limit else length > limit
  {
    hide IdBytes, Flag;
    var bodies := Cut(data, chunk);
    assert bodies[i] == Body(data, chunk, i);
  }

  class Sender {
    const adapter: WebTransportAdapter
    var remoteProtocolVersion: int
    var isReady: bool
    var isClosing: bool
    var fragmentationEnabled: bool
    var lastFragmentID: uint32
    var closedWithError: bool
    ghost var log: seq<Attempt>

    constructor (adapter: WebTransportAdapter)
      ensures this.adapter == adapter && lastFragmentID == 0 && log == []
    {
      this.adapter := adapter;
      remoteProtocolVersion, isReady, isClosing, fragmentationEnabled := 0, false, false, false;
      lastFragmentID, closedWithError, log := 0, false, [];
    }

    predicate Open()
      reads this
    {
      remoteProtocolVersion != 0 && isReady && !isClosing
    }

    ghost predicate NetworkAcceptsAll()
      reads this, adapter
    {
      adapter.isFullyInitialized && forall k :: adapter.network(k) == Accepted
    }

    /** What a call leaves behind: the log of its attempts, their datagrams on the wire, the limit
        of the last one, and an answer that is the last one's and never a reduced limit. */
    ghost predicate Finished(data: seq<Byte>, attempts: seq<Attempt>, start: uint32, r: Result)
      requires 0 < |data|
      reads this, adapter
    {
      attempts != [] && ValidLog(data, attempts) && FirstCounter(|data|, attempts, start) &&
      var last := attempts[|attempts| - 1];
      var calls := adapter.calls - last.sent - if r == SendFailed then 1 else 0;
      && last in attempts && ValidAttempt(data, last)
      && lastFragmentID == last.id && adapter.maxPayloadLen == last.limit
      && r != LimitReduced && (r == Done <==> Complete(data, last))
      && calls >= 0
      && EndedAs(adapter.network, adapter.isFullyInitialized, |data|, last.limit, last.sent, calls, adapter.calls,
           adapter.maxPayloadLen, r)
    }

    /** Sending a packet. Nothing happens before the version exchange or once the socket closes;
        without fragmentation the packet is one datagram; otherwise attempts are made until one
        ends with anything but a reduced limit. What the attempts put on the wire and how they
        relate is `OnWire` and `ValidLog`; the packet is out exactly when the last one completed,
        with all its datagrams under the final limit, and a helpful network gets it there. */
    method WritePacket(data: seq<Byte>) returns (r: Result)
      requires adapter.SizesNotNegative()
      modifies `lastFragmentID, `log, `closedWithError, adapter`maxPayloadLen, adapter`wire, adapter`calls
      ensures !Open() ==> r == Done && unchanged(this) && unchanged(adapter)
      ensures Open() && !fragmentationEnabled ==>
        && adapter.wire == old(adapter.wire) + (if r == Done then [data] else [])
        && log == old(log) && lastFragmentID == old(lastFragmentID)
        && closedWithError == (old(closedWithError) || r != Done)
      ensures Open() && !fragmentationEnabled ==>
        var initialized, limit, calls := adapter.isFullyInitialized, old(adapter.maxPayloadLen), old(adapter.calls);
        && (r == NotReady <==> !initialized)
        && (r == PayloadTooLarge <==> initialized && |data| > limit)
        && (r == Done <==> initialized && |data| <= limit && adapter.network(calls) == Accepted)
        && (r == LimitReduced <==>
              initialized && |data| <= limit && adapter.network(calls).TooLarge? && adapter.network(calls).max < limit)
        && r in {Done, LimitReduced, PayloadTooLarge, NotReady, SendFailed}
        && adapter.calls == (if r == NotReady || r == PayloadTooLarge then calls else calls + 1)
        && adapter.maxPayloadLen == (if r == LimitReduced then adapter.network(calls).max else limit)
      ensures Open() && fragmentationEnabled ==>
        && (r == SizeOutOfBounds <==> !(0 < |data| <= 0xFFFF))
        && closedWithError == (old(closedWithError) || r == SizeOutOfBounds)
        && if r == SizeOutOfBounds then unchanged(adapter) && log == old(log) && lastFragmentID == old(lastFragmentID)
           else
             |old(log)| < |log| && old(log) <= log
             && var attempts := log[|old(log)|..];
             && Finished(data, attempts, old(lastFragmentID), r)
             && adapter.wire == old(adapter.wire) + OnWire(data, attempts)
             && (r == Done ==> EndsWith(adapter.wire, Emits(data, adapter.maxPayloadLen, lastFragmentID)))
      ensures Open() && fragmentationEnabled && adapter.isFullyInitialized
          && Helpful(adapter.network, |data|, old(adapter.maxPayloadLen), old(adapter.calls))
        ==> r == Done
    {
      hide OnWire, Finished, EndsWith, Emits;
      if remoteProtocolVersion == 0 || !isReady || isClosing {
        return Done;
      }
      if !fragmentationEnabled {
        r := adapter.WriteDataMessage(data);
        if r != Done {
          closedWithError := true;
        }
        return;
      }
      if |data| <= 0 || |data| > 0xFFFF {
        closedWithError := true;
        return SizeOutOfBounds;
      }
      r := WriteUntilFinal(data);
    }

    method WriteUntilFinal(data: seq<Byte>) returns (r: Result)
      requires 0 < |data| <= 0xFFFF && adapter.SizesNotNegative()
      modifies `lastFragmentID, `log, adapter`maxPayloadLen, adapter`wire, adapter`calls
      ensures r != SizeOutOfBounds
      ensures |old(log)| < |log| && old(log) <= log
      ensures
        var attempts := log[|old(log)|..];
        && Finished(data, attempts, old(lastFragmentID), r)
        && adapter.wire == old(adapter.wire) + OnWire(data, attempts)
        && (r == Done ==> EndsWith(adapter.wire, Emits(data, adapter.maxPayloadLen, lastFragmentID)))
      ensures adapter.isFullyInitialized
          && Helpful(adapter.network, |data|, old(adapter.maxPayloadLen), old(adapter.calls))
        ==> r == Done
    {
      hide Emits, OnWire, ValidLog, FirstCounter, TakesFragmentBranch, Completes, AllGivenUp, EndedAs, Helpful,
        EndsWith;
      ghost var helped := adapter.isFullyInitialized &&
        Helpful(adapter.network, |data|, adapter.maxPayloadLen, adapter.calls);
      NoAttemptsYet(data, lastFragmentID, adapter.maxPayloadLen);
      ghost var attempts: seq<Attempt> := [];
      while true
        invariant log == old(log) + attempts
        invariant AllGivenUp(data, attempts, old(lastFragmentID), lastFragmentID, adapter.maxPayloadLen)
        invariant forall a | a in attempts :: ValidAttempt(data, a)
        invariant adapter.wire == old(adapter.wire) + OnWire(data, attempts)
        invariant helped ==> adapter.isFullyInitialized
        invariant helped ==> Helpful(adapter.network, |data|, adapter.maxPayloadLen, adapter.calls)
        decreases adapter.maxPayloadLen
      {
        ghost var before, wire, counter, calls := attempts, adapter.wire, lastFragmentID, adapter.calls;
        var maxLen := adapter.maxPayloadLen;
        r := WritePacketFragmented(data, maxLen);
        ghost var a := Attempt(maxLen, lastFragmentID, |adapter.wire| - |wire|);
        attempts := before + [a];
        NextAttempt(data, before, old(lastFragmentID), counter, a);
        if helped {
          HelpfulStep(adapter.network, |data|, maxLen, a.sent, calls, adapter.calls, adapter.maxPayloadLen, r);
        }
        if r != LimitReduced {
          CallsMade(adapter.network, adapter.isFullyInitialized, |data|, maxLen, a.sent, calls, adapter.calls,
            adapter.maxPayloadLen, r);
          assert log[|old(log)|..] == attempts;
          LastOnWire(data, attempts);
          if r == Done {
            EndsWithAppend(old(adapter.wire), OnWire(data, attempts), Emits(data, a.limit, a.id));
          }
          break;
        }
      }
    }

    /** One attempt. The wire grows by a prefix of the attempt's datagrams, the whole of them
        exactly when the answer is Done. On a network that accepts everything the answer is
        Done exactly for the sizes and limits of `Completes`. */
    method WritePacketFragmented(data: seq<Byte>, maxLen: uint16) returns (r: Result)
      requires 0 < |data| <= 0xFFFF
      requires maxLen == adapter.maxPayloadLen
      modifies `lastFragmentID, `log, adapter`maxPayloadLen, adapter`wire, adapter`calls
      ensures lastFragmentID ==
        if TakesFragmentBranch(|data|, maxLen) then Inc32(old(lastFragmentID)) else old(lastFragmentID)
      ensures
        var sent := |adapter.wire| - |old(adapter.wire)|;
        var ms := Emits(data, maxLen, lastFragmentID);
        && 0 <= sent <= |ms|
        && adapter.wire == old(adapter.wire) + ms[..sent]
        && (r == Done <==> sent == |ms| && sent > 0)
        && (r == LimitReduced ==> sent < |ms|)
        && log == old(log) + [Attempt(maxLen, lastFragmentID, sent)]
      ensures r != SizeOutOfBounds
      ensures r == LimitReduced && adapter.SizesNotNegative() ==> adapter.maxPayloadLen < maxLen
      ensures r != LimitReduced ==> adapter.maxPayloadLen == maxLen
      ensures NetworkAcceptsAll() ==> (r == Done <==> Completes(|data|, maxLen))
      ensures NetworkAcceptsAll() ==>
        (r == Panicked <==> TakesFragmentBranch(|data|, maxLen) && maxLen >= 5 && !Completes(|data|, maxLen))
      ensures EndedAs(adapter.network, adapter.isFullyInitialized, |data|, maxLen, |adapter.wire| - |old(adapter.wire)|,
                old(adapter.calls), adapter.calls, adapter.maxPayloadLen, r)
    {
      var dataLen: uint16 := |data|;
      if Add16(dataLen, 1) <= maxLen {
        r := WriteWhole(data);
        return;
      }
      lastFragmentID := Inc32(lastFragmentID);
      r := WriteFragments(data, maxLen);
    }

    method WriteWhole(data: seq<Byte>) returns (r: Result)
      requires 0 < |data| < 0x1_0000 && (FitsWhole(|data|, adapter.maxPayloadLen) || |data| == 0xFFFF)
      modifies `log, adapter`maxPayloadLen, adapter`wire, adapter`calls
      ensures
        var sent := |adapter.wire| - |old(adapter.wire)|;
        var ms := Emits(data, old(adapter.maxPayloadLen), lastFragmentID);
        && 0 <= sent <= |ms|
        && adapter.wire == old(adapter.wire) + ms[..sent]
        && (r == Done <==> sent == |ms| && sent > 0)
        && (r == LimitReduced ==> sent < |ms|)
        && log == old(log) + [Attempt(old(adapter.maxPayloadLen), lastFragmentID, sent)]
      ensures r != SizeOutOfBounds && r != Panicked
      ensures r == LimitReduced && adapter.SizesNotNegative() ==> adapter.maxPayloadLen < old(adapter.maxPayloadLen)
      ensures r != LimitReduced ==> adapter.maxPayloadLen == old(adapter.maxPayloadLen)
      ensures NetworkAcceptsAll() ==> (r == Done <==> FitsWhole(|data|, old(adapter.maxPayloadLen)))
      ensures EndedAs(adapter.network, adapter.isFullyInitialized, |data|, old(adapter.maxPayloadLen),
                |adapter.wire| - |old(adapter.wire)|, old(adapter.calls), adapter.calls, adapter.maxPayloadLen, r)
    {
      hide EndedAs;
      ghost var calls, limit := adapter.calls, adapter.maxPayloadLen;
      ghost var ms := Emits(data, limit, lastFragmentID);
      r := adapter.WriteDataMessage([WHOLE] + data);
      log := log + [Attempt(limit, lastFragmentID, if r == Done then 1 else 0)];
      if r == Done {
        assert ms[..1] == [[WHOLE] + data];
        AllSentEnds(adapter.network, adapter.isFullyInitialized, |data|, limit, 1, calls);
      } else {
        WriteEnds(adapter.network, adapter.isFullyInitialized, |data|, limit, 0, calls, adapter.calls,
          adapter.maxPayloadLen, r, |data| + 1);
      }
    }

    method WriteFragments(data: seq<Byte>, maxLen: uint16) returns (r: Result)
      requires 0 < |data| && TakesFragmentBranch(|data|, maxLen)
      requires maxLen == adapter.maxPayloadLen
      modifies `log, adapter`maxPayloadLen, adapter`wire, adapter`calls
      ensures
        var sent := |adapter.wire| - |old(adapter.wire)|;
        var ms := Emits(data, maxLen, lastFragmentID);
        && 0 <= sent <= |ms|
        && adapter.wire == old(adapter.wire) + ms[..sent]
        && (r == Done <==> sent == |ms| && sent > 0)
        && (r == LimitReduced ==> sent < |ms|)
        && log == old(log) + [Attempt(maxLen, lastFragmentID, sent)]
      ensures r != SizeOutOfBounds
      ensures r == LimitReduced && adapter.SizesNotNegative() ==> adapter.maxPayloadLen < maxLen
      ensures r != LimitReduced ==> adapter.maxPayloadLen == maxLen
      ensures NetworkAcceptsAll() ==> (r == Done <==> Completes(|data|, maxLen))
      ensures NetworkAcceptsAll() ==> (r == Panicked <==> maxLen >= 5 && !Completes(|data|, maxLen))
      ensures EndedAs(adapter.network, adapter.isFullyInitialized, |data|, maxLen, |adapter.wire| - |old(adapter.wire)|,
                old(adapter.calls), adapter.calls, adapter.maxPayloadLen, r)
    {
      EmitsFragments(data, maxLen, lastFragmentID);
      BelowHeader(maxLen);
      hide Emits, Cut, AllFramed, Sub16;
      var dataLen: uint16 := |data|;
      var chunk := Sub16(maxLen, HEADER_LENGTH);
      if chunk == 0 {
        log := log + [Attempt(maxLen, lastFragmentID, 0)];
        return Panicked;
      }
      var fragmentCount := CountFragments(dataLen, chunk);
      hide FragmentCount;
      var sent;
      r, sent := SendAll(data, chunk, fragmentCount);
      log := log + [Attempt(maxLen, lastFragmentID, sent)];
    }

    static method CountFragments(dataLen: uint16, chunk: uint16) returns (fragmentCount: uint16)
      requires 0 < dataLen < 0xFFFF && chunk > 0
      ensures fragmentCount == FragmentCount(dataLen, chunk)
    {
      fragmentCount := dataLen / chunk;
      if dataLen % chunk != 0 {
        fragmentCount := fragmentCount + 1;
      }
    }

    /** The fragment loop; `sent` is the value of its counter when it ends. */
    method SendAll(data: seq<Byte>, chunk: uint16, fragmentCount: uint16) returns (r: Result, sent: uint16)
      requires 0 < |data| < 0xFFFF && chunk > 0
      requires fragmentCount == FragmentCount(|data|, chunk)
      requires adapter.maxPayloadLen >= HEADER_LENGTH ==> chunk + HEADER_LENGTH == adapter.maxPayloadLen
      requires !FitsWhole(|data|, adapter.maxPayloadLen)
      modifies adapter`maxPayloadLen, adapter`wire, adapter`calls
      ensures sent <= fragmentCount
      ensures adapter.wire == old(adapter.wire) + AllFramed(Cut(data, chunk), lastFragmentID)[..sent]
      ensures r == Done <==> sent == fragmentCount
      ensures old(adapter.maxPayloadLen) < HEADER_LENGTH ==> sent == 0 && r != Panicked
      ensures r != SizeOutOfBounds
      ensures r == LimitReduced && adapter.SizesNotNegative() ==> adapter.maxPayloadLen < old(adapter.maxPayloadLen)
      ensures r != LimitReduced ==> adapter.maxPayloadLen == old(adapter.maxPayloadLen)
      ensures r == LimitReduced ==> sent < fragmentCount && old(adapter.maxPayloadLen) >= HEADER_LENGTH
      ensures r == Panicked ==> fragmentCount * chunk > 0xFFFF
      ensures NetworkAcceptsAll() && old(adapter.maxPayloadLen) > HEADER_LENGTH ==>
        if fragmentCount * chunk > 0xFFFF then r == Panicked else r == Done
      ensures EndedAs(adapter.network, adapter.isFullyInitialized, |data|, old(adapter.maxPayloadLen), sent,
                old(adapter.calls), adapter.calls, adapter.maxPayloadLen, r)
    {
      ghost var ms, from, limit := AllFramed(Cut(data, chunk), lastFragmentID), adapter.calls, adapter.maxPayloadLen;
      CountBounds(|data|, chunk);
      hide IdBytes, FragmentCount, Cut, AllFramed, Flag, EndedAs, Framed, FitsWhole;
      var frag: uint16 := 0;
      while frag < fragmentCount
        invariant frag <= fragmentCount
        invariant adapter.maxPayloadLen == limit
        invariant limit < HEADER_LENGTH ==> frag == 0
        invariant adapter.wire == old(adapter.wire) + ms[..frag]
        invariant frag == fragmentCount ==> fragmentCount * chunk <= 0xFFFF
        invariant adapter.calls == from + frag && (frag > 0 ==> adapter.isFullyInitialized)
        invariant forall k | from <= k < adapter.calls :: adapter.network(k) == Accepted
      {
        r := WriteFragment(data, chunk, fragmentCount, frag, from);
        if r != Done {
          return r, frag;
        }
        assert ms[..frag] + [ms[frag]] == ms[..frag + 1];
        frag := frag + 1;
      }
      AllSentEnds(adapter.network, adapter.isFullyInitialized, |data|, limit, frag, from);
      r, sent := Done, frag;
    }

    /** One round of the loop: a fragment goes out, or the attempt ends. */
    method WriteFragment(data: seq<Byte>, chunk: uint16, fragmentCount: uint16, frag: uint16, ghost from: nat)
      returns (r: Result)
      requires 0 < |data| < 0xFFFF && chunk > 0
      requires fragmentCount == FragmentCount(|data|, chunk) && frag < fragmentCount
      requires adapter.maxPayloadLen >= HEADER_LENGTH ==> chunk + HEADER_LENGTH == adapter.maxPayloadLen
      requires adapter.maxPayloadLen < HEADER_LENGTH ==> frag == 0
      requires !FitsWhole(|data|, adapter.maxPayloadLen)
      requires adapter.calls == from + frag && (frag > 0 ==> adapter.isFullyInitialized)
      requires forall k | from <= k < from + frag :: adapter.network(k) == Accepted
      modifies adapter`maxPayloadLen, adapter`wire, adapter`calls
      ensures adapter.wire == old(adapter.wire) +
        if r == Done then [AllFramed(Cut(data, chunk), lastFragmentID)[frag]] else []
      ensures r == Done ==>
        && adapter.isFullyInitialized && old(adapter.maxPayloadLen) >= HEADER_LENGTH
        && adapter.network(old(adapter.calls)) == Accepted && adapter.calls == old(adapter.calls) + 1
        && adapter.maxPayloadLen == old(adapter.maxPayloadLen)
        && (frag + 1) * chunk <= 0xFFFF
      ensures r != Done ==>
        EndedAs(adapter.network, adapter.isFullyInitialized, |data|, old(adapter.maxPayloadLen), frag, from,
          adapter.calls, adapter.maxPayloadLen, r)
      ensures r == Panicked ==> frag + 1 == fragmentCount && fragmentCount * chunk > 0xFFFF
      ensures r == LimitReduced ==> old(adapter.maxPayloadLen) >= HEADER_LENGTH
      ensures r == LimitReduced && adapter.SizesNotNegative() ==> adapter.maxPayloadLen < old(adapter.maxPayloadLen)
      ensures NetworkAcceptsAll() && old(adapter.maxPayloadLen) > HEADER_LENGTH ==> r in {Done, Panicked}
      ensures old(adapter.maxPayloadLen) < HEADER_LENGTH ==> r != Panicked
    {
      hide IdBytes, FragmentCount, Cut, AllFramed, Flag, EndedAs, Framed, FitsWhole;
      ghost var limit := adapter.maxPayloadLen;
      FragmentInside(|data|, chunk, frag);
      var message := MakeFragment(data, chunk, fragmentCount, lastFragmentID, frag);
      if message.None? {
        LastDoesNotFit(|data|, limit, chunk, fragmentCount);
        PanicEnds(adapter.network, adapter.isFullyInitialized, |data|, limit, frag, from);
        return Panicked;
      }
      MessageLength(data, chunk, lastFragmentID, frag, limit);
      r := adapter.WriteDataMessage(message.value);
      if r != Done {
        WriteEnds(adapter.network, adapter.isFullyInitialized, |data|, limit, frag, from, adapter.calls,
          adapter.maxPayloadLen, r, |message.value|);
      }
    }

    /** One round of the fragment loop, with the sender's 16-bit arithmetic; None stands for
        the panic of slicing backwards. The arithmetic goes wrong only where the mathematical
        end of the fragment does not fit into 16 bits. */
    static method MakeFragment(data: seq<Byte>, chunk: uint16, fragmentCount: uint16, id: uint32, frag: uint16)
      returns (message: Option<Message>)
      requires 0 < |data| < 0xFFFF && chunk > 0
      requires fragmentCount == FragmentCount(|data|, chunk) && frag < fragmentCount
      ensures message ==
        if (frag + 1) * chunk <= 0xFFFF then Some(Framed(Cut(data, chunk), id, frag)) else None
      ensures frag + 1 < fragmentCount ==> message.Some?
    {
      var dataLen: uint16 := |data|;
      var fragFlag: Byte := frag % 0x100;
      if frag == fragmentCount - 1 && fragFlag < 0x80 {
        fragFlag := fragFlag + 0x80;
      }
      var fragStart := Mul16(frag, chunk);
      var fragEnd := Add16(fragStart, chunk);
      if fragEnd > dataLen {
        fragEnd := dataLen;
      }
      SixteenBitBounds(|data|, chunk, frag);
      FragmentInside(|data|, chunk, frag);
      hide IdBytes, FragmentCount;
      if fragEnd < fragStart {
        return None;
      }
      message := Some([fragFlag] + IdBytes(id) + data[fragStart..fragEnd]);
    }
  }
}
