/** Opening and closing a socket: the flags of shared/sockets/base.go, whose critical sections
    under the close lock are the steps here. */
module SocketLifecycle {
  datatype Notice = Up | Down

  /** The flags, what the outside has been told so far, and how often it was told. */
  datatype Life = Life(
    closing: bool,
    chanOpen: bool,
    ready: bool,
    upSent: bool,
    notices: seq<Notice>,    // calls of the event pusher
    chanCloses: nat,         // a second one would panic
    adapterCloses: nat,
    errorReports: nat,
    registered: bool)        // with the packet handler

  const FRESH := Life(false, true, false, false, [], 0, 0, 0, false)

  datatype Setup = Setup(hasPusher: bool, hasHandler: bool)

  /** What every effective close does. */
  function ShutDown(setup: Setup, l: Life): Life {
    l.(closing := true,
       ready := true,
       chanOpen := false,
       chanCloses := l.chanCloses + (if l.chanOpen then 1 else 0),
       adapterCloses := l.adapterCloses + 1,
       registered := l.registered && !setup.hasHandler,
       upSent := l.upSent && !setup.hasPusher,
       notices := l.notices + if setup.hasPusher && l.upSent then [Down] else [])
  }

  datatype Op =
    | Register     // the start of Serve
    | Announce     // the end of Serve
    | Greet        // the peer's version is handled
    | Close        // Close, or a finished goroutine's closeDone
    | CloseError

  predicate Closes(op: Op) {
    op.Close? || op.CloseError?
  }

  function Next(setup: Setup, l: Life, op: Op): Life {
    match op
    case Register => l.(registered := l.registered || setup.hasHandler)
    case Announce =>
      if setup.hasPusher && l.chanOpen then l.(upSent := true, notices := l.notices + [Up]) else l
    case Greet => l.(ready := true)
    case Close => if l.closing then l else ShutDown(setup, l)
    case CloseError =>
      ShutDown(setup, l).(errorReports := l.errorReports + (if l.closing then 0 else 1))
  }

  class Socket {
    const hasEventPusher: bool
    const hasPacketHandler: bool
    var isClosing: bool
    var closeChanOpen: bool
    var isReady: bool
    var upEventSent: bool
    var pushed: seq<Notice>
    var chanCloses: nat
    var adapterCloses: nat
    var errorReports: nat
    var registered: bool

    constructor (hasEventPusher: bool, hasPacketHandler: bool)
      ensures View() == FRESH && Configured() == Setup(hasEventPusher, hasPacketHandler)
    {
      this.hasEventPusher, this.hasPacketHandler := hasEventPusher, hasPacketHandler;
      isClosing, closeChanOpen, isReady, upEventSent := false, true, false, false;
      pushed, chanCloses, adapterCloses, errorReports, registered := [], 0, 0, 0, false;
    }

    function View(): Life
      reads this
    {
      Life(isClosing, closeChanOpen, isReady, upEventSent, pushed, chanCloses, adapterCloses, errorReports, registered)
    }

    function Configured(): Setup {
      Setup(hasEventPusher, hasPacketHandler)
    }

    method SetReady()
      modifies `isReady
      ensures View() == Next(Configured(), old(View()), Greet)
    {
      isReady := true;
    }

    /** The part that Close and CloseError share; only Close has it close the adapter at once. */
    method CloseWith(closeAdapter: bool)
      modifies this
      ensures
        var after := ShutDown(Configured(), old(View()));
        View() == if closeAdapter then after else after.(adapterCloses := old(adapterCloses))
    {
      isClosing := true;
      if closeAdapter {
        adapterCloses := adapterCloses + 1;
      }
      if closeChanOpen {
        closeChanOpen := false;
        chanCloses := chanCloses + 1;
      }
      if hasPacketHandler {
        registered := false;
      }
      SetReady();
      if hasEventPusher && upEventSent {
        upEventSent := false;
        pushed := pushed + [Down];
      }
    }

    method Close()
      modifies this
      ensures View() == Next(Configured(), old(View()), Op.Close)
    {
      if isClosing {
        return;
      }
      CloseWith(true);
    }

    /** The error report and the adapter's close, left to a goroutine the first time, are
        counted here. */
    method CloseError()
      modifies this
      ensures View() == Next(Configured(), old(View()), Op.CloseError)
    {
      var wasClosing := isClosing;
      CloseWith(false);
      if !wasClosing {
        errorReports := errorReports + 1;
      }
      adapterCloses := adapterCloses + 1;
    }

    method ServeRegisters()
      modifies this
      ensures View() == Next(Configured(), old(View()), Register)
    {
      if hasPacketHandler {
        registered := true;
      }
    }

    method ServeAnnounces()
      modifies this
      ensures View() == Next(Configured(), old(View()), Announce)
    {
      if hasEventPusher {
        if closeChanOpen {
          upEventSent := true;
          pushed := pushed + [Up];
        }
      }
    }
  }

  /** The socket after any calls in any order. */
  function Exec(setup: Setup, ops: seq<Op>): Life {
    if ops == [] then FRESH else Next(setup, Exec(setup, ops[..|ops| - 1]), ops[|ops| - 1])
  }

  predicate SomeClose(ops: seq<Op>) {
    exists k | 0 <= k < |ops| :: Closes(ops[k])
  }

  /** How often Serve got to its end before the first close. */
  function Announced(ops: seq<Op>): nat {
    if ops == [] || Closes(ops[0]) then 0
    else (if ops[0] == Announce then 1 else 0) + Announced(ops[1..])
  }

  function Errors(ops: seq<Op>): nat {
    if ops == [] then 0 else (if ops[0] == CloseError then 1 else 0) + Errors(ops[1..])
  }

  /** What the event pusher is told. */
  function Told(announced: nat, closed: bool): seq<Notice> {
    seq(announced, _ => Up) + if closed && announced > 0 then [Down] else []
  }

  /** The first close call is a CloseError. */
  predicate FailsFirst(ops: seq<Op>) {
    exists k | 0 <= k < |ops| :: ops[k] == CloseError && !SomeClose(ops[..k])
  }

  /** The whole history in one formula: the channel is closed once, by the first close call; the
      adapter is closed by the first call and by every CloseError; the error is reported only
      if it came first; and the event pusher hears Up for every Serve before the first close,
      then Down if it heard Up at all. */
  predicate ClosedForm(setup: Setup, ops: seq<Op>, l: Life) {
    var closed := SomeClose(ops);
    && l.closing == closed == !l.chanOpen
    && l.ready == (closed || Greet in ops)
    && l.chanCloses == (if closed then 1 else 0)
    && l.adapterCloses == Errors(ops) + (if closed && !FailsFirst(ops) then 1 else 0)
    && l.errorReports == (if FailsFirst(ops) then 1 else 0)
    && l.notices == (if setup.hasPusher then Told(Announced(ops), closed) else [])
    && l.upSent == (setup.hasPusher && Announced(ops) > 0 && !closed)
  }

  /** For every sequence of calls in any order. */
  lemma {:induction false} LifeInClosedForm(setup: Setup, ops: seq<Op>)
    ensures ClosedForm(setup, ops, Exec(setup, ops))
  {
    if ops != [] {
      hide ClosedForm, Next;
      var before, op := ops[..|ops| - 1], ops[|ops| - 1];
      LifeInClosedForm(setup, before);
      ClosedFormGrows(setup, before, Exec(setup, before), op);
      assert ops == before + [op];
    }
  }

  lemma ClosedFormGrows(setup: Setup, before: seq<Op>, l: Life, op: Op)
    requires ClosedForm(setup, before, l)
    ensures ClosedForm(setup, before + [op], Next(setup, l, op))
  {
    hide SomeClose, Announced, Errors, FailsFirst, Told;
    LastStep(before, op);
    FailsFirstCloses(before);
    ToldGrows(Announced(before));
    StepInClosedForm(setup, l, SomeClose(before), Announced(before), op);
  }

  lemma FailsFirstCloses(ops: seq<Op>)
    ensures FailsFirst(ops) ==> SomeClose(ops)
  {
    if k :| 0 <= k < |ops| && ops[k] == CloseError && !SomeClose(ops[..k]) {
      assert Closes(ops[k]);
    }
  }

  /** One step, seen from the flags, the channel and the notices so far. */
  lemma StepInClosedForm(setup: Setup, l: Life, closed: bool, announced: nat, op: Op)
    requires l.closing == closed == !l.chanOpen && l.chanCloses == (if closed then 1 else 0)
    requires l.notices == (if setup.hasPusher then Told(announced, closed) else [])
    requires l.upSent == (setup.hasPusher && announced > 0 && !closed)
    requires Told(announced + 1, false) == Told(announced, false) + [Up]
    requires Told(announced, true) == Told(announced, false) + if announced > 0 then [Down] else []
    ensures
      var next, after := Next(setup, l, op), announced + if op == Announce && !closed then 1 else 0;
      && next.closing == (closed || Closes(op)) == !next.chanOpen
      && next.chanCloses == (if closed || Closes(op) then 1 else 0)
      && next.notices == (if setup.hasPusher then Told(after, closed || Closes(op)) else [])
      && next.upSent == (setup.hasPusher && after > 0 && !(closed || Closes(op)))
  {
    hide Told;
    assert l.notices + [] == l.notices;
  }

  lemma ToldGrows(n: nat)
    ensures Told(n + 1, false) == Told(n, false) + [Up]
    ensures Told(n, true) == Told(n, false) + if n > 0 then [Down] else []
  {
  }

  lemma {:induction false} LastStep(before: seq<Op>, op: Op)
    ensures
      var ops := before + [op];
      && SomeClose(ops) == (SomeClose(before) || Closes(op))
      && Errors(ops) == Errors(before) + (if op == CloseError then 1 else 0)
      && Announced(ops) == Announced(before) + (if op == Announce && !SomeClose(before) then 1 else 0)
      && FailsFirst(ops) == (FailsFirst(before) || (op == CloseError && !SomeClose(before)))
  {
    SomeCloseAppend(before, op);
    ErrorsAppend(before, op);
    AnnouncedAppend(before, op);
    FailsFirstAppend(before, op);
  }

  lemma SomeCloseAppend(before: seq<Op>, op: Op)
    ensures SomeClose(before + [op]) == (SomeClose(before) || Closes(op))
  {
    var ops := before + [op];
    assert ops[|before|] == op;
    if k :| 0 <= k < |before| && Closes(before[k]) {
      assert Closes(ops[k]);
    }
  }

  lemma {:induction false} ErrorsAppend(before: seq<Op>, op: Op)
    ensures Errors(before + [op]) == Errors(before) + if op == CloseError then 1 else 0
  {
    if before == [] {
      assert before + [op] == [op];
    } else {
      ErrorsAppend(before[1..], op);
      assert (before + [op])[1..] == before[1..] + [op];
    }
  }

  lemma {:induction false} AnnouncedAppend(before: seq<Op>, op: Op)
    ensures Announced(before + [op]) == Announced(before) + if op == Announce && !SomeClose(before) then 1 else 0
  {
    if before == [] {
      assert before + [op] == [op];
    } else {
      AnnouncedAppend(before[1..], op);
      assert (before + [op])[1..] == before[1..] + [op];
      if !Closes(before[0]) && SomeClose(before) {
        var k :| 0 <= k < |before| && Closes(before[k]);
        assert Closes(before[1..][k - 1]);
      }
    }
  }

  lemma FailsFirstAppend(before: seq<Op>, op: Op)
    ensures FailsFirst(before + [op]) == (FailsFirst(before) || (op == CloseError && !SomeClose(before)))
  {
    var ops := before + [op];
    assert forall k | 0 <= k <= |before| :: ops[..k] == before[..k];
    assert before[..|before|] == before;
    assert ops[|before|] == op;
    if k :| 0 <= k < |before| && before[k] == CloseError && !SomeClose(before[..k]) {
      assert ops[k] == CloseError && !SomeClose(ops[..k]);
    }
    if op == CloseError && !SomeClose(before) {
      assert ops[|before|] == CloseError && !SomeClose(ops[..|before|]);
    }
  }

  // --- what follows -----------------------------------------------------------------------

  /** The pusher hears a prefix of Up, Down exactly if Serve ended at most once before the
      first close, and then an unanswered Up is what the flag records. */
  lemma NoticesWellFormedExactly(setup: Setup, ops: seq<Op>)
    ensures
      var l := Exec(setup, ops);
      && (l.notices <= [Up, Down] <==> !setup.hasPusher || Announced(ops) <= 1)
      && (l.notices <= [Up, Down] ==> (l.upSent <==> l.notices == [Up]))
  {
    LifeInClosedForm(setup, ops);
    var n := Announced(ops);
    var told := Told(n, SomeClose(ops));
    if n >= 2 {
      assert told[1] == Up;
    }
  }

  /** A close before Serve gets to its end keeps the socket silent, whatever is called later. */
  lemma {:induction false} ClosedFirstStaysSilent(setup: Setup, ops: seq<Op>, more: seq<Op>)
    requires SomeClose(ops) && Announced(ops) == 0
    ensures Exec(setup, ops + more).notices == []
  {
    if more == [] {
      assert ops + more == ops;
      LifeInClosedForm(setup, ops);
    } else {
      hide Announced, Errors, FailsFirst, Told, Next;
      var before, op := more[..|more| - 1], more[|more| - 1];
      ClosedFirstStaysSilent(setup, ops, before);
      assert (ops + more)[..|ops + more| - 1] == ops + before;
      StaysClosed(ops, before);
      LifeInClosedForm(setup, ops + before);
      ClosedLifeIsQuiet(setup, Exec(setup, ops + before), op);
    }
  }

  lemma StaysClosed(ops: seq<Op>, more: seq<Op>)
    requires SomeClose(ops)
    ensures SomeClose(ops + more)
  {
    var k :| 0 <= k < |ops| && Closes(ops[k]);
    assert Closes((ops + more)[k]);
  }

  lemma ClosedLifeIsQuiet(setup: Setup, l: Life, op: Op)
    requires !l.chanOpen && !l.upSent
    ensures Next(setup, l, op).notices == l.notices
  {
  }

  /** This call unregisters: the first close, or any CloseError. */
  predicate Unregisters(ops: seq<Op>, k: nat)
    requires k < |ops|
  {
    ops[k] == CloseError || (ops[k] == Close && !SomeClose(ops[..k]))
  }

  predicate RegisteredLast(ops: seq<Op>) {
    exists k | 0 <= k < |ops| :: ops[k] == Register && forall j | k < j < |ops| :: !Unregisters(ops, j)
  }

  /** A socket is with the packet handler exactly if it registered and no first close and no
      CloseError came later; so one that registers after a plain close stays there. */
  lemma {:induction false} StaysRegisteredExactly(setup: Setup, ops: seq<Op>)
    ensures Exec(setup, ops).registered <==> setup.hasHandler && RegisteredLast(ops)
  {
    if ops != [] {
      var before, op := ops[..|ops| - 1], ops[|ops| - 1];
      StaysRegisteredExactly(setup, before);
      LifeInClosedForm(setup, before);
      RegisteredLastAppend(before, op);
      assert ops == before + [op];
    }
  }

  lemma RegisteredLastAppend(before: seq<Op>, op: Op)
    ensures
      var ops := before + [op];
      RegisteredLast(ops) <==> op == Register || (RegisteredLast(before) && !Unregisters(ops, |before|))
  {
    var ops := before + [op];
    assert forall k | 0 <= k <= |before| :: ops[..k] == before[..k];
    assert forall k: nat | k < |before| :: Unregisters(ops, k) == Unregisters(before, k);
    if RegisteredLast(before) && !Unregisters(ops, |before|) {
      var k :| 0 <= k < |before| && before[k] == Register && forall j | k < j < |before| :: !Unregisters(before, j);
      assert ops[k] == Register;
    }
    if op == Register {
      assert ops[|before|] == Register;
    }
    if RegisteredLast(ops) && op != Register {
      var k :| 0 <= k < |ops| && ops[k] == Register && forall j | k < j < |ops| :: !Unregisters(ops, j);
      assert before[k] == Register;
    }
  }

  lemma LateRegistrationStays(setup: Setup, ops: seq<Op>)
    requires setup.hasHandler && SomeClose(ops)
    ensures Exec(setup, ops + [Register, Close]).registered && Exec(setup, ops + [Register, Close]).closing
  {
    var run := ops + [Register, Close];
    var k :| 0 <= k < |ops| && Closes(ops[k]);
    assert run[..|ops| + 1] == ops + [Register];
    assert Closes((ops + [Register])[k]) && Closes(run[k]);
    assert run[|ops|] == Register && forall j | |ops| < j < |run| :: !Unregisters(run, j);
    StaysRegisteredExactly(setup, run);
    LifeInClosedForm(setup, run);
  }
}
