/** The version exchange of shared/sockets/base.go and shared/sockets/commands.go: how an end
    comes to use fragmentation headers. */
module Negotiation {
  type Feature = string

  const FRAGMENTATION: Feature := "fragmentation"

  const UNDETERMINED: int := 0
  const FRAGMENTATION_MIN: int := 10
  const FRAGMENTATION_NEGOTIATED_MIN: int := 11
  const FEATURE_FIELD_MIN: int := 12
  const PROTOCOL_VERSION: int := 12

  /** Where the version handler stands: its four assignments are separate steps for whoever
      handles data meanwhile. */
  datatype Stage = Idle | VersionStored(features: set<Feature>) | FeaturesStored | Checked

  datatype End = End(
    local: set<Feature>,
    version: int,
    remote: set<Feature>,
    fragmentation: bool,
    ready: bool,
    closing: bool,
    stage: Stage)

  /** Data is neither sent nor accepted before the exchange is over nor once the socket closes. */
  predicate Open(e: End) {
    e.version != UNDETERMINED && e.ready && !e.closing
  }

  /** The rule for using fragmentation: always with protocol 10, as the own setting says with
      protocol 11, and if both sides list it in all other cases. */
  function FeatureCheck(e: End): End {
    if e.version == UNDETERMINED then e
    else
      e.(fragmentation :=
        if FRAGMENTATION_MIN <= e.version < FRAGMENTATION_NEGOTIATED_MIN then true
        else if FRAGMENTATION_NEGOTIATED_MIN <= e.version < FEATURE_FIELD_MIN then FRAGMENTATION in e.local
        else FRAGMENTATION in e.local && FRAGMENTATION in e.remote)
  }

  /** An init command: from a peer not known to speak protocol 12, it sets both sides' features. */
  function HandleInit(e: End, enabled: bool): End {
    if e.version >= FEATURE_FIELD_MIN then e
    else
      FeatureCheck(e.(local := e.local + {FRAGMENTATION},
                      remote := if enabled then e.remote + {FRAGMENTATION} else e.remote - {FRAGMENTATION}))
  }

  /** The socket's fields that the exchange works on, changed in place as in the source. */
  class NegotiatingSocket {
    var localFeatures: set<Feature>
    var remoteFeatures: set<Feature>
    var usedFeatures: set<Feature>
    var remoteProtocolVersion: int
    var fragmentationEnabled: bool
    var isReady: bool
    var isClosing: bool

    constructor (localFeatures: set<Feature>)
      ensures View() == End(localFeatures, UNDETERMINED, {}, false, false, false, Idle)
    {
      this.localFeatures := localFeatures;
      remoteFeatures, usedFeatures, remoteProtocolVersion := {}, {}, UNDETERMINED;
      fragmentationEnabled, isReady, isClosing := false, false, false;
    }

    function View(): End
      reads this
    {
      End(localFeatures, remoteProtocolVersion, remoteFeatures, fragmentationEnabled, isReady, isClosing, Idle)
    }

    method RunFeatureCheck()
      modifies `usedFeatures, `fragmentationEnabled
      ensures View() == FeatureCheck(old(View()))
      ensures usedFeatures ==
        if remoteProtocolVersion == UNDETERMINED then old(usedFeatures) else localFeatures * remoteFeatures
    {
      if remoteProtocolVersion == UNDETERMINED {
        return;
      }
      usedFeatures := {};
      var todo := localFeatures;
      while todo != {}
        invariant todo <= localFeatures
        invariant usedFeatures == (localFeatures - todo) * remoteFeatures
        invariant fragmentationEnabled == old(fragmentationEnabled)
      {
        var feature :| feature in todo;
        if feature in remoteFeatures {
          usedFeatures := usedFeatures + {feature};
        }
        todo := todo - {feature};
      }
      if FRAGMENTATION_MIN <= remoteProtocolVersion < FRAGMENTATION_NEGOTIATED_MIN {
        fragmentationEnabled := true;
      } else if FRAGMENTATION_NEGOTIATED_MIN <= remoteProtocolVersion < FEATURE_FIELD_MIN {
        fragmentationEnabled := FRAGMENTATION in localFeatures;
      } else {
        fragmentationEnabled := FRAGMENTATION in usedFeatures;
      }
    }

    method HandleInitPacketFragmentation(enabled: bool)
      modifies `localFeatures, `remoteFeatures, `usedFeatures, `fragmentationEnabled
      ensures View() == HandleInit(old(View()), enabled)
      ensures old(remoteProtocolVersion) >= 12 ==> View() == old(View())
      ensures old(remoteProtocolVersion) < 12 ==>
        && localFeatures == old(localFeatures) + {FRAGMENTATION}
        && remoteFeatures - {FRAGMENTATION} == old(remoteFeatures) - {FRAGMENTATION}
        && (FRAGMENTATION in remoteFeatures <==> enabled)
      ensures old(remoteProtocolVersion) == UNDETERMINED ==> fragmentationEnabled == old(fragmentationEnabled)
      ensures old(remoteProtocolVersion) in {10, 11} ==> fragmentationEnabled
      ensures old(remoteProtocolVersion) < 10 && old(remoteProtocolVersion) != UNDETERMINED ==>
        fragmentationEnabled == enabled
    {
      if remoteProtocolVersion >= FEATURE_FIELD_MIN {
        return;
      }
      localFeatures := localFeatures + {FRAGMENTATION};
      if enabled {
        remoteFeatures := remoteFeatures + {FRAGMENTATION};
      } else {
        remoteFeatures := remoteFeatures - {FRAGMENTATION};
      }
      RunFeatureCheck();
    }

    /** The version handler in one go: fragmentation is always used with protocol 10, as the own
        setting says with protocol 11, and exactly if both sides list it in all other cases. */
    method HandleVersion(version: int, features: set<Feature>)
      modifies this
      ensures View() == FeatureCheck(old(View()).(version := version, remote := features)).(ready := true)
      ensures isReady && remoteProtocolVersion == version && remoteFeatures == features
      ensures localFeatures == old(localFeatures) && isClosing == old(isClosing)
      ensures version == UNDETERMINED ==> fragmentationEnabled == old(fragmentationEnabled)
      ensures version == 10 ==> fragmentationEnabled
      ensures version == 11 ==> (fragmentationEnabled <==> FRAGMENTATION in localFeatures)
      ensures version != UNDETERMINED && version !in {10, 11} ==>
        (fragmentationEnabled <==> FRAGMENTATION in localFeatures && FRAGMENTATION in features)
    {
      remoteProtocolVersion := version;
      remoteFeatures := features;
      RunFeatureCheck();
      isReady := true;
    }
  }
}

/** Two ends that both announce protocol 12, joined by two ordered control channels and a data
    channel that may lose, reorder and repeat. */
module NegotiationRuns {
  import opened MachineInts
  import opened Negotiation

  datatype Side = Server | Client

  function Other(s: Side): Side {
    if s == Server then Client else Server
  }

  datatype Control = Version(features: set<Feature>) | Init(enabled: bool)

  /** A data message under way: who sent it, and with fragmentation headers or not. */
  datatype Data = Data(from: Side, framed: bool)

  datatype Config = Config(server: set<Feature>, client: set<Feature>) {
    function Of(s: Side): set<Feature> {
      if s == Server then server else client
    }

    predicate BothList() {
      FRAGMENTATION in server && FRAGMENTATION in client
    }
  }

  /** One value for each side. */
  datatype Pair<T> = Pair(server: T, client: T) {
    function At(s: Side): T {
      if s == Server then server else client
    }

    function With(s: Side, t: T): Pair<T> {
      if s == Server then Pair(t, client) else Pair(server, t)
    }
  }

  datatype State = State(
    ends: Pair<End>,
    inbox: Pair<seq<Control>>,       // control messages under way to each side
    welcomed: Pair<bool>,            // has sent its version
    initSent: bool,
    data: set<Data>,
    overtaken: bool)                 // the client handled init before it knew the server's version

  function FreshEnd(local: set<Feature>): End {
    End(local, UNDETERMINED, {}, false, false, false, Idle)
  }

  function Start(config: Config): State {
    State(Pair(FreshEnd(config.server), FreshEnd(config.client)), Pair([], []), Pair(false, false), false, {}, false)
  }

  datatype Op =
    | SendWelcome(side: Side)
    | SendInit                    // the server, once it knows the client's version
    | TakeControl(side: Side)     // handle the next control message, up to its first assignment
    | StoreFeatures(side: Side)
    | CheckFeatures(side: Side)
    | SetReady(side: Side)
    | BeginClose(side: Side)
    | ReadyByClose(side: Side)
    | SendData(side: Side)

  predicate Enabled(st: State, op: Op) {
    match op
    case SendWelcome(s) => !st.welcomed.At(s)
    case SendInit => st.ends.server.ready && st.ends.server.version >= 1 && !st.initSent
    case TakeControl(s) => st.ends.At(s).stage == Idle && st.inbox.At(s) != []
    case StoreFeatures(s) => st.ends.At(s).stage.VersionStored?
    case CheckFeatures(s) => st.ends.At(s).stage == FeaturesStored
    case SetReady(s) => st.ends.At(s).stage == Checked
    case BeginClose(s) => true
    case ReadyByClose(s) => st.ends.At(s).closing
    case SendData(s) => Open(st.ends.At(s))
  }

  function Update(st: State, s: Side, e: End): State {
    st.(ends := st.ends.With(s, e))
  }

  function Post(st: State, to: Side, m: Control): State {
    st.(inbox := st.inbox.With(to, st.inbox.At(to) + [m]))
  }

  function Next(st: State, op: Op): State
    requires Enabled(st, op)
  {
    match op
    case SendWelcome(s) => Post(st, Other(s), Version(st.ends.At(s).local)).(welcomed := st.welcomed.With(s, true))
    case SendInit => Post(st, Client, Init(FRAGMENTATION in st.ends.server.local)).(initSent := true)
    case TakeControl(s) =>
      var m, e := st.inbox.At(s)[0], st.ends.At(s);
      var rest := st.(inbox := st.inbox.With(s, st.inbox.At(s)[1..]));
      (match m
       case Version(features) => Update(rest, s, e.(version := PROTOCOL_VERSION, stage := VersionStored(features)))
       case Init(enabled) =>
         Update(rest, s, HandleInit(e, enabled)).(overtaken := st.overtaken || e.version == UNDETERMINED))
    case StoreFeatures(s) =>
      Update(st, s, st.ends.At(s).(remote := st.ends.At(s).stage.features, stage := FeaturesStored))
    case CheckFeatures(s) => Update(st, s, FeatureCheck(st.ends.At(s)).(stage := Checked))
    case SetReady(s) => Update(st, s, st.ends.At(s).(ready := true, stage := Idle))
    case BeginClose(s) => Update(st, s, st.ends.At(s).(closing := true))
    case ReadyByClose(s) => Update(st, s, st.ends.At(s).(ready := true))
    case SendData(s) => st.(data := st.data + {Data(s, st.ends.At(s).fragmentation)})
  }

  /** The state after a run; None if some step was not possible where it stands. */
  function Exec(config: Config, ops: seq<Op>): Option<State> {
    if ops == [] then Some(Start(config))
    else
      var st := Exec(config, ops[..|ops| - 1]);
      if st.Some? && Enabled(st.value, ops[|ops| - 1]) then Some(Next(st.value, ops[|ops| - 1])) else None
  }

  /** A message under way that this side would process, not ignore. */
  predicate Processed(st: State, to: Side, m: Data) {
    m in st.data && m.from == Other(to) && Open(st.ends.At(to))
  }

  // --- the invariant --------------------------------------------------------------------

  /** How many version messages are under way to a side. */
  function Versions(inbox: seq<Control>): nat {
    if inbox == [] then 0 else (if inbox[0].Version? then 1 else 0) + Versions(inbox[1..])
  }

  /** A side acts as if it listed fragmentation: an overtaken client always does. */
  predicate Lists(config: Config, overtaken: bool, s: Side) {
    FRAGMENTATION in config.Of(s) || (s == Client && overtaken)
  }

  /** The version handler has got as far as knowing the peer's features, or is through. */
  predicate KnowsPeer(e: End) {
    e.stage in {FeaturesStored, Checked} || (e.version != UNDETERMINED && e.stage == Idle)
  }

  predicate HasChecked(e: End) {
    e.stage == Checked || (e.version != UNDETERMINED && e.stage == Idle)
  }

  /** Features are those configured and announced, but that an overtaken client has gained
      fragmentation; the decision follows the rule; and readiness without closing means that
      the decision has been made. */
  predicate EndOk(config: Config, overtaken: bool, s: Side, e: End) {
    && (FRAGMENTATION in e.local <==> Lists(config, overtaken, s))
    && (s == Server || !overtaken ==> e.local == config.Of(s))
    && (e.stage.VersionStored? ==> e.stage.features == config.Of(Other(s)))
    && (KnowsPeer(e) ==> e.remote == config.Of(Other(s)))
    && (e.stage != Idle ==> e.version == PROTOCOL_VERSION)
    && e.version in {UNDETERMINED, PROTOCOL_VERSION}
    && (HasChecked(e) ==> (e.fragmentation <==> Lists(config, overtaken, s) && FRAGMENTATION in config.Of(Other(s))))
    && (e.ready && !e.closing ==> e.version != UNDETERMINED && e.stage == Idle)
  }

  /** A version under way carries the sender's configured features; each side sends one, so an
      end that has handled it has none under way; init goes to the client only. */
  predicate InboxOk(config: Config, s: Side, inbox: seq<Control>, e: End, peerWelcomed: bool) {
    && (forall k | 0 <= k < |inbox| && inbox[k].Version? :: inbox[k].features == config.Of(Other(s)))
    && (s == Server ==> forall k | 0 <= k < |inbox| :: inbox[k].Version?)
    && Versions(inbox) + (if e.version == UNDETERMINED then 0 else 1) == if peerWelcomed then 1 else 0
  }

  predicate DataOk(config: Config, st: State) {
    forall m | m in st.data ::
      && st.ends.At(m.from).version != UNDETERMINED
      && (m.framed <==> Lists(config, st.overtaken, m.from) && FRAGMENTATION in config.Of(Other(m.from)))
  }

  predicate Inv(config: Config, st: State) {
    && EndOk(config, st.overtaken, Server, st.ends.server)
    && EndOk(config, st.overtaken, Client, st.ends.client)
    && InboxOk(config, Server, st.inbox.server, st.ends.server, st.welcomed.client)
    && InboxOk(config, Client, st.inbox.client, st.ends.client, st.welcomed.server)
    && DataOk(config, st)
    && (st.initSent ==> st.welcomed.client)
    && (!st.initSent ==> !st.overtaken && forall k | 0 <= k < |st.inbox.client| :: st.inbox.client[k].Version?)
  }

  lemma {:induction false} VersionsAppend(inbox: seq<Control>, m: Control)
    ensures Versions(inbox + [m]) == Versions(inbox) + if m.Version? then 1 else 0
  {
    if inbox == [] {
      assert inbox + [m] == [m];
    } else {
      VersionsAppend(inbox[1..], m);
      assert (inbox + [m])[1..] == inbox[1..] + [m];
    }
  }

  lemma SendKeeps(config: Config, st: State, op: Op)
    requires Inv(config, st) && Enabled(st, op) && (op.SendWelcome? || op.SendInit? || op.SendData?)
    ensures Inv(config, Next(st, op))
  {
    if op.SendWelcome? {
      VersionsAppend(st.inbox.At(Other(op.side)), Version(st.ends.At(op.side).local));
    } else if op.SendInit? {
      VersionsAppend(st.inbox.client, Init(FRAGMENTATION in st.ends.server.local));
    }
  }

  lemma TakeKeeps(config: Config, st: State, s: Side)
    requires Inv(config, st) && Enabled(st, TakeControl(s))
    ensures Inv(config, Next(st, TakeControl(s)))
  {
  }

  /** A step that changes one end only, and not what it knows of versions. */
  predicate Local(op: Op) {
    !(op.SendWelcome? || op.SendInit? || op.SendData? || op.TakeControl?)
  }

  lemma LocalStepKeeps(config: Config, st: State, op: Op)
    requires Inv(config, st) && Enabled(st, op) && Local(op)
    ensures Inv(config, Next(st, op))
  {
    LocalStepAtEnd(config, st, op);
    hide Next, EndOk, InboxOk, DataOk, Enabled;
    UpdateKeeps(config, st, op.side, Next(st, op).ends.At(op.side));
  }

  lemma LocalStepAtEnd(config: Config, st: State, op: Op)
    requires Inv(config, st) && Enabled(st, op) && Local(op)
    ensures
      var e := Next(st, op).ends.At(op.side);
      && Next(st, op) == Update(st, op.side, e)
      && e.version == st.ends.At(op.side).version
      && EndOk(config, st.overtaken, op.side, e)
  {
    hide InboxOk, DataOk;
    assert EndOk(config, st.overtaken, op.side, st.ends.At(op.side));
  }

  lemma UpdateKeeps(config: Config, st: State, s: Side, e: End)
    requires Inv(config, st) && EndOk(config, st.overtaken, s, e) && e.version == st.ends.At(s).version
    ensures Inv(config, Update(st, s, e))
  {
    hide EndOk;
  }

  lemma {:induction false} RunKeepsInvariant(config: Config, ops: seq<Op>)
    requires Exec(config, ops).Some?
    ensures Inv(config, Exec(config, ops).value)
  {
    if ops != [] {
      var before, op := ops[..|ops| - 1], ops[|ops| - 1];
      RunKeepsInvariant(config, before);
      var st := Exec(config, before).value;
      if op.SendWelcome? || op.SendInit? || op.SendData? {
        SendKeeps(config, st, op);
      } else if op.TakeControl? {
        TakeKeeps(config, st, op.side);
      } else {
        LocalStepKeeps(config, st, op);
      }
    }
  }

  // --- agreement ------------------------------------------------------------------------

  /** In every reachable state, a data message that is processed was framed the way its
      receiver reads it, exactly unless the server's init overtook its version while the
      server lists fragmentation and the client does not. */
  lemma ProcessedAgreesExactly(config: Config, ops: seq<Op>, to: Side, m: Data)
    requires Exec(config, ops).Some? && Processed(Exec(config, ops).value, to, m)
    ensures
      var st := Exec(config, ops).value;
      m.framed == st.ends.At(to).fragmentation
      <==> !(st.overtaken && FRAGMENTATION in config.server && FRAGMENTATION !in config.client)
  {
    RunKeepsInvariant(config, ops);
    var st := Exec(config, ops).value;
    assert EndOk(config, st.overtaken, to, st.ends.At(to));
  }

  /** The server sends init only after its version. */
  predicate WelcomeFirst(config: Config, ops: seq<Op>) {
    forall k | 0 <= k < |ops| && ops[k] == SendInit && Exec(config, ops[..k]).Some? ::
      Exec(config, ops[..k]).value.welcomed.server
  }

  /** An init under way to the client has the version in front of it or already handled. */
  predicate InitBehindVersion(inbox: seq<Control>, e: End) {
    forall k | 0 <= k < |inbox| && inbox[k].Init? ::
      e.version != UNDETERMINED || exists j | 0 <= j < k :: inbox[j].Version?
  }

  lemma StepNotOvertaken(config: Config, st: State, op: Op)
    requires Inv(config, st) && Enabled(st, op) && (op == SendInit ==> st.welcomed.server)
    requires !st.overtaken && InitBehindVersion(st.inbox.client, st.ends.client)
    ensures !Next(st, op).overtaken && InitBehindVersion(Next(st, op).inbox.client, Next(st, op).ends.client)
  {
    var inbox, next := st.inbox.client, Next(st, op);
    if op == SendInit {
      if st.ends.client.version == UNDETERMINED {
        VersionIsThere(inbox);
        var j :| 0 <= j < |inbox| && inbox[j].Version?;
        assert next.inbox.client[j].Version?;
      }
      StillBehind(inbox, st.ends.client, Init(FRAGMENTATION in st.ends.server.local));
    } else if op == SendWelcome(Server) {
      StillBehind(inbox, st.ends.client, Version(st.ends.server.local));
    } else if op == TakeControl(Client) {
      assert forall k | 0 <= k < |inbox| - 1 :: inbox[1..][k] == inbox[k + 1];
      if inbox[0].Init? {
        assert st.ends.client.version != UNDETERMINED;
      }
    }
  }

  lemma StillBehind(inbox: seq<Control>, e: End, m: Control)
    requires InitBehindVersion(inbox, e)
    requires m.Init? ==> e.version != UNDETERMINED || exists j | 0 <= j < |inbox| :: inbox[j].Version?
    ensures InitBehindVersion(inbox + [m], e)
  {
    var longer := inbox + [m];
    forall k | 0 <= k < |longer| && longer[k].Init? && e.version == UNDETERMINED
      ensures exists j | 0 <= j < k :: longer[j].Version?
    {
      if k < |inbox| {
        assert inbox[k].Init?;
        var j :| 0 <= j < k && inbox[j].Version?;
        assert longer[j].Version?;
      } else {
        var j :| 0 <= j < |inbox| && inbox[j].Version?;
        assert longer[j].Version?;
      }
    }
  }

  lemma {:induction false} VersionIsThere(inbox: seq<Control>)
    requires Versions(inbox) >= 1
    ensures exists k | 0 <= k < |inbox| :: inbox[k].Version?
  {
    if inbox[0].Version? {
    } else {
      VersionIsThere(inbox[1..]);
      var k :| 0 <= k < |inbox[1..]| && inbox[1..][k].Version?;
      assert inbox[k + 1].Version?;
    }
  }

  lemma {:induction false} WelcomeFirstNeverOvertakes(config: Config, ops: seq<Op>)
    requires Exec(config, ops).Some? && WelcomeFirst(config, ops)
    ensures
      var st := Exec(config, ops).value;
      !st.overtaken && InitBehindVersion(st.inbox.client, st.ends.client)
  {
    if ops != [] {
      var before, op := ops[..|ops| - 1], ops[|ops| - 1];
      assert forall k | 0 <= k < |before| :: before[k] == ops[k] && before[..k] == ops[..k];
      WelcomeFirstNeverOvertakes(config, before);
      RunKeepsInvariant(config, before);
      StepNotOvertaken(config, Exec(config, before).value, op);
    }
  }

  /** With the version sent first, in every interleaving of control and data, every data message
      that is processed was sent with headers exactly if both sides list fragmentation, and is
      read accordingly. */
  lemma BothEndsReadAlike(config: Config, ops: seq<Op>, to: Side, m: Data)
    requires Exec(config, ops).Some? && WelcomeFirst(config, ops) && Processed(Exec(config, ops).value, to, m)
    ensures m.framed == Exec(config, ops).value.ends.At(to).fragmentation == config.BothList()
  {
    WelcomeFirstNeverOvertakes(config, ops);
    ProcessedAgreesExactly(config, ops, to, m);
    RunKeepsInvariant(config, ops);
    var st := Exec(config, ops).value;
    assert EndOk(config, st.overtaken, to, st.ends.At(to));
  }

  /** Where a side stands: it has handled the version exactly if SetReady has happened, has begun
      to close exactly if BeginClose has, and is ready exactly if one of them has made it so. */
  predicate Stands(ops: seq<Op>, s: Side, e: End) {
    && (e.version != UNDETERMINED && e.stage == Idle <==> SetReady(s) in ops)
    && (e.closing <==> BeginClose(s) in ops)
    && (SetReady(s) in ops ==> e.ready)
  }

  lemma StepStands(config: Config, before: seq<Op>, st: State, op: Op, s: Side)
    requires Inv(config, st) && Enabled(st, op) && Stands(before, s, st.ends.At(s))
    ensures Stands(before + [op], s, Next(st, op).ends.At(s))
  {
    assert forall o :: o in before + [op] <==> o in before || o == op;
    hide InboxOk, DataOk;
    if op.TakeControl? {
      TakeStands(config, before, st, op.side, s);
    }
  }

  lemma TakeStands(config: Config, before: seq<Op>, st: State, taker: Side, s: Side)
    requires Inv(config, st) && Enabled(st, TakeControl(taker)) && Stands(before, s, st.ends.At(s))
    ensures Stands(before + [TakeControl(taker)], s, Next(st, TakeControl(taker)).ends.At(s))
  {
    assert forall o :: o in before + [TakeControl(taker)] <==> o in before || o == TakeControl(taker);
    HandledHasNoVersion(config, st, taker);
    hide InboxOk, DataOk;
  }

  /** Once the version is known, only init can still be under way. */
  lemma HandledHasNoVersion(config: Config, st: State, s: Side)
    requires Inv(config, st) && st.inbox.At(s) != []
    ensures st.ends.At(s).version != UNDETERMINED ==> st.inbox.At(s)[0].Init?
  {
    assert InboxOk(config, s, st.inbox.At(s), st.ends.At(s), st.welcomed.At(Other(s)));
  }

  lemma {:induction false} RunStands(config: Config, ops: seq<Op>, s: Side)
    requires Exec(config, ops).Some?
    ensures Stands(ops, s, Exec(config, ops).value.ends.At(s))
  {
    if ops != [] {
      hide Stands, Enabled, Next, Inv;
      var before, op := ops[..|ops| - 1], ops[|ops| - 1];
      assert ops == before + [op];
      RunStands(config, before, s);
      RunKeepsInvariant(config, before);
      StepStands(config, before, Exec(config, before).value, op, s);
    }
  }

  /** After every run, a side sends and processes data exactly if it is through with handling the
      peer's version and has not begun to close. */
  lemma OpenExactly(config: Config, ops: seq<Op>, s: Side)
    requires Exec(config, ops).Some?
    ensures Open(Exec(config, ops).value.ends.At(s)) <==> SetReady(s) in ops && BeginClose(s) !in ops
  {
    RunStands(config, ops, s);
    RunKeepsInvariant(config, ops);
    var st := Exec(config, ops).value;
    assert EndOk(config, st.overtaken, s, st.ends.At(s));
  }

  // --- a run that disagrees -------------------------------------------------------------

  lemma ExecStep(config: Config, ops: seq<Op>, op: Op)
    requires Exec(config, ops).Some? && Enabled(Exec(config, ops).value, op)
    ensures Exec(config, ops + [op]) == Some(Next(Exec(config, ops).value, op))
  {
    assert (ops + [op])[..|ops + [op]| - 1] == ops;
  }

  const ONLY_SERVER: Config := Config({FRAGMENTATION}, {})

  /** Client's version handled by the server, whose own version is still to be sent. */
  const SERVER_READY: seq<Op> :=
    [SendWelcome(Client)] + [TakeControl(Server)] + [StoreFeatures(Server)] + [CheckFeatures(Server)]
    + [SetReady(Server)]

  const INIT_OVERTAKES: seq<Op> := SERVER_READY + [SendInit] + [TakeControl(Client)] + [SendWelcome(Server)]

  const CLIENT_READY: seq<Op> :=
    INIT_OVERTAKES + [TakeControl(Client)] + [StoreFeatures(Client)] + [CheckFeatures(Client)] + [SetReady(Client)]

  lemma ServerGetsReady()
    ensures
      var st := Exec(ONLY_SERVER, SERVER_READY);
      && st.Some? && st.value.inbox == Pair([], []) && st.value.welcomed == Pair(false, true)
      && !st.value.initSent && !st.value.overtaken && st.value.data == {}
      && st.value.ends == Pair(End({FRAGMENTATION}, 12, {}, false, true, false, Idle), FreshEnd({}))
  {
    hide Exec;
    var r0 := [SendWelcome(Client)];
    var r1 := r0 + [TakeControl(Server)];
    var r2 := r1 + [StoreFeatures(Server)];
    var r3 := r2 + [CheckFeatures(Server)];
    ServerTakesVersion();
    ExecStep(ONLY_SERVER, r1, StoreFeatures(Server));
    ExecStep(ONLY_SERVER, r2, CheckFeatures(Server));
    ExecStep(ONLY_SERVER, r3, SetReady(Server));
  }

  lemma ServerTakesVersion()
    ensures
      var st := Exec(ONLY_SERVER, [SendWelcome(Client)] + [TakeControl(Server)]);
      st == Some(Start(ONLY_SERVER).(
        welcomed := Pair(false, true),
        ends := Pair(End({FRAGMENTATION}, 12, {}, false, false, false, VersionStored({})), FreshEnd({}))))
  {
    assert Exec(ONLY_SERVER, []) == Some(Start(ONLY_SERVER));
    assert [] + [SendWelcome(Client)] == [SendWelcome(Client)];
    ExecStep(ONLY_SERVER, [], SendWelcome(Client));
    var st := Next(Start(ONLY_SERVER), SendWelcome(Client));
    assert st.inbox.server == [Version({})];
    assert st.inbox.server[1..] == [];
    ExecStep(ONLY_SERVER, [SendWelcome(Client)], TakeControl(Server));
  }

  lemma InitOvertakes()
    ensures
      var st := Exec(ONLY_SERVER, INIT_OVERTAKES);
      && st.Some? && st.value.inbox == Pair([], [Version({FRAGMENTATION})]) && st.value.overtaken && st.value.data == {}
      && st.value.ends.server == End({FRAGMENTATION}, 12, {}, false, true, false, Idle)
      && st.value.ends.client == End({FRAGMENTATION}, UNDETERMINED, {FRAGMENTATION}, false, false, false, Idle)
  {
    hide Exec;
    ServerGetsReady();
    ExecStep(ONLY_SERVER, SERVER_READY, SendInit);
    var st := Exec(ONLY_SERVER, SERVER_READY + [SendInit]).value;
    assert st.inbox.client == [Init(true)];
    assert st.inbox.client[1..] == [];
    ExecStep(ONLY_SERVER, SERVER_READY + [SendInit], TakeControl(Client));
    var st2 := Exec(ONLY_SERVER, SERVER_READY + [SendInit] + [TakeControl(Client)]).value;
    assert st2.inbox.client == [];
    assert {} + {FRAGMENTATION} == {FRAGMENTATION};
    ExecStep(ONLY_SERVER, SERVER_READY + [SendInit] + [TakeControl(Client)], SendWelcome(Server));
    assert [] + [Version({FRAGMENTATION})] == [Version({FRAGMENTATION})];
  }

  lemma OvertakenClientGetsReady()
    ensures
      var st := Exec(ONLY_SERVER, CLIENT_READY);
      && st.Some? && st.value.overtaken && st.value.data == {}
      && st.value.ends.server == End({FRAGMENTATION}, 12, {}, false, true, false, Idle)
      && st.value.ends.client == End({FRAGMENTATION}, 12, {FRAGMENTATION}, true, true, false, Idle)
  {
    InitOvertakes();
    ExecStep(ONLY_SERVER, INIT_OVERTAKES, TakeControl(Client));
    ExecStep(ONLY_SERVER, INIT_OVERTAKES + [TakeControl(Client)], StoreFeatures(Client));
    ExecStep(ONLY_SERVER, INIT_OVERTAKES + [TakeControl(Client)] + [StoreFeatures(Client)], CheckFeatures(Client));
    ExecStep(ONLY_SERVER,
      INIT_OVERTAKES + [TakeControl(Client)] + [StoreFeatures(Client)] + [CheckFeatures(Client)], SetReady(Client));
  }

  /** With init overtaking the version, a server that lists fragmentation sends an unframed
      message to a client that does not list it, and the client reads it as framed. */
  lemma OvertakenRunDisagrees()
    ensures
      var st := Exec(ONLY_SERVER, CLIENT_READY + [SendData(Server)]);
      var m := Data(Server, false);
      st.Some? && Processed(st.value, Client, m) && st.value.ends.client.fragmentation != m.framed
  {
    OvertakenClientGetsReady();
    ExecStep(ONLY_SERVER, CLIENT_READY, SendData(Server));
  }
}
