/** The receiving side of shared/sockets/data_message.go: groups of fragments by wire id,
    completion decided by counting, expiry by age. `Receive` and `Sweep` say on values what
    the methods of `Receiver` do to the socket's state. */
module Reassembly {
  import opened MachineInts
  import opened Fragmentation

  /** A 7-bit index, or a negative number as long as none is known. */
  type LastIndex = x: int | x < 0x80

  datatype Group = Group(lastIndex: LastIndex, data: map<Byte, seq<Byte>>, time: int)

  type Buffer = map<uint32, Group>

  /** What `lastIndex` holds until the last fragment has arrived. */
  const NOT_SET: LastIndex := -1000

  /** 30 seconds, in the clock's nanoseconds. */
  const EXPIRY: int := 30_000_000_000

  datatype Received = Received(buffer: Buffer, delivered: Option<seq<Byte>>, ok: bool)

  /** Pass a payload up to packet handler and interface, unless it is empty. */
  function PassUp(buffer: Buffer, payload: seq<Byte>): Received {
    if payload == [] then Received(buffer, None, false) else Received(buffer, Some(payload), true)
  }

  /** The bodies under keys 0 to n - 1, one after the other; a missing one counts as empty. */
  function Join(data: map<Byte, seq<Byte>>, n: nat): seq<Byte>
    requires n <= 0x100
  {
    if n == 0 then [] else Join(data, n - 1) + if n - 1 in data then data[n - 1] else []
  }

  function GroupOf(buffer: Buffer, id: uint32, now: int): Group {
    if id in buffer then buffer[id] else Group(NOT_SET, map[], now)
  }

  function Store(group: Group, index: Byte, isLast: bool, body: seq<Byte>, now: int): Group
    requires index < 0x80
  {
    Group(if isLast then index else group.lastIndex, group.data[index := body], now)
  }

  /** A fragment arrives for packet `id`; the group is passed up and dropped once it counts
      as many fragments as its last index asks for. */
  function ReceiveFragment(buffer: Buffer, id: uint32, index: Byte, isLast: bool, body: seq<Byte>, now: int): Received
    requires index < 0x80
  {
    var group := Store(GroupOf(buffer, id, now), index, isLast, body, now);
    if |group.data| == group.lastIndex + 1 then
      PassUp(buffer - {id}, Join(group.data, group.lastIndex + 1))
    else
      Received(buffer[id := group], None, true)
  }

  function Receive(buffer: Buffer, m: Message, now: int): Received {
    if |m| < 2 then Received(buffer, None, false)
    else if m[0] == WHOLE then PassUp(buffer, m[1..])
    else if |m| < 6 then Received(buffer, None, false)
    else ReceiveFragment(buffer, IdFromBytes(m[1..5]), m[0] % 0x80, m[0] >= 0x80, m[5..], now)
  }

  /** Drop the groups whose last fragment arrived longer ago than the expiry time. */
  function Sweep(buffer: Buffer, now: int): Buffer {
    map id | id in buffer && now - buffer[id].time <= EXPIRY :: buffer[id]
  }

  function Deliver(queue: seq<seq<Byte>>, payload: Option<seq<Byte>>): seq<seq<Byte>> {
    if payload.Some? then queue + [payload.value] else queue
  }

  /** Too short for what its first byte says. */
  predicate Malformed(m: Message) {
    |m| < 2 || (m[0] != WHOLE && |m| < 6)
  }

  /** No stored body is empty, and a known last fragment is there. */
  predicate Sound(group: Group) {
    && (forall i | i in group.data :: group.data[i] != [])
    && (group.lastIndex >= 0 ==> group.lastIndex in group.data)
  }

  predicate AllSound(buffer: Buffer) {
    forall id | id in buffer :: Sound(buffer[id])
  }

  /** From a sound buffer on, a message is refused, and changes nothing, exactly if it is
      malformed; and the buffer stays sound. */
  lemma RefusedExactly(buffer: Buffer, m: Message, now: int)
    requires AllSound(buffer)
    ensures
      var r := Receive(buffer, m, now);
      && (!r.ok <==> Malformed(m))
      && (!r.ok ==> r.buffer == buffer && r.delivered.None?)
      && AllSound(r.buffer)
  {
    hide ReceiveFragment, IdFromBytes, Sound;
    if !Malformed(m) && m[0] != WHOLE {
      FragmentTaken(buffer, IdFromBytes(m[1..5]), m[0] % 0x80, m[0] >= 0x80, m[5..], now);
    }
  }

  lemma FragmentTaken(buffer: Buffer, id: uint32, index: Byte, isLast: bool, body: seq<Byte>, now: int)
    requires AllSound(buffer) && index < 0x80 && body != []
    ensures
      var r := ReceiveFragment(buffer, id, index, isLast, body, now);
      r.ok && AllSound(r.buffer)
  {
    hide Join, Sound, Store, GroupOf;
    var group := Store(GroupOf(buffer, id, now), index, isLast, body, now);
    StoreSound(buffer, id, index, isLast, body, now);
    if |group.data| == group.lastIndex + 1 {
      JoinEnds(group.data, group.lastIndex);
    }
  }

  lemma StoreSound(buffer: Buffer, id: uint32, index: Byte, isLast: bool, body: seq<Byte>, now: int)
    requires AllSound(buffer) && index < 0x80 && body != []
    ensures
      var group := Store(GroupOf(buffer, id, now), index, isLast, body, now);
      && Sound(group)
      && (|group.data| == group.lastIndex + 1 ==>
            group.lastIndex >= 0 && group.lastIndex in group.data && group.data[group.lastIndex] != [])
  {
    var group := Store(GroupOf(buffer, id, now), index, isLast, body, now);
    assert index in group.data;
  }

  lemma JoinEnds(data: map<Byte, seq<Byte>>, last: Byte)
    requires last in data && data[last] != []
    ensures Join(data, last + 1) != []
  {
  }

  lemma UpdateThenDrop(buffer: Buffer, id: uint32, group: Group)
    ensures buffer[id := group] - {id} == buffer - {id}
  {
  }

  /** One partly received packet. */
  class FragmentsInfo {
    var lastIndex: LastIndex
    var data: map<Byte, seq<Byte>>
    var time: int

    constructor (now: int)
      ensures View() == Group(NOT_SET, map[], now)
    {
      lastIndex, data, time := NOT_SET, map[], now;
    }

    function View(): Group
      reads this
    {
      Group(lastIndex, data, time)
    }

    method Add(index: Byte, isLast: bool, body: seq<Byte>, now: int)
      requires index < 0x80
      modifies this
      ensures View() == Store(old(View()), index, isLast, body, now)
    {
      time := now;
      data := data[index := body];
      if isLast {
        lastIndex := index;
      }
    }
  }

  datatype HandlerAnswer = Handled | NotHandled | HandlerError

  /** The part of a socket that receives data messages. `handler` and `iface` are the packet
      handler's and the interface's answers to a packet (`iface`: whether the write succeeds),
      if there are any. What is passed up to them is recorded in `delivered`. */
  class Receiver {
    const handler: Option<seq<Byte> -> HandlerAnswer>
    const iface: Option<seq<Byte> -> bool>
    var remoteProtocolVersion: int
    var isReady: bool
    var isClosing: bool
    var fragmentationEnabled: bool
    var defragBuffer: map<uint32, FragmentsInfo>
    var delivered: seq<seq<Byte>>
    ghost var Repr: set<FragmentsInfo>

    constructor (handler: Option<seq<Byte> -> HandlerAnswer>, iface: Option<seq<Byte> -> bool>)
      ensures Valid() && View() == map[] && delivered == []
      ensures this.handler == handler && this.iface == iface
      ensures remoteProtocolVersion == 0 && !isReady && !isClosing && !fragmentationEnabled
    {
      this.handler, this.iface := handler, iface;
      remoteProtocolVersion, isReady, isClosing, fragmentationEnabled := 0, false, false, false;
      defragBuffer, delivered, Repr := map[], [], {};
    }

    /** The groups are objects of `Repr`, and no two of them are the same object. */
    ghost predicate Valid()
      reads `defragBuffer, `Repr
    {
      && (forall id | id in defragBuffer :: defragBuffer[id] in Repr)
      && forall a, b | a in defragBuffer && b in defragBuffer && a != b :: defragBuffer[a] != defragBuffer[b]
    }

    ghost function View(): (buffer: Buffer)
      requires Valid()
      reads `defragBuffer, `Repr, Repr
    {
      map id | id in defragBuffer :: defragBuffer[id].View()
    }

    /** Messages are dropped until the version exchange is over and once the socket closes. */
    predicate Open()
      reads this
    {
      remoteProtocolVersion != 0 && isReady && !isClosing
    }

    /** No error on the way up: the interface gets only what the handler leaves to it. */
    predicate Accepts(packet: seq<Byte>) {
      (handler.Some? && handler.value(packet) == Handled)
      || (!(handler.Some? && handler.value(packet) == HandlerError) && (iface.Some? ==> iface.value(packet)))
    }

    method ProcessPacket(packet: seq<Byte>) returns (ok: bool)
      modifies `delivered
      ensures ok == (packet != [] && Accepts(packet))
      ensures packet != [] && handler.Some? && handler.value(packet) == Handled ==> ok
      ensures packet == [] || (handler.Some? && handler.value(packet) == HandlerError) ==> !ok
      ensures packet != [] && (handler.None? || handler.value(packet) == NotHandled) ==>
        ok == (iface.None? || iface.value(packet))
      ensures delivered == old(delivered) + if packet != [] then [packet] else []
    {
      if |packet| < 1 {
        return false;
      }
      delivered := delivered + [packet];
      if handler.Some? {
        match handler.value(packet) {
          case HandlerError => return false;
          case Handled => return true;
          case NotHandled =>
        }
      }
      if iface.None? {
        return true;
      }
      return iface.value(packet);
    }

    /** The answer to a message: no error in the message nor on the way up. */
    predicate Answer(r: Received) {
      r.ok && (r.delivered.Some? ==> Accepts(r.delivered.value))
    }

    method HandleDataMessage(message: Message, now: int) returns (ok: bool)
      requires Valid()
      modifies `defragBuffer, `delivered, `Repr, Repr
      ensures Valid() && fresh(Repr - old(Repr))
      ensures
        var r :=
          if !Open() then Received(old(View()), None, true)
          else if !fragmentationEnabled then PassUp(old(View()), message)
          else Receive(old(View()), message, now);
        && View() == r.buffer
        && delivered == Deliver(old(delivered), r.delivered)
        && ok == Answer(r)
    {
      hide ReceiveFragment, IdFromBytes;
      if remoteProtocolVersion == 0 || !isReady || isClosing {
        return true;
      }
      if !fragmentationEnabled {
        ok := ProcessPacket(message);
        return;
      }
      if |message| < 2 {
        return false;
      }
      var fragHeader := message[0];
      if fragHeader == WHOLE {
        ok := ProcessPacket(message[1..]);
        return;
      }
      if |message| < 6 {
        return false;
      }
      ok := StoreFragment(IdFromBytes(message[1..5]), fragHeader % 0x80, fragHeader >= 0x80, message[5..], now);
    }

    /** The group of a packet id, a new empty one if there is none. */
    method FindGroup(packetID: uint32, now: int) returns (info: FragmentsInfo)
      requires Valid()
      modifies `defragBuffer, `Repr
      ensures Valid() && fresh(Repr - old(Repr))
      ensures packetID in defragBuffer && defragBuffer[packetID] == info
      ensures View() == old(View())[packetID := GroupOf(old(View()), packetID, now)]
    {
      if packetID in defragBuffer {
        info := defragBuffer[packetID];
      } else {
        info := new FragmentsInfo(now);
        defragBuffer := defragBuffer[packetID := info];
        Repr := Repr + {info};
      }
    }

    method AddToGroup(packetID: uint32, fragIndex: Byte, isLast: bool, body: seq<Byte>, now: int)
      returns (info: FragmentsInfo)
      requires Valid()
      requires fragIndex < 0x80
      modifies `defragBuffer, `Repr, Repr
      ensures Valid() && fresh(Repr - old(Repr))
      ensures packetID in defragBuffer && defragBuffer[packetID] == info
      ensures info.View() == Store(GroupOf(old(View()), packetID, now), fragIndex, isLast, body, now)
      ensures View() == old(View())[packetID := info.View()]
    {
      info := FindGroup(packetID, now);
      ghost var mid := View();
      assert mid[packetID] == info.View();
      info.Add(fragIndex, isLast, body, now);
      assert View() == mid[packetID := info.View()];
    }

    method StoreFragment(packetID: uint32, fragIndex: Byte, isLast: bool, body: seq<Byte>, now: int) returns (ok: bool)
      requires Valid()
      requires fragIndex < 0x80
      modifies `defragBuffer, `delivered, `Repr, Repr
      ensures Valid() && fresh(Repr - old(Repr))
      ensures
        var r := ReceiveFragment(old(View()), packetID, fragIndex, isLast, body, now);
        && View() == r.buffer
        && delivered == Deliver(old(delivered), r.delivered)
        && ok == Answer(r)
    {
      hide Join, Store, GroupOf, Accepts;
      ghost var was := View();
      var fragInfo := AddToGroup(packetID, fragIndex, isLast, body, now);
      ghost var group := fragInfo.View();
      if |fragInfo.data| == fragInfo.lastIndex + 1 {
        ok := PassUpGroup(packetID, fragInfo.lastIndex + 1, fragInfo.data);
        UpdateThenDrop(was, packetID, group);
      } else {
        ok := true;
      }
    }

    method PassUpGroup(packetID: uint32, n: nat, data: map<Byte, seq<Byte>>) returns (ok: bool)
      requires Valid() && n <= 0x80
      modifies `defragBuffer, `delivered
      ensures Valid()
      ensures
        var r := PassUp(old(View()) - {packetID}, Join(data, n));
        && View() == r.buffer
        && delivered == Deliver(old(delivered), r.delivered)
        && ok == Answer(r)
    {
      hide Accepts;
      DropGroup(packetID);
      var buf := Assemble(data, n);
      ok := ProcessPacket(buf);
    }

    method DropGroup(packetID: uint32)
      requires Valid()
      modifies `defragBuffer
      ensures Valid()
      ensures View() == old(View()) - {packetID}
    {
      defragBuffer := defragBuffer - {packetID};
    }

    static method Assemble(data: map<Byte, seq<Byte>>, n: nat) returns (buf: seq<Byte>)
      requires n <= 0x80
      ensures buf == Join(data, n)
    {
      buf := [];
      for i := 0 to n
        invariant buf == Join(data, i)
      {
        buf := buf + if i in data then data[i] else [];
      }
    }

    /** Two passes: collect, then delete. */
    method CleanupFragments(now: int)
      requires Valid()
      modifies `defragBuffer
      ensures Valid()
      ensures View() == Sweep(old(View()), now)
    {
      var deleteIndices: seq<uint32> := [];
      var todo := defragBuffer.Keys;
      while todo != {}
        invariant todo <= defragBuffer.Keys
        invariant forall id :: id in deleteIndices <==>
          id in defragBuffer.Keys - todo && now - defragBuffer[id].time > EXPIRY
      {
        var id :| id in todo;
        if now - defragBuffer[id].time > EXPIRY {
          deleteIndices := deleteIndices + [id];
        }
        todo := todo - {id};
      }
      ghost var was := defragBuffer;
      for i := 0 to |deleteIndices|
        invariant defragBuffer == was - (set k | k in deleteIndices[..i])
      {
        defragBuffer := defragBuffer - {deleteIndices[i]};
      }
    }
  }
}
