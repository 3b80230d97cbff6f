/** The control stream of a WebTransport connection: control messages with a two-byte length,
    pings and pongs, each led by a type byte (shared/sockets/adapters/webtransport.go). */
module StreamFraming {
  import opened MachineInts

  const CONTROL: Byte := 0
  const PING: Byte := 1
  const PONG: Byte := 2

  const MAX_CONTROL: nat := 0xFFFF

  type Message = m: seq<Byte> | |m| <= MAX_CONTROL

  datatype Frame = Control(message: Message) | Ping | Pong

  function Bytes(f: Frame): seq<Byte> {
    match f
    case Control(message) => [CONTROL, |message| / 0x100, |message| % 0x100] + message
    case Ping => [PING]
    case Pong => [PONG]
  }

  function Encode(fs: seq<Frame>): seq<Byte> {
    if fs == [] then [] else Bytes(fs[0]) + Encode(fs[1..])
  }

  /** The length in the header of a control message. */
  function Length(input: seq<Byte>): nat
    requires |input| >= 3
  {
    input[2] as int + 0x100 * (input[1] as int)
  }

  /** The frames a reader handles, if no more than `pongs` of its replies to pings go through.
      An unknown type byte is skipped, and a control message that is cut short ends it. */
  function Decode(input: seq<Byte>, pongs: nat): seq<Frame> {
    if input == [] then []
    else if input[0] == CONTROL then
      if |input| < 3 || |input| < 3 + Length(input) then []
      else [Control(input[3..3 + Length(input)])] + Decode(input[3 + Length(input)..], pongs)
    else if input[0] == PING then
      if pongs == 0 then [] else [Ping] + Decode(input[1..], pongs - 1)
    else if input[0] == PONG then [Pong] + Decode(input[1..], pongs)
    else Decode(input[1..], pongs)
  }

  /** The reader gives up on a ping that it could not answer. */
  predicate Unanswered(input: seq<Byte>, pongs: nat) {
    input != [] &&
    if input[0] == CONTROL then
      |input| >= 3 && |input| >= 3 + Length(input) && Unanswered(input[3 + Length(input)..], pongs)
    else if input[0] == PING then pongs == 0 || Unanswered(input[1..], pongs - 1)
    else Unanswered(input[1..], pongs)
  }

  function Pings(fs: seq<Frame>): nat {
    if fs == [] then 0 else (if fs[0] == Ping then 1 else 0) + Pings(fs[1..])
  }

  /** The replies to that many pings. */
  function Pongs(n: nat): seq<Byte> {
    seq(n, _ => PONG)
  }

  // --- the adapter --------------------------------------------------------------------------

  /** The writing side of a stream. It takes a limited number of bytes, then fails. */
  class Stream {
    var sent: seq<Byte>
    var room: nat

    constructor (room: nat)
      ensures sent == [] && this.room == room
    {
      sent, this.room := [], room;
    }

    method Write(data: seq<Byte>) returns (n: nat, failed: bool)
      modifies this
      ensures n <= |data| && sent == old(sent) + data[..n] && room == old(room) - n
      ensures failed <==> |data| > old(room)
      ensures !failed ==> n == |data|
    {
      failed := |data| > room;
      n := if failed then room else |data|;
      sent, room := sent + data[..n], room - n;
    }
  }

  /** What a read answers instead of data. */
  datatype ReadError = EndOfStream | UnexpectedEnd | BrokenStream

  /** The reading side: all that arrives, up to the stream's end or its failure. */
  class Reader {
    const input: seq<Byte>
    const broken: bool
    var pos: nat

    ghost predicate Valid()
      reads this
    {
      pos <= |input|
    }

    ghost function Rest(): seq<Byte>
      reads this
      requires Valid()
    {
      input[pos..]
    }

    constructor (input: seq<Byte>, broken: bool)
      ensures Valid() && Rest() == input && this.broken == broken
    {
      this.input, this.broken, pos := input, broken, 0;
    }

    /** The answer where there is nothing more to read. */
    function AtEnd(): ReadError {
      if broken then BrokenStream else EndOfStream
    }

    method ReadByte() returns (b: Byte, error: Option<ReadError>)
      requires Valid()
      modifies this
      ensures Valid()
      ensures error == if old(Rest()) == [] then Some(AtEnd()) else None
      ensures error.None? ==> b == old(Rest())[0] && Rest() == old(Rest())[1..]
      ensures error.Some? ==> Rest() == []
    {
      if pos == |input| {
        return 0, Some(AtEnd());
      }
      b, error, pos := input[pos], None, pos + 1;
    }

    /** Reads n bytes, or to the end if that comes first. */
    method ReadFull(n: nat) returns (data: seq<Byte>, error: Option<ReadError>)
      requires Valid()
      modifies this
      ensures Valid()
      ensures error.Some? <==> |old(Rest())| < n
      ensures error.Some? ==>
        error.value == if old(Rest()) != [] && !broken then UnexpectedEnd else AtEnd()
      ensures error.None? ==> data == old(Rest())[..n] && Rest() == old(Rest())[n..]
      ensures error.Some? ==> Rest() == []
    {
      if |input| - pos >= n {
        data, error, pos := input[pos..pos + n], None, pos + n;
      } else {
        error := Some(if pos < |input| && !broken then UnexpectedEnd else AtEnd());
        data, pos := input[pos..], |input|;
      }
    }
  }

  datatype SendError = NotReady | TooLarge | Incomplete | StreamError

  class WebTransportStream {
    const stream: Stream
    var isReady: bool
    var isFullyInitialized: bool
    var handled: seq<Frame>      // calls of the control and pong handlers, and answered pings

    constructor (stream: Stream)
      ensures this.stream == stream && handled == [] && !isReady && !isFullyInitialized
    {
      this.stream, isReady, isFullyInitialized, handled := stream, false, false, [];
    }

    /** Sends the whole frame, or says so. */
    method WriteControlMessage(message: seq<Byte>) returns (error: Option<SendError>)
      modifies stream
      ensures !isFullyInitialized ==> error == Some(NotReady)
      ensures isFullyInitialized && |message| > MAX_CONTROL ==> error == Some(TooLarge)
      ensures error.Some? && error.value in {NotReady, TooLarge} ==> unchanged(stream)
      ensures error == None <==>
        isFullyInitialized && |message| <= MAX_CONTROL && |message| + 3 <= old(stream.room)
      ensures error == None ==> stream.sent == old(stream.sent) + Encode([Control(message)])
      ensures isFullyInitialized && |message| <= MAX_CONTROL ==>
        old(stream.sent) <= stream.sent <= old(stream.sent) + Encode([Control(message)])
    {
      if !isFullyInitialized {
        return Some(NotReady);
      }
      var msgLen := |message|;
      if msgLen > 0xFFFF {
        return Some(TooLarge);
      }
      var msg := [CONTROL, (msgLen / 0x100) % 0x100, msgLen % 0x100] + message;
      EncodeOne(Control(message));
      var n, failed := stream.Write(msg);
      if !failed && n != |msg| {
        return Some(Incomplete);
      }
      error := if failed then Some(StreamError) else None;
    }

    method WritePingMessage() returns (error: Option<SendError>)
      modifies stream
      ensures !isReady ==> error == Some(NotReady)
      ensures error == None <==> isReady && old(stream.room) >= 1
      ensures stream.sent == old(stream.sent) + if error == None then Encode([Ping]) else []
    {
      if !isReady {
        return Some(NotReady);
      }
      EncodeOne(Ping);
      var n, failed := stream.Write([PING]);
      error := if failed then Some(StreamError) else None;
    }

    /** Reads to the end. A control message cut short is not handled, and its end counts as an
        orderly one; what is reported as unexpected is a failing reply or a failing stream. */
    method ServeStream(reader: Reader) returns (unexpected: bool)
      requires reader.Valid()
      modifies `handled, stream, reader
      ensures
        var input, room := old(reader.Rest()), old(stream.room);
        && handled == old(handled) + Decode(input, room)
        && unexpected == (Unanswered(input, room) || reader.broken)
        && stream.sent == old(stream.sent) + Pongs(Pings(Decode(input, room)))
    {
      hide Decode, Unanswered, Pings, Pongs;
      ghost var input, room := reader.Rest(), stream.room;
      ghost var done: seq<Frame> := [];
      NoPings();
      unexpected := false;
      var open := true;
      while open
        invariant reader.Valid()
        invariant handled == old(handled) + done
        invariant stream.sent == old(stream.sent) + Pongs(Pings(done))
        invariant Decode(input, room) == done + if open then Decode(reader.Rest(), stream.room) else []
        invariant open ==> Unanswered(input, room) == Unanswered(reader.Rest(), stream.room)
        invariant !open ==> unexpected == (Unanswered(input, room) || reader.broken)
        decreases open, |reader.Rest()|
      {
        ghost var got;
        open, unexpected, got := ServeNext(reader);
        PingsAppend(done, got);
        done := done + got;
      }
      assert done + [] == done;
    }

    /** One turn of the loop; `got` is what it handled. */
    method ServeNext(reader: Reader) returns (more: bool, unexpected: bool, ghost got: seq<Frame>)
      requires reader.Valid()
      modifies `handled, stream, reader
      ensures reader.Valid() && (more ==> |reader.Rest()| < |old(reader.Rest())|)
      ensures handled == old(handled) + got
      ensures stream.sent == old(stream.sent) + Pongs(Pings(got))
      ensures Decode(old(reader.Rest()), old(stream.room)) ==
        got + if more then Decode(reader.Rest(), stream.room) else []
      ensures more ==> Unanswered(old(reader.Rest()), old(stream.room)) == Unanswered(reader.Rest(), stream.room)
      ensures !more ==> unexpected == (Unanswered(old(reader.Rest()), old(stream.room)) || reader.broken)
    {
      more, unexpected, got := true, false, [];
      var msgType, error := reader.ReadByte();
      if error.Some? {
        return false, error.value != EndOfStream, [];
      }
      if msgType == CONTROL {
        ghost var behind := reader.Rest();
        var frame := ReadControl(reader);
        if frame.Some? {
          handled, got := handled + [frame.value], [frame.value];
        }
        assert [CONTROL] + behind == old(reader.Rest());
      } else if msgType == PING {
        var n, failed := stream.Write([PONG]);
        if failed {
          return false, true, [];
        }
        handled, got := handled + [Ping], [Ping];
      } else if msgType == PONG {
        handled, got := handled + [Pong], [Pong];
      }
    }

    /** The rest of a control message behind its type byte. */
    method ReadControl(reader: Reader) returns (frame: Option<Frame>)
      requires reader.Valid()
      modifies reader
      ensures reader.Valid()
      ensures
        var rest := [CONTROL] + old(reader.Rest());
        if |rest| < 3 || |rest| < 3 + Length(rest) then frame == None && reader.Rest() == []
        else frame == Some(Control(rest[3..3 + Length(rest)])) && reader.Rest() == rest[3 + Length(rest)..]
    {
      var msgLenUpper, noUpper := reader.ReadByte();
      if noUpper.Some? {
        return None;
      }
      var msgLenLower, noLower := reader.ReadByte();
      if noLower.Some? {
        return None;
      }
      var msgLen: uint16 := msgLenLower as int + 0x100 * (msgLenUpper as int);
      ghost var behind := reader.Rest();
      assert old(reader.Rest()) == [msgLenUpper, msgLenLower] + behind;
      var data, short := reader.ReadFull(msgLen);
      if short.Some? {
        return None;
      }
      assert [CONTROL] + old(reader.Rest()) == [CONTROL, msgLenUpper, msgLenLower] + behind;
      BehindHeader(msgLenUpper, msgLenLower, behind);
      return Some(Control(data));
    }
  }

  lemma BehindHeader(upper: Byte, lower: Byte, behind: seq<Byte>)
    ensures
      var input, n := [CONTROL, upper, lower] + behind, lower as int + 0x100 * (upper as int);
      Length(input) == n && (n <= |behind| ==> input[3..3 + n] == behind[..n] && input[3 + n..] == behind[n..])
  {
  }

  lemma {:induction false} PingsAppend(fs: seq<Frame>, gs: seq<Frame>)
    ensures Pings(fs + gs) == Pings(fs) + Pings(gs)
    ensures Pongs(Pings(fs + gs)) == Pongs(Pings(fs)) + Pongs(Pings(gs))
  {
    if fs == [] {
      assert fs + gs == gs;
    } else {
      PingsAppend(fs[1..], gs);
      assert (fs + gs)[1..] == fs[1..] + gs;
    }
  }

  lemma NoPings()
    ensures Pongs(Pings([])) == []
  {
  }

  lemma EncodeOne(f: Frame)
    ensures Encode([f]) == Bytes(f)
  {
    assert Encode([f][1..]) == [];
  }

  // --- round trip and cuts -----------------------------------------------------------------

  /** Decoding starts with the first frame, whatever bytes follow it. */
  lemma FirstFrame(f: Frame, rest: seq<Byte>, pongs: nat)
    ensures
      Decode(Bytes(f) + rest, pongs) ==
      if f != Ping then [f] + Decode(rest, pongs)
      else if pongs == 0 then [] else [Ping] + Decode(rest, pongs - 1)
  {
    var input := Bytes(f) + rest;
    if f.Control? {
      assert Length(input) == |f.message|;
      assert input[3..3 + Length(input)] == f.message;
      assert input[3 + Length(input)..] == rest;
    } else {
      assert input[1..] == rest;
    }
  }

  /** Frames up to the first ping that finds no pongs left. */
  function Answered(fs: seq<Frame>, pongs: nat): seq<Frame> {
    if fs == [] || (fs[0] == Ping && pongs == 0) then []
    else [fs[0]] + Answered(fs[1..], if fs[0] == Ping then pongs - 1 else pongs)
  }

  /** With as many pongs as pings, that is all of them. */
  lemma {:induction false} AllAnswered(fs: seq<Frame>, pongs: nat)
    requires Pings(fs) <= pongs
    ensures Answered(fs, pongs) == fs
  {
    if fs != [] {
      AllAnswered(fs[1..], if fs[0] == Ping then pongs - 1 else pongs);
    }
  }

  /** Whole frames are decoded as such in front of any other bytes. */
  lemma {:induction false} DecodesPrefix(fs: seq<Frame>, rest: seq<Byte>, pongs: nat)
    requires Pings(fs) <= pongs
    ensures Decode(Encode(fs) + rest, pongs) == fs + Decode(rest, pongs - Pings(fs))
  {
    hide Decode, Bytes;
    if fs == [] {
      assert Encode(fs) + rest == rest;
      assert fs + Decode(rest, pongs) == Decode(rest, pongs);
    } else {
      var tail := Encode(fs[1..]) + rest;
      assert Encode(fs) + rest == Bytes(fs[0]) + tail;
      hide Encode;
      assert fs == [fs[0]] + fs[1..];
      FirstFrame(fs[0], tail, pongs);
      DecodesPrefix(fs[1..], rest, if fs[0] == Ping then pongs - 1 else pongs);
    }
  }

  /** Reading back what was written yields the same frames, as far as pings are answered. */
  lemma {:induction false} DecodeAfterEncode(fs: seq<Frame>, pongs: nat)
    ensures Decode(Encode(fs), pongs) == Answered(fs, pongs)
  {
    if fs != [] {
      FirstFrame(fs[0], Encode(fs[1..]), pongs);
      if fs[0] != Ping || pongs > 0 {
        DecodeAfterEncode(fs[1..], if fs[0] == Ping then pongs - 1 else pongs);
      }
    }
  }

  /** How many of the frames lie wholly within the first k bytes. */
  function Whole(fs: seq<Frame>, k: nat): (n: nat)
    ensures n <= |fs| && |Encode(fs[..n])| <= k
    ensures n < |fs| ==> |Encode(fs[..n + 1])| > k
  {
    if fs == [] || |Bytes(fs[0])| > k then
      assert fs != [] ==> fs[..1] == [fs[0]];
      if fs != [] then EncodeOne(fs[0]); 0 else 0
    else
      var n := Whole(fs[1..], k - |Bytes(fs[0])|);
      assert fs[..n + 1][1..] == fs[1..][..n];
      assert n < |fs[1..]| ==> fs[..n + 2][1..] == fs[1..][..n + 1];
      n + 1
  }

  /** A stream cut at any byte yields the frames wholly before the cut and nothing of the next. */
  lemma {:induction false} CutYieldsWholeFrames(fs: seq<Frame>, k: nat, pongs: nat)
    requires k <= |Encode(fs)|
    ensures Decode(Encode(fs)[..k], pongs) == Answered(fs[..Whole(fs, k)], pongs)
  {
    if fs != [] {
      var first, tail := Bytes(fs[0]), Encode(fs[1..]);
      if |first| > k {
        assert Encode(fs)[..k] == first[..k];
        PartOfFrame(fs[0], k, pongs);
      } else {
        var left := k - |first|;
        assert Encode(fs)[..k] == first + tail[..left];
        FirstFrame(fs[0], tail[..left], pongs);
        assert fs[..Whole(fs, k)][1..] == fs[1..][..Whole(fs[1..], left)];
        if fs[0] != Ping || pongs > 0 {
          CutYieldsWholeFrames(fs[1..], left, if fs[0] == Ping then pongs - 1 else pongs);
        }
      }
    }
  }

  lemma PartOfFrame(f: Frame, k: nat, pongs: nat)
    requires k < |Bytes(f)|
    ensures Decode(Bytes(f)[..k], pongs) == []
  {
    var part := Bytes(f)[..k];
    if k >= 3 {
      assert Length(part) == |f.message|;
    }
  }

  /** With room for as many replies as there are bytes, every ping is answered: that decoding is
      what the bytes say. Less room cuts it off at the first ping beyond. */
  lemma {:induction false} DecodeIsAnswered(input: seq<Byte>, pongs: nat, enough: nat)
    requires |input| <= enough
    ensures Decode(input, pongs) == Answered(Decode(input, enough), pongs)
    ensures Unanswered(input, pongs) <==> Pings(Decode(input, enough)) > pongs
  {
    if input == [] {
    } else if input[0] == CONTROL {
      if |input| >= 3 && |input| >= 3 + Length(input) {
        var n := 3 + Length(input);
        DecodeIsAnswered(input[n..], pongs, enough);
      }
    } else if input[0] == PING {
      if pongs > 0 {
        DecodeIsAnswered(input[1..], pongs - 1, enough - 1);
      }
    } else {
      DecodeIsAnswered(input[1..], pongs, enough);
    }
  }

  /** A ping stays unanswered exactly if the bytes hold more pings than replies that go through. */
  lemma UnansweredExactly(input: seq<Byte>, pongs: nat)
    ensures Unanswered(input, pongs) <==> Pings(Decode(input, |input|)) > pongs
  {
    DecodeIsAnswered(input, pongs, |input|);
  }

  /** A byte of no known type between frames costs only itself. */
  lemma UnknownTypeCostsItself(fs: seq<Frame>, b: Byte, rest: seq<Byte>, pongs: nat)
    requires b !in {CONTROL, PING, PONG} && Pings(fs) <= pongs
    ensures Decode(Encode(fs) + [b] + rest, pongs) == Decode(Encode(fs) + rest, pongs)
  {
    var tail := [b] + rest;
    assert Encode(fs) + [b] + rest == Encode(fs) + tail;
    assert tail[1..] == rest;
    DecodesPrefix(fs, tail, pongs);
    DecodesPrefix(fs, rest, pongs);
  }

  /** On any bytes at all, a cut only takes frames away from the end. */
  lemma {:induction false} CutNeverAdds(input: seq<Byte>, k: nat, pongs: nat)
    requires k <= |input|
    ensures Decode(input[..k], pongs) <= Decode(input, pongs)
    decreases |input|
  {
    var part := input[..k];
    if k == 0 || (input[0] == PING && pongs == 0) {
    } else if input[0] == CONTROL {
      if |part| >= 3 && |part| >= 3 + Length(part) {
        var n := 3 + Length(part);
        assert part[n..] == input[n..][..k - n];
        assert part[3..n] == input[3..n];
        CutNeverAdds(input[n..], k - n, pongs);
      }
    } else {
      assert part[1..] == input[1..][..k - 1];
      CutNeverAdds(input[1..], k - 1, if input[0] == PING then pongs - 1 else pongs);
    }
  }

  /** Bytes that the sender could have produced, seen from the bytes. */
  predicate Clean(input: seq<Byte>) {
    input == [] ||
    if input[0] == CONTROL then
      |input| >= 3 && |input| >= 3 + Length(input) && Clean(input[3 + Length(input)..])
    else input[0] in {PING, PONG} && Clean(input[1..])
  }

  /** Writing again what was read gives the same bytes exactly if nothing had to be skipped or
      dropped. */
  lemma {:induction false} EncodeAfterDecode(input: seq<Byte>)
    ensures Encode(Decode(input, |input|)) == input <==> Clean(input)
  {
    ReencodeNoLonger(input, |input|);
  }

  /** The two directions at once: what is read takes no more bytes than were there, and as many
      only if the bytes are clean. */
  lemma {:induction false} ReencodeNoLonger(input: seq<Byte>, pongs: nat)
    requires pongs >= |input|
    ensures |Encode(Decode(input, pongs))| <= |input|
    ensures |Encode(Decode(input, pongs))| == |input| ==> Clean(input)
    ensures Clean(input) ==> Encode(Decode(input, pongs)) == input
  {
    if input == [] {
    } else if input[0] == CONTROL {
      if |input| >= 3 && |input| >= 3 + Length(input) {
        var n := 3 + Length(input);
        ReencodeNoLonger(input[n..], pongs);
        HeaderReadsBack(input);
        FrameInFront(Control(input[3..n]), input[n..], Decode(input[n..], pongs));
        assert input == input[..n] + input[n..];
      }
    } else if input[0] == PING || input[0] == PONG {
      var f, left := if input[0] == PING then Ping else Pong, if input[0] == PING then pongs - 1 else pongs;
      ReencodeNoLonger(input[1..], left);
      FrameInFront(f, input[1..], Decode(input[1..], left));
      assert input == Bytes(f) + input[1..];
    } else {
      ReencodeNoLonger(input[1..], pongs);
    }
  }

  lemma FrameInFront(f: Frame, rest: seq<Byte>, fs: seq<Frame>)
    ensures Encode([f] + fs) == Bytes(f) + Encode(fs)
    ensures |Encode([f] + fs)| == |Bytes(f) + rest| <==> |Encode(fs)| == |rest|
  {
    EncodeCons(f, fs);
  }

  lemma HeaderReadsBack(input: seq<Byte>)
    requires |input| >= 3 && |input| >= 3 + Length(input) && input[0] == CONTROL
    ensures Length(input) <= MAX_CONTROL && Bytes(Control(input[3..3 + Length(input)])) == input[..3 + Length(input)]
  {
  }

  lemma EncodeCons(f: Frame, fs: seq<Frame>)
    ensures Encode([f] + fs) == Bytes(f) + Encode(fs)
  {
    assert ([f] + fs)[1..] == fs;
  }
}
