/** The wire format of data messages (shared/sockets/data_message.go): how a packet is
    cut into datagrams, how packet ids are written, and which packets fit at all. */
module Fragmentation {
  import opened MachineInts

  type Message = seq<Byte>

  /** "Last fragment" bit set and index 0: the message holds a whole packet. */
  const WHOLE: Byte := 0x80
  const HEADER_LENGTH: nat := 5
  const MAX_FRAGMENTS: nat := 128

  /** The packet id as sent, most significant byte first. Each byte is reduced modulo 255,
      and each is taken from the whole shifted counter, not from one byte of it. */
  function IdBytes(id: uint32): (bytes: seq<Byte>)
    ensures |bytes| == 4
  {
    [id / 0x100_0000 % 0xFF, id / 0x1_0000 % 0xFF, id / 0x100 % 0xFF, id % 0xFF]
  }

  /** The id a receiver reads back from four bytes. */
  function IdFromBytes(bytes: seq<Byte>): uint32
    requires |bytes| == 4
  {
    bytes[0] as int * 0x100_0000 + bytes[1] as int * 0x1_0000 + bytes[2] as int * 0x100 + bytes[3] as int
  }

  function WireId(id: uint32): uint32 {
    IdFromBytes(IdBytes(id))
  }

  /** Byte k of a 32-bit counter, k == 0 the least significant. */
  function ByteOf(id: uint32, k: nat): Byte
    requires k < 4
  {
    match k
    case 0 => id % 0x100
    case 1 => id / 0x100 % 0x100
    case 2 => id / 0x1_0000 % 0x100
    case 3 => id / 0x100_0000
  }

  lemma IdBytesInjective(x: seq<Byte>, y: seq<Byte>)
    requires |x| == |y| == 4
    ensures IdFromBytes(x) == IdFromBytes(y) <==> x == y
  {
    var x1, y1 := x[0] as int * 0x100 + x[1] as int, y[0] as int * 0x100 + y[1] as int;
    SameDigits(x[0], x[1], y[0], y[1]);
    SameDigits(x1, x[2], y1, y[2]);
    SameDigits(x1 * 0x100 + x[2] as int, x[3], y1 * 0x100 + y[2] as int, y[3]);
    assert x == [x[0], x[1], x[2], x[3]] && y == [y[0], y[1], y[2], y[3]];
  }

  lemma SameDigits(x: nat, a: Byte, y: nat, b: Byte)
    ensures x * 0x100 + a as int == y * 0x100 + b as int <==> x == y && a == b
  {
  }

  /** Shifting a counter right by 8k bits and reducing modulo 255 adds up the bytes from k on. */
  lemma ByteSums(id: uint32)
    ensures
      var b0: int, b1: int, b2: int, b3: int := ByteOf(id, 0), ByteOf(id, 1), ByteOf(id, 2), ByteOf(id, 3);
      && IdBytes(id)[0] == b3 % 0xFF
      && IdBytes(id)[1] == (b2 + b3) % 0xFF
      && IdBytes(id)[2] == (b1 + b2 + b3) % 0xFF
      && IdBytes(id)[3] == (b0 + b1 + b2 + b3) % 0xFF
  {
    var b0: int, b1: int, b2: int, b3: int := ByteOf(id, 0), ByteOf(id, 1), ByteOf(id, 2), ByteOf(id, 3);
    DropMultiple(b2 + b3, b3, id / 0x1_0000);
    DropMultiple(b1 + b2 + b3, b2 + 257 * b3, id / 0x100);
    DropMultiple(b0 + b1 + b2 + b3, b1 + 257 * b2 + 65793 * b3, id);
  }

  lemma DropMultiple(x: int, q: int, y: int)
    requires y == x + 0xFF * q
    ensures y % 0xFF == x % 0xFF
  {
  }

  lemma AddModCancel(x: int, y: int, s: int, t: int)
    requires s % 0xFF == t % 0xFF
    ensures (x + s) % 0xFF == (y + t) % 0xFF <==> x % 0xFF == y % 0xFF
  {
    DropMultiple(s % 0xFF + x, s / 0xFF, x + s);
    DropMultiple(t % 0xFF + y, t / 0xFF, y + t);
    ShiftKeepsSame(x, y, s % 0xFF);
  }

  lemma ShiftKeepsSame(x: int, y: int, r: int)
    ensures (r + x) % 0xFF == (r + y) % 0xFF <==> x % 0xFF == y % 0xFF
  {
    SameResidue(r + x, r + y);
    SameResidue(x, y);
    assert (r + x) - (r + y) == x - y;
  }

  lemma SameResidue(x: int, y: int)
    ensures x % 0xFF == y % 0xFF <==> (x - y) % 0xFF == 0
  {
    DropMultiple(x % 0xFF - y % 0xFF, x / 0xFF - y / 0xFF, x - y);
  }

  predicate AgreeAt(a: uint32, b: uint32, k: nat)
    requires k < 4
  {
    ByteOf(a, k) % 0xFF == ByteOf(b, k) % 0xFF
  }

  /** Two counters get the same wire id exactly when their bytes agree modulo 255, that is,
      when each byte is the same in both or 0x00 in one and 0xFF in the other. */
  lemma SameWireId(a: uint32, b: uint32)
    ensures WireId(a) == WireId(b) <==> forall k | 0 <= k < 4 :: AgreeAt(a, b, k)
  {
    IdBytesInjective(IdBytes(a), IdBytes(b));
    var x, y := IdBytes(a), IdBytes(b);
    assert x == y <==> x[0] == y[0] && x[1] == y[1] && x[2] == y[2] && x[3] == y[3];
    PrefixesAgree(a, b);
  }

  lemma PrefixesAgree(a: uint32, b: uint32)
    ensures
      var x, y := IdBytes(a), IdBytes(b);
      (x[0] == y[0] && x[1] == y[1] && x[2] == y[2] && x[3] == y[3])
      <==> (AgreeAt(a, b, 0) && AgreeAt(a, b, 1) && AgreeAt(a, b, 2) && AgreeAt(a, b, 3))
  {
    ByteSums(a);
    ByteSums(b);
    var a0: int, a1: int, a2: int, a3: int := ByteOf(a, 0), ByteOf(a, 1), ByteOf(a, 2), ByteOf(a, 3);
    var b0: int, b1: int, b2: int, b3: int := ByteOf(b, 0), ByteOf(b, 1), ByteOf(b, 2), ByteOf(b, 3);
    if a3 % 0xFF == b3 % 0xFF {
      AddModCancel(a2, b2, a3, b3);
      if (a2 + a3) % 0xFF == (b2 + b3) % 0xFF {
        AddModCancel(a1, b1, a2 + a3, b2 + b3);
        if (a1 + a2 + a3) % 0xFF == (b1 + b2 + b3) % 0xFF {
          AddModCancel(a0, b0, a1 + a2 + a3, b1 + b2 + b3);
        }
      }
    }
  }

  /** Of two counters fewer than 255 increments apart, only the pair around the wrap of the
      32-bit counter shares a wire id. */
  lemma NearbyCountersShareOnlyAtWrap(a: uint32, d: nat)
    requires 1 <= d < 0xFF
    ensures
      var b := (a + d) % 0x1_0000_0000;
      WireId(a) == WireId(b) <==> a == 0xFFFF_FFFF && b == 0
  {
    hide WireId;
    var b := (a + d) % 0x1_0000_0000;
    if a + d < 0x1_0000_0000 {
      ShiftChangesResidue(a, d);
      LowByteDecides(a, b);
    } else {
      DropMultiple(b, 16843009, a + (d - 1));
      if d == 1 {
        WrapSharesId();
      } else {
        ShiftChangesResidue(a, d - 1);
        LowByteDecides(a, b);
      }
    }
  }

  lemma LowByteDecides(a: uint32, b: uint32)
    requires a % 0xFF != b % 0xFF
    ensures WireId(a) != WireId(b)
  {
    hide IdFromBytes;
    IdBytesInjective(IdBytes(a), IdBytes(b));
    assert IdBytes(a)[3] != IdBytes(b)[3];
  }

  lemma WrapSharesId()
    ensures WireId(0xFFFF_FFFF) == WireId(0)
  {
  }

  lemma ShiftChangesResidue(a: nat, d: nat)
    requires 1 <= d < 0xFF
    ensures a % 0xFF != (a + d) % 0xFF
  {
  }

  /** Distinct packets can share a wire id: counters 256 and 511 both become 00 00 01 01. */
  lemma WireIdsRepeat()
    ensures WireId(256) == WireId(511) == 0x0101
  {
  }

  // --- cutting a packet ---------------------------------------------------------------

  /** Number of fragments of a packet of n bytes, chunk bytes each (the last may be shorter). */
  function FragmentCount(n: nat, chunk: nat): nat
    requires chunk > 0
  {
    n / chunk + if n % chunk != 0 then 1 else 0
  }

  lemma CountBounds(n: nat, chunk: nat)
    requires chunk > 0 && n > 0
    ensures var count := FragmentCount(n, chunk);
      count >= 1 && (count - 1) * chunk < n <= count * chunk
  {
    assert n == n / chunk * chunk + n % chunk;
    var q := n / chunk;
    assert (q + 1) * chunk == q * chunk + chunk;
    assert (q - 1) * chunk == q * chunk - chunk;
    if q == 0 {
      assert q * chunk == 0;
    }
  }

  lemma Monotone(i: nat, j: nat, c: nat)
    requires i <= j
    ensures i * c <= j * c
  {
  }

  /** Every fragment index starts inside the packet; every one but the last also ends inside it. */
  lemma FragmentInside(n: nat, chunk: nat, i: nat)
    requires chunk > 0 && n > 0 && i < FragmentCount(n, chunk)
    ensures 0 <= i * chunk < n
    ensures (i + 1) * chunk == i * chunk + chunk
    ensures i + 1 < FragmentCount(n, chunk) ==> (i + 1) * chunk < n
    ensures i + 1 == FragmentCount(n, chunk) ==> n <= (i + 1) * chunk
  {
    CountBounds(n, chunk);
    var count := FragmentCount(n, chunk);
    Monotone(i, count - 1, chunk);
    if i + 1 < count {
      Monotone(i + 1, count - 1, chunk);
    }
  }

  function Min(x: int, y: int): int {
    if x < y then x else y
  }

  /** Fragment i's share of the packet. */
  function Body(data: seq<Byte>, chunk: nat, i: nat): (body: seq<Byte>)
    requires chunk > 0 && |data| > 0 && i < FragmentCount(|data|, chunk)
    ensures 1 <= |body| <= chunk
    ensures i + 1 < FragmentCount(|data|, chunk) ==> |body| == chunk
  {
    FragmentInside(|data|, chunk, i);
    data[i * chunk..Min((i + 1) * chunk, |data|)]
  }

  /** The first byte of fragment i of count, as the sender's 8-bit arithmetic makes it. */
  function Flag(i: nat, count: nat): Byte {
    var low := i % 0x100;
    if i + 1 == count && low < 0x80 then low + 0x80 else low
  }

  /** A packet's bytes in fragment-sized pieces. */
  function Cut(data: seq<Byte>, chunk: nat): (bodies: seq<seq<Byte>>)
    requires chunk > 0 && |data| > 0
    ensures |bodies| == FragmentCount(|data|, chunk)
    ensures forall i | 0 <= i < |bodies| :: bodies[i] == Body(data, chunk, i)
  {
    seq(FragmentCount(|data|, chunk),
      i requires 0 <= i < FragmentCount(|data|, chunk) => Body(data, chunk, i))
  }

  /** Piece i as it goes on the wire. */
  function Framed(bodies: seq<seq<Byte>>, id: uint32, i: nat): (m: Message)
    requires i < |bodies|
    ensures |m| == HEADER_LENGTH + |bodies[i]|
  {
    [Flag(i, |bodies|)] + IdBytes(id) + bodies[i]
  }

  function AllFramed(bodies: seq<seq<Byte>>, id: uint32): (ms: seq<Message>)
    ensures |ms| == |bodies|
    ensures forall i | 0 <= i < |ms| :: ms[i] == Framed(bodies, id, i)
  {
    seq(|bodies|, i requires 0 <= i < |bodies| => Framed(bodies, id, i))
  }

  /** The first k pieces, one after the other. */
  function Concat(bodies: seq<seq<Byte>>, k: nat): seq<Byte>
    requires k <= |bodies|
  {
    if k == 0 then [] else Concat(bodies, k - 1) + bodies[k - 1]
  }

  /** A packet of n bytes needs no fragmentation under this payload limit. */
  predicate FitsWhole(n: nat, limit: uint16) {
    n + 1 <= limit
  }

  /** A packet of n bytes is fragmented under this limit and no part of the 16-bit
      arithmetic or of the 7-bit index overflows. */
  predicate FitsFragmented(n: nat, limit: uint16) {
    && !FitsWhole(n, limit)
    && 0 < n < 0xFFFF
    && limit > HEADER_LENGTH
    && FragmentCount(n, limit - HEADER_LENGTH) <= MAX_FRAGMENTS
    && FragmentCount(n, limit - HEADER_LENGTH) * (limit - HEADER_LENGTH) <= 0xFFFF
  }

  predicate Sendable(n: nat, limit: uint16) {
    0 < n && (FitsWhole(n, limit) || FitsFragmented(n, limit))
  }

  /** Everything one attempt at sending a packet would put on the wire. */
  function Datagrams(data: seq<Byte>, limit: uint16, id: uint32): (ms: seq<Message>)
    requires |data| > 0 && (FitsWhole(|data|, limit) || limit > HEADER_LENGTH)
    ensures |ms| >= 1
  {
    if FitsWhole(|data|, limit) then [[WHOLE] + data]
    else
      CountBounds(|data|, limit - HEADER_LENGTH);
      AllFramed(Cut(data, limit - HEADER_LENGTH), id)
  }

  // --- properties of the cut ----------------------------------------------------------

  /** The pieces, put together in index order, are the packet. */
  lemma {:induction false} CutMakesPacket(data: seq<Byte>, chunk: nat, k: nat)
    requires chunk > 0 && |data| > 0 && k <= FragmentCount(|data|, chunk)
    ensures Concat(Cut(data, chunk), k) == data[..Min(k * chunk, |data|)]
    ensures k == FragmentCount(|data|, chunk) ==> Concat(Cut(data, chunk), k) == data
  {
    CountBounds(|data|, chunk);
    hide FragmentCount, Cut;
    if k > 0 {
      CutMakesPacket(data, chunk, k - 1);
      FragmentInside(|data|, chunk, k - 1);
      var start, end := (k - 1) * chunk, Min(k * chunk, |data|);
      assert Body(data, chunk, k - 1) == data[start..end];
      assert data[..start] + data[start..end] == data[..end];
    }
  }

  /** A packet that does not fit whole is cut into at least two fragments. */
  lemma AtLeastTwo(n: nat, limit: uint16)
    requires n > 0 && !FitsWhole(n, limit) && limit > HEADER_LENGTH
    ensures FragmentCount(n, limit - HEADER_LENGTH) >= 2
  {
    CountBounds(n, limit - HEADER_LENGTH);
  }

  /** Index and "last" bit can be read back from the first byte of fragments 0 to 127, and that
      byte is never the marker of a whole packet. */
  lemma FlagReadsBack(i: nat, count: nat)
    requires 2 <= count && i < count && i < MAX_FRAGMENTS
    ensures Flag(i, count) % 0x80 == i
    ensures Flag(i, count) >= 0x80 <==> i == count - 1
    ensures Flag(i, count) != WHOLE
  {
  }

  /** A piece on the wire is longer than its header, and reads back as index, "last" bit,
      wire id and body. */
  lemma FramedReadsBack(bodies: seq<seq<Byte>>, id: uint32, i: nat)
    requires 2 <= |bodies| && i < |bodies| && i < MAX_FRAGMENTS
    ensures
      var m := Framed(bodies, id, i);
      && m[0] != WHOLE
      && m[0] % 0x80 == i
      && (m[0] >= 0x80 <==> i == |bodies| - 1)
      && IdFromBytes(m[1..5]) == WireId(id)
      && m[5..] == bodies[i]
  {
    FlagReadsBack(i, |bodies|);
    var m := Framed(bodies, id, i);
    assert m[1..5] == IdBytes(id);
    assert m[5..] == bodies[i];
  }

  /** The cut of a packet that does not fit whole, however many pieces there are. */
  lemma CutInPieces(data: seq<Byte>, limit: uint16)
    requires |data| > 0 && !FitsWhole(|data|, limit) && limit > HEADER_LENGTH
    ensures
      var bodies := Cut(data, limit - HEADER_LENGTH);
      && |bodies| >= 2
      && Concat(bodies, |bodies|) == data
      && forall i | 0 <= i < |bodies| :: bodies[i] != []
  {
    AtLeastTwo(|data|, limit);
    CutMakesPacket(data, limit - HEADER_LENGTH, FragmentCount(|data|, limit - HEADER_LENGTH));
    var bodies := Cut(data, limit - HEADER_LENGTH);
    forall i | 0 <= i < |bodies| ensures bodies[i] != [] {
      assert bodies[i] == Body(data, limit - HEADER_LENGTH, i);
    }
  }

  /** What is sent of a packet that has to be fragmented: between 2 and 128 datagrams, each
      within the limit, none empty behind its header, none marked as a whole packet, and
      together carrying the packet. */
  lemma FragmentedDatagrams(data: seq<Byte>, limit: uint16, id: uint32)
    requires FitsFragmented(|data|, limit)
    ensures
      var ms := Datagrams(data, limit, id);
      var bodies := Cut(data, limit - HEADER_LENGTH);
      && 2 <= |ms| == |bodies| <= MAX_FRAGMENTS
      && Concat(bodies, |bodies|) == data
      && forall i | 0 <= i < |ms| ::
        ms[i] == Framed(bodies, id, i) && bodies[i] != [] && HEADER_LENGTH < |ms[i]| <= limit && ms[i][0] != WHOLE
  {
    CutInPieces(data, limit);
    var bodies := Cut(data, limit - HEADER_LENGTH);
    forall i | 0 <= i < |bodies|
      ensures bodies[i] != [] && HEADER_LENGTH < |Framed(bodies, id, i)| <= limit && Framed(bodies, id, i)[0] != WHOLE
    {
      FramedReadsBack(bodies, id, i);
      assert bodies[i] == Body(data, limit - HEADER_LENGTH, i);
    }
  }

  /** The greatest number of fragments the format and the 16-bit arithmetic allow. */
  function MaxCount(limit: uint16): nat
    requires limit > HEADER_LENGTH
  {
    var chunk: nat := limit - HEADER_LENGTH;
    var top: nat := 0xFFFF / chunk;
    if top < MAX_FRAGMENTS then top else MAX_FRAGMENTS
  }

  /** The sendable sizes under a limit are exactly those up to a threshold (never 65535,
      whose 16-bit successor is 0). */
  lemma SendableUpTo(n: nat, limit: uint16)
    requires n > 0 && limit > HEADER_LENGTH
    ensures Sendable(n, limit) <==>
      n < 0xFFFF && (n < limit || n <= MaxCount(limit) * (limit - HEADER_LENGTH))
  {
    var chunk := limit - HEADER_LENGTH;
    var count := FragmentCount(n, chunk);
    CountBounds(n, chunk);
    var top: nat := 0xFFFF / chunk;
    assert top * chunk <= 0xFFFF < (top + 1) * chunk by {
      assert 0xFFFF == top * chunk + 0xFFFF % chunk;
      assert (top + 1) * chunk == top * chunk + chunk;
    }
    if count <= top { Monotone(count, top, chunk); } else { Monotone(top + 1, count, chunk); }
    if count <= MaxCount(limit) {
      Monotone(count, MaxCount(limit), chunk);
    } else {
      Monotone(MaxCount(limit), count - 1, chunk);
    }
  }

  /** Under WebTransport's starting limit of 1184 bytes, packets up to 55 * 1179 bytes can be sent. */
  lemma SendableAtDefaultLimit(n: nat)
    requires n > 0
    ensures Sendable(n, 1184) <==> n <= 64845
  {
    SendableUpTo(n, 1184);
  }

  /** From a limit of 517 on, the 7-bit index is never the obstacle. */
  lemma IndexFitsFromLimit517(n: nat, limit: uint16)
    requires limit >= 517
    requires FragmentCount(n, limit - HEADER_LENGTH) * (limit - HEADER_LENGTH) <= 0xFFFF
    ensures FragmentCount(n, limit - HEADER_LENGTH) <= 127
  {
    var count := FragmentCount(n, limit - HEADER_LENGTH);
    if count >= 128 {
      Monotone(128, count, limit - HEADER_LENGTH);
    }
  }
}
