/** torrent/peer.h: messages of the peer protocol as bytes, and their incremental parsing. */
module PeerWire {
  import opened Arithmetic
  import opened MachineInts
  import opened Metainfo

  const MAX_MESSAGE_LENGTH := 0x800_0000
  const HANDSHAKE_LENGTH := 68

  datatype Message =
    | Heartbeat | Choke | Unchoke | Interested | Uninterested
    | Have(piece: uint32)
    | Bitfield(bits: seq<byte>)
    | Request(index: uint32, begin: uint32, length: uint32)
    | Piece(index: uint32, begin: uint32, data: seq<byte>)
    | Cancel(index: uint32, begin: uint32, length: uint32)

  datatype PeerError =
    WrongHandshakeHeader | WrongHandshakeHash | InvalidAnnouncedLength | InvalidMessageTag | InvalidHave | InvalidPiece

  datatype Parsed = NeedMore | Got(msg: Message, used: nat) | Bad(error: PeerError)

  // ---- 32-bit big-endian numbers

  /** peer_read_u32 */
  function GetU32(s: seq<byte>): uint32
    requires |s| >= 4
  {
    s[0] as int * 0x100_0000 + s[1] as int * 0x1_0000 + s[2] as int * 0x100 + s[3] as int
  }

  /** peer_write_u32 */
  function PutU32(x: uint32): (s: seq<byte>)
    ensures |s| == 4
  {
    [(x / 0x100_0000) as byte, (x / 0x1_0000 % 0x100) as byte, (x / 0x100 % 0x100) as byte, (x % 0x100) as byte]
  }

  lemma U32RoundTrip(x: uint32, rest: seq<byte>)
    ensures GetU32(PutU32(x) + rest) == x
  {
    var s := PutU32(x);
    assert s[0] as int == x / 0x100_0000 && s[3] as int == x % 0x100;
    var y := x / 0x100;
    var z := y / 0x100;
    assert x / 0x1_0000 == z && x / 0x100_0000 == z / 0x100;
  }

  /** The low `n` bits of `x` in the opposite order. */
  function ReverseBits(x: nat, n: nat): (r: nat)
    ensures r < Pow2(n)
  {
    if n == 0 then 0 else x % 2 * Pow2(n - 1) + ReverseBits(x / 2, n - 1)
  }

  /** __builtin_bitreverse8 */
  function BitReverse(b: byte): byte {
    assert Pow2(8) == 256;
    ReverseBits(b as int, 8) as byte
  }

  /** The top bit comes out lowest. */
  lemma {:induction false} ReverseTop(low: nat, top: nat, n: nat)
    requires n > 0 && top < 2 && low < Pow2(n - 1)
    ensures ReverseBits(top * Pow2(n - 1) + low, n) == 2 * ReverseBits(low, n - 1) + top
  {
    var x := top * Pow2(n - 1) + low;
    if n > 1 {
      var p := Pow2(n - 2);
      assert x == 2 * (top * p + low / 2) + low % 2;
      ReverseTop(low / 2, top, n - 1);
    }
  }

  lemma {:induction false} ReverseTwiceBits(x: nat, n: nat)
    requires x < Pow2(n)
    ensures ReverseBits(ReverseBits(x, n), n) == x
  {
    if n > 0 {
      ReverseTop(ReverseBits(x / 2, n - 1), x % 2, n);
      ReverseTwiceBits(x / 2, n - 1);
    }
  }

  lemma ReverseTwice(b: byte)
    ensures BitReverse(BitReverse(b)) == b
  {
    assert Pow2(8) == 256;
    ReverseTwiceBits(b as int, 8);
  }

  function ReverseAll(s: seq<byte>): (r: seq<byte>)
    ensures |r| == |s| && forall i :: 0 <= i < |s| ==> r[i] == BitReverse(s[i])
  {
    seq(|s|, i requires 0 <= i < |s| => BitReverse(s[i]))
  }

  // ---- the parser, after the handshake

  /** The payload size the parser expects for a bitfield. */
  function BitfieldSize(m: Metainfo): nat
    requires m.piecesCount > 0
  {
    CeilDiv(m.piecesCount - 1, 8)
  }

  /** It is the size section "peer protocol" of BEP 3 asks for, one bit per piece, exactly when the
      piece count is not one more than a multiple of eight. */
  lemma BitfieldSizeRight(m: Metainfo)
    requires m.piecesCount > 0
    ensures BitfieldSize(m) == CeilDiv(m.piecesCount, 8) <==> m.piecesCount % 8 != 1
  {
  }

  function ParsePiece(m: Metainfo, r: seq<byte>, n: nat): Parsed
    requires n >= 10 && |r| >= n + 4
  {
    var index, begin, data := GetU32(r[5..]), GetU32(r[9..]), r[13..n + 4];
    if index >= m.piecesCount || begin + |data| > PieceLength(m, index) then Bad(InvalidPiece)
    else if |data| != BlockForPieceLength(m, index, begin / BLOCK_LENGTH) then Bad(InvalidPiece)
    else Got(Piece(index, begin, data), n + 4)
  }

  function ParseTagged(m: Metainfo, r: seq<byte>, n: nat): Parsed
    requires |r| >= 5 && m.piecesCount > 0
  {
    match r[4]
    case 0 => Got(Choke, 5)
    case 1 => Got(Unchoke, 5)
    case 2 => Got(Interested, 5)
    case 3 => Got(Uninterested, 5)
    case 4 =>
      if n != 5 then Bad(InvalidAnnouncedLength)
      else if |r| < n + 4 then NeedMore
      else if GetU32(r[5..]) > m.piecesCount then Bad(InvalidHave)
      else Got(Have(GetU32(r[5..])), 9)
    case 5 =>
      if n != BitfieldSize(m) + 1 then Bad(InvalidAnnouncedLength)
      else if |r| < n + 4 then NeedMore
      else Got(Bitfield(ReverseAll(r[5..n + 4])), n + 4)
    case 6 =>
      if n != 13 then Bad(InvalidAnnouncedLength)
      else if |r| < n + 4 then NeedMore
      else Got(Request(GetU32(r[5..]), GetU32(r[9..]), GetU32(r[13..])), 17)
    case 7 =>
      if n < 10 then Bad(InvalidAnnouncedLength)
      else if |r| < n + 4 then NeedMore
      else ParsePiece(m, r, n)
    case 8 =>
      if n != 13 then Bad(InvalidAnnouncedLength)
      else if |r| < n + 4 then NeedMore
      else Got(Cancel(GetU32(r[5..]), GetU32(r[9..]), GetU32(r[13..])), 17)
    case _ => Bad(InvalidMessageTag)
  }

  /** peer_message_parse of a peer that has shaken hands, on the bytes `r` received and not yet consumed. */
  function ParseFrame(m: Metainfo, r: seq<byte>): (p: Parsed)
    requires m.piecesCount > 0
    ensures p.Got? ==> 4 <= p.used <= |r|
  {
    if |r| < 4 then NeedMore
    else
      var n := GetU32(r);
      if n == 0 then Got(Heartbeat, 4)
      else if n > MAX_MESSAGE_LENGTH then Bad(InvalidAnnouncedLength)
      else if |r| < 5 then NeedMore
      else ParseTagged(m, r, n)
  }

  /** A decision, once taken, does not change when more bytes arrive. */
  lemma Stable(m: Metainfo, r: seq<byte>, x: seq<byte>)
    requires m.piecesCount > 0 && !ParseFrame(m, r).NeedMore?
    ensures ParseFrame(m, r + x) == ParseFrame(m, r)
  {
    assert |r| >= 4;
    SameU32(r, x, 0);
    var n := GetU32(r);
    if 0 < n <= MAX_MESSAGE_LENGTH {
      assert (r + x)[4] == r[4];
      StableTagged(m, r, x, n);
    }
  }

  lemma SameU32(r: seq<byte>, x: seq<byte>, k: nat)
    requires k + 4 <= |r|
    ensures GetU32((r + x)[k..]) == GetU32(r[k..])
    ensures GetU32(r + x) == GetU32(r)
  {
  }

  lemma StableTagged(m: Metainfo, r: seq<byte>, x: seq<byte>, n: nat)
    requires |r| >= 5 && m.piecesCount > 0 && !ParseTagged(m, r, n).NeedMore?
    ensures ParseTagged(m, r + x, n) == ParseTagged(m, r, n)
  {
    if |r| >= n + 4 {
      if n >= 1 { assert (r + x)[5..n + 4] == r[5..n + 4]; }
      if n >= 9 { assert (r + x)[13..n + 4] == r[13..n + 4]; }
      if n >= 5 { SameU32(r, x, 5); }
      if n >= 9 { SameU32(r, x, 9); }
      if n >= 13 { SameU32(r, x, 13); }
    }
    hide GetU32, BitfieldSize, PieceLength, BlockForPieceLength;
  }

  // ---- frames on the wire

  function Encode(msg: Message): (s: seq<byte>) {
    match msg
    case Heartbeat => PutU32(0)
    case Choke => PutU32(1) + [0]
    case Unchoke => PutU32(1) + [1]
    case Interested => PutU32(1) + [2]
    case Uninterested => PutU32(1) + [3]
    case Have(piece) => PutU32(5) + [4] + PutU32(piece)
    case Bitfield(bits) => PutU32(Wrap32(1 + |bits|)) + [5] + ReverseAll(bits)
    case Request(index, begin, length) => PutU32(13) + [6] + PutU32(index) + PutU32(begin) + PutU32(length)
    case Piece(index, begin, data) => PutU32(Wrap32(9 + |data|)) + [7] + PutU32(index) + PutU32(begin) + data
    case Cancel(index, begin, length) => PutU32(13) + [8] + PutU32(index) + PutU32(begin) + PutU32(length)
  }

  /** The messages a peer of this torrent may send. */
  ghost predicate Sendable(m: Metainfo, msg: Message)
    requires m.piecesCount > 0
  {
    match msg
    case Have(piece) => piece <= m.piecesCount
    case Bitfield(bits) => |bits| == BitfieldSize(m) < MAX_MESSAGE_LENGTH
    case Piece(index, begin, data) =>
      && 0 < |data| <= MAX_MESSAGE_LENGTH - 9
      && index < m.piecesCount && begin + |data| <= PieceLength(m, index)
      && |data| == BlockForPieceLength(m, index, begin / BLOCK_LENGTH)
    case _ => true
  }

  lemma EncodeSize(m: Metainfo, msg: Message)
    requires m.piecesCount > 0 && Sendable(m, msg)
    ensures var s := Encode(msg);
      && 4 <= |s| <= MAX_MESSAGE_LENGTH + 4
      && GetU32(s) == |s| - 4
  {
    AnnouncedFirst(msg);
    hide PutU32, GetU32, ReverseAll, BlockForPieceLength, PieceLength, BitfieldSize;
    match msg
    case Heartbeat => Announced(0, []);
    case Choke => Announced(1, [0]);
    case Unchoke => Announced(1, [1]);
    case Interested => Announced(1, [2]);
    case Uninterested => Announced(1, [3]);
    case Have(piece) => Announced(5, [4] + PutU32(piece));
    case Bitfield(bits) => Announced(1 + |bits|, [5] + ReverseAll(bits));
    case Request(index, begin, length) => Announced(13, [6] + PutU32(index) + PutU32(begin) + PutU32(length));
    case Piece(index, begin, data) => Announced(9 + |data|, [7] + PutU32(index) + PutU32(begin) + data);
    case Cancel(index, begin, length) => Announced(13, [8] + PutU32(index) + PutU32(begin) + PutU32(length));
  }

  lemma Announced(n: uint32, tail: seq<byte>)
    ensures |PutU32(n) + tail| == 4 + |tail| && GetU32(PutU32(n) + tail) == n
  {
    U32RoundTrip(n, tail);
  }

  /** The frame with its announced length split off. */
  lemma AnnouncedFirst(msg: Message)
    ensures match msg
      case Heartbeat => Encode(msg) == PutU32(0) + []
      case Have(piece) => Encode(msg) == PutU32(5) + ([4] + PutU32(piece))
      case Bitfield(bits) => Encode(msg) == PutU32(Wrap32(1 + |bits|)) + ([5] + ReverseAll(bits))
      case Request(index, begin, length) =>
        Encode(msg) == PutU32(13) + ([6] + PutU32(index) + PutU32(begin) + PutU32(length))
      case Piece(index, begin, data) =>
        Encode(msg) == PutU32(Wrap32(9 + |data|)) + ([7] + PutU32(index) + PutU32(begin) + data)
      case Cancel(index, begin, length) =>
        Encode(msg) == PutU32(13) + ([8] + PutU32(index) + PutU32(begin) + PutU32(length))
      case _ => true
  {
    hide PutU32;
  }

  /** A whole frame is consumed exactly, and yields its message, whatever follows it. */
  lemma FrameParses(m: Metainfo, msg: Message, rest: seq<byte>)
    requires m.piecesCount > 0 && Sendable(m, msg)
    ensures ParseFrame(m, Encode(msg) + rest) == Got(msg, |Encode(msg)|)
  {
    var s := Encode(msg);
    EncodeSize(m, msg);
    WholeFrame(m, msg);
    assert !ParseFrame(m, s).NeedMore?;
    Stable(m, s, rest);
  }

  lemma WholeFrame(m: Metainfo, msg: Message)
    requires m.piecesCount > 0 && Sendable(m, msg)
    ensures ParseFrame(m, Encode(msg)) == Got(msg, |Encode(msg)|)
  {
    hide PutU32, GetU32, BitReverse;
    var s := Encode(msg);
    EncodeSize(m, msg);
    match msg
    case Heartbeat =>
    case Choke =>
    case Unchoke =>
    case Interested =>
    case Uninterested =>
    case Have(piece) => Field(s, 5, piece, []);
    case Bitfield(bits) =>
      assert s[5..] == ReverseAll(bits);
      forall i | 0 <= i < |bits| ensures ReverseAll(ReverseAll(bits))[i] == bits[i] { ReverseTwice(bits[i]); }
      assert ReverseAll(ReverseAll(bits)) == bits;
    case Request(index, begin, length) => ThreeFields(s, index, begin, length);
    case Piece(index, begin, data) =>
      Field(s, 5, index, PutU32(begin) + data);
      Field(s, 9, begin, data);
      assert s[13..] == data;
    case Cancel(index, begin, length) => ThreeFields(s, index, begin, length);
  }

  lemma Field(s: seq<byte>, k: nat, x: uint32, rest: seq<byte>)
    requires k <= |s| && s[k..] == PutU32(x) + rest
    ensures GetU32(s[k..]) == x
  {
    U32RoundTrip(x, rest);
  }

  lemma ThreeFields(s: seq<byte>, x: uint32, y: uint32, z: uint32)
    requires |s| == 17 && s[5..] == PutU32(x) + PutU32(y) + PutU32(z)
    ensures GetU32(s[5..]) == x && GetU32(s[9..]) == y && GetU32(s[13..]) == z
  {
    assert s[5..] == PutU32(x) + (PutU32(y) + PutU32(z));
    Field(s, 5, x, PutU32(y) + PutU32(z));
    assert s[9..] == s[5..][4..] == PutU32(y) + PutU32(z);
    Field(s, 9, y, PutU32(z));
    assert s[13..] == s[9..][4..] == PutU32(z) + [];
    Field(s, 13, z, []);
  }

  /** A proper prefix of a frame asks for more bytes. */
  lemma PrefixNeedsMore(m: Metainfo, msg: Message, r: seq<byte>)
    requires m.piecesCount > 0 && Sendable(m, msg)
    requires r < Encode(msg)
    ensures ParseFrame(m, r).NeedMore?
  {
    var s := Encode(msg);
    WholeFrame(m, msg);
    assert s == r + s[|r|..];
    if !ParseFrame(m, r).NeedMore? {
      Stable(m, r, s[|r|..]);
    }
  }

  // ---- draining the receive buffer

  datatype Drained = Drained(msgs: seq<Message>, rest: seq<byte>, failure: seq<PeerError>)

  /** The loop of peer_on_read: messages until the parser needs more or fails. */
  function Drain(m: Metainfo, r: seq<byte>): (d: Drained)
    requires m.piecesCount > 0
    decreases |r|
  {
    match ParseFrame(m, r)
    case NeedMore => Drained([], r, [])
    case Bad(e) => Drained([], r, [e])
    case Got(msg, used) =>
      var d := Drain(m, r[used..]);
      Drained([msg] + d.msgs, d.rest, d.failure)
  }

  lemma DrainStep(m: Metainfo, r: seq<byte>)
    requires m.piecesCount > 0
    ensures var p := ParseFrame(m, r);
      && (p.NeedMore? ==> Drain(m, r) == Drained([], r, []))
      && (p.Bad? ==> Drain(m, r) == Drained([], r, [p.error]))
      && (p.Got? ==> var d := Drain(m, r[p.used..]); Drain(m, r) == Drained([p.msg] + d.msgs, d.rest, d.failure))
  {
  }

  /** Draining, then receiving more, then draining again is draining everything at once. */
  lemma {:induction false} DrainAppend(m: Metainfo, r: seq<byte>, x: seq<byte>)
    requires m.piecesCount > 0
    ensures var d := Drain(m, r);
      && (d.failure == [] ==>
            var e := Drain(m, d.rest + x); Drain(m, r + x) == Drained(d.msgs + e.msgs, e.rest, e.failure))
      && (d.failure != [] ==> Drain(m, r + x).msgs == d.msgs && Drain(m, r + x).failure == d.failure)
    decreases |r|
  {
    hide ParseFrame, Drain;
    DrainStep(m, r);
    match ParseFrame(m, r)
    case NeedMore =>
      var d := Drain(m, r + x);
      assert [] + d.msgs == d.msgs;
    case Bad(e) =>
      Stable(m, r, x);
      DrainStep(m, r + x);
    case Got(msg, used) =>
      Stable(m, r, x);
      DrainStep(m, r + x);
      assert (r + x)[used..] == r[used..] + x;
      DrainAppend(m, r[used..], x);
      var d := Drain(m, r[used..]);
      assert [msg] + (d.msgs + Drain(m, d.rest + x).msgs) == [msg] + d.msgs + Drain(m, d.rest + x).msgs;
  }

  function Joined(chunks: seq<seq<byte>>): seq<byte> {
    if chunks == [] then [] else Joined(chunks[..|chunks| - 1]) + chunks[|chunks| - 1]
  }

  /** The state after a sequence of reads; a failed connection reads nothing more. */
  function Feed(m: Metainfo, chunks: seq<seq<byte>>): Drained
    requires m.piecesCount > 0
  {
    if chunks == [] then Drained([], [], [])
    else
      var d := Feed(m, chunks[..|chunks| - 1]);
      if d.failure != [] then d
      else
        var e := Drain(m, d.rest + chunks[|chunks| - 1]);
        Drained(d.msgs + e.msgs, e.rest, e.failure)
  }

  /** The messages delivered, the failure, and the bytes kept do not depend on how the stream is
      cut into reads. Nothing is assumed of the stream. */
  lemma {:induction false} CutsDoNotMatter(m: Metainfo, chunks: seq<seq<byte>>)
    requires m.piecesCount > 0
    ensures var d, e := Feed(m, chunks), Drain(m, Joined(chunks));
      d.msgs == e.msgs && d.failure == e.failure && (d.failure == [] ==> d.rest == e.rest)
  {
    hide ParseFrame, Drain;
    if chunks == [] {
      NothingToDrain(m);
    } else {
      CutsDoNotMatter(m, chunks[..|chunks| - 1]);
      DrainAppend(m, Joined(chunks[..|chunks| - 1]), chunks[|chunks| - 1]);
    }
  }

  lemma NothingToDrain(m: Metainfo)
    requires m.piecesCount > 0
    ensures Drain(m, []) == Drained([], [], [])
  {
  }

  function EncodeAll(msgs: seq<Message>): seq<byte> {
    if msgs == [] then [] else Encode(msgs[0]) + EncodeAll(msgs[1..])
  }

  ghost predicate AllSendable(m: Metainfo, msgs: seq<Message>)
    requires m.piecesCount > 0
  {
    forall i :: 0 <= i < |msgs| ==> Sendable(m, msgs[i])
  }

  /** A stream of frames followed by part of another is drained to exactly its messages and that part. */
  lemma {:induction false} DrainsFrames(m: Metainfo, msgs: seq<Message>, part: seq<byte>)
    requires m.piecesCount > 0 && AllSendable(m, msgs)
    requires part == [] || exists next :: Sendable(m, next) && part < Encode(next)
    ensures Drain(m, EncodeAll(msgs) + part) == Drained(msgs, part, [])
    decreases |msgs|
  {
    hide ParseFrame, Encode;
    if msgs == [] {
      assert EncodeAll(msgs) + part == part;
      if part == [] {
        NothingToDrain(m);
      } else {
        var next :| Sendable(m, next) && part < Encode(next);
        PrefixNeedsMore(m, next, part);
      }
    } else {
      var first, rest := Encode(msgs[0]), EncodeAll(msgs[1..]) + part;
      assert EncodeAll(msgs) + part == first + rest;
      FrameParses(m, msgs[0], rest);
      assert (first + rest)[|first|..] == rest;
      DrainsFrames(m, msgs[1..], part);
    }
  }

  /** After any prefix of a stream of frames: the first `k` messages are whole, and the rest of the prefix
      is a proper part of the next frame. */
  ghost predicate SplitAt(msgs: seq<Message>, r: seq<byte>, k: nat) {
    && k <= |msgs| && EncodeAll(msgs[..k]) <= r
    && var part := r[|EncodeAll(msgs[..k])|..];
       if k < |msgs| then part < Encode(msgs[k]) else part == []
  }

  lemma {:induction false} PrefixSplits(msgs: seq<Message>, r: seq<byte>) returns (k: nat)
    requires r <= EncodeAll(msgs)
    ensures SplitAt(msgs, r, k)
    decreases |msgs|
  {
    hide Encode;
    k := 0;
    if msgs != [] {
      var first, others := Encode(msgs[0]), EncodeAll(msgs[1..]);
      assert msgs[..0] == [];
      if |r| >= |first| {
        assert r == first + r[|first|..];
        assert r[|first|..] <= others;
        var j := PrefixSplits(msgs[1..], r[|first|..]);
        k := j + 1;
        assert msgs[..k][0] == msgs[0] && msgs[..k][1..] == msgs[1..][..j];
        var done := EncodeAll(msgs[1..][..j]);
        assert EncodeAll(msgs[..k]) == first + done;
        assert r[|first + done|..] == r[|first|..][|done|..];
      }
    }
  }

  /** Draining any prefix of a stream of frames gives its whole messages and keeps the part. */
  lemma DrainsPrefix(m: Metainfo, msgs: seq<Message>, r: seq<byte>) returns (k: nat)
    requires m.piecesCount > 0 && AllSendable(m, msgs) && r <= EncodeAll(msgs)
    ensures SplitAt(msgs, r, k)
    ensures Drain(m, r) == Drained(msgs[..k], r[|EncodeAll(msgs[..k])|..], [])
  {
    k := PrefixSplits(msgs, r);
    hide Encode, Drain, EncodeAll, Sendable;
    var done := EncodeAll(msgs[..k]);
    assert r == done + r[|done|..];
    if k < |msgs| { assert Sendable(m, msgs[k]); }
    DrainsFrames(m, msgs[..k], r[|done|..]);
  }

  // ---- the size of the receive buffer

  /** What stays in the buffer is part of one frame: less than the announced length. */
  lemma {:induction false} RestIsPartial(m: Metainfo, r: seq<byte>)
    requires m.piecesCount > 0 && Drain(m, r).failure == []
    ensures var rest := Drain(m, r).rest;
      ParseFrame(m, rest).NeedMore? && (|rest| < 5 || |rest| < GetU32(rest) + 4)
    decreases |r|
  {
    var p := ParseFrame(m, r);
    if p.Got? { RestIsPartial(m, r[p.used..]); }
  }

  const RING_CAPACITY := 34000
  const READ_SIZE := 17008
  const LARGEST_FRAME := 16993

  /** With frames of at most that size, a read always fits behind what is left over. A block needs 16397 bytes. */
  lemma ReadFits(m: Metainfo, r: seq<byte>, chunk: seq<byte>)
    requires m.piecesCount > 0 && Drain(m, r).failure == []
    requires |Drain(m, r).rest| >= 4 ==> GetU32(Drain(m, r).rest) + 4 <= LARGEST_FRAME
    requires |chunk| <= READ_SIZE
    ensures |Drain(m, r).rest| + |chunk| <= RING_CAPACITY
  {
    RestIsPartial(m, r);
  }

  /** A full read fits behind the bytes `r`. */
  predicate ReadFitsBehind(r: seq<byte>) { |r| + READ_SIZE <= RING_CAPACITY }

  /** The bound is exact: a full read fits behind every part of a frame if and only if the frame is no longer. */
  lemma FrameBoundIff(msg: Message)
    ensures |Encode(msg)| <= LARGEST_FRAME <==> forall r: seq<byte> :: r < Encode(msg) ==> ReadFitsBehind(r)
  {
    hide Encode;
    if |Encode(msg)| > LARGEST_FRAME {
      var r := Encode(msg)[..LARGEST_FRAME];
      assert r < Encode(msg) && !ReadFitsBehind(r);
    }
  }

  function Heartbeats(n: nat): seq<Message> { if n == 0 then [] else [Heartbeat] + Heartbeats(n - 1) }

  lemma {:induction false} HeartbeatBytes(m: Metainfo, n: nat)
    requires m.piecesCount > 0
    ensures AllSendable(m, Heartbeats(n)) && |EncodeAll(Heartbeats(n))| == 4 * n
  {
    if n > 0 { HeartbeatBytes(m, n - 1); }
  }

  /** A longer frame can be cut so that the second read does not fit: the assertion of pg_ring_push_backv fails. */
  lemma LongFrameOverflows(m: Metainfo, msg: Message)
      returns (stream: seq<Message>, first: seq<byte>, second: seq<byte>)
    requires m.piecesCount > 0 && Sendable(m, msg) && |Encode(msg)| > LARGEST_FRAME
    ensures AllSendable(m, stream) && stream != [] && stream[0] == msg && first + second <= EncodeAll(stream)
    ensures |first| <= READ_SIZE && |second| <= READ_SIZE
    ensures Drain(m, first) == Drained([], first, []) && |first| + |second| > RING_CAPACITY
  {
    var others := Heartbeats(READ_SIZE);
    HeartbeatBytes(m, READ_SIZE);
    hide Encode, Sendable, Heartbeats;
    stream := [msg] + others;
    assert stream[1..] == others;
    var bytes := EncodeAll(stream);
    assert bytes == Encode(msg) + EncodeAll(others);
    first, second := bytes[..LARGEST_FRAME], bytes[LARGEST_FRAME..LARGEST_FRAME + READ_SIZE];
    assert first + second == bytes[..LARGEST_FRAME + READ_SIZE];
    assert first == Encode(msg)[..LARGEST_FRAME];
    DrainsFrames(m, [], first);
    assert EncodeAll([]) + first == first;
  }

  /** The bitfield of a torrent is such a frame exactly from 135906 pieces on. */
  lemma BitfieldTooLongIff(m: Metainfo, bits: seq<byte>)
    requires m.piecesCount > 0 && Sendable(m, Bitfield(bits))
    ensures |Encode(Bitfield(bits))| > LARGEST_FRAME <==> m.piecesCount > 135905
  {
  }

  // ---- a request and the piece that answers it

  /** peer_send_request. */
  function RequestFor(m: Metainfo, block: uint32): Message
    requires m.blocksPerPiece > 0
  {
    var piece := PieceOf(m, block);
    var blockForPiece := BlockToBlockForPiece(m, piece, block);
    Request(piece, BeginOf(m, piece, block), BlockForPieceLength(m, piece, blockForPiece))
  }

  /** The block peer_message_handle stores a piece message under. */
  function HandledBlock(m: Metainfo, index: uint32, begin: uint32): uint32 {
    BlockForPieceToBlock(m, index, begin / BLOCK_LENGTH)
  }

  /** Answering a request with that many bytes passes every check of the parser, fits a block buffer,
      and is stored under the block that was asked for. */
  lemma AnswerIsAccepted(m: Metainfo, block: uint32, data: seq<byte>)
    requires Exact(m) && block < m.blocksCount
    requires |data| == RequestFor(m, block).length
    ensures var q := RequestFor(m, block);
      && Sendable(m, Piece(q.index, q.begin, data))
      && 0 < |data| <= BLOCK_LENGTH
      && HandledBlock(m, q.index, q.begin) == block
      && BlockForPieceLength(m, q.index, q.begin / BLOCK_LENGTH) == |data|
      && q.begin / BLOCK_LENGTH < BlockCountForPiece(m, q.index)
  {
    var piece := PieceOf(m, block);
    var k := BlockToBlockForPiece(m, piece, block);
    FromBlockAndBack(m, block);
    FromPieceAndBack(m, piece, k);
    BlockLengthIsExact(m, piece, k);
    PieceHolds(m, piece, k);
    assert k * BLOCK_LENGTH / BLOCK_LENGTH == k;
  }

  /** Every accepted piece message is stored under a block that has its index and size; the request for that block
      has its `begin` if and only if `begin` is a multiple of the block length, which the parser does not check. */
  lemma AcceptedPieceIff(m: Metainfo, r: seq<byte>)
    requires Exact(m) && ParseFrame(m, r).Got? && ParseFrame(m, r).msg.Piece?
    ensures var msg := ParseFrame(m, r).msg; var block := HandledBlock(m, msg.index, msg.begin);
      && block < m.blocksCount
      && RequestFor(m, block).index == msg.index && RequestFor(m, block).length == |msg.data|
      && (RequestFor(m, block).begin == msg.begin <==> msg.begin % BLOCK_LENGTH == 0)
  {
    var msg := ParseFrame(m, r).msg;
    AcceptedFields(m, r);
    hide ParseFrame;
    var k := msg.begin / BLOCK_LENGTH;
    PositionInPiece(m, msg.index, msg.begin, |msg.data|);
    NumberIsExact(m, msg.index, k);
    FromPieceAndBack(m, msg.index, k);
    hide Exact, BlockForPieceToBlock, BlockToBlockForPiece, BlockForPieceLength, PieceOf, BeginOf;
    assert msg.begin == k * BLOCK_LENGTH + msg.begin % BLOCK_LENGTH;
  }

  lemma AcceptedFields(m: Metainfo, r: seq<byte>)
    requires m.piecesCount > 0 && ParseFrame(m, r).Got? && ParseFrame(m, r).msg.Piece?
    ensures var msg := ParseFrame(m, r).msg;
      && msg.index < m.piecesCount && 0 < |msg.data| && msg.begin + |msg.data| <= PieceLength(m, msg.index)
      && |msg.data| == BlockForPieceLength(m, msg.index, msg.begin / BLOCK_LENGTH)
  {
    hide GetU32, PieceLength, BlockForPieceLength, BitfieldSize;
  }

  /** A whole block of data from the middle of one block to the middle of the next is accepted, and stored as the
      first of the two. */
  lemma UnalignedIsAccepted(m: Metainfo, index: uint32, k: uint32, d: nat, data: seq<byte>)
    requires Exact(m) && index < m.piecesCount && 0 < d < BLOCK_LENGTH == |data|
    requires k * BLOCK_LENGTH + d + BLOCK_LENGTH <= PieceLength(m, index)
    ensures var begin := k * BLOCK_LENGTH + d; var msg := Piece(index, begin, data);
      && ParseFrame(m, Encode(msg)) == Got(msg, |Encode(msg)|)
      && HandledBlock(m, index, begin) == BlockForPieceToBlock(m, index, k)
  {
    var begin := k * BLOCK_LENGTH + d;
    assert begin / BLOCK_LENGTH == k;
    PositionInPiece(m, index, begin, BLOCK_LENGTH);
    FullBlock(m, index, k);
    hide Encode, ParseFrame, Exact, BlockForPieceLength, BlockForPieceToBlock, PieceLength;
    WholeFrame(m, Piece(index, begin, data));
  }

  /** A block that does not reach the end of its piece is a whole one. */
  lemma FullBlock(m: Metainfo, index: uint32, k: uint32)
    requires Exact(m) && index < m.piecesCount && k < BlockCountForPiece(m, index)
    requires k * BLOCK_LENGTH + BLOCK_LENGTH < PieceLength(m, index)
    ensures BlockForPieceLength(m, index, k) == BLOCK_LENGTH
  {
    BlockLengthIsExact(m, index, k);
    PieceEnd(m, index);
    hide Exact;
  }

  lemma PieceHolds(m: Metainfo, piece: uint32, k: uint32)
    requires Exact(m) && piece < m.piecesCount && k < BlockCountForPiece(m, piece)
    ensures k * BLOCK_LENGTH + BlockForPieceLength(m, piece, k) <= PieceLength(m, piece)
  {
    BlockLengthIsExact(m, piece, k);
    PieceEnd(m, piece);
    OffsetInPiece(m, piece, k);
    LastPieceIndex(m);
  }

  /** The assertion inside metainfo_block_for_piece_length holds for every piece message that reaches it. */
  lemma PositionInPiece(m: Metainfo, index: uint32, begin: uint32, size: nat)
    requires Exact(m) && index < m.piecesCount && size > 0 && begin + size <= PieceLength(m, index)
    ensures begin / BLOCK_LENGTH < BlockCountForPiece(m, index) <= m.blocksPerPiece
  {
    PieceEnd(m, index);
    LastPieceIndex(m);
  }
}
