/** torrent/peer.h: the receiving side of a peer, on top of the ring buffer. */
module PeerReceive {
  import opened MachineInts
  import opened Metainfo
  import opened PeerWire
  import opened Ring

  /** "\x13" "BitTorrent protocol" */
  const HEADER: seq<byte> :=
    [0x13, 0x42, 0x69, 0x74, 0x54, 0x6f, 0x72, 0x72, 0x65, 0x6e, 0x74, 0x20, 0x70, 0x72, 0x6f, 0x74, 0x6f, 0x63,
      0x6f, 0x6c]

  /** peer_read_u32 */
  method ReadU32(ring: RingBuffer) returns (x: uint32)
    requires ring.Valid() && ring.len >= 4
    modifies ring`len, ring`offset
    ensures ring.Valid() && x == GetU32(old(ring.Contents())) && ring.Contents() == old(ring.Contents())[4..]
  {
    ghost var c := ring.Contents();
    var b0 := ring.PopFront();
    var b1 := ring.PopFront();
    var b2 := ring.PopFront();
    var b3 := ring.PopFront();
    assert c == [b0] + ([b1] + ([b2] + ([b3] + ring.Contents())));
    x := GetU32([b0, b1, b2, b3]);
  }

  /** peer_peek_read_u32 */
  method PeekU32(ring: RingBuffer) returns (x: uint32)
    requires ring.Valid() && ring.len >= 4
    ensures x == GetU32(ring.Contents())
  {
    var b0 := ring.Get(0);
    var b1 := ring.Get(1);
    var b2 := ring.Get(2);
    var b3 := ring.Get(3);
    x := GetU32([b0, b1, b2, b3]);
  }

  /** The byte loops that take a payload out of the ring. */
  method TakeBytes(ring: RingBuffer, n: nat) returns (s: seq<byte>)
    requires ring.Valid() && n <= ring.len
    modifies ring`len, ring`offset
    ensures ring.Valid() && s == old(ring.Contents())[..n] && ring.Contents() == old(ring.Contents())[n..]
  {
    s := [];
    var i := 0;
    while i < n
      invariant 0 <= i <= n && ring.Valid() && ring.len == old(ring.len) - i && ring.data == old(ring.data)
      invariant s == old(ring.Contents())[..i] && ring.Contents() == old(ring.Contents())[i..]
    {
      var b := ring.PopFront();
      s := s + [b];
      i := i + 1;
    }
  }

  /** What the parser did to the ring: nothing when it needs more, exactly one frame when it got one. */
  ghost predicate Consumed(p: Parsed, before: seq<byte>, after: seq<byte>) {
    && (p.NeedMore? ==> after == before)
    && (p.Got? ==> p.used <= |before| && after == before[p.used..])
  }

  /** peer_message_parse after the handshake. */
  method ParseMessage(m: Metainfo, ring: RingBuffer) returns (p: Parsed)
    requires ring.Valid() && m.piecesCount > 0
    modifies ring`len, ring`offset
    ensures ring.Valid() && p == ParseFrame(m, old(ring.Contents()))
    ensures Consumed(p, old(ring.Contents()), ring.Contents())
  {
    hide GetU32, PieceLength, BlockForPieceLength, BitfieldSize;
    ghost var r := ring.Contents();
    if ring.len < 4 { return NeedMore; }
    var announced := PeekU32(ring);
    if announced == 0 {
      ring.ConsumeFront(4);
      return Got(Heartbeat, 4);
    }
    if announced > MAX_MESSAGE_LENGTH { return Bad(InvalidAnnouncedLength); }
    if ring.len < 5 { return NeedMore; }
    var tag := ring.Get(4);
    if tag == 0 { ring.ConsumeFront(5); return Got(Choke, 5); }
    if tag == 1 { ring.ConsumeFront(5); return Got(Unchoke, 5); }
    if tag == 2 { ring.ConsumeFront(5); return Got(Interested, 5); }
    if tag == 3 { ring.ConsumeFront(5); return Got(Uninterested, 5); }
    p := ParseWithPayload(m, ring, announced, tag);
  }

  /** The cases of peer_message_parse that carry a payload. */
  method ParseWithPayload(m: Metainfo, ring: RingBuffer, announced: nat, tag: byte) returns (p: Parsed)
    requires ring.Valid() && m.piecesCount > 0 && ring.len >= 5 && tag == ring.Contents()[4] && tag >= 4
    modifies ring`len, ring`offset
    ensures ring.Valid() && p == ParseTagged(m, old(ring.Contents()), announced)
    ensures Consumed(p, old(ring.Contents()), ring.Contents())
  {
    hide GetU32, PieceLength, BlockForPieceLength, BitfieldSize;
    ghost var r := ring.Contents();
    if tag == 4 {
      if announced != 5 { return Bad(InvalidAnnouncedLength); }
      if ring.len < announced + 4 { return NeedMore; }
      ring.ConsumeFront(5);
      var have := ReadU32(ring);
      if have > m.piecesCount { return Bad(InvalidHave); }
      return Got(Have(have), 9);
    } else if tag == 5 {
      if announced != BitfieldSize(m) + 1 { return Bad(InvalidAnnouncedLength); }
      if ring.len < announced + 4 { return NeedMore; }
      ring.ConsumeFront(5);
      var bits := TakeBytes(ring, announced - 1);
      assert bits == r[5..announced + 4] && r[5..][announced - 1..] == r[announced + 4..];
      return Got(Bitfield(ReverseAll(bits)), announced + 4);
    } else if tag == 6 || tag == 8 {
      if announced != 13 { return Bad(InvalidAnnouncedLength); }
      if ring.len < announced + 4 { return NeedMore; }
      ring.ConsumeFront(5);
      var index := ReadU32(ring);
      var begin := ReadU32(ring);
      var length := ReadU32(ring);
      return Got(if tag == 6 then Request(index, begin, length) else Cancel(index, begin, length), 17);
    } else if tag == 7 {
      if announced < 10 { return Bad(InvalidAnnouncedLength); }
      if ring.len < announced + 4 { return NeedMore; }
      ring.ConsumeFront(5);
      var index := ReadU32(ring);
      var begin := ReadU32(ring);
      var size := announced - 9;
      assert r[5..][4..] == r[9..] && r[9..][4..] == r[13..] && r[13..][..size] == r[13..announced + 4];
      if index >= m.piecesCount || begin + size > PieceLength(m, index) { return Bad(InvalidPiece); }
      if size != BlockForPieceLength(m, index, begin / BLOCK_LENGTH) { return Bad(InvalidPiece); }
      var data := TakeBytes(ring, size);
      return Got(Piece(index, begin, data), announced + 4);
    }
    return Bad(InvalidMessageTag);
  }

  /** peer_on_read: stores the chunk, then parses as many messages as there are. */
  method OnRead(m: Metainfo, ring: RingBuffer, chunk: seq<byte>)
    returns (msgs: seq<Message>, failure: seq<PeerError>)
    requires ring.Valid() && m.piecesCount > 0 && ring.len + |chunk| <= ring.data.Length
    modifies ring`len, ring`offset, ring.data
    ensures ring.Valid() && ring.data == old(ring.data)
    ensures var d := Drain(m, old(ring.Contents()) + chunk);
      && msgs == d.msgs && failure == d.failure
      && (failure == [] ==> ring.Contents() == d.rest)
  {
    hide ParseFrame;
    ring.PushBackV(chunk);
    ghost var all := ring.Contents();
    msgs, failure := [], [];
    while true
      invariant ring.Valid() && ring.data == old(ring.data)
      invariant var d := Drain(m, ring.Contents());
        Drain(m, all) == Drained(msgs + d.msgs, d.rest, d.failure)
      decreases ring.len
    {
      ghost var r := ring.Contents();
      var p := ParseMessage(m, ring);
      match p
      case NeedMore =>
        assert msgs + [] == msgs;
        return;
      case Bad(e) =>
        assert msgs + [] == msgs;
        return msgs, [e];
      case Got(msg, used) =>
        ghost var d := Drain(m, r[used..]);
        assert msgs + ([msg] + d.msgs) == msgs + [msg] + d.msgs;
        msgs := msgs + [msg];
    }
  }

  /** A connection after the handshake, from its first read on: the chunks are any cuts of a prefix of a
      stream of frames. The ring never overflows, nothing fails, and every whole message is delivered. */
  method Receive(m: Metainfo, chunks: seq<seq<byte>>, ghost stream: seq<Message>)
    returns (msgs: seq<Message>, failure: seq<PeerError>)
    requires m.piecesCount > 0 && AllSendable(m, stream) && Joined(chunks) <= EncodeAll(stream)
    requires forall i :: 0 <= i < |stream| ==> |Encode(stream[i])| <= LARGEST_FRAME
    requires forall i :: 0 <= i < |chunks| ==> |chunks[i]| <= READ_SIZE
    ensures failure == [] && SplitAt(stream, Joined(chunks), |msgs|) && msgs == stream[..|msgs|]
  {
    hide Drain, Encode, EncodeAll, AllSendable;
    var ring := new RingBuffer(RING_CAPACITY);
    msgs, failure := [], [];
    ghost var r: seq<byte> := [];
    NothingToDrain(m);
    for i := 0 to |chunks|
      invariant fresh(ring) && fresh(ring.data) && ring.Valid() && ring.data.Length == RING_CAPACITY
      invariant r == Joined(chunks[..i]) && failure == []
      invariant Drain(m, r) == Drained(msgs, ring.Contents(), [])
    {
      JoinedPrefix(chunks, i);
      ghost var k := DrainsPrefix(m, stream, r);
      assert |ring.Contents()| < LARGEST_FRAME;
      ghost var more := r + chunks[i];
      ghost var k' := DrainsPrefix(m, stream, more);
      DrainAppend(m, r, chunks[i]);
      var got, problem := OnRead(m, ring, chunks[i]);
      msgs, failure := msgs + got, problem;
      r := more;
    }
    assert chunks[..|chunks|] == chunks;
    ghost var k := DrainsPrefix(m, stream, r);
  }

  lemma JoinedPrefix(chunks: seq<seq<byte>>, i: nat)
    requires i < |chunks|
    ensures Joined(chunks[..i + 1]) == Joined(chunks[..i]) + chunks[i]
    ensures Joined(chunks[..i]) <= Joined(chunks[..i + 1]) <= Joined(chunks)
  {
    assert chunks[..i + 1][..i] == chunks[..i];
    JoinedMonotone(chunks, i + 1);
  }

  lemma {:induction false} JoinedMonotone(chunks: seq<seq<byte>>, i: nat)
    requires i <= |chunks|
    ensures Joined(chunks[..i]) <= Joined(chunks)
    decreases |chunks|
  {
    if i < |chunks| {
      assert chunks[..|chunks| - 1][..i] == chunks[..i];
      JoinedMonotone(chunks[..|chunks| - 1], i);
    } else {
      assert chunks[..i] == chunks;
    }
  }

  // ---- the handshake

  datatype FirstParse = Waiting | Shaken(next: Parsed) | Early(next: Parsed)

  /** The start of peer_message_parse for a peer that has not shaken hands: when the handshake is
      incomplete the function does not return, it goes on to parse the bytes as a message. */
  function ParseFirst(m: Metainfo, infoHash: seq<byte>, r: seq<byte>): FirstParse
    requires m.piecesCount > 0 && |infoHash| == 20
  {
    if |r| >= HANDSHAKE_LENGTH then
      if r[..20] != HEADER then Shaken(Bad(WrongHandshakeHeader))
      else if r[28..48] != infoHash then Shaken(Bad(WrongHandshakeHash))
      else Shaken(ParseFrame(m, r[HANDSHAKE_LENGTH..]))
    else if ParseFrame(m, r).NeedMore? then Waiting
    else Early(ParseFrame(m, r))
  }

  /** A valid handshake survives being cut exactly when the first part has fewer than 4 or at least 68
      bytes; any other cut is taken for a message of impossible length and ends the connection. */
  lemma HandshakeCut(m: Metainfo, infoHash: seq<byte>, handshake: seq<byte>, r: seq<byte>)
    requires m.piecesCount > 0 && |infoHash| == 20
    requires |handshake| == HANDSHAKE_LENGTH && handshake[..20] == HEADER && handshake[28..48] == infoHash
    requires r <= handshake
    ensures ParseFirst(m, infoHash, r) == Early(Bad(InvalidAnnouncedLength)) <==> 4 <= |r| < HANDSHAKE_LENGTH
    ensures |r| < 4 ==> ParseFirst(m, infoHash, r) == Waiting
    ensures |r| == HANDSHAKE_LENGTH ==> ParseFirst(m, infoHash, r) == Shaken(NeedMore)
  {
    if |r| >= 4 {
      assert forall k :: 0 <= k < 4 ==> r[k] == handshake[k] == handshake[..20][k] == HEADER[k];
    }
    if |r| == HANDSHAKE_LENGTH { assert r == handshake; }
  }
}
