/** torrent/peer.h: the messages of section "peer protocol" of BEP 3, byte by byte. */
module PeerFrames {
  import opened MachineInts
  import opened Metainfo
  import opened PeerWire
  import PeerReceive

  /** The number a sequence of bytes stands for in network order. */
  function Number(s: seq<byte>): nat {
    if s == [] then 0 else 256 * Number(s[..|s| - 1]) + s[|s| - 1] as nat
  }

  lemma FourBytes(s: seq<byte>)
    requires |s| == 4
    ensures Number(s) == ((s[0] as nat * 256 + s[1] as nat) * 256 + s[2] as nat) * 256 + s[3] as nat
  {
    assert s[..3][..2] == s[..2] && s[..2][..1] == s[..1] && s[..1][..0] == [];
    assert Number(s[..1]) == s[0] as nat;
    assert Number(s[..2]) == 256 * Number(s[..1]) + s[1] as nat;
    assert Number(s[..3]) == 256 * Number(s[..2]) + s[2] as nat;
  }

  /** Numbers are read and written in network order. */
  lemma NetworkOrder(s: seq<byte>, x: uint32)
    requires |s| == 4
    ensures GetU32(s) == Number(s)
    ensures Number(PutU32(x)) == x
  {
    FourBytes(s);
    U32RoundTrip(x, []);
    assert PutU32(x) + [] == PutU32(x);
    FourBytes(PutU32(x));
    hide Number, PutU32;
  }

  lemma ReadsAt(a: seq<byte>, s: seq<byte>, b: seq<byte>)
    requires |s| == 4
    ensures GetU32((a + s + b)[|a|..]) == Number(s)
  {
    var r := (a + s + b)[|a|..];
    assert r == s + b;
    NetworkOrder(s, 0);
    hide Number;
  }

  lemma StartsWith(head: seq<byte>, x: seq<byte>)
    requires |head| == 5
    ensures GetU32(head + x) == GetU32(head[..4]) && (head + x)[4] == head[4]
  {
  }

  /** The messages without a payload. */
  lemma ControlFrames(m: Metainfo, x: seq<byte>)
    requires m.piecesCount > 0
    ensures ParseFrame(m, [0, 0, 0, 0] + x) == Got(Heartbeat, 4)
    ensures ParseFrame(m, [0, 0, 0, 1, 0] + x) == Got(Choke, 5)
    ensures ParseFrame(m, [0, 0, 0, 1, 1] + x) == Got(Unchoke, 5)
    ensures ParseFrame(m, [0, 0, 0, 1, 2] + x) == Got(Interested, 5)
    ensures ParseFrame(m, [0, 0, 0, 1, 3] + x) == Got(Uninterested, 5)
  {
  }

  lemma Tagged(m: Metainfo, head: seq<byte>, x: seq<byte>, n: uint32)
    requires m.piecesCount > 0 && |head| == 5 && Number(head[..4]) == n && 0 < n <= MAX_MESSAGE_LENGTH
    ensures ParseFrame(m, head + x) == ParseTagged(m, head + x, n) && (head + x)[4] == head[4]
  {
    StartsWith(head, x);
    NetworkOrder(head[..4], 0);
    hide ParseTagged, Number;
  }

  lemma SmallNumber(n: byte)
    ensures Number([0, 0, 0, n]) == n as nat
  {
    FourBytes([0, 0, 0, n]);
  }

  lemma HaveFrame(m: Metainfo, a: seq<byte>, x: seq<byte>)
    requires m.piecesCount > 0 && |a| == 4
    ensures Number(a) < TWO_32
    ensures ParseFrame(m, [0, 0, 0, 5, 4] + (a + x)) ==
      if Number(a) <= m.piecesCount then Got(Have(Number(a)), 9) else Bad(InvalidHave)
  {
    var head: seq<byte> := [0, 0, 0, 5, 4];
    assert head[..4] == [0, 0, 0, 5];
    SmallNumber(5);
    Tagged(m, head, a + x, 5);
    ReadsAt(head, a, x);
    NetworkOrder(a, 0);
    assert head + (a + x) == head + a + x;
    hide ParseFrame, Number, GetU32;
  }

  /** REQUEST and CANCEL carry the piece, the offset in it and the length, in this order. */
  lemma RequestFrames(m: Metainfo, a: seq<byte>, b: seq<byte>, c: seq<byte>, x: seq<byte>)
    requires m.piecesCount > 0 && |a| == |b| == |c| == 4
    ensures Number(a) < TWO_32 && Number(b) < TWO_32 && Number(c) < TWO_32
    ensures ParseFrame(m, [0, 0, 0, 13, 6] + (a + b + c + x)) == Got(Request(Number(a), Number(b), Number(c)), 17)
    ensures ParseFrame(m, [0, 0, 0, 13, 8] + (a + b + c + x)) == Got(Cancel(Number(a), Number(b), Number(c)), 17)
  {
    ThreeNumbers(m, 6, a, b, c, x);
    ThreeNumbers(m, 8, a, b, c, x);
    hide ParseFrame, Number, GetU32;
  }

  lemma ThreeNumbers(m: Metainfo, tag: byte, a: seq<byte>, b: seq<byte>, c: seq<byte>, x: seq<byte>)
    requires m.piecesCount > 0 && |a| == |b| == |c| == 4
    ensures var r := [0, 0, 0, 13, tag] + (a + b + c + x);
      && |r| >= 17 && r[4] == tag
      && ParseFrame(m, r) == ParseTagged(m, r, 13)
      && GetU32(r[5..]) == Number(a) && GetU32(r[9..]) == Number(b) && GetU32(r[13..]) == Number(c)
  {
    var head: seq<byte> := [0, 0, 0, 13, tag];
    assert head[..4] == [0, 0, 0, 13];
    SmallNumber(13);
    Tagged(m, head, a + b + c + x, 13);
    hide *;
    var r := head + (a + b + c + x);
    assert r == head + a + (b + c + x) == head + a + b + (c + x) == head + a + b + c + x;
    ReadsAt(head, a, b + c + x);
    ReadsAt(head + a, b, c + x);
    ReadsAt(head + a + b, c, x);
  }

  /** PIECE carries the piece, the offset in it and the data. */
  lemma PieceFrame(m: Metainfo, n: seq<byte>, a: seq<byte>, b: seq<byte>, data: seq<byte>, x: seq<byte>)
    requires m.piecesCount > 0 && |n| == |a| == |b| == 4
    requires 0 < |data| <= MAX_MESSAGE_LENGTH - 9 && Number(n) == 9 + |data|
    ensures var r := n + [7] + (a + b + data + x);
      && Number(a) < TWO_32 && Number(b) < TWO_32
      && (ParseFrame(m, r).Got? ==> ParseFrame(m, r) == Got(Piece(Number(a), Number(b), data), 13 + |data|))
      && (!ParseFrame(m, r).Got? ==> ParseFrame(m, r) == Bad(InvalidPiece))
  {
    var head := n + [7];
    assert head[..4] == n && head[4] == 7;
    hide *;
    Tagged(m, head, a + b + data + x, Number(n));
    PieceBytes(n, a, b, data, x);
    PieceTagged(m, head + (a + b + data + x), |data|);
  }

  lemma PieceBytes(n: seq<byte>, a: seq<byte>, b: seq<byte>, data: seq<byte>, x: seq<byte>)
    requires |n| == |a| == |b| == 4
    ensures var r := n + [7] + (a + b + data + x);
      && |r| >= 13 + |data| && GetU32(r[5..]) == Number(a) && GetU32(r[9..]) == Number(b)
      && r[13..13 + |data|] == data
  {
    hide *;
    var head: seq<byte> := n + [7];
    var r := head + (a + b + data + x);
    assert r == head + a + (b + data + x) == head + a + b + (data + x);
    ReadsAt(head, a, b + data + x);
    ReadsAt(head + a, b, data + x);
    assert r == (head + a + b) + data + x;
  }

  lemma PieceTagged(m: Metainfo, r: seq<byte>, size: nat)
    requires m.piecesCount > 0 && size > 0 && |r| >= 13 + size && r[4] == 7
    ensures var p := ParseTagged(m, r, 9 + size);
      p == Bad(InvalidPiece) || p == Got(Piece(GetU32(r[5..]), GetU32(r[9..]), r[13..13 + size]), 13 + size)
  {
    hide GetU32, PieceLength, BlockForPieceLength;
  }

  /** The frames the parser refuses by their first five bytes. */
  lemma RefusedFrames(m: Metainfo, n: seq<byte>, tag: byte, x: seq<byte>)
    requires m.piecesCount > 0 && |n| == 4
    ensures Number(n) < TWO_32
    ensures var p := ParseFrame(m, n + [tag] + x);
      && (Number(n) > 0x800_0000 ==> p == Bad(InvalidAnnouncedLength))
      && (0 < Number(n) <= 0x800_0000 ==>
            && (tag > 8 ==> p == Bad(InvalidMessageTag))
            && (tag == 4 && Number(n) != 5 ==> p == Bad(InvalidAnnouncedLength))
            && (tag == 5 && Number(n) != 1 + CeilDiv(m.piecesCount - 1, 8) ==> p == Bad(InvalidAnnouncedLength))
            && ((tag == 6 || tag == 8) && Number(n) != 13 ==> p == Bad(InvalidAnnouncedLength))
            && (tag == 7 && Number(n) < 10 ==> p == Bad(InvalidAnnouncedLength)))
  {
    StartsWith(n + [tag], x);
    assert (n + [tag])[..4] == n;
    NetworkOrder(n, 0);
    hide Number, GetU32, ParsePiece;
  }

  /** The handshake starts with the length of the protocol's name, and the name. */
  lemma HeaderNamesProtocol(i: nat)
    requires i < 19
    ensures PeerReceive.HEADER[0] as nat == |"BitTorrent protocol"| == 19
    ensures |PeerReceive.HEADER| == 20 && PeerReceive.HEADER[i + 1] as int == "BitTorrent protocol"[i] as int
  {
  }
}
