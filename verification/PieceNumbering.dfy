/** torrent/bencode.h, computed metainfo fields for every positive piece length: exactly when the blocks of
    pieces are numbered without gaps and the numbering can be inverted by division. */
module PieceNumbering {
  import opened Arithmetic
  import opened MachineInts
  import opened Metainfo

  /** One checksum per piece, counts within 32 bits; nothing is asked of the piece length. */
  ghost predicate AnyTorrent(length: uint64, pieceLength: uint32, piecesLen: nat) {
    && length > 0 && pieceLength > 0
    && piecesLen / 20 == CeilDiv(length, pieceLength) < TWO_32
    && CeilDiv(length, BLOCK_LENGTH) < TWO_32
  }

  /** The computed fields in unbounded arithmetic. */
  ghost predicate FieldsExact(m: Metainfo) {
    && m.piecesCount > 0 && m.length == (m.piecesCount - 1) * m.pieceLength + m.lastPieceLength
    && 0 < m.lastPieceLength <= m.pieceLength
    && m.blocksPerPiece == m.pieceLength / BLOCK_LENGTH
    && m.lastPieceBlockCount > 0 && m.blocksCount > 0
    && (m.lastPieceBlockCount - 1) * BLOCK_LENGTH < m.lastPieceLength <= m.lastPieceBlockCount * BLOCK_LENGTH
    && (m.blocksCount - 1) * BLOCK_LENGTH < m.length <= m.blocksCount * BLOCK_LENGTH
  }

  lemma FieldsAreExact(length: uint64, pieceLength: uint32, piecesLen: nat)
    requires AnyTorrent(length, pieceLength, piecesLen)
    ensures var m := Compute(length, pieceLength, piecesLen);
      m.length == length && m.pieceLength == pieceLength && FieldsExact(m)
  {
    var pieces := CeilDiv(length, pieceLength);
    CeilDivBounds(length, pieceLength);
    var last := length - (pieces - 1) * pieceLength;
    LastPieceIsExact(length, pieceLength, pieces, last);
    CeilDivBounds(last, BLOCK_LENGTH);
    CeilDivBounds(length, BLOCK_LENGTH);
    assert CeilDiv(last, BLOCK_LENGTH) < TWO_32;
    hide CeilDiv, Wrap32, Wrap64, Mul32, Sub32;
    WrapId(pieces);
    WrapId(CeilDiv(length, BLOCK_LENGTH));
    WrapId(CeilDiv(last, BLOCK_LENGTH));
  }

  /** The blocks of all pieces together. */
  function Numbered(m: Metainfo): int { (m.piecesCount - 1) * m.blocksPerPiece + m.lastPieceBlockCount }

  /** What each piece before the last has beyond its whole blocks, over all pieces. */
  function Leftover(m: Metainfo): int { (m.piecesCount - 1) * (m.pieceLength % BLOCK_LENGTH) }

  /** The unused part of the last block of the last piece. */
  function Slack(m: Metainfo): int { m.lastPieceBlockCount * BLOCK_LENGTH - m.lastPieceLength }

  /** No block is lost exactly when the leftovers fit into the slack of the last block. */
  lemma NoBlockLostIff(m: Metainfo)
    requires FieldsExact(m)
    ensures m.blocksCount == Numbered(m) <==> Leftover(m) <= Slack(m)
    ensures m.blocksCount >= Numbered(m)
  {
    var n, bpp, s := m.piecesCount - 1, m.blocksPerPiece, m.pieceLength % BLOCK_LENGTH;
    assert m.pieceLength == bpp * BLOCK_LENGTH + s;
    assert n * m.pieceLength == n * (bpp * BLOCK_LENGTH) + n * s;
    Assoc(n, bpp);
    NatProduct(n, s);
    CeilIff(m.length, m.blocksCount, Numbered(m), Leftover(m), Slack(m));
  }

  lemma CeilIff(length: nat, count: nat, numbered: int, leftover: nat, slack: int)
    requires (count - 1) * BLOCK_LENGTH < length <= count * BLOCK_LENGTH
    requires length == numbered * BLOCK_LENGTH + leftover - slack && 0 <= slack < BLOCK_LENGTH
    ensures count == numbered <==> leftover <= slack
    ensures count >= numbered
  {
  }

  // ---- the numbering as a bijection

  ghost predicate IsPlace(m: Metainfo, piece: nat, k: nat) {
    piece < m.piecesCount && k < (if piece == m.piecesCount - 1 then m.lastPieceBlockCount else m.blocksPerPiece)
  }

  function Number(m: Metainfo, piece: nat, k: nat): nat
  {
    NatProduct(piece, m.blocksPerPiece);
    piece * m.blocksPerPiece + k
  }

  /** Every block of a piece has a number below the total from which division gives the piece back. */
  ghost predicate GoesBack(m: Metainfo)
    requires m.blocksPerPiece > 0
  {
    forall piece: nat, k: nat :: IsPlace(m, piece, k) ==>
      Number(m, piece, k) < m.blocksCount && Number(m, piece, k) / m.blocksPerPiece == piece
  }

  /** Every block number comes from the place that division gives. */
  ghost predicate ComesFrom(m: Metainfo, block: nat)
    requires m.blocksPerPiece > 0
  {
    IsPlace(m, block / m.blocksPerPiece, block % m.blocksPerPiece)
  }

  ghost predicate IsBijection(m: Metainfo)
    requires m.blocksPerPiece > 0
  {
    GoesBack(m) && forall block: nat :: block < m.blocksCount ==> ComesFrom(m, block)
  }

  lemma PlaceIsNumbered(m: Metainfo, piece: nat, k: nat)
    requires FieldsExact(m) && m.blocksPerPiece > 0 && IsPlace(m, piece, k) && m.lastPieceBlockCount <= m.blocksPerPiece
    ensures Number(m, piece, k) < Numbered(m) && Number(m, piece, k) / m.blocksPerPiece == piece
  {
    var bpp := m.blocksPerPiece;
    PieceBefore(m, piece, bpp);
    MulAssoc(piece, bpp, 1);
    Euclid(Number(m, piece, k), bpp, piece, k);
  }

  lemma NumberHasPlace(m: Metainfo, block: nat)
    requires FieldsExact(m) && 0 < m.lastPieceBlockCount <= m.blocksPerPiece && block < Numbered(m)
    ensures ComesFrom(m, block)
  {
    var bpp, n := m.blocksPerPiece, m.piecesCount - 1;
    var piece, k := block / bpp, block % bpp;
    Quotient(block, bpp);
    DivShrinks(block, bpp);
    MulAssoc(piece, bpp, 1);
    assert (n + 1) * bpp == n * bpp + bpp;
    if piece > n { MulMono(piece, n + 1, bpp, bpp); }
  }

  /** The last block of the last piece goes back. */
  lemma LastPlaceFits(m: Metainfo)
    requires FieldsExact(m) && m.blocksPerPiece > 0 && GoesBack(m)
    ensures m.lastPieceBlockCount <= m.blocksPerPiece && Numbered(m) <= m.blocksCount
  {
    var bpp, n := m.blocksPerPiece, m.piecesCount - 1;
    assert IsPlace(m, n, m.lastPieceBlockCount - 1);
    var x := Number(m, n, m.lastPieceBlockCount - 1);
    Quotient(x, bpp);
    MulAssoc(n, bpp, 1);
  }

  /** The last block number comes from a place. */
  lemma TopHasPlace(m: Metainfo)
    requires FieldsExact(m) && m.blocksPerPiece > 0 && ComesFrom(m, m.blocksCount - 1)
    ensures m.blocksCount <= Numbered(m)
  {
    var bpp, n, top := m.blocksPerPiece, m.piecesCount - 1, m.blocksCount - 1;
    var piece, k := top / bpp, top % bpp;
    Quotient(top, bpp);
    DivShrinks(top, bpp);
    MulAssoc(piece, bpp, 1);
    MulAssoc(n, bpp, 1);
    assert (piece + 1) * bpp == piece * bpp + bpp;
    if piece < n { MulMono(n, piece + 1, bpp, bpp); }
  }

  /** Numbering and division are inverse bijections exactly when no block is lost and the last piece has no more
      blocks than the others. */
  lemma BijectionIff(m: Metainfo)
    requires FieldsExact(m) && m.blocksPerPiece > 0
    ensures IsBijection(m) <==> m.blocksCount == Numbered(m) && m.lastPieceBlockCount <= m.blocksPerPiece
  {
    hide FieldsExact, Numbered;
    if IsBijection(m) {
      LastPlaceFits(m);
      assert m.blocksCount > 0 by { Positive(m); }
      assert ComesFrom(m, m.blocksCount - 1);
      TopHasPlace(m);
    }
    if m.blocksCount == Numbered(m) && m.lastPieceBlockCount <= m.blocksPerPiece {
      forall piece: nat, k: nat | IsPlace(m, piece, k)
        ensures Number(m, piece, k) < m.blocksCount && Number(m, piece, k) / m.blocksPerPiece == piece
      {
        PlaceIsNumbered(m, piece, k);
      }
      assert m.lastPieceBlockCount > 0 by { Positive(m); }
      forall block: nat | block < m.blocksCount ensures ComesFrom(m, block) { NumberHasPlace(m, block); }
    }
  }

  lemma Positive(m: Metainfo) requires FieldsExact(m) ensures m.lastPieceBlockCount > 0 && m.blocksCount > 0 {}

  /** For every torrent with one checksum per piece: blocks are numbered by a bijection that division inverts
      exactly when the piece length is at least one block, the leftovers of the pieces fit into the slack of the
      last block, and the last piece is no longer than the whole blocks of a piece. */
  lemma NumberingIff(length: uint64, pieceLength: uint32, piecesLen: nat)
    requires AnyTorrent(length, pieceLength, piecesLen)
    ensures var m := Compute(length, pieceLength, piecesLen);
      && (m.blocksPerPiece > 0 <==> pieceLength >= BLOCK_LENGTH)
      && (m.blocksPerPiece > 0 ==>
           (IsBijection(m) <==>
              Leftover(m) <= Slack(m) && m.lastPieceLength <= pieceLength - pieceLength % BLOCK_LENGTH))
  {
    var m := Compute(length, pieceLength, piecesLen);
    FieldsAreExact(length, pieceLength, piecesLen);
    NoBlockLostIff(m);
    if m.blocksPerPiece > 0 { BijectionIff(m); }
    LastFits(m);
    hide Compute, IsBijection, Leftover, Slack, Numbered;
  }

  lemma LastFits(m: Metainfo)
    requires FieldsExact(m)
    ensures m.lastPieceBlockCount <= m.blocksPerPiece
       <==> m.lastPieceLength <= m.pieceLength - m.pieceLength % BLOCK_LENGTH
  {
  }

  lemma ThreePieces()
    ensures Compute(3 * 24576, 24576, 60) == Metainfo(73728, 24576, 3, 5, 1, 24576, 2)
    ensures AnyTorrent(3 * 24576, 24576, 60)
  {
  }

  lemma OnePiece()
    ensures Compute(20000, 20000, 20) == Metainfo(20000, 20000, 1, 2, 1, 20000, 2)
    ensures AnyTorrent(20000, 20000, 20)
  {
  }

  /** Both conditions can fail: three pieces of one and a half blocks lose a block, and a single piece of 20000
      bytes has more blocks than division allows a piece. */
  lemma OddPieceLengths()
    ensures var m := Compute(3 * 24576, 24576, 60);
      m.blocksPerPiece == 1 && m.blocksCount == 5 && Numbered(m) == 4 && !IsBijection(m)
    ensures var m := Compute(20000, 20000, 20);
      m.blocksPerPiece == 1 && m.blocksCount == Numbered(m) == 2 && !IsBijection(m)
  {
    ThreePieces();
    OnePiece();
    hide Compute, IsBijection, AnyTorrent;
    NumberingIff(3 * 24576, 24576, 60);
    NumberingIff(20000, 20000, 20);
  }
}
