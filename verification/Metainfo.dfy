/** torrent/bencode.h, computed metainfo fields: block and piece arithmetic in wrapping
    32-bit integers. */
module Metainfo {
  import opened Arithmetic
  import opened MachineInts

  const BLOCK_LENGTH := 0x4000

  datatype Metainfo = Metainfo(
    length: uint64, pieceLength: uint32, piecesCount: uint32,
    blocksCount: uint32, blocksPerPiece: uint32, lastPieceLength: uint32, lastPieceBlockCount: uint32)

  function CeilDiv(x: nat, y: nat): nat
    requires y > 0
  {
    (x + y - 1) / y
  }

  function Sub32(x: uint32, y: uint32): uint32 { Wrap32(x - y) }

  function Mul32(x: uint32, y: uint32): uint32 { Wrap32(x * y) }

  /** The last lines of bc_parser_init_metainfo. `piecesLen` is the size of the checksum string. */
  function Compute(length: uint64, pieceLength: uint32, piecesLen: nat): Metainfo {
    var piecesCount := Wrap32(piecesLen / 20);
    var lastPieceLength := Wrap32(Wrap64(length - Mul32(Sub32(piecesCount, 1), pieceLength)));
    Metainfo(length, pieceLength, piecesCount,
             Wrap32(CeilDiv(length, BLOCK_LENGTH)),
             pieceLength / BLOCK_LENGTH,
             lastPieceLength,
             Wrap32(CeilDiv(lastPieceLength, BLOCK_LENGTH)))
  }

  /** The torrents the arithmetic is meant for. */
  ghost predicate Torrent(length: uint64, pieceLength: uint32, piecesLen: nat) {
    && length > 0 && pieceLength > 0 && pieceLength % BLOCK_LENGTH == 0
    && piecesLen == 20 * CeilDiv(length, pieceLength)
    && CeilDiv(length, BLOCK_LENGTH) < TWO_32
  }

  /** What the computed fields mean in unbounded arithmetic. */
  ghost predicate Exact(m: Metainfo) {
    && m.blocksPerPiece > 0 && m.pieceLength == m.blocksPerPiece * BLOCK_LENGTH
    && m.piecesCount > 0
    && m.length == (m.piecesCount - 1) * m.pieceLength + m.lastPieceLength
    && 0 < m.lastPieceLength <= m.pieceLength
    && m.blocksCount == (m.piecesCount - 1) * m.blocksPerPiece + m.lastPieceBlockCount
    && (m.lastPieceBlockCount - 1) * BLOCK_LENGTH < m.lastPieceLength <= m.lastPieceBlockCount * BLOCK_LENGTH
    && 0 < m.lastPieceBlockCount <= m.blocksPerPiece
  }

  lemma CeilDivIs(x: nat, y: nat, q: nat, r: nat)
    requires y > 0 && x == q * y + r && 0 < r <= y
    ensures CeilDiv(x, y) == q + 1
  {
    assert x + y - 1 == y * (q + 1) + (r - 1) by { MulAssoc(q, y, 1); }
    Euclid(x + y - 1, y, q + 1, r - 1);
  }

  lemma CeilDivBounds(x: nat, y: nat)
    requires x > 0 && y > 0
    ensures CeilDiv(x, y) > 0 && 0 < x - (CeilDiv(x, y) - 1) * y <= y
  {
    var q := (x + y - 1) / y;
    Quotient(x + y - 1, y);
    assert (q - 1) * y == y * q - y;
    DivPositive(x, y);
  }

  lemma DivPositive(x: nat, y: nat)
    requires x > 0 && y > 0
    ensures (x + y - 1) / y >= 1
  {
    Quotient(x + y - 1, y);
    if (x + y - 1) / y < 1 { MulMono(y, y, 0, (x + y - 1) / y); }
  }

  lemma PieceCountFits(length: nat, pieceLength: nat)
    requires length > 0 && pieceLength >= BLOCK_LENGTH && CeilDiv(length, BLOCK_LENGTH) < TWO_32
    ensures CeilDiv(length, pieceLength) < TWO_32
  {
    CeilDivBounds(length, pieceLength);
    CeilDivBounds(length, BLOCK_LENGTH);
    var q, k := CeilDiv(length, pieceLength), CeilDiv(length, BLOCK_LENGTH);
    if q > k { MulMono(q - 1, k, pieceLength, BLOCK_LENGTH); }
  }

  /** Every wrapping product and difference in the computed fields still yields the exact value,
      for torrents past 4 GiB too. */
  lemma ComputeIsExact(length: uint64, pieceLength: uint32, piecesLen: nat)
    requires Torrent(length, pieceLength, piecesLen)
    ensures Exact(Compute(length, pieceLength, piecesLen))
  {
    var pieces := CeilDiv(length, pieceLength);
    PieceCountFits(length, pieceLength);
    CeilDivBounds(length, pieceLength);
    var last := length - (pieces - 1) * pieceLength;
    LastPieceIsExact(length, pieceLength, pieces, last);
    BlocksAreExact(length, pieceLength, pieces, last);
    hide CeilDiv, Wrap32, Wrap64, Mul32, Sub32;
    WrapId(pieces);
    WrapId(CeilDiv(length, BLOCK_LENGTH));
    WrapId(CeilDiv(last, BLOCK_LENGTH));
  }

  lemma LastPieceIsExact(length: uint64, pieceLength: uint32, pieces: uint32, last: nat)
    requires pieces > 0 && last <= pieceLength && length == (pieces - 1) * pieceLength + last
    ensures Wrap32(Wrap64(length - Mul32(Sub32(pieces, 1), pieceLength))) == last
  {
    assert Sub32(pieces, 1) == pieces - 1;
    WrappedDifference(length, (pieces - 1) * pieceLength);
  }

  lemma BlocksAreExact(length: uint64, pieceLength: uint32, pieces: uint32, last: nat)
    requires pieces > 0 && 0 < last <= pieceLength && length == (pieces - 1) * pieceLength + last
    requires pieceLength % BLOCK_LENGTH == 0
    ensures var bpp, lastBlocks := pieceLength / BLOCK_LENGTH, CeilDiv(last, BLOCK_LENGTH);
      && 0 < lastBlocks <= bpp && lastBlocks < TWO_32
      && (lastBlocks - 1) * BLOCK_LENGTH < last <= lastBlocks * BLOCK_LENGTH
      && CeilDiv(length, BLOCK_LENGTH) == (pieces - 1) * bpp + lastBlocks
  {
    var bpp, lastBlocks := pieceLength / BLOCK_LENGTH, CeilDiv(last, BLOCK_LENGTH);
    CeilDivBounds(last, BLOCK_LENGTH);
    hide *;
    var r := last - (lastBlocks - 1) * BLOCK_LENGTH;
    assert pieceLength == bpp * BLOCK_LENGTH;
    LastBlocksFit(lastBlocks, bpp, last);
    Assoc(pieces - 1, bpp);
    var before := (pieces - 1) * bpp;
    CeilDivIs(length, BLOCK_LENGTH, before + (lastBlocks - 1), r);
  }

  lemma Assoc(x: int, y: int) ensures x * (y * BLOCK_LENGTH) == (x * y) * BLOCK_LENGTH {}

  lemma LastBlocksFit(k: nat, bpp: nat, last: nat)
    requires k > 0 && (k - 1) * BLOCK_LENGTH < last <= bpp * BLOCK_LENGTH && bpp * BLOCK_LENGTH < TWO_32
    ensures k <= bpp && k < TWO_32
  {
  }

  /** A difference taken from a wrapped product is right whenever the true difference fits. */
  lemma WrappedDifference(x: uint64, y: nat)
    requires y <= x && x - y < TWO_32
    ensures Wrap32(Wrap64(x - Wrap32(y))) == x - y
  {
    var q := y / TWO_32;
    assert y == q * TWO_32 + Wrap32(y);
    assert Wrap64(x - Wrap32(y)) == x - Wrap32(y);
    assert x - Wrap32(y) == (x - y) + q * TWO_32;
  }

  // ---- the metainfo_* helpers

  function IsLastPiece(m: Metainfo, piece: uint32): bool { piece == Sub32(m.piecesCount, 1) }

  function BlockCountForPiece(m: Metainfo, piece: uint32): uint32 {
    if IsLastPiece(m, piece) then m.lastPieceBlockCount else m.blocksPerPiece
  }

  /** metainfo_block_for_piece_length, after its assertion. */
  function BlockForPieceLength(m: Metainfo, piece: uint32, blockForPiece: uint32): uint32 {
    if IsLastPiece(m, piece) && blockForPiece == Sub32(m.lastPieceBlockCount, 1)
    then Wrap32(Wrap64(m.length - Wrap32(Mul32(piece, m.pieceLength) + Mul32(blockForPiece, BLOCK_LENGTH))))
    else BLOCK_LENGTH
  }

  function PieceLength(m: Metainfo, piece: uint32): uint32 {
    if IsLastPiece(m, piece) then m.lastPieceLength else m.pieceLength
  }

  /** metainfo_block_to_block_for_piece, after its assertions. */
  function BlockToBlockForPiece(m: Metainfo, piece: uint32, block: uint32): uint32 {
    var blockForPiece := Sub32(Mul32(block, BLOCK_LENGTH), Mul32(piece, m.pieceLength)) / BLOCK_LENGTH;
    if IsLastPiece(m, piece) && blockForPiece >= m.lastPieceBlockCount
    then Sub32(m.lastPieceBlockCount, 1)
    else blockForPiece
  }

  /** metainfo_block_for_piece_to_block, after its assertions. */
  function BlockForPieceToBlock(m: Metainfo, piece: uint32, blockForPiece: uint32): uint32 {
    Wrap32(Mul32(piece, m.blocksPerPiece) + blockForPiece)
  }

  /** `begin` as peer_send_request writes it. */
  function BeginOf(m: Metainfo, piece: uint32, block: uint32): uint32 {
    Sub32(Mul32(block, BLOCK_LENGTH), Mul32(piece, m.pieceLength))
  }

  function PieceOf(m: Metainfo, block: uint32): uint32
    requires m.blocksPerPiece > 0
  {
    DivShrinks(block, m.blocksPerPiece);
    block / m.blocksPerPiece
  }

  lemma Wrap32Difference(x: nat, y: nat)
    requires y <= x && x - y < TWO_32
    ensures Sub32(Wrap32(x), Wrap32(y)) == x - y
  {
    var q, q' := x / TWO_32, y / TWO_32;
    assert Wrap32(x) - Wrap32(y) == (x - y) + (q' - q) * TWO_32;
  }

  /** A piece before the last one ends where or before the last one starts, in any unit. */
  lemma PieceBefore(m: Metainfo, piece: uint32, unit: nat)
    requires piece < m.piecesCount
    ensures piece * unit <= (m.piecesCount - 1) * unit
    ensures piece < m.piecesCount - 1 ==> piece * unit + unit <= (m.piecesCount - 1) * unit
  {
    MulMono(m.piecesCount - 1, piece, unit, unit);
    if piece < m.piecesCount - 1 {
      MulMono(m.piecesCount - 1, piece + 1, unit, unit);
      assert (piece + 1) * unit == piece * unit + unit;
    }
  }

  lemma NumberBelow(m: Metainfo, piece: uint32, blockForPiece: uint32)
    requires Exact(m) && piece < m.piecesCount && blockForPiece < BlockCountForPiece(m, piece)
    ensures piece * m.blocksPerPiece + blockForPiece < m.blocksCount
  {
    LastPieceIndex(m);
    PieceBefore(m, piece, m.blocksPerPiece);
    hide Sub32;
  }

  /** A block within a piece has one block number, below the total. */
  lemma NumberIsExact(m: Metainfo, piece: uint32, blockForPiece: uint32)
    requires Exact(m) && piece < m.piecesCount && blockForPiece < BlockCountForPiece(m, piece)
    ensures BlockForPieceToBlock(m, piece, blockForPiece) == piece * m.blocksPerPiece + blockForPiece < m.blocksCount
  {
    hide Exact, Wrap32, BlockCountForPiece;
    NumberBelow(m, piece, blockForPiece);
    NatProduct(piece, m.blocksPerPiece);
    WrapId(piece * m.blocksPerPiece);
    WrapId(piece * m.blocksPerPiece + blockForPiece);
  }

  lemma NatProduct(x: nat, y: nat) ensures x * y >= 0 {}

  lemma LastPieceIndex(m: Metainfo)
    requires Exact(m)
    ensures Sub32(m.piecesCount, 1) == m.piecesCount - 1
    ensures Sub32(m.lastPieceBlockCount, 1) == m.lastPieceBlockCount - 1
  {
  }

  /** Numbering the blocks of pieces is inverted by division and by the wrapping byte difference. */
  lemma FromPieceAndBack(m: Metainfo, piece: uint32, blockForPiece: uint32)
    requires Exact(m) && piece < m.piecesCount && blockForPiece < BlockCountForPiece(m, piece)
    ensures var block := BlockForPieceToBlock(m, piece, blockForPiece);
      && PieceOf(m, block) == piece
      && BeginOf(m, piece, block) == blockForPiece * BLOCK_LENGTH
      && BlockToBlockForPiece(m, piece, block) == blockForPiece
  {
    NumberIsExact(m, piece, blockForPiece);
    var block := piece * m.blocksPerPiece + blockForPiece;
    MulAssoc(piece, m.blocksPerPiece, 1);
    Euclid(block, m.blocksPerPiece, piece, blockForPiece);
    assert piece * m.pieceLength == (piece * m.blocksPerPiece) * BLOCK_LENGTH by { Assoc(piece, m.blocksPerPiece); }
    Wrap32Difference(block * BLOCK_LENGTH, piece * m.pieceLength);
  }

  lemma PieceInRange(m: Metainfo, piece: nat, r: nat)
    requires Exact(m) && piece * m.blocksPerPiece + r < m.blocksCount && r < m.blocksPerPiece
    ensures piece < m.piecesCount && (piece == m.piecesCount - 1 ==> r < m.lastPieceBlockCount)
  {
    if piece >= m.piecesCount {
      MulMono(piece, m.piecesCount, m.blocksPerPiece, m.blocksPerPiece);
    }
    assert m.piecesCount * m.blocksPerPiece == (m.piecesCount - 1) * m.blocksPerPiece + m.blocksPerPiece;
  }

  /** Every block number comes from exactly one piece and position, so the numbering is a bijection. */
  lemma FromBlockAndBack(m: Metainfo, block: uint32)
    requires Exact(m) && block < m.blocksCount
    ensures var piece := PieceOf(m, block);
      var blockForPiece := BlockToBlockForPiece(m, piece, block);
      && piece < m.piecesCount
      && blockForPiece < BlockCountForPiece(m, piece)
      && blockForPiece == block % m.blocksPerPiece
      && BlockForPieceToBlock(m, piece, blockForPiece) == block
  {
    var bpp := m.blocksPerPiece;
    var piece, r := block / bpp, block % bpp;
    Quotient(block, bpp);
    MulAssoc(piece, bpp, 1);
    DivShrinks(block, bpp);
    PieceInRange(m, piece, r);
    FromPieceAndBack(m, piece, r);
    NumberIsExact(m, piece, r);
  }

  lemma OffsetInPiece(m: Metainfo, piece: uint32, blockForPiece: uint32)
    requires Exact(m) && piece < m.piecesCount && blockForPiece < BlockCountForPiece(m, piece)
    ensures var offset := piece * m.pieceLength + blockForPiece * BLOCK_LENGTH;
      && offset == (piece * m.blocksPerPiece + blockForPiece) * BLOCK_LENGTH
      && offset < m.length
      && (if piece == m.piecesCount - 1 && blockForPiece == m.lastPieceBlockCount - 1
          then m.length - offset <= BLOCK_LENGTH else offset + BLOCK_LENGTH <= m.length)
  {
    LastPieceIndex(m);
    Assoc(piece, m.blocksPerPiece);
    PieceBefore(m, piece, m.pieceLength);
    hide Sub32;
  }

  /** A block's length is the block size, cut at the end of the torrent. */
  lemma BlockLengthIsExact(m: Metainfo, piece: uint32, blockForPiece: uint32)
    requires Exact(m) && piece < m.piecesCount && blockForPiece < BlockCountForPiece(m, piece)
    ensures var offset := (piece * m.blocksPerPiece + blockForPiece) * BLOCK_LENGTH;
      && offset == piece * m.pieceLength + blockForPiece * BLOCK_LENGTH < m.length
      && BlockForPieceLength(m, piece, blockForPiece)
         == (if m.length - offset < BLOCK_LENGTH then m.length - offset else BLOCK_LENGTH)
  {
    OffsetInPiece(m, piece, blockForPiece);
    LastPieceIndex(m);
    hide Exact, Wrap32, Wrap64, Sub32, BlockCountForPiece;
    NatProduct(piece, m.pieceLength);
    if piece == m.piecesCount - 1 && blockForPiece == m.lastPieceBlockCount - 1 {
      ShortBlock(m.length, piece * m.pieceLength, blockForPiece * BLOCK_LENGTH);
    }
  }

  lemma ShortBlock(length: uint64, x: nat, y: nat)
    requires x + y <= length && length - (x + y) < TWO_32
    ensures Wrap32(Wrap64(length - Wrap32(Wrap32(x) + Wrap32(y)))) == length - (x + y)
  {
    WrapOfSum(x, y);
    WrappedDifference(length, x + y);
  }

  lemma WrapOfSum(x: nat, y: nat)
    ensures Wrap32(Wrap32(x) + Wrap32(y)) == Wrap32(x + y)
  {
    WrapSum(Wrap32(x), y);
    WrapSum(y, x);
  }

  /** Sum of the lengths of the first `n` blocks of a piece. */
  function BlocksSum(m: Metainfo, piece: uint32, n: uint32): nat {
    if n == 0 then 0 else BlocksSum(m, piece, n - 1) + BlockForPieceLength(m, piece, n - 1)
  }

  lemma {:induction false} BlocksSumIs(m: Metainfo, piece: uint32, n: uint32)
    requires Exact(m) && piece < m.piecesCount && n <= BlockCountForPiece(m, piece)
    ensures BlocksSum(m, piece, n) ==
      if n < BlockCountForPiece(m, piece) then n * BLOCK_LENGTH else PieceLength(m, piece)
  {
    if n > 0 {
      BlocksSumIs(m, piece, n - 1);
      BlockLengthIsExact(m, piece, n - 1);
      OffsetInPiece(m, piece, n - 1);
      LastPieceIndex(m);
      PieceEnd(m, piece);
    }
  }

  lemma PieceEnd(m: Metainfo, piece: uint32)
    requires Exact(m) && piece < m.piecesCount
    ensures piece * m.pieceLength + PieceLength(m, piece) <= m.length
    ensures PieceLength(m, piece) <= BlockCountForPiece(m, piece) * BLOCK_LENGTH < PieceLength(m, piece) + BLOCK_LENGTH
    ensures piece == m.piecesCount - 1 ==> piece * m.pieceLength + PieceLength(m, piece) == m.length
    ensures piece < m.piecesCount - 1 ==> PieceLength(m, piece) == BlockCountForPiece(m, piece) * BLOCK_LENGTH
  {
    LastPieceIndex(m);
    PieceBefore(m, piece, m.pieceLength);
    hide Sub32;
  }

  /** Sum of the lengths of the first `n` pieces. */
  function PiecesSum(m: Metainfo, n: uint32): nat {
    if n == 0 then 0 else PiecesSum(m, n - 1) + PieceLength(m, n - 1)
  }

  lemma {:induction false} PiecesSumIs(m: Metainfo, n: uint32)
    requires Exact(m) && n <= m.piecesCount
    ensures PiecesSum(m, n) == if n < m.piecesCount then n * m.pieceLength else m.length
  {
    if n > 0 {
      PiecesSumIs(m, n - 1);
      assert n * m.pieceLength == (n - 1) * m.pieceLength + m.pieceLength;
    }
  }

  /** Block lengths add up to their piece, pieces to the torrent. */
  lemma LengthsAddUp(m: Metainfo, piece: uint32)
    requires Exact(m) && piece < m.piecesCount
    ensures BlocksSum(m, piece, BlockCountForPiece(m, piece)) == PieceLength(m, piece)
    ensures PiecesSum(m, m.piecesCount) == m.length
  {
    BlocksSumIs(m, piece, BlockCountForPiece(m, piece));
    PiecesSumIs(m, m.piecesCount);
  }

  // ---- where download_checksum_piece reads a piece

  /** The product of two 32-bit numbers, although it is stored in 64 bits. */
  function ChecksumOffset(m: Metainfo, piece: uint32): uint64 { Mul32(piece, m.pieceLength) }

  /** A piece is hashed from its own bytes exactly when it starts below 2^32. */
  lemma ChecksumOffsetIff(m: Metainfo, piece: uint32)
    requires Exact(m) && piece < m.piecesCount
    ensures ChecksumOffset(m, piece) == piece * m.pieceLength <==> piece * m.pieceLength < TWO_32
  {
    NatProduct(piece, m.pieceLength);
    WrapId(piece * m.pieceLength);
    hide Exact;
  }

  /** The last piece of a torrent of 4 GiB and one block is hashed from the start of the file. */
  lemma ChecksumOffsetWraps()
    ensures Torrent(0x1_0000_4000, 0x4000, 20 * 0x4_0001)
    ensures var m := Compute(0x1_0000_4000, 0x4000, 20 * 0x4_0001);
      m.piecesCount == 0x4_0001 && m.pieceLength == 0x4000 && ChecksumOffset(m, 0x4_0000) == 0
  {
  }
}
