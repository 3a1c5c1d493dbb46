/** torrent/peer.h: the block picker shared by all peers, and the peer operations that use it. */
module Picker {
  import opened Arithmetic
  import opened BitArray
  import opened MachineInts
  import opened Metainfo

  const MAX_IN_FLIGHT := 5

  // ---- what the picker decides, on sets of blocks

  /** The first block from `i` on that is wanted and belongs to a piece the peer has. */
  function First(m: Metainfo, todo: set<nat>, have: set<nat>, i: nat): (b: nat)
    requires m.blocksPerPiece > 0 && i <= m.blocksCount
    ensures i <= b <= m.blocksCount
    ensures b < m.blocksCount ==> b in todo && b / m.blocksPerPiece in have
    ensures forall c :: i <= c < b && c in todo ==> c / m.blocksPerPiece !in have
    decreases m.blocksCount - i
  {
    if i == m.blocksCount then i
    else if i in todo && i / m.blocksPerPiece in have then i
    else First(m, todo, have, i + 1)
  }

  /** Up to `n` picks, each removed from the wanted blocks before the next. */
  function Picks(m: Metainfo, todo: set<nat>, have: set<nat>, n: nat): (s: seq<nat>)
    requires m.blocksPerPiece > 0
    ensures |s| <= n
  {
    if n == 0 then []
    else
      var b := First(m, todo, have, 0);
      if b == m.blocksCount then [] else [b] + Picks(m, todo - {b}, have, n - 1)
  }

  function Elements(s: seq<nat>): set<nat> { set i | 0 <= i < |s| :: s[i] }

  ghost predicate NoDuplicates(s: seq<nat>) {
    forall i, j :: 0 <= i < j < |s| ==> s[i] != s[j]
  }

  /** Picks are distinct wanted blocks of pieces the peer has. */
  lemma {:induction false} PicksAreWanted(m: Metainfo, todo: set<nat>, have: set<nat>, n: nat)
    requires m.blocksPerPiece > 0
    ensures var s := Picks(m, todo, have, n);
      && Elements(s) <= todo && NoDuplicates(s) && |Elements(s)| == |s|
      && forall b :: b in s ==> b < m.blocksCount && b / m.blocksPerPiece in have
    decreases n
  {
    hide First, Picks, Elements, NoDuplicates;
    NoElements();
    if n > 0 {
      PicksStep(m, todo, have, n);
      var b := First(m, todo, have, 0);
      if b < m.blocksCount {
        PicksAreWanted(m, todo - {b}, have, n - 1);
        var rest := Picks(m, todo - {b}, have, n - 1);
        ElementsCons(b, rest);
        ConsDistinct(b, rest);
      }
    } else {
      PicksNone(m, todo, have);
    }
  }

  lemma ConsDistinct(b: nat, s: seq<nat>)
    requires NoDuplicates(s) && b !in Elements(s)
    ensures NoDuplicates([b] + s)
  {
    forall i | 0 <= i < |s| ensures s[i] != b { assert s[i] in Elements(s); }
  }

  lemma ElementsCons(b: nat, s: seq<nat>)
    ensures Elements([b] + s) == {b} + Elements(s)
  {
    assert ([b] + s)[0] == b;
    assert forall i :: 0 <= i < |s| ==> ([b] + s)[i + 1] == s[i];
  }

  /** A peer that stops below its limit has nothing left to ask for. */
  lemma {:induction false} PicksExhaust(m: Metainfo, todo: set<nat>, have: set<nat>, n: nat)
    requires m.blocksPerPiece > 0 && |Picks(m, todo, have, n)| < n
    ensures forall b :: b in todo - Elements(Picks(m, todo, have, n)) && b < m.blocksCount ==>
      b / m.blocksPerPiece !in have
    decreases n
  {
    var b := First(m, todo, have, 0);
    if b < m.blocksCount {
      PicksExhaust(m, todo - {b}, have, n - 1);
      ElementsCons(b, Picks(m, todo - {b}, have, n - 1));
    }
  }

  ghost predicate Increasing(s: seq<nat>) { forall i, j :: 0 <= i < j < |s| ==> s[i] < s[j] }

  /** A wanted block of the peer's pieces is left out only when there are already `n` picks, all of them smaller. */
  ghost predicate LeavesOut(m: Metainfo, todo: set<nat>, have: set<nat>, n: nat, s: seq<nat>)
    requires m.blocksPerPiece > 0
  {
    forall b :: b in todo && b < m.blocksCount && b / m.blocksPerPiece in have && b !in s ==>
      |s| == n && forall c :: c in s ==> c < b
  }

  /** The picks come in increasing order and are the least ones. */
  lemma {:induction false} PicksAreLeast(m: Metainfo, todo: set<nat>, have: set<nat>, n: nat)
    requires m.blocksPerPiece > 0
    ensures Increasing(Picks(m, todo, have, n)) && LeavesOut(m, todo, have, n, Picks(m, todo, have, n))
    decreases n
  {
    hide Picks, First, Elements, NoDuplicates, Increasing, LeavesOut;
    var b := First(m, todo, have, 0);
    if n == 0 {
      PicksNone(m, todo, have);
      NoneLeavesOut(m, todo, have, 0);
    } else {
      PicksStep(m, todo, have, n);
      if b < m.blocksCount {
        var rest := Picks(m, todo - {b}, have, n - 1);
        PicksAreLeast(m, todo - {b}, have, n - 1);
        PicksAreWanted(m, todo - {b}, have, n - 1);
        FirstIsLeast(m, todo, have, rest);
        ConsLeast(m, todo, have, n, b, rest);
      } else {
        NoneLeavesOut(m, todo, have, n);
      }
    }
  }

  lemma NoneLeavesOut(m: Metainfo, todo: set<nat>, have: set<nat>, n: nat)
    requires m.blocksPerPiece > 0 && (n == 0 || First(m, todo, have, 0) == m.blocksCount)
    ensures Increasing([]) && LeavesOut(m, todo, have, n, [])
  {
    hide First;
  }

  lemma ConsLeast(m: Metainfo, todo: set<nat>, have: set<nat>, n: nat, b: nat, rest: seq<nat>)
    requires m.blocksPerPiece > 0 && n > 0 && Increasing(rest) && LeavesOut(m, todo - {b}, have, n - 1, rest)
    requires forall c :: c in rest ==> b < c
    requires forall c :: c in todo && c / m.blocksPerPiece in have ==> b <= c
    ensures Increasing([b] + rest) && LeavesOut(m, todo, have, n, [b] + rest)
  {
    var s := [b] + rest;
    forall i, j | 0 <= i < j < |s| ensures s[i] < s[j] {
      assert s[j] == rest[j - 1] && s[j] in rest;
      if i > 0 { assert s[i] == rest[i - 1]; }
    }
    forall d | d in todo && d < m.blocksCount && d / m.blocksPerPiece in have && d !in s
      ensures |s| == n && forall c :: c in s ==> c < d
    {
      assert d != b && d !in rest by { assert s[0] == b; assert s[1..] == rest; }
    }
  }

  lemma FirstIsLeast(m: Metainfo, todo: set<nat>, have: set<nat>, rest: seq<nat>)
    requires m.blocksPerPiece > 0
    requires Elements(rest) <= todo && forall c :: c in rest ==> c / m.blocksPerPiece in have
    requires First(m, todo, have, 0) !in Elements(rest)
    ensures forall c :: c in rest ==> First(m, todo, have, 0) < c
    ensures forall c :: c in todo && c / m.blocksPerPiece in have ==> First(m, todo, have, 0) <= c
  {
    hide First;
    forall c | c in rest ensures First(m, todo, have, 0) < c { assert c in Elements(rest); }
  }

  /** The blocks of a piece. */
  function PieceBlocks(m: Metainfo, piece: nat): set<nat>
    requires m.blocksPerPiece > 0
  {
    set b | b in Below(m.blocksCount) && b / m.blocksPerPiece == piece
  }

  /** They are an interval as long as the piece's block count. */
  lemma PieceBlocksInterval(m: Metainfo, piece: uint32)
    requires Exact(m) && piece < m.piecesCount
    ensures var first, count := piece * m.blocksPerPiece, BlockCountForPiece(m, piece);
      && first + count <= m.blocksCount && count > 0
      && (forall b: nat :: b in PieceBlocks(m, piece) <==> first <= b < first + count)
      && |PieceBlocks(m, piece)| == count
  {
    var first, count := piece * m.blocksPerPiece, BlockCountForPiece(m, piece);
    LastPieceIndex(m);
    NatProduct(piece, m.blocksPerPiece);
    NumberBelow(m, piece, count - 1);
    forall b: nat ensures b in PieceBlocks(m, piece) <==> first <= b < first + count {
      if first <= b < first + count {
        FromPieceAndBack(m, piece, b - first);
        NumberIsExact(m, piece, b - first);
      } else if b < m.blocksCount {
        FromBlockAndBack(m, b);
        Quotient(b, m.blocksPerPiece);
        MulAssoc(piece, m.blocksPerPiece, 1);
      }
    }
    IntervalSize(PieceBlocks(m, piece), first, count);
  }

  /** The interval as picker_have_all_blocks_for_piece computes it. */
  lemma ScannedBlocks(m: Metainfo, piece: uint32)
    requires Exact(m) && piece < m.piecesCount
    ensures var first := Mul32(piece, m.blocksPerPiece);
      var last := first + BlockCountForPiece(m, piece) - 1;
      && first <= last < m.blocksCount
      && forall b: nat :: b in PieceBlocks(m, piece) <==> first <= b <= last
  {
    PieceBlocksInterval(m, piece);
    NatProduct(piece, m.blocksPerPiece);
    WrapId(piece * m.blocksPerPiece);
    hide PieceBlocks;
  }

  lemma {:induction false} IntervalSize(s: set<nat>, first: nat, count: nat)
    requires forall b: nat :: b in s <==> first <= b < first + count
    ensures |s| == count
    decreases count
  {
    if count > 0 {
      IntervalSize(s - {first + count - 1}, first, count - 1);
    } else {
      assert s == {};
    }
  }

  /** The download counters. */
  datatype Totals = Totals(bytes: nat, blocks: nat, pieces: nat)

  /** The counters after block `block` of piece `piece` is written, `done` being the blocks written so far
      including it. `passes` is the outcome of the checksum, read only when the piece is complete. */
  function AfterPut(m: Metainfo, done: set<nat>, piece: uint32, size: nat, t: Totals, passes: bool): Totals
    requires m.blocksPerPiece > 0
  {
    if !(PieceBlocks(m, piece) <= done) then Totals(t.bytes + size, t.blocks + 1, t.pieces)
    else if passes then Totals(t.bytes + size, t.blocks + 1, t.pieces + 1)
    else if t.bytes + size < PieceLength(m, piece) || t.blocks + 1 < BlockCountForPiece(m, piece) then t
    else Totals(t.bytes + size - PieceLength(m, piece), t.blocks + 1 - BlockCountForPiece(m, piece), t.pieces)
  }

  // ---- the operations

  class BlockPicker {
    const m: Metainfo
    const toDownload: Bits
    const downloading: Bits
    const downloaded: Bits

    ghost predicate Valid()
      reads this, toDownload, downloading, downloaded
    {
      && Exact(m) && m.blocksCount > 0
      && toDownload.Valid() && downloading.Valid() && downloaded.Valid()
      && toDownload.maxIndex == downloading.maxIndex == downloaded.maxIndex == m.blocksCount - 1
      && toDownload.data != downloading.data && toDownload.data != downloaded.data &&
        downloading.data != downloaded.data
    }

    /** picker_init */
    constructor (m: Metainfo)
      requires Exact(m)
      ensures Valid() && this.m == m
      ensures fresh(toDownload) && fresh(downloading) && fresh(downloaded)
      ensures fresh(toDownload.data) && fresh(downloading.data) && fresh(downloaded.data)
      ensures toDownload.Members() == Below(m.blocksCount) && downloading.Members() == {} && downloaded.Members() == {}
    {
      this.m := m;
      SomeBlocks(m);
      toDownload := new Bits(m.blocksCount - 1);
      downloading := new Bits(m.blocksCount - 1);
      downloaded := new Bits(m.blocksCount - 1);
      new;
      toDownload.SetAll();
    }

    /** picker_pick_block */
    method PickBlock(have: Bits) returns (found: bool, block: nat)
      requires Valid() && have.Valid() && have.maxIndex == m.piecesCount - 1
      ensures var b := First(m, toDownload.Members(), have.Members(), 0);
        found == (b < m.blocksCount) && (found ==> block == b)
    {
      var i := 0;
      while i < m.blocksCount
        invariant 0 <= i <= m.blocksCount
        invariant First(m, toDownload.Members(), have.Members(), 0) == First(m, toDownload.Members(), have.Members(), i)
      {
        InRange(i, m.blocksCount - 1);
        var isSet := toDownload.Get(i);
        i := i + 1;
        if !isSet { continue; }
        block := i - 1;
        var piece := block / m.blocksPerPiece;
        FromBlockAndBack(m, block);
        InRange(piece, m.piecesCount - 1);
        var themHave := have.Get(piece);
        if themHave { return true, block; }
      }
      return false, 0;
    }

    /** picker_mark_block_as_downloading */
    method MarkDownloading(block: nat)
      requires Valid() && block < m.blocksCount
      modifies toDownload.data, downloading.data
      ensures Valid()
      ensures downloading.Members() == old(downloading.Members()) + {block}
      ensures toDownload.Members() == old(toDownload.Members()) - {block}
    {
      InRange(block, m.blocksCount - 1);
      downloading.Set(block);
      toDownload.Unset(block);
    }

    /** picker_mark_block_as_downloaded */
    method MarkDownloaded(block: nat)
      requires Valid() && block < m.blocksCount
      modifies downloading.data, downloaded.data
      ensures Valid()
      ensures downloaded.Members() == old(downloaded.Members()) + {block}
      ensures downloading.Members() == old(downloading.Members()) - {block}
    {
      InRange(block, m.blocksCount - 1);
      downloaded.Set(block);
      downloading.Unset(block);
    }

    /** picker_have_all_blocks_for_piece */
    method HaveAllBlocksForPiece(piece: uint32) returns (all: bool)
      requires Valid() && piece < m.piecesCount
      ensures all <==> PieceBlocks(m, piece) <= downloaded.Members()
    {
      ScannedBlocks(m, piece);
      hide *;
      var firstBlock := Mul32(piece, m.blocksPerPiece);
      var lastBlock := firstBlock + BlockCountForPiece(m, piece) - 1;
      all := AllDownloaded(firstBlock, lastBlock);
    }

    /** Its loop. */
    method AllDownloaded(firstBlock: nat, lastBlock: nat) returns (all: bool)
      requires Valid() && firstBlock <= lastBlock < m.blocksCount
      ensures all <==> forall b: nat :: firstBlock <= b <= lastBlock ==> b in downloaded.Members()
    {
      hide Exact;
      var i := firstBlock;
      while i < m.blocksCount
        invariant firstBlock <= i <= lastBlock + 1
        invariant forall b: nat :: firstBlock <= b < i ==> b in downloaded.Members()
      {
        InRange(i, m.blocksCount - 1);
        var isSet := downloaded.Get(i);
        i := i + 1;
        var block := i - 1;
        if block > lastBlock { return true; }
        if !isSet { return false; }
      }
      return true;
    }
  }

  lemma SomeBlocks(m: Metainfo)
    requires Exact(m)
    ensures m.blocksCount > 0
  {
    NatProduct(m.piecesCount - 1, m.blocksPerPiece);
  }

  /** The index after the largest one is still inside the buffer. */
  lemma OnePast(i: nat, max: nat)
    requires i <= max + 1
    ensures i / 8 < 1 + CeilDiv(max, 8)
  {
  }

  function AsBits(bytes: seq<byte>): (s: seq<bv8>)
    ensures |s| == |bytes|
  {
    seq(|bytes|, i requires 0 <= i < |bytes| => bytes[i] as bv8)
  }

  class Download {
    var bytes: nat
    var blocks: nat
    var pieces: nat

    ghost function Value(): Totals
      reads this
    {
      Totals(bytes, blocks, pieces)
    }

    constructor ()
      ensures Value() == Totals(0, 0, 0)
    {
      bytes, blocks, pieces := 0, 0, 0;
    }
  }

  /** What the caller does next: start or stop the idle handler that asks for blocks. */
  datatype Action = NoAction | RequestMore | StopRequesting

  class Peer {
    const picker: BlockPicker
    const have: Bits
    const download: Download
    var inFlight: nat
    var choked: bool

    ghost predicate Valid()
      reads this, have, picker, picker.toDownload, picker.downloading, picker.downloaded
    {
      && picker.Valid() && have.Valid() && have.maxIndex == picker.m.piecesCount - 1 && inFlight <= MAX_IN_FLIGHT
      && have.data != picker.toDownload.data && have.data != picker.downloading.data &&
        have.data != picker.downloaded.data
    }

    /** The fields peer_init sets up. */
    constructor (picker: BlockPicker, download: Download)
      requires picker.Valid()
      ensures Valid() && this.picker == picker && this.download == download && fresh(have) && fresh(have.data)
      ensures inFlight == 0 && choked && have.Members() == {}
    {
      this.picker := picker;
      this.download := download;
      have := new Bits(picker.m.piecesCount - 1);
      inFlight := 0;
      choked := true;
    }

    /** The CHOKE case of peer_message_handle. */
    method OnChoke() returns (action: Action)
      requires Valid()
      modifies this`choked
      ensures Valid() && choked && action == StopRequesting
    {
      choked := true;
      action := StopRequesting;
    }

    /** The UNCHOKE case of peer_message_handle. */
    method OnUnchoke() returns (action: Action)
      requires Valid()
      modifies this`choked
      ensures Valid() && !choked && action == RequestMore
    {
      choked := false;
      action := RequestMore;
    }

    /** The HAVE case of peer_message_handle, for every index the parser lets through: one equal to the number of
        pieces sets a spare bit of the buffer and no member. */
    method OnHave(piece: uint32) returns (action: Action)
      requires Valid() && piece <= picker.m.piecesCount
      modifies have.data
      ensures Valid() && action == RequestMore
      ensures have.Members() == old(have.Members()) + (if piece < picker.m.piecesCount then {piece as nat} else {})
    {
      OnePast(piece, picker.m.piecesCount - 1);
      have.Set(piece);
      action := RequestMore;
    }

    /** The BITFIELD case of peer_message_handle, for every payload the parser lets through. */
    method OnBitfield(bytes: seq<byte>) returns (action: Action)
      requires Valid() && |bytes| == CeilDiv(picker.m.piecesCount - 1, 8)
      modifies have.data
      ensures Valid() && action == RequestMore
      ensures have.Members() == Overwritten(AsBits(bytes), picker.m.piecesCount - 1, old(have.Members()))
    {
      have.SetV(AsBits(bytes));
      action := RequestMore;
    }

    /** peer_request_more_blocks; `sent` are the blocks asked for, in order. The idle handler stops unless this call
        reached the limit. */
    method RequestMoreBlocks() returns (sent: seq<nat>, action: Action)
      requires Valid()
      modifies this`inFlight, picker.toDownload.data, picker.downloading.data
      ensures Valid()
      ensures sent == if old(inFlight) >= MAX_IN_FLIGHT || choked then []
        else Picks(picker.m, old(picker.toDownload.Members()), have.Members(), MAX_IN_FLIGHT - old(inFlight))
      ensures inFlight == old(inFlight) + |sent|
      ensures action == if sent != [] && inFlight == MAX_IN_FLIGHT then NoAction else StopRequesting
      ensures picker.toDownload.Members() == old(picker.toDownload.Members()) - Elements(sent)
      ensures picker.downloading.Members() == old(picker.downloading.Members()) + Elements(sent)
    {
      hide Elements, Picks, First, Indices;
      sent, action := [], StopRequesting;
      NoElements();
      if inFlight >= MAX_IN_FLIGHT || choked { return; }
      ghost var start := picker.toDownload.Members();
      while inFlight < MAX_IN_FLIGHT
        invariant Valid() && inFlight == old(inFlight) + |sent| && action == StopRequesting
        invariant have.Members() == old(have.Members())
        invariant picker.toDownload.Members() == start - Elements(sent)
        invariant picker.downloading.Members() == old(picker.downloading.Members()) + Elements(sent)
        invariant Picks(picker.m, start, have.Members(), MAX_IN_FLIGHT - old(inFlight))
          == sent + Picks(picker.m, picker.toDownload.Members(), have.Members(), MAX_IN_FLIGHT - inFlight)
        decreases MAX_IN_FLIGHT - inFlight
      {
        var found, block := picker.PickBlock(have);
        if !found {
          PicksStep(picker.m, picker.toDownload.Members(), have.Members(), MAX_IN_FLIGHT - inFlight);
          assert sent + [] == sent;
          return;
        }
        ghost var todo := picker.toDownload.Members();
        PicksStep(picker.m, todo, have.Members(), MAX_IN_FLIGHT - inFlight);
        picker.MarkDownloading(block);
        inFlight := inFlight + 1;
        ElementsSnoc(sent, block);
        ghost var rest := Picks(picker.m, todo - {block}, have.Members(), MAX_IN_FLIGHT - inFlight);
        assert sent + ([block] + rest) == sent + [block] + rest;
        sent := sent + [block];
      }
      action := NoAction;
      PicksNone(picker.m, picker.toDownload.Members(), have.Members());
      assert sent + [] == sent;
    }

    /** peer_put_block; the assertions of the source are the preconditions. `written`: the whole block reached the
        file; when it did not, the block stays in flight. */
    method PutBlock(piece: uint32, block: nat, size: nat, written: bool, passes: bool)
      requires Valid() && piece < picker.m.piecesCount && block < picker.m.blocksCount
      requires block * BLOCK_LENGTH + BLOCK_LENGTH <= picker.m.length
      requires written ==>
        inFlight > 0 && download.bytes + size <= picker.m.length && download.blocks < picker.m.blocksCount
      requires written && PieceBlocks(picker.m, piece) <= picker.downloaded.Members() + {block} ==>
        if passes then download.pieces < picker.m.piecesCount
        else (download.bytes + size >= PieceLength(picker.m, piece)
              && download.blocks + 1 >= BlockCountForPiece(picker.m, piece))
      modifies this`inFlight, picker.downloading.data, picker.downloaded.data, download
      ensures Valid() && inFlight == if written then old(inFlight) - 1 else old(inFlight)
      ensures picker.downloaded.Members() == old(picker.downloaded.Members()) + (if written then {block} else {})
      ensures picker.downloading.Members() == old(picker.downloading.Members()) - (if written then {block} else {})
      ensures download.Value() ==
        if written then AfterPut(picker.m, picker.downloaded.Members(), piece, size, old(download.Value()), passes)
        else old(download.Value())
    {
      hide PieceBlocks, Exact;
      if !written { return; }
      picker.MarkDownloaded(block);
      inFlight := inFlight - 1;
      download.bytes := download.bytes + size;
      download.blocks := download.blocks + 1;
      var all := picker.HaveAllBlocksForPiece(piece);
      if all {
        if !passes {
          download.bytes := download.bytes - PieceLength(picker.m, piece);
          download.blocks := download.blocks - BlockCountForPiece(picker.m, piece);
          return;
        }
        download.pieces := download.pieces + 1;
      }
    }
  }

  lemma PicksStep(m: Metainfo, todo: set<nat>, have: set<nat>, n: nat)
    requires m.blocksPerPiece > 0 && n > 0
    ensures var b := First(m, todo, have, 0);
      Picks(m, todo, have, n) == if b == m.blocksCount then [] else [b] + Picks(m, todo - {b}, have, n - 1)
  {
  }

  lemma PicksNone(m: Metainfo, todo: set<nat>, have: set<nat>)
    requires m.blocksPerPiece > 0
    ensures Picks(m, todo, have, 0) == []
  {
  }

  lemma NoElements() ensures Elements([]) == {} && NoDuplicates([]) {}

  lemma ElementsSnoc(s: seq<nat>, b: nat)
    ensures Elements(s + [b]) == Elements(s) + {b}
  {
    assert (s + [b])[|s|] == b;
    assert forall i :: 0 <= i < |s| ==> (s + [b])[i] == s[i];
  }
}
