/** torrent/peer.h: any number of peers sharing one picker, as a state machine over the events of
    the event loop. The operations are those of module Picker, on their abstract values. */
module Swarm {
  import opened Arithmetic
  import opened BitArray
  import opened MachineInts
  import opened Metainfo
  import opened Picker
  import PeerWire

  datatype PeerState = PeerState(have: set<nat>, choked: bool, inFlight: nat, connected: bool)

  /** `log`: every block ever requested, in order, and `askedOf`: the peer each was asked of. `passed`, `failed`:
      complete pieces by checksum outcome. `lost`: how many requests were in flight at peers that closed. */
  datatype State = State(
    todo: set<nat>, active: set<nat>, done: set<nat>, peers: seq<PeerState>, totals: Totals,
    log: seq<nat>, askedOf: map<nat, nat>, passed: set<nat>, failed: set<nat>, lost: nat)

  datatype Event =
    | Choke(p: nat) | Unchoke(p: nat)
    | Have(p: nat, piece: nat) | Bitfield(p: nat, pieces: set<nat>)
    | Idle(p: nat)
    | Answer(p: nat, block: uint32, passes: bool)
    | Close(p: nat)

  function Newcomer(): PeerState { PeerState({}, true, 0, true) }

  function Start(m: Metainfo, n: nat): State {
    State(Below(m.blocksCount), {}, {}, seq(n, _ => Newcomer()), Totals(0, 0, 0), [], map[], {}, {}, 0)
  }

  /** Closed peers are silent, and an answer is for a downloading block, whoever was asked for it, from a peer with
      a request in flight. */
  predicate Allowed(s: State, e: Event) {
    && e.p < |s.peers| && s.peers[e.p].connected
    && (e.Answer? ==> e.block in s.active && s.peers[e.p].inFlight > 0)
  }

  /** The requests an event sends: those of peer_request_more_blocks when the peer is idle. */
  function Asked(m: Metainfo, s: State, e: Event): seq<nat>
    requires Exact(m) && Allowed(s, e)
  {
    var peer := s.peers[e.p];
    if !e.Idle? || peer.inFlight >= MAX_IN_FLIGHT || peer.choked then []
    else Picks(m, s.todo, peer.have, MAX_IN_FLIGHT - peer.inFlight)
  }

  function Step(m: Metainfo, s: State, e: Event): State
    requires Exact(m) && Allowed(s, e)
  {
    var peer := s.peers[e.p];
    match e
    case Choke(p) => s.(peers := s.peers[p := peer.(choked := true)])
    case Unchoke(p) => s.(peers := s.peers[p := peer.(choked := false)])
    case Have(p, piece) =>
      s.(peers := s.peers[p := peer.(have := peer.have + (if piece < m.piecesCount then {piece} else {}))])
    case Bitfield(p, pieces) => s.(peers := s.peers[p := peer.(have := pieces)])
    case Idle(p) => Sent(s, p, Asked(m, s, e))
    case Answer(p, block, passes) => Handle(m, s, p, block, passes)
    case Close(p) => s.(peers := s.peers[p := peer.(inFlight := 0, connected := false)], lost := s.lost + peer.inFlight)
  }

  /** The piece case of peer_message_handle, which only looks at the number of requests in flight. */
  function Handle(m: Metainfo, s: State, p: nat, block: uint32, passes: bool): State
    requires Exact(m) && p < |s.peers| && s.peers[p].inFlight > 0
  {
    var piece, done := PieceOf(m, block), s.done + {block as nat};
    var complete := PieceBlocks(m, piece) <= done;
    s.(active := s.active - {block as nat}, done := done,
       peers := s.peers[p := s.peers[p].(inFlight := s.peers[p].inFlight - 1)],
       totals := AfterPut(m, done, piece, BLOCK_LENGTH, s.totals, passes),
       passed := if complete && passes then s.passed + {piece as nat} else s.passed,
       failed := if complete && !passes then s.failed + {piece as nat} else s.failed)
  }

  /** The state after any list of events; events that are not allowed do not happen. */
  function Run(m: Metainfo, s: State, events: seq<Event>): State
    requires Exact(m)
    decreases |events|
  {
    if events == [] then s
    else
      var before := Run(m, s, events[..|events| - 1]);
      var e := events[|events| - 1];
      if Allowed(before, e) then Step(m, before, e) else before
  }

  // ---- the invariant

  function InFlight(peers: seq<PeerState>): nat {
    if peers == [] then 0 else InFlight(peers[..|peers| - 1]) + peers[|peers| - 1].inFlight
  }

  /** Downloaded blocks outside failed pieces. */
  function Counted(m: Metainfo, done: set<nat>, failed: set<nat>): set<nat>
    requires m.blocksPerPiece > 0
  {
    set b | b in done && b / m.blocksPerPiece !in failed
  }

  ghost predicate Partition(m: Metainfo, todo: set<nat>, active: set<nat>, done: set<nat>) {
    todo !! active && todo !! done && active !! done && todo + active + done == Below(m.blocksCount)
  }

  /** Requests: at most five in flight at a peer, and together with the lost ones they add up to the downloading set. */
  ghost predicate Requests(peers: seq<PeerState>, active: set<nat>, lost: nat) {
    && (forall p: nat :: p < |peers| ==> peers[p].inFlight <= MAX_IN_FLIGHT)
    && InFlight(peers) + lost == |active|
  }

  /** Once only: the log has no duplicates and is what has left the wanted set. */
  ghost predicate OnceOnly(log: seq<nat>, requested: set<nat>) {
    NoDuplicates(log) && Elements(log) == requested
  }

  /** The counters are the totals over downloaded blocks and complete pieces that passed. */
  ghost predicate Counters(m: Metainfo, done: set<nat>, totals: Totals, passed: set<nat>, failed: set<nat>)
    requires Exact(m)
  {
    && Sums(totals, |Counted(m, done, failed)|, |passed|)
    && Pieces(m, done, passed, failed)
  }

  ghost predicate Sums(totals: Totals, blocks: nat, pieces: nat) {
    totals == Totals(BLOCK_LENGTH * blocks, blocks, pieces)
  }

  /** The complete pieces are those that passed and those that failed. */
  ghost predicate Pieces(m: Metainfo, done: set<nat>, passed: set<nat>, failed: set<nat>)
    requires Exact(m)
  {
    && passed !! failed && passed + failed <= Below(m.piecesCount)
    && forall k: nat :: k < m.piecesCount ==> (k in passed + failed <==> PieceBlocks(m, k) <= done)
  }

  ghost predicate Inv(m: Metainfo, s: State)
    requires Exact(m)
  {
    && Partition(m, s.todo, s.active, s.done)
    && Requests(s.peers, s.active, s.lost)
    && OnceOnly(s.log, s.active + s.done)
    && Counters(m, s.done, s.totals, s.passed, s.failed)
  }

  lemma InvParts(m: Metainfo, s: State)
    requires Exact(m)
    ensures Inv(m, s) <==>
      && Partition(m, s.todo, s.active, s.done) && Requests(s.peers, s.active, s.lost)
      && OnceOnly(s.log, s.active + s.done) && Counters(m, s.done, s.totals, s.passed, s.failed)
  {
  }

  /** Torrents without a short last block. */
  predicate WholeBlocks(m: Metainfo) { m.length % BLOCK_LENGTH == 0 }

  lemma {:induction false} NoneInFlight(n: nat)
    ensures InFlight(seq(n, _ => Newcomer())) == 0
  {
    if n > 0 {
      var s := seq(n, _ => Newcomer());
      assert s[..n - 1] == seq(n - 1, _ => Newcomer());
      NoneInFlight(n - 1);
    }
  }

  lemma StartInv(m: Metainfo, n: nat)
    requires Exact(m)
    ensures Inv(m, Start(m, n))
  {
    NoneInFlight(n);
    assert Elements([]) == {};
    assert Counted(m, {}, {}) == {};
    forall k: nat | k < m.piecesCount ensures !(PieceBlocks(m, k) <= {}) {
      PieceBlocksInterval(m, k);
      assert k * m.blocksPerPiece in PieceBlocks(m, k) by { NatProduct(k, m.blocksPerPiece); }
    }
  }

  lemma {:induction false} InFlightUpdate(peers: seq<PeerState>, p: nat, x: PeerState)
    requires p < |peers|
    ensures InFlight(peers[p := x]) + peers[p].inFlight == InFlight(peers) + x.inFlight
  {
    var n := |peers| - 1;
    if p < n {
      assert peers[p := x][..n] == peers[..n][p := x];
      InFlightUpdate(peers[..n], p, x);
    } else {
      assert peers[p := x][..n] == peers[..n];
    }
  }

  /** One peer's change of requests, with the matching change of the downloading set and the lost requests. */
  lemma RequestsChange(peers: seq<PeerState>, active: set<nat>, lost: nat, p: nat, x: PeerState,
                       active': set<nat>, lost': nat)
    requires Requests(peers, active, lost) && p < |peers| && x.inFlight <= MAX_IN_FLIGHT
    requires |active'| + peers[p].inFlight + lost == |active| + x.inFlight + lost'
    ensures Requests(peers[p := x], active', lost')
  {
    InFlightUpdate(peers, p, x);
  }

  lemma AskedIsWanted(m: Metainfo, s: State, e: Event)
    requires Exact(m) && Allowed(s, e)
    ensures var sent := Asked(m, s, e);
      && Elements(sent) <= s.todo && NoDuplicates(sent) && |Elements(sent)| == |sent|
      && (sent == [] || s.peers[e.p].inFlight + |sent| <= MAX_IN_FLIGHT)
  {
    HasBlocks(m);
    hide Exact, Picks, Elements;
    NoElements();
    var peer := s.peers[e.p];
    PicksAreWanted(m, s.todo, peer.have, if peer.inFlight >= MAX_IN_FLIGHT then 0 else MAX_IN_FLIGHT - peer.inFlight);
  }

  lemma IdleKeepsInv(m: Metainfo, s: State, p: nat)
    requires Exact(m) && Inv(m, s) && Allowed(s, Idle(p))
    ensures Inv(m, Step(m, s, Idle(p)))
  {
    hide Elements, NoDuplicates, Asked, Inv, Exact;
    AskedIsWanted(m, s, Idle(p));
    AskKeepsInv(m, s, p, Asked(m, s, Idle(p)));
  }

  lemma HasBlocks(m: Metainfo) requires Exact(m) ensures m.blocksPerPiece > 0 {}

  lemma AskKeepsInv(m: Metainfo, s: State, p: nat, sent: seq<nat>)
    requires Exact(m) && Inv(m, s) && p < |s.peers|
    requires Elements(sent) <= s.todo && NoDuplicates(sent) && |Elements(sent)| == |sent|
    requires sent == [] || s.peers[p].inFlight + |sent| <= MAX_IN_FLIGHT
    ensures Inv(m, Sent(s, p, sent))
  {
    hide *;
    InvParts(m, s);
    SentFields(s, p, sent);
    AskParts(m, s.todo, s.active, s.done, s.peers, s.lost, s.log, p, sent);
    InvParts(m, Sent(s, p, sent));
  }

  lemma AskParts(m: Metainfo, todo: set<nat>, active: set<nat>, done: set<nat>, peers: seq<PeerState>, lost: nat,
                 log: seq<nat>, p: nat, sent: seq<nat>)
    requires Partition(m, todo, active, done) && Requests(peers, active, lost) && OnceOnly(log, active + done)
    requires p < |peers| && Elements(sent) <= todo && NoDuplicates(sent) && |Elements(sent)| == |sent|
    requires sent == [] || peers[p].inFlight + |sent| <= MAX_IN_FLIGHT
    ensures var asked := Elements(sent);
      && Partition(m, todo - asked, active + asked, done)
      && Requests(MoreInFlight(peers, p, |sent|), active + asked, lost)
      && OnceOnly(log + sent, active + asked + done)
  {
    hide *;
    PartitionAsks(m, todo, active, done, Elements(sent));
    AskRequests(peers, active, lost, p, Elements(sent), |sent|);
    OnceOnlyAsks(log, active + done, sent);
  }

  function MoreInFlight(peers: seq<PeerState>, p: nat, n: nat): seq<PeerState>
    requires p < |peers|
  {
    peers[p := peers[p].(inFlight := peers[p].inFlight + n)]
  }

  /** The state after the given blocks are asked of a peer. */
  function Sent(s: State, p: nat, sent: seq<nat>): State
    requires p < |s.peers|
  {
    var asked := Elements(sent);
    s.(todo := s.todo - asked, active := s.active + asked, log := s.log + sent,
       askedOf := s.askedOf + (map b | b in asked :: p),
       peers := MoreInFlight(s.peers, p, |sent|))
  }

  lemma SentFields(s: State, p: nat, sent: seq<nat>)
    requires p < |s.peers|
    ensures var t, asked := Sent(s, p, sent), Elements(sent);
      && t.todo == s.todo - asked && t.active == s.active + asked && t.done == s.done && t.log == s.log + sent
      && t.peers == MoreInFlight(s.peers, p, |sent|)
      && t.totals == s.totals && t.passed == s.passed && t.failed == s.failed && t.lost == s.lost
  {
  }

  lemma PartitionAsks(m: Metainfo, todo: set<nat>, active: set<nat>, done: set<nat>, asked: set<nat>)
    requires Partition(m, todo, active, done) && asked <= todo
    ensures Partition(m, todo - asked, active + asked, done)
    ensures asked !! active && asked !! active + done
    ensures active + asked + done == active + done + asked
  {
    assert todo - asked + (active + asked) + done == todo + active + done;
  }

  lemma PartitionAnswers(m: Metainfo, todo: set<nat>, active: set<nat>, done: set<nat>, b: nat)
    requires Partition(m, todo, active, done) && b in active
    ensures Partition(m, todo, active - {b}, done + {b})
    ensures b !in done && b < m.blocksCount && done <= Below(m.blocksCount)
    ensures active - {b} + (done + {b}) == active + done
  {
    assert todo + (active - {b}) + (done + {b}) == todo + active + done;
    assert b in Below(m.blocksCount);
  }

  lemma OnceOnlyAsks(log: seq<nat>, requested: set<nat>, sent: seq<nat>)
    requires OnceOnly(log, requested) && NoDuplicates(sent) && Elements(sent) !! requested
    ensures OnceOnly(log + sent, requested + Elements(sent))
  {
    hide Elements, NoDuplicates;
    LogGrows(log, sent);
  }

  lemma AskRequests(peers: seq<PeerState>, active: set<nat>, lost: nat, p: nat, asked: set<nat>, n: nat)
    requires Requests(peers, active, lost) && p < |peers| && asked !! active && n == |asked|
    requires n == 0 || peers[p].inFlight + n <= MAX_IN_FLIGHT
    ensures Requests(MoreInFlight(peers, p, n), active + asked, lost)
  {
    assert |active + asked| == |active| + |asked|;
    RequestsChange(peers, active, lost, p, peers[p].(inFlight := peers[p].inFlight + n), active + asked, lost);
  }

  lemma LogGrows(log: seq<nat>, sent: seq<nat>)
    requires NoDuplicates(log) && NoDuplicates(sent) && Elements(log) !! Elements(sent)
    ensures NoDuplicates(log + sent) && Elements(log + sent) == Elements(log) + Elements(sent)
  {
    var all := log + sent;
    forall i, j | 0 <= i < j < |all| ensures all[i] != all[j] {
      if i < |log| <= j { assert all[i] in Elements(log) && all[j] in Elements(sent); }
    }
    forall b ensures b in Elements(all) <==> b in Elements(log) + Elements(sent) {
      if b in Elements(log) { var i :| 0 <= i < |log| && log[i] == b; assert all[i] == b; }
      if b in Elements(sent) { var i :| 0 <= i < |sent| && sent[i] == b; assert all[|log| + i] == b; }
    }
  }

  lemma CloseKeepsInv(m: Metainfo, s: State, p: nat)
    requires Exact(m) && Inv(m, s) && Allowed(s, Close(p))
    ensures Inv(m, Step(m, s, Close(p)))
  {
    hide Exact, OnceOnly, Counters, Partition;
    var peer := s.peers[p];
    RequestsChange(s.peers, s.active, s.lost, p, peer.(inFlight := 0, connected := false),
                   s.active, s.lost + peer.inFlight);
  }

  /** Messages that only change what a peer has or whether it serves us. */
  lemma ViewKeepsInv(m: Metainfo, s: State, p: nat, x: PeerState)
    requires Exact(m) && Inv(m, s) && p < |s.peers|
    requires x.inFlight == s.peers[p].inFlight
    ensures Inv(m, s.(peers := s.peers[p := x]))
  {
    hide Exact, OnceOnly, Counters, Partition;
    RequestsChange(s.peers, s.active, s.lost, p, x, s.active, s.lost);
  }

  // ---- an answered block

  /** The bookkeeping of the requests when a block arrives. */
  lemma AnswerRequests(s: State, p: nat, b: nat, x: PeerState)
    requires Requests(s.peers, s.active, s.lost) && p < |s.peers| && b in s.active && s.peers[p].inFlight > 0
    requires x.inFlight == s.peers[p].inFlight - 1
    ensures Requests(s.peers[p := x], s.active - {b}, s.lost)
  {
    assert |s.active - {b}| == |s.active| - 1;
    RequestsChange(s.peers, s.active, s.lost, p, x, s.active - {b}, s.lost);
  }

  /** Another piece is not completed by a block that is not its own. */
  lemma OtherPieces(m: Metainfo, done: set<nat>, b: nat, k: nat)
    requires m.blocksPerPiece > 0 && b / m.blocksPerPiece != k
    ensures PieceBlocks(m, k) <= done + {b} <==> PieceBlocks(m, k) <= done
  {
    if PieceBlocks(m, k) <= done + {b} {
      forall c | c in PieceBlocks(m, k) ensures c in done { assert c != b; }
    }
  }

  lemma PiecesUpdate(m: Metainfo, done: set<nat>, done': set<nat>, passed: set<nat>, failed: set<nat>,
                     passed': set<nat>, failed': set<nat>, piece: nat)
    requires Exact(m) && Pieces(m, done, passed, failed) && piece < m.piecesCount && passed' !! failed'
    requires passed' + failed' == passed + failed + (if PieceBlocks(m, piece) <= done' then {piece} else {})
    requires piece !in passed + failed
    requires forall k: nat :: k != piece ==> (PieceBlocks(m, k) <= done' <==> PieceBlocks(m, k) <= done)
    ensures Pieces(m, done', passed', failed')
  {
    hide PieceBlocks;
    forall k: nat | k < m.piecesCount ensures k in passed' + failed' <==> PieceBlocks(m, k) <= done' {
      assert k in passed' + failed' <==> k in passed + failed || (k == piece && PieceBlocks(m, piece) <= done');
    }
  }

  lemma OthersKept(m: Metainfo, done: set<nat>, b: nat)
    requires m.blocksPerPiece > 0
    ensures forall k: nat :: k != b / m.blocksPerPiece ==>
      (PieceBlocks(m, k) <= done + {b} <==> PieceBlocks(m, k) <= done)
  {
    forall k: nat | k != b / m.blocksPerPiece
      ensures PieceBlocks(m, k) <= done + {b} <==> PieceBlocks(m, k) <= done
    {
      OtherPieces(m, done, b, k);
    }
  }

  /** Leaving a failed piece out of the count removes exactly its blocks. */
  lemma FailedPieceUncounted(m: Metainfo, done: set<nat>, failed: set<nat>, k: uint32)
    requires Exact(m) && k < m.piecesCount && k !in failed
    requires PieceBlocks(m, k) <= done <= Below(m.blocksCount)
    ensures |Counted(m, done, failed + {k as nat})| == |Counted(m, done, failed)| - BlockCountForPiece(m, k)
  {
    PieceBlocksInterval(m, k);
    hide Exact;
    var own, before := PieceBlocks(m, k), Counted(m, done, failed);
    assert own <= before;
    assert Counted(m, done, failed + {k as nat}) == before - own;
    assert |before - own| == |before| - |own|;
  }

  lemma WholePieceLength(m: Metainfo, k: uint32)
    requires Exact(m) && WholeBlocks(m) && k < m.piecesCount
    ensures PieceLength(m, k) == BlockCountForPiece(m, k) * BLOCK_LENGTH
  {
    PieceEnd(m, k);
    LastPieceIndex(m);
    Assoc(m.piecesCount - 1, m.blocksPerPiece);
    MultipleOfBlock(m.length, (m.piecesCount - 1) * m.blocksPerPiece, m.lastPieceLength);
  }

  lemma MultipleOfBlock(x: nat, k: nat, r: nat)
    requires x == k * BLOCK_LENGTH + r && x % BLOCK_LENGTH == 0
    ensures r % BLOCK_LENGTH == 0
  {
  }

  /** One more downloaded block is one more counted block: its piece was not complete. */
  lemma CountsOneMore(m: Metainfo, done: set<nat>, passed: set<nat>, failed: set<nat>, b: uint32)
    requires Exact(m) && Pieces(m, done, passed, failed) && b < m.blocksCount && b !in done
    ensures PieceOf(m, b) < m.piecesCount && PieceOf(m, b) !in passed + failed
    ensures |Counted(m, done + {b as nat}, failed)| == |Counted(m, done, failed)| + 1
  {
    var piece := PieceOf(m, b);
    FromBlockAndBack(m, b);
    assert b in PieceBlocks(m, piece);
    assert Counted(m, done + {b as nat}, failed) == Counted(m, done, failed) + {b as nat};
  }

  /** The pieces after one more block, whichever way the checksum of its piece goes. */
  lemma PiecesAfter(m: Metainfo, done: set<nat>, passed: set<nat>, failed: set<nat>, b: uint32)
    requires Exact(m) && Pieces(m, done, passed, failed) && b < m.blocksCount && b !in done
    requires PieceOf(m, b) < m.piecesCount
    ensures var piece, done' := PieceOf(m, b) as nat, done + {b as nat};
      && (PieceBlocks(m, piece) <= done' ==>
            Pieces(m, done', passed + {piece}, failed) && Pieces(m, done', passed, failed + {piece}))
      && (!(PieceBlocks(m, piece) <= done') ==> Pieces(m, done', passed, failed))
  {
    var piece, done' := PieceOf(m, b) as nat, done + {b as nat};
    CountsOneMore(m, done, passed, failed, b);
    OthersKept(m, done, b);
    assert piece == b / m.blocksPerPiece;
    hide PieceBlocks, Exact, PieceOf, Pieces;
    if PieceBlocks(m, piece) <= done' {
      PiecesUpdate(m, done, done', passed, failed, passed + {piece}, failed, piece);
      PiecesUpdate(m, done, done', passed, failed, passed, failed + {piece}, piece);
    } else {
      PiecesUpdate(m, done, done', passed, failed, passed, failed, piece);
    }
  }

  /** The counters after an answer. */
  lemma AnswerCounters(m: Metainfo, done: set<nat>, t: Totals, passed: set<nat>, failed: set<nat>, b: uint32,
    passes: bool)
    requires Exact(m) && WholeBlocks(m) && Counters(m, done, t, passed, failed)
    requires b < m.blocksCount && b !in done && done <= Below(m.blocksCount)
    ensures var piece, done' := PieceOf(m, b), done + {b as nat};
      var complete := PieceBlocks(m, piece) <= done';
      Counters(m, done', AfterPut(m, done', piece, BLOCK_LENGTH, t, passes),
               if complete && passes then passed + {piece as nat} else passed,
               if complete && !passes then failed + {piece as nat} else failed)
  {
    HasBlocks(m);
    CountsOneMore(m, done, passed, failed, b);
    PiecesAfter(m, done, passed, failed, b);
    hide Exact, PieceBlocks, Counted, Pieces, PieceOf, BlockCountForPiece, PieceLength, WholeBlocks;
    var piece, done' := PieceOf(m, b), done + {b as nat};
    WholePieceLength(m, piece);
    if PieceBlocks(m, piece) <= done' {
      if passes {
        assert |passed + {piece as nat}| == |passed| + 1;
      } else {
        FailedPieceUncounted(m, done', failed, piece);
      }
    }
  }

  lemma AnswerKeepsInv(m: Metainfo, s: State, p: nat, b: uint32, passes: bool)
    requires Exact(m) && WholeBlocks(m) && Inv(m, s) && Allowed(s, Answer(p, b, passes))
    ensures Inv(m, Step(m, s, Answer(p, b, passes)))
  {
    hide *;
    HasBlocks(m);
    InvParts(m, s);
    AnswerFields(m, s, p, b, passes);
    var s' := Step(m, s, Answer(p, b, passes));
    AnswerRequests(s, p, b, s'.peers[p]);
    PartitionAnswers(m, s.todo, s.active, s.done, b);
    AnswerCounters(m, s.done, s.totals, s.passed, s.failed, b, passes);
    InvParts(m, s');
  }

  /** The fields of the state after an answer. */
  lemma AnswerFields(m: Metainfo, s: State, p: nat, b: uint32, passes: bool)
    requires Exact(m) && Allowed(s, Answer(p, b, passes))
    ensures p < |s.peers| && s.peers[p].inFlight > 0 && b in s.active && m.blocksPerPiece > 0
    ensures var s', piece, done := Step(m, s, Answer(p, b, passes)), PieceOf(m, b), s.done + {b as nat};
      var complete := PieceBlocks(m, piece) <= done;
      && s'.todo == s.todo && s'.active == s.active - {b as nat} && s'.done == done && s'.log == s.log
      && s'.lost == s.lost && s'.askedOf == s.askedOf
      && |s'.peers| == |s.peers| && s'.peers == s.peers[p := s'.peers[p]]
      && s'.peers[p] == s.peers[p].(inFlight := s.peers[p].inFlight - 1)
      && s'.totals == AfterPut(m, done, piece, BLOCK_LENGTH, s.totals, passes)
      && s'.passed == (if complete && passes then s.passed + {piece as nat} else s.passed)
      && s'.failed == (if complete && !passes then s.failed + {piece as nat} else s.failed)
  {
    HasBlocks(m);
    hide Exact, PieceBlocks, PieceOf, AfterPut;
  }

  /** Every event keeps the invariant. */
  lemma StepKeepsInv(m: Metainfo, s: State, e: Event)
    requires Exact(m) && WholeBlocks(m) && Inv(m, s) && Allowed(s, e)
    ensures Inv(m, Step(m, s, e))
  {
    hide Exact, Inv;
    match e
    case Choke(p) => ViewKeepsInv(m, s, p, s.peers[p].(choked := true));
    case Unchoke(p) => ViewKeepsInv(m, s, p, s.peers[p].(choked := false));
    case Have(p, piece) =>
      ViewKeepsInv(m, s, p, s.peers[p].(have := s.peers[p].have + (if piece < m.piecesCount then {piece} else {})));
    case Bitfield(p, pieces) => ViewKeepsInv(m, s, p, s.peers[p].(have := pieces));
    case Idle(p) => IdleKeepsInv(m, s, p);
    case Answer(p, b, passes) => AnswerKeepsInv(m, s, p, b, passes);
    case Close(p) => CloseKeepsInv(m, s, p);
  }

  /** In every interleaving of any number of peers: the three sets partition the blocks, no block is
      requested twice, in-flight counts add up, and the counters equal the totals. */
  lemma {:induction false} RunKeepsInv(m: Metainfo, n: nat, events: seq<Event>)
    requires Exact(m) && WholeBlocks(m)
    ensures Inv(m, Run(m, Start(m, n), events))
    decreases |events|
  {
    hide Exact, Inv, Step, Start;
    if events == [] {
      StartInv(m, n);
    } else {
      RunKeepsInv(m, n, events[..|events| - 1]);
      var before := Run(m, Start(m, n), events[..|events| - 1]);
      var e := events[|events| - 1];
      if Allowed(before, e) { StepKeepsInv(m, before, e); }
    }
  }

  /** With the invariant, every assertion of peer_put_block holds for an allowed answer. */
  lemma AssertionsHold(m: Metainfo, s: State, p: nat, b: uint32, passes: bool)
    requires Exact(m) && WholeBlocks(m) && Inv(m, s) && Allowed(s, Answer(p, b, passes))
    ensures b < m.blocksCount && PieceOf(m, b) < m.piecesCount
    ensures b * BLOCK_LENGTH + BLOCK_LENGTH <= m.length
    ensures s.peers[p].inFlight > 0
    ensures s.totals.bytes + BLOCK_LENGTH <= m.length && s.totals.blocks < m.blocksCount
    ensures PieceBlocks(m, PieceOf(m, b)) <= s.done + {b as nat} ==>
      && s.totals.pieces < m.piecesCount
      && s.totals.bytes + BLOCK_LENGTH >= PieceLength(m, PieceOf(m, b))
      && s.totals.blocks + 1 >= BlockCountForPiece(m, PieceOf(m, b))
  {
    InvParts(m, s);
    HasBlocks(m);
    PartitionAnswers(m, s.todo, s.active, s.done, b);
    hide Inv, Partition, Requests, OnceOnly;
    ShortBlockIff(m);
    CountsOneMore(m, s.done, s.passed, s.failed, b);
    CountersFit(m, s.done + {b as nat}, s.passed, s.failed, PieceOf(m, b));
    TotalLength(m);
    WholePieceLength(m, PieceOf(m, b));
    hide Exact, WholeBlocks, PieceBlocks, Counted, PieceOf, BlockCountForPiece, PieceLength, Pieces;
  }

  lemma CountersFit(m: Metainfo, done: set<nat>, passed: set<nat>, failed: set<nat>, piece: uint32)
    requires Exact(m) && piece < m.piecesCount && piece !in passed + failed
    requires done <= Below(m.blocksCount) && passed <= Below(m.piecesCount)
    ensures |Counted(m, done, failed)| <= m.blocksCount && |passed| < m.piecesCount
    ensures PieceBlocks(m, piece) <= done ==> |Counted(m, done, failed)| >= BlockCountForPiece(m, piece)
  {
    SubsetSize(Counted(m, done, failed), Below(m.blocksCount));
    SubsetSize(passed + {piece as nat}, Below(m.piecesCount));
    PieceBlocksInterval(m, piece);
    if PieceBlocks(m, piece) <= done {
      SubsetSize(PieceBlocks(m, piece), Counted(m, done, failed));
    }
  }

  lemma SubsetSize(a: set<nat>, b: set<nat>)
    requires a <= b
    ensures |a| <= |b|
  {
    assert |b - a| == |b| - |a|;
  }

  lemma TotalLength(m: Metainfo)
    requires Exact(m) && WholeBlocks(m)
    ensures m.length == m.blocksCount * BLOCK_LENGTH
  {
    WholePieceLength(m, m.piecesCount - 1);
    LastPieceIndex(m);
    Assoc(m.piecesCount - 1, m.blocksPerPiece);
  }

  /** The assertion in peer_put_block that a whole block fits the file holds for all blocks exactly
      when the torrent has no short last block; with one, the last block always trips it. */
  lemma ShortBlockIff(m: Metainfo)
    requires Exact(m)
    ensures WholeBlocks(m) <==> forall b: nat :: b < m.blocksCount ==> b * BLOCK_LENGTH + BLOCK_LENGTH <= m.length
    ensures !WholeBlocks(m) ==> m.blocksCount > 0 && (m.blocksCount - 1) * BLOCK_LENGTH + BLOCK_LENGTH > m.length
  {
    SomeBlocks(m);
    Assoc(m.piecesCount - 1, m.blocksPerPiece);
    LastBlockEnd(m.length, (m.piecesCount - 1) * m.blocksPerPiece, m.lastPieceLength, m.lastPieceBlockCount);
    hide Exact;
    if !WholeBlocks(m) {
      var b: nat := m.blocksCount - 1;
      assert b * BLOCK_LENGTH + BLOCK_LENGTH > m.length;
    }
  }

  lemma LastBlockEnd(length: nat, x: nat, last: nat, count: nat)
    requires length == x * BLOCK_LENGTH + last && count > 0
    requires (count - 1) * BLOCK_LENGTH < last <= count * BLOCK_LENGTH
    ensures length % BLOCK_LENGTH == 0 <==> length == (x + count) * BLOCK_LENGTH
    ensures length <= (x + count) * BLOCK_LENGTH < length + BLOCK_LENGTH
  {
  }

  /** When nothing is wanted or awaited and no piece failed, the counters are those of the whole torrent. */
  lemma FinishedTotals(m: Metainfo, s: State)
    requires Exact(m) && WholeBlocks(m) && Inv(m, s)
    requires s.todo == {} && s.active == {} && s.failed == {}
    ensures s.totals == Totals(m.length, m.blocksCount, m.piecesCount)
  {
    TotalLength(m);
    assert s.done == Below(m.blocksCount);
    assert Counted(m, s.done, s.failed) == s.done;
    forall k: nat | k < m.piecesCount ensures k in s.passed { assert PieceBlocks(m, k) <= s.done; }
    assert s.passed == Below(m.piecesCount);
  }

  /** A block that has been asked for, whether awaited, lost or downloaded, is never asked for again. */
  lemma NeverAgain(m: Metainfo, s: State, e: Event, b: nat)
    requires Exact(m) && Inv(m, s) && Allowed(s, e)
    requires b in s.active || b in s.done
    ensures b in Elements(s.log) && b !in Elements(Asked(m, s, e))
  {
    hide Exact, Asked, Elements, Counters;
    AskedIsWanted(m, s, e);
  }

  // ---- the peer objects refine the state machine

  /** The objects behind peer `p` hold the values of state `s`. */
  ghost predicate Represents(peer: Peer, s: State, p: nat)
    reads peer, peer.have, peer.have.data, peer.download
    reads peer.picker, peer.picker.toDownload, peer.picker.downloading, peer.picker.downloaded
    reads peer.picker.toDownload.data, peer.picker.downloading.data, peer.picker.downloaded.data
  {
    && peer.Valid() && p < |s.peers|
    && peer.picker.toDownload.Members() == s.todo
    && peer.picker.downloading.Members() == s.active
    && peer.picker.downloaded.Members() == s.done
    && peer.have.Members() == s.peers[p].have
    && peer.inFlight == s.peers[p].inFlight && peer.choked == s.peers[p].choked
    && peer.download.Value() == s.totals
  }

  /** The CHOKE case of peer_message_handle. */
  method OnChoke(peer: Peer, ghost s: State, ghost p: nat) returns (action: Action)
    requires Represents(peer, s, p) && Exact(peer.picker.m) && Allowed(s, Choke(p))
    modifies peer`choked
    ensures Represents(peer, Step(peer.picker.m, s, Choke(p)), p) && action == StopRequesting
  {
    hide Exact;
    action := peer.OnChoke();
  }

  /** The UNCHOKE case of peer_message_handle. */
  method OnUnchoke(peer: Peer, ghost s: State, ghost p: nat) returns (action: Action)
    requires Represents(peer, s, p) && Exact(peer.picker.m) && Allowed(s, Unchoke(p))
    modifies peer`choked
    ensures Represents(peer, Step(peer.picker.m, s, Unchoke(p)), p) && action == RequestMore
  {
    hide Exact;
    action := peer.OnUnchoke();
  }

  /** The HAVE case of peer_message_handle. */
  method OnHave(peer: Peer, piece: uint32, ghost s: State, ghost p: nat) returns (action: Action)
    requires Represents(peer, s, p) && Exact(peer.picker.m) && Allowed(s, Have(p, piece))
    requires piece <= peer.picker.m.piecesCount
    modifies peer.have.data
    ensures Represents(peer, Step(peer.picker.m, s, Have(p, piece)), p) && action == RequestMore
  {
    hide Exact;
    action := peer.OnHave(piece);
  }

  /** The BITFIELD case of peer_message_handle. */
  method OnBitfield(peer: Peer, bytes: seq<byte>, ghost s: State, ghost p: nat) returns (action: Action)
    requires Represents(peer, s, p) && Exact(peer.picker.m) && |bytes| == PeerWire.BitfieldSize(peer.picker.m)
    requires var pieces := Overwritten(AsBits(bytes), peer.picker.m.piecesCount - 1, s.peers[p].have);
      Allowed(s, Bitfield(p, pieces))
    modifies peer.have.data
    ensures var pieces := Overwritten(AsBits(bytes), peer.picker.m.piecesCount - 1, s.peers[p].have);
      Represents(peer, Step(peer.picker.m, s, Bitfield(p, pieces)), p) && action == RequestMore
  {
    hide Exact;
    action := peer.OnBitfield(bytes);
  }

  /** Every HAVE and BITFIELD the parser accepts meets what the handler needs. */
  lemma AcceptedViews(m: Metainfo, r: seq<byte>)
    requires m.piecesCount > 0 && PeerWire.ParseFrame(m, r).Got?
    ensures var msg := PeerWire.ParseFrame(m, r).msg;
      && (msg.Have? ==> msg.piece <= m.piecesCount)
      && (msg.Bitfield? ==> |msg.bits| == PeerWire.BitfieldSize(m) <= m.piecesCount)
  {
  }

  /** peer_on_idle */
  method OnIdle(peer: Peer, ghost s: State, ghost p: nat) returns (sent: seq<nat>, action: Action)
    requires Represents(peer, s, p) && Allowed(s, Idle(p))
    modifies peer`inFlight, peer.picker.toDownload.data, peer.picker.downloading.data
    ensures sent == Asked(peer.picker.m, s, Idle(p))
    ensures Represents(peer, Step(peer.picker.m, s, Idle(p)), p)
  {
    hide Picks, Elements;
    sent, action := peer.RequestMoreBlocks();
  }

  /** The piece case of peer_message_handle: no assertion fails and the state machine is followed. */
  method OnPiece(peer: Peer, index: uint32, begin: uint32, passes: bool, ghost s: State, ghost p: nat)
    requires Represents(peer, s, p) && Exact(peer.picker.m) && WholeBlocks(peer.picker.m) && Inv(peer.picker.m, s)
    requires index < peer.picker.m.piecesCount && begin < PieceLength(peer.picker.m, index)
    requires Allowed(s, Answer(p, PeerWire.HandledBlock(peer.picker.m, index, begin), passes))
    modifies peer`inFlight, peer.picker.downloading.data, peer.picker.downloaded.data, peer.download
    ensures Represents(peer,
      Step(peer.picker.m, s, Answer(p, PeerWire.HandledBlock(peer.picker.m, index, begin), passes)), p)
  {
    hide Inv, Exact, WholeBlocks, PieceBlocks, AfterPut, Step, Allowed, PeerWire.HandledBlock, PieceOf, PieceLength;
    hide BlockForPieceToBlock, BlockForPieceLength, BlockCountForPiece;
    AnswerReady(peer.picker.m, s, p, index, begin, passes);
    var blockForPiece := begin / BLOCK_LENGTH;
    var block := BlockForPieceToBlock(peer.picker.m, index, blockForPiece);
    var size := BlockForPieceLength(peer.picker.m, index, blockForPiece);
    peer.PutBlock(index, block, size, true, passes);
  }

  /** What handling a piece message needs and does, from the invariant. */
  lemma AnswerReady(m: Metainfo, s: State, p: nat, index: uint32, begin: uint32, passes: bool)
    requires Exact(m) && WholeBlocks(m) && Inv(m, s)
    requires index < m.piecesCount && begin < PieceLength(m, index)
    requires Allowed(s, Answer(p, PeerWire.HandledBlock(m, index, begin), passes))
    ensures var b, done := PeerWire.HandledBlock(m, index, begin),
      s.done + {PeerWire.HandledBlock(m, index, begin) as nat};
      var s' := Step(m, s, Answer(p, b, passes));
      && p < |s.peers| && b < m.blocksCount && begin / BLOCK_LENGTH < BlockCountForPiece(m, index)
      && b == BlockForPieceToBlock(m, index, begin / BLOCK_LENGTH)
      && BlockForPieceLength(m, index, begin / BLOCK_LENGTH) == BLOCK_LENGTH
      && b * BLOCK_LENGTH + BLOCK_LENGTH <= m.length && s.peers[p].inFlight > 0
      && s.totals.bytes + BLOCK_LENGTH <= m.length && s.totals.blocks < m.blocksCount
      && m.blocksPerPiece > 0
      && (PieceBlocks(m, index) <= done ==>
            if passes then s.totals.pieces < m.piecesCount
            else (s.totals.bytes + BLOCK_LENGTH >= PieceLength(m, index)
                  && s.totals.blocks + 1 >= BlockCountForPiece(m, index)))
      && s'.todo == s.todo && s'.active == s.active - {b as nat} && s'.done == done
      && |s'.peers| == |s.peers| && s'.peers[p].have == s.peers[p].have && s'.peers[p].choked == s.peers[p].choked
      && s'.peers[p].inFlight == s.peers[p].inFlight - 1
      && s'.totals == AfterPut(m, done, index, BLOCK_LENGTH, s.totals, passes)
  {
    var k := begin / BLOCK_LENGTH;
    PeerWire.PositionInPiece(m, index, begin, 1);
    FromPieceAndBack(m, index, k);
    NumberIsExact(m, index, k);
    BlockLengthIsExact(m, index, k);
    hide *;
    InvParts(m, s);
    HasBlocks(m);
    HandledBlockIs(m, index, begin);
    AnswerFields(m, s, p, PeerWire.HandledBlock(m, index, begin), passes);
    AssertionsHold(m, s, p, PeerWire.HandledBlock(m, index, begin), passes);
  }

  lemma HandledBlockIs(m: Metainfo, index: uint32, begin: uint32)
    ensures PeerWire.HandledBlock(m, index, begin) == BlockForPieceToBlock(m, index, begin / BLOCK_LENGTH)
  {
  }
}
