/** torrent/peer.h: the state of a run read off its history. What holds of a peer or a block is what the latest
    event about it said. */
module SwarmHistory {
  import Arithmetic
  import opened MachineInts
  import opened Metainfo
  import opened Picker
  import opened Swarm
  import opened SwarmRuns

  datatype Fact =
    | Unchoked(p: nat) | Has(p: nat, piece: nat) | Closed(p: nat)
    | Awaited(block: nat) | Downloaded(block: nat) | AskedOf(p: nat, block: nat)
    | Passed(piece: nat) | Failed(piece: nat)

  predicate Holds(s: State, f: Fact) {
    match f
    case Unchoked(p) => p < |s.peers| && !s.peers[p].choked
    case Has(p, piece) => p < |s.peers| && piece in s.peers[p].have
    case Closed(p) => p < |s.peers| && !s.peers[p].connected
    case Awaited(b) => b in s.active
    case Downloaded(b) => b in s.done
    case AskedOf(p, b) => b in s.askedOf && s.askedOf[b] == p
    case Passed(k) => k in s.passed
    case Failed(k) => k in s.failed
  }

  /** Event `e`, which finds state `s`, makes the fact true. */
  predicate Gives(m: Metainfo, s: State, e: Event, f: Fact)
    requires Exact(m) && Allowed(s, e)
  {
    match f
    case Unchoked(p) => e == Unchoke(p)
    case Has(p, piece) =>
      (e == Have(p, piece) && piece < m.piecesCount) || (e.Bitfield? && e.p == p && piece in e.pieces)
    case Closed(p) => e == Close(p)
    case Awaited(b) => b in Asked(m, s, e)
    case Downloaded(b) => e.Answer? && e.block == b
    case AskedOf(p, b) => e == Idle(p) && b in Asked(m, s, e)
    case Passed(k) => e.Answer? && e.passes && Completes(m, s, e.block, k)
    case Failed(k) => e.Answer? && !e.passes && Completes(m, s, e.block, k)
  }

  /** Event `e` makes the fact false. */
  predicate Takes(m: Metainfo, s: State, e: Event, f: Fact)
    requires Exact(m) && Allowed(s, e)
  {
    match f
    case Unchoked(p) => e == Choke(p)
    case Has(p, piece) => e.Bitfield? && e.p == p && piece !in e.pieces
    case Awaited(b) => e.Answer? && e.block == b
    case AskedOf(p, b) => e.Idle? && e.p != p && b in Asked(m, s, e)
    case _ => false
  }

  /** The block is the last one of piece `k` to arrive. */
  predicate Completes(m: Metainfo, s: State, block: nat, k: nat)
    requires Exact(m)
  {
    m.blocksPerPiece > 0 && block / m.blocksPerPiece == k &&
    forall b :: b in PieceBlocks(m, k) ==> b == block || b in s.done
  }

  lemma InElements(s: seq<nat>, b: nat) ensures b in Elements(s) <==> b in s {}

  lemma BlocksDone(m: Metainfo, s: State, block: nat, k: nat)
    requires m.blocksPerPiece > 0
    ensures PieceBlocks(m, k) <= s.done + {block} <==> forall b :: b in PieceBlocks(m, k) ==> b == block || b in s.done
  {
    hide PieceBlocks;
  }

  /** One event. */
  lemma StepDecides(m: Metainfo, s: State, e: Event, f: Fact)
    requires Exact(m) && Allowed(s, e)
    ensures Holds(Step(m, s, e), f) <==> Gives(m, s, e, f) || (Holds(s, f) && !Takes(m, s, e, f))
  {
    HasBlocks(m);
    hide Exact, Elements, Picks, PieceBlocks, AfterPut, Asked;
    match e {
      case Idle(p) =>
        if f.Awaited? || f.AskedOf? { InElements(Asked(m, s, e), f.block); }
      case Answer(p, b, _) =>
        NothingAsked(m, s, e);
        if f.Passed? || f.Failed? { BlocksDone(m, s, b, f.piece); }
      case _ => NothingAsked(m, s, e);
    }
  }

  lemma NothingAsked(m: Metainfo, s: State, e: Event)
    requires Exact(m) && Allowed(s, e) && !e.Idle?
    ensures Asked(m, s, e) == []
  {
    hide Exact;
  }

  // ---- over a whole run

  /** The state event `i` of a run finds. */
  function At(m: Metainfo, s: State, events: seq<Event>, i: nat): State
    requires Exact(m) && i <= |events|
  {
    Run(m, s, events[..i])
  }

  /** Event `i` of the run is allowed when its turn comes. */
  predicate Happens(m: Metainfo, s: State, events: seq<Event>, i: nat)
    requires Exact(m)
  {
    i < |events| && Allowed(At(m, s, events, i), events[i])
  }

  lemma NextState(m: Metainfo, s: State, events: seq<Event>, i: nat)
    requires Exact(m) && i < |events|
    ensures At(m, s, events, i + 1) == After(m, At(m, s, events, i), events[i])
  {
    hide Exact, Step, Allowed;
    assert events[..i + 1][..i] == events[..i];
  }

  /** Event `i` makes the fact true and no later one before event `k` makes it false. */
  ghost predicate Since(m: Metainfo, s: State, events: seq<Event>, i: nat, k: nat, f: Fact)
    requires Exact(m) && k <= |events|
  {
    && i < k && Happens(m, s, events, i) && Gives(m, At(m, s, events, i), events[i], f)
    && forall j :: i < j < k && Happens(m, s, events, j) ==> !Takes(m, At(m, s, events, j), events[j], f)
  }

  /** The latest of the first `k` events about the fact made it true. */
  ghost predicate Told(m: Metainfo, s: State, events: seq<Event>, k: nat, f: Fact)
    requires Exact(m) && k <= |events|
  {
    exists i: nat :: Since(m, s, events, i, k, f)
  }

  /** One more event. */
  lemma Extend(m: Metainfo, s: State, events: seq<Event>, k: nat, f: Fact)
    requires Exact(m) && k < |events|
    ensures !Happens(m, s, events, k) ==> (Told(m, s, events, k + 1, f) <==> Told(m, s, events, k, f))
    ensures Happens(m, s, events, k) ==>
      var before, e := At(m, s, events, k), events[k];
      Told(m, s, events, k + 1, f) <==> Gives(m, before, e, f) || (Told(m, s, events, k, f) && !Takes(m, before, e, f))
  {
    hide Exact, Allowed, Gives, Takes, At;
    var next := k + 1;
    if i: nat :| Since(m, s, events, i, next, f) {
      if i < k { assert Since(m, s, events, i, k, f); }
    }
    if i: nat :| Since(m, s, events, i, k, f) {
      if !Happens(m, s, events, k) || !Takes(m, At(m, s, events, k), events[k], f) {
        assert Since(m, s, events, i, next, f);
      }
    }
    if Happens(m, s, events, k) && Gives(m, At(m, s, events, k), events[k], f) {
      assert Since(m, s, events, k, next, f);
    }
  }

  lemma {:induction false} HoldsSince(m: Metainfo, n: nat, events: seq<Event>, k: nat, f: Fact)
    requires Exact(m) && k <= |events|
    ensures Holds(At(m, Start(m, n), events, k), f) <==> Told(m, Start(m, n), events, k, f)
    decreases k
  {
    hide Exact, Allowed, Step, Holds, Gives, Takes, At, Start, Run, Told;
    var s := Start(m, n);
    if k == 0 {
      NothingHolds(m, n, events, f);
      NothingTold(m, s, events, f);
    } else {
      var l := k - 1;
      var before, e := At(m, s, events, l), events[l];
      HoldsSince(m, n, events, l, f);
      NextState(m, s, events, l);
      if Happens(m, s, events, l) { StepDecides(m, before, e, f); }
      Extend(m, s, events, l, f);
    }
  }

  lemma NothingTold(m: Metainfo, s: State, events: seq<Event>, f: Fact)
    requires Exact(m)
    ensures !Told(m, s, events, 0, f)
  {
  }

  lemma NothingHolds(m: Metainfo, n: nat, events: seq<Event>, f: Fact)
    requires Exact(m)
    ensures !Holds(At(m, Start(m, n), events, 0), f)
  {
    hide Exact;
  }

  /** What holds after a run is what the latest event about it said. */
  lemma HistoryDecides(m: Metainfo, n: nat, events: seq<Event>, f: Fact)
    requires Exact(m)
    ensures Holds(Run(m, Start(m, n), events), f) <==> Told(m, Start(m, n), events, |events|, f)
  {
    hide *;
    HoldsSince(m, n, events, |events|, f);
    WholeRun(m, Start(m, n), events);
  }

  lemma WholeRun(m: Metainfo, s: State, events: seq<Event>)
    requires Exact(m)
    ensures At(m, s, events, |events|) == Run(m, s, events)
  {
    hide Exact;
    assert events[..|events|] == events;
  }

  /** Peer `p` unchoked us with event `i`, and no CHOKE of it came after that. */
  ghost predicate UnchokedBy(m: Metainfo, s: State, events: seq<Event>, i: nat, p: nat)
    requires Exact(m)
  {
    && Happens(m, s, events, i) && events[i] == Unchoke(p)
    && forall j :: i < j && Happens(m, s, events, j) ==> events[j] != Choke(p)
  }

  /** A peer counts as choking us, except after an UNCHOKE with no CHOKE behind it. */
  lemma ChokedIff(m: Metainfo, n: nat, events: seq<Event>, p: nat)
    requires Exact(m)
    ensures var t := Run(m, Start(m, n), events);
      p < |t.peers| ==> (!t.peers[p].choked <==> exists i: nat :: UnchokedBy(m, Start(m, n), events, i, p))
  {
    HistoryDecides(m, n, events, Unchoked(p));
    hide Exact, Run, Start, Happens;
    var s, k := Start(m, n), |events|;
    if i: nat :| Since(m, s, events, i, k, Unchoked(p)) {
      assert UnchokedBy(m, s, events, i, p);
    }
    if i: nat :| UnchokedBy(m, s, events, i, p) {
      assert i < k by { InRun(m, s, events, i); }
      assert Since(m, s, events, i, k, Unchoked(p));
    }
  }

  lemma InRun(m: Metainfo, s: State, events: seq<Event>, i: nat)
    requires Exact(m) && Happens(m, s, events, i)
    ensures i < |events|
  {
    hide Exact;
  }

  lemma AskedIfUnchoked(m: Metainfo, s: State, e: Event)
    requires Exact(m) && Allowed(s, e) && Asked(m, s, e) != []
    ensures m.blocksPerPiece > 0 && e.Idle? && !s.peers[e.p].choked && s.peers[e.p].inFlight < MAX_IN_FLIGHT
    ensures forall b :: b in Asked(m, s, e) ==> b / m.blocksPerPiece in s.peers[e.p].have
  {
    HasBlocks(m);
    hide Exact, Picks, Elements, NoDuplicates;
    var peer := s.peers[e.p];
    if peer.inFlight < MAX_IN_FLIGHT { PicksAreWanted(m, s.todo, peer.have, MAX_IN_FLIGHT - peer.inFlight); }
  }

  /** In every run blocks are asked of a peer only while it has unchoked us, with no CHOKE behind the UNCHOKE, and only
      blocks of pieces it has announced and not taken back. */
  lemma AskedOnlyUnchoked(m: Metainfo, n: nat, events: seq<Event>, s: State, e: Event)
    requires Exact(m) && s == Run(m, Start(m, n), events) && Allowed(s, e) && Asked(m, s, e) != []
    ensures e.Idle? && exists i: nat :: UnchokedBy(m, Start(m, n), events, i, e.p)
    ensures forall b :: b in Asked(m, s, e) ==> ToldHas(m, Start(m, n), events, e.p, b)
  {
    hide *;
    AskedIfUnchoked(m, s, e);
    ChokedIff(m, n, events, e.p);
    PeerThere(s, e);
    forall b | b in Asked(m, s, e) ensures ToldHas(m, Start(m, n), events, e.p, b) {
      Announced(m, n, events, e.p, b);
    }
  }

  /** The peer has announced the piece of block `b`, and not taken it back. */
  ghost predicate ToldHas(m: Metainfo, s: State, events: seq<Event>, p: nat, b: nat)
    requires Exact(m)
  {
    m.blocksPerPiece > 0 && Told(m, s, events, |events|, Has(p, b / m.blocksPerPiece))
  }

  lemma PeerThere(s: State, e: Event) requires Allowed(s, e) ensures e.p < |s.peers| {}

  lemma Announced(m: Metainfo, n: nat, events: seq<Event>, p: nat, b: nat)
    requires Exact(m) && m.blocksPerPiece > 0 && p < |Run(m, Start(m, n), events).peers|
    requires b / m.blocksPerPiece in Run(m, Start(m, n), events).peers[p].have
    ensures ToldHas(m, Start(m, n), events, p, b)
  {
    hide Exact, Run, Start, Told;
    HistoryDecides(m, n, events, Has(p, b / m.blocksPerPiece));
  }

  /** When it grows, the log grows by what is asked then, of an idle peer that has unchoked us. */
  lemma LogGrowsUnchoked(m: Metainfo, n: nat, events: seq<Event>, k: nat)
    requires Exact(m) && k < |events|
    requires At(m, Start(m, n), events, k + 1).log != At(m, Start(m, n), events, k).log
    ensures Happens(m, Start(m, n), events, k) && events[k].Idle?
    ensures exists i: nat :: UnchokedBy(m, Start(m, n), events[..k], i, events[k].p)
  {
    var s := At(m, Start(m, n), events, k);
    NextState(m, Start(m, n), events, k);
    LogGrowth(m, s, events[k]);
    hide Exact, Run, Start, UnchokedBy, Asked, Step;
    AskedOnlyUnchoked(m, n, events[..k], s, events[k]);
  }

  lemma LogGrowth(m: Metainfo, s: State, e: Event)
    requires Exact(m) && Allowed(s, e)
    ensures Step(m, s, e).log == s.log + Asked(m, s, e)
  {
    hide Exact, Picks, Elements, PieceBlocks, AfterPut;
  }

  /** What an idle peer that has unchoked us is asked for: wanted blocks of its pieces, the smallest ones first, until
      five are in flight or none is left. */
  lemma AskedExactly(m: Metainfo, s: State, p: nat)
    requires Exact(m) && m.blocksPerPiece > 0 && Allowed(s, Idle(p)) && !s.peers[p].choked
    requires s.peers[p].inFlight <= 5 && s.todo <= Arithmetic.Below(m.blocksCount)
    ensures var sent := Asked(m, s, Idle(p)); var room := 5 - s.peers[p].inFlight;
      && |sent| <= room
      && (forall i, j :: 0 <= i < j < |sent| ==> sent[i] < sent[j])
      && (forall b :: b in sent ==> b in s.todo && b / m.blocksPerPiece in s.peers[p].have)
      && (forall b :: b in s.todo && b / m.blocksPerPiece in s.peers[p].have && b !in sent ==>
            |sent| == room && forall c :: c in sent ==> c < b)
  {
    var have, room := s.peers[p].have, 5 - s.peers[p].inFlight;
    PicksAreWanted(m, s.todo, have, room);
    PicksAreLeast(m, s.todo, have, room);
    NoPicks(m, s.todo, have);
    hide Exact, Picks, Elements, NoDuplicates;
    var sent := Asked(m, s, Idle(p));
    assert sent == Picks(m, s.todo, have, room);
    forall b | b in sent ensures b in s.todo { InElements(sent, b); }
    hide Asked;
  }

  lemma NoPicks(m: Metainfo, todo: set<nat>, have: set<nat>)
    requires m.blocksPerPiece > 0
    ensures Picks(m, todo, have, 0) == []
  {
  }
}
