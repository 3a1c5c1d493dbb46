/** torrent/peer.h: which states of a download can still be finished, over all continuations. */
module SwarmRuns {
  import opened Arithmetic
  import opened MachineInts
  import opened Metainfo
  import opened Picker
  import opened Swarm

  function After(m: Metainfo, s: State, e: Event): State
    requires Exact(m)
  {
    if Allowed(s, e) then Step(m, s, e) else s
  }

  lemma {:induction false} RunCons(m: Metainfo, s: State, e: Event, events: seq<Event>)
    requires Exact(m)
    ensures Run(m, s, [e] + events) == Run(m, After(m, s, e), events)
    decreases |events|
  {
    hide Exact, Step, Allowed;
    var all := [e] + events;
    if events == [] {
      assert all[..0] == [] && all[0] == e;
    } else {
      var n := |events| - 1;
      assert all[..n + 1] == [e] + events[..n] && all[n + 1] == events[n];
      RunCons(m, s, e, events[..n]);
    }
  }

  /** The invariant is kept over every continuation, and nothing lost, failed or logged is ever taken back. */
  lemma {:induction false} RunGrows(m: Metainfo, s: State, events: seq<Event>)
    requires Exact(m) && WholeBlocks(m) && Inv(m, s)
    ensures var t := Run(m, s, events);
      Inv(m, t) && s.lost <= t.lost && s.failed <= t.failed && s.log <= t.log
    decreases |events|
  {
    hide Exact, Inv, WholeBlocks;
    if events != [] {
      var before, e := Run(m, s, events[..|events| - 1]), events[|events| - 1];
      RunGrows(m, s, events[..|events| - 1]);
      if Allowed(before, e) {
        StepKeepsInv(m, before, e);
        StepGrows(m, before, e);
      }
    }
    hide Step, Allowed;
  }

  lemma StepGrows(m: Metainfo, s: State, e: Event)
    requires Exact(m) && Allowed(s, e)
    ensures var t := Step(m, s, e); s.lost <= t.lost && s.failed <= t.failed && s.log <= t.log
  {
    hide Exact, Picks, Elements, PieceBlocks, AfterPut, PieceOf;
  }

  /** A block that has been asked for is not asked for again in any continuation. */
  lemma NeverAskedAgain(m: Metainfo, s: State, events: seq<Event>, b: nat)
    requires Exact(m) && WholeBlocks(m) && Inv(m, s) && (b in s.active || b in s.done)
    ensures var t := Run(m, s, events);
      s.log <= t.log && b in s.log && b !in t.log[|s.log|..]
  {
    var t := Run(m, s, events);
    RunGrows(m, s, events);
    InvParts(m, s);
    InvParts(m, t);
    hide Exact, Inv, Run;
    assert b in Elements(s.log);
    var i :| 0 <= i < |s.log| && s.log[i] == b;
    forall j | |s.log| <= j < |t.log| ensures t.log[j] != b { assert t.log[i] == b; }
  }

  function Whole(m: Metainfo): Totals { Totals(m.length, m.blocksCount, m.piecesCount) }

  /** With a lost request or a failed piece the counters stay below the total in every continuation. */
  lemma NeverFinishes(m: Metainfo, s: State, events: seq<Event>)
    requires Exact(m) && WholeBlocks(m) && Inv(m, s) && (s.lost > 0 || s.failed != {})
    ensures Run(m, s, events).totals.blocks < m.blocksCount
    ensures Run(m, s, events).totals != Whole(m)
  {
    var t := Run(m, s, events);
    RunGrows(m, s, events);
    InvParts(m, t);
    hide Run, Inv;
    if s.lost > 0 {
      assert t.active != {};
      var x :| x in t.active;
      assert x !in t.done;
      TooFew(m, t, x);
    } else {
      var k :| k in s.failed;
      assert k in t.failed && k in Below(m.piecesCount);
      FailedBlock(m, k);
      TooFew(m, t, k * m.blocksPerPiece);
    }
  }

  lemma FailedBlock(m: Metainfo, k: nat)
    requires Exact(m) && k < m.piecesCount
    ensures k * m.blocksPerPiece >= 0 && k * m.blocksPerPiece in Below(m.blocksCount)
    ensures k * m.blocksPerPiece / m.blocksPerPiece == k
  {
    PieceBlocksInterval(m, k);
    NatProduct(k, m.blocksPerPiece);
    MulAssoc(k, m.blocksPerPiece, 1);
    Euclid(k * m.blocksPerPiece, m.blocksPerPiece, k, 0);
  }

  lemma TooFew(m: Metainfo, t: State, b: nat)
    requires Exact(m) && Inv(m, t) && b in Below(m.blocksCount) && b !in Counted(m, t.done, t.failed)
    ensures t.totals.blocks < m.blocksCount
  {
    InvParts(m, t);
    hide Inv, Exact;
    var counted, all := Counted(m, t.done, t.failed), Below(m.blocksCount);
    assert counted <= all - {b};
    SubsetSize(counted, all - {b});
  }

  // ---- finishing

  /** A peer that closed has nothing in flight. */
  ghost predicate Quiet(s: State) {
    forall p: nat :: p < |s.peers| ==> QuietPeer(s.peers[p])
  }

  ghost predicate QuietPeer(peer: PeerState) { !peer.connected ==> peer.inFlight == 0 }

  lemma StepKeepsQuiet(m: Metainfo, s: State, e: Event)
    requires Exact(m) && Allowed(s, e) && Quiet(s)
    ensures Quiet(Step(m, s, e))
  {
    hide Exact, Picks, Elements, PieceBlocks, AfterPut, PieceOf;
    var t := Step(m, s, e);
    assert |t.peers| == |s.peers| && t.peers == s.peers[e.p := t.peers[e.p]];
    forall p: nat | p < |t.peers| ensures QuietPeer(t.peers[p]) { assert QuietPeer(s.peers[p]); }
  }

  lemma {:induction false} RunKeepsQuiet(m: Metainfo, s: State, events: seq<Event>)
    requires Exact(m) && Quiet(s)
    ensures Quiet(Run(m, s, events))
    decreases |events|
  {
    hide Exact, Step, Allowed, Quiet;
    if events != [] {
      var before, e := Run(m, s, events[..|events| - 1]), events[|events| - 1];
      RunKeepsQuiet(m, s, events[..|events| - 1]);
      if Allowed(before, e) { StepKeepsQuiet(m, before, e); }
    }
  }

  lemma StartIsQuiet(m: Metainfo, n: nat) ensures Quiet(Start(m, n)) {}

  /** Peer `p` is connected and has every piece. */
  ghost predicate IsSeed(m: Metainfo, s: State, p: nat) {
    p < |s.peers| && s.peers[p].connected && forall k: nat :: k < m.piecesCount ==> k in s.peers[p].have
  }

  ghost predicate Finishable(m: Metainfo, s: State, p: nat)
    requires Exact(m)
  {
    Inv(m, s) && Quiet(s) && s.lost == 0 && s.failed == {} && IsSeed(m, s, p)
  }

  lemma {:induction false} SomeoneOwes(peers: seq<PeerState>) returns (q: nat)
    requires InFlight(peers) > 0
    ensures q < |peers| && peers[q].inFlight > 0
  {
    var n := |peers| - 1;
    if peers[n].inFlight > 0 { q := n; } else { q := SomeoneOwes(peers[..n]); }
  }

  lemma {:induction false} NobodyOwes(peers: seq<PeerState>, p: nat)
    requires InFlight(peers) == 0 && p < |peers|
    ensures peers[p].inFlight == 0
  {
    if p < |peers| - 1 { NobodyOwes(peers[..|peers| - 1], p); }
  }

  /** While a block is awaited and nothing is lost, some connected peer can answer it. */
  lemma AnswerComes(m: Metainfo, s: State, p: nat) returns (e: Event)
    requires Exact(m) && WholeBlocks(m) && Finishable(m, s, p) && s.active != {}
    ensures Allowed(s, e) && Positive(e)
    ensures var t := Step(m, s, e); Finishable(m, t, p) && t.todo == s.todo && |t.active| < |s.active|
  {
    InvParts(m, s);
    hide Inv, Exact, Counters, OnceOnly, WholeBlocks, Step, IsSeed;
    var q := SomeoneOwes(s.peers);
    assert QuietPeer(s.peers[q]);
    var b :| b in s.active;
    assert b in Below(m.blocksCount);
    e := Answer(q, b, true);
    AnswerKeepsFinishable(m, s, p, q, b);
  }

  predicate Positive(e: Event) { e.Answer? ==> e.passes }

  lemma AnswerKeepsFinishable(m: Metainfo, s: State, p: nat, q: nat, b: uint32)
    requires Exact(m) && WholeBlocks(m) && Finishable(m, s, p) && Allowed(s, Answer(q, b, true))
    ensures var t := Step(m, s, Answer(q, b, true));
      Finishable(m, t, p) && t.todo == s.todo && |t.active| < |s.active|
  {
    hide Step, Quiet, Inv, Exact, WholeBlocks, PieceBlocks, AfterPut, PieceOf;
    StepKeepsInv(m, s, Answer(q, b, true));
    StepKeepsQuiet(m, s, Answer(q, b, true));
    AnswerFields(m, s, q, b, true);
    Smaller(s.active, b);
  }

  lemma Smaller(s: set<nat>, b: nat)
    requires b in s
    ensures |s - {b}| < |s|
  {
  }

  lemma NothingAwaited(m: Metainfo, s: State, p: nat)
    requires Exact(m) && Inv(m, s) && s.active == {} && p < |s.peers|
    ensures s.peers[p].inFlight == 0 && m.blocksPerPiece > 0 && s.todo <= Below(m.blocksCount)
  {
    InvParts(m, s);
    HasBlocks(m);
    hide Exact, Inv, Counters, OnceOnly;
    NobodyOwes(s.peers, p);
  }

  /** What a seed is asked for when nothing is awaited. */
  lemma SeedIsAsked(m: Metainfo, s: State, p: nat)
    requires Exact(m) && m.blocksPerPiece > 0 && Finishable(m, s, p) && s.active == {} && s.todo != {}
    ensures s.peers[p].inFlight == 0
    ensures var asked := Elements(Picks(m, s.todo, s.peers[p].have, MAX_IN_FLIGHT));
      asked <= s.todo && asked != {} && |s.todo - asked| + |asked| == |s.todo|
  {
    hide Exact, Picks, Elements, Inv, Quiet;
    NothingAwaited(m, s, p);
    var have := s.peers[p].have;
    SeedGivesSome(m, s.todo, have);
    var asked := Elements(Picks(m, s.todo, have, MAX_IN_FLIGHT));
    assert s.todo == (s.todo - asked) + asked;
  }

  lemma SeedGivesSome(m: Metainfo, todo: set<nat>, have: set<nat>)
    requires Exact(m) && m.blocksPerPiece > 0 && todo != {} && todo <= Below(m.blocksCount)
    requires forall k: nat :: k < m.piecesCount ==> k in have
    ensures var asked := Elements(Picks(m, todo, have, MAX_IN_FLIGHT)); asked <= todo && asked != {}
  {
    hide Exact, Picks, Elements;
    var sent := Picks(m, todo, have, MAX_IN_FLIGHT);
    PicksAreWanted(m, todo, have, MAX_IN_FLIGHT);
    if |sent| < MAX_IN_FLIGHT {
      PicksExhaust(m, todo, have, MAX_IN_FLIGHT);
      NothingRefused(m, todo, have, Elements(sent));
    }
  }

  lemma NothingRefused(m: Metainfo, todo: set<nat>, have: set<nat>, asked: set<nat>)
    requires Exact(m) && todo <= Below(m.blocksCount) && (forall k: nat :: k < m.piecesCount ==> k in have)
    requires forall b :: b in todo - asked && b < m.blocksCount ==> b / m.blocksPerPiece !in have
    ensures todo <= asked
  {
    HasBlocks(m);
    hide Exact;
    forall b | b in todo ensures b in asked {
      PieceExists(m, b);
      var k: nat := b / m.blocksPerPiece;
      assert k in have;
    }
  }

  lemma PieceExists(m: Metainfo, b: nat)
    requires Exact(m) && b < m.blocksCount
    ensures 0 <= b / m.blocksPerPiece < m.piecesCount
  {
    FromBlockAndBack(m, b);
    assert PieceOf(m, b) == b / m.blocksPerPiece;
    hide Exact;
  }

  /** The seed unchokes us and is then idle. */
  function Ask(m: Metainfo, s: State, p: nat): State
    requires Exact(m)
  {
    After(m, After(m, s, Unchoke(p)), Idle(p))
  }

  lemma AskingFields(m: Metainfo, s: State, p: nat)
    requires Exact(m) && m.blocksPerPiece > 0 && p < |s.peers| && s.peers[p].connected && s.peers[p].inFlight == 0
    ensures var t, asked := Ask(m, s, p), Elements(Picks(m, s.todo, s.peers[p].have, MAX_IN_FLIGHT));
      && t.todo == s.todo - asked && t.active == s.active + asked && t.lost == s.lost && t.failed == s.failed
      && |t.peers| == |s.peers| && t.peers[p].connected && t.peers[p].have == s.peers[p].have
  {
    hide Exact, Picks, Elements;
  }

  lemma AfterKeeps(m: Metainfo, s: State, e: Event)
    requires Exact(m) && WholeBlocks(m) && Inv(m, s) && Quiet(s)
    ensures Inv(m, After(m, s, e)) && Quiet(After(m, s, e))
  {
    hide Exact, Inv, Quiet, WholeBlocks, Allowed, Step;
    if Allowed(s, e) {
      StepKeepsInv(m, s, e);
      StepKeepsQuiet(m, s, e);
    }
  }

  /** When nothing is awaited but something wanted, the seed is asked for more. */
  lemma RequestGoesOut(m: Metainfo, s: State, p: nat)
    requires Exact(m) && WholeBlocks(m) && Finishable(m, s, p) && s.active == {} && s.todo != {}
    ensures var t := Ask(m, s, p); Finishable(m, t, p) && 2 * |t.todo| + |t.active| < 2 * |s.todo| + |s.active|
  {
    hide Exact, Picks, Elements, Inv, Quiet, WholeBlocks, After;
    HasBlocks(m);
    SeedIsAsked(m, s, p);
    AskingFields(m, s, p);
    AfterKeeps(m, s, Unchoke(p));
    AfterKeeps(m, After(m, s, Unchoke(p)), Idle(p));
    var asked := Elements(Picks(m, s.todo, s.peers[p].have, MAX_IN_FLIGHT));
    assert s.active + asked == asked && |asked| > 0;
  }

  ghost predicate AllPositive(events: seq<Event>) { forall i :: 0 <= i < |events| ==> Positive(events[i]) }

  /** With a seed, and when every checksum taken from now on passes, some list of events finishes the download. */
  lemma {:induction false} CanFinish(m: Metainfo, s: State, p: nat) returns (events: seq<Event>)
    requires Exact(m) && WholeBlocks(m) && Finishable(m, s, p)
    ensures Run(m, s, events).totals == Whole(m) && AllPositive(events)
    decreases 2 * |s.todo| + |s.active|
  {
    hide Exact, Inv, Quiet, IsSeed, Step, Allowed, WholeBlocks, Run;
    if s.active != {} {
      var e := AnswerComes(m, s, p);
      var rest := CanFinish(m, Step(m, s, e), p);
      RunCons(m, s, e, rest);
      events := [e] + rest;
    } else if s.todo != {} {
      RequestGoesOut(m, s, p);
      var rest := CanFinish(m, Ask(m, s, p), p);
      RunCons(m, After(m, s, Unchoke(p)), Idle(p), rest);
      RunCons(m, s, Unchoke(p), [Idle(p)] + rest);
      events := [Unchoke(p)] + ([Idle(p)] + rest);
    } else {
      FinishedTotals(m, s);
      events := [];
      RunNothing(m, s);
    }
  }

  lemma RunNothing(m: Metainfo, s: State) requires Exact(m) ensures Run(m, s, []) == s {}

  // ---- answers nobody asked for

  /** What the program keeps survives a piece message if and only if its block is downloading, whoever was asked for
      it; the handler does not check this. */
  lemma AnswerKeepsInvIff(m: Metainfo, s: State, p: nat, b: uint32, passes: bool)
    requires Exact(m) && m.blocksPerPiece > 0 && WholeBlocks(m) && Inv(m, s)
    requires p < |s.peers| && s.peers[p].connected && s.peers[p].inFlight > 0
    ensures Inv(m, Handle(m, s, p, b, passes)) <==> b in s.active
  {
    hide Exact, WholeBlocks, Inv, Partition, Counters, OnceOnly, PieceBlocks, AfterPut, PieceOf;
    if b in s.active {
      AnswerKeepsInv(m, s, p, b, passes);
    } else {
      UnaskedUpsetsSum(m, s, p, b, passes);
      InvParts(m, Handle(m, s, p, b, passes));
    }
  }

  /** After a block nobody awaits the requests in flight no longer add up to the downloading set. */
  lemma UnaskedUpsetsSum(m: Metainfo, s: State, p: nat, b: uint32, passes: bool)
    requires Exact(m) && m.blocksPerPiece > 0 && Inv(m, s)
    requires p < |s.peers| && s.peers[p].inFlight > 0 && b !in s.active
    ensures var t := Handle(m, s, p, b, passes); InFlight(t.peers) + t.lost < |t.active|
  {
    hide Exact, Inv, Partition, Counters, OnceOnly, PieceBlocks, AfterPut, PieceOf;
    var t := Handle(m, s, p, b, passes);
    InvParts(m, s);
    assert s.active - {b as nat} == s.active;
    InFlightUpdate(s.peers, p, t.peers[p]);
  }

  // ---- whose answer

  /** The downloading blocks that were asked of peer `p`. */
  ghost function Owed(s: State, p: nat): set<nat> {
    set b | b in s.active && b in s.askedOf && s.askedOf[b] == p
  }

  /** A connected peer has in flight exactly the downloading blocks asked of it. */
  ghost predicate Fair(s: State) {
    forall p: nat :: p < |s.peers| && s.peers[p].connected ==> FairPeer(s, p)
  }

  ghost predicate FairPeer(s: State, p: nat)
    requires p < |s.peers|
  {
    s.peers[p].inFlight == |Owed(s, p)|
  }

  /** Answers come from the peer that was asked. */
  predicate Faithful(s: State, e: Event) {
    e.Answer? ==> e.block in s.askedOf && s.askedOf[e.block] == e.p
  }

  lemma AnswerOwed(m: Metainfo, s: State, p: nat, b: uint32, passes: bool, q: nat)
    requires Exact(m) && Allowed(s, Answer(p, b, passes))
    ensures Owed(Step(m, s, Answer(p, b, passes)), q) == Owed(s, q) - {b as nat}
  {
    AnswerFields(m, s, p, b, passes);
    hide Step, Exact;
  }

  /** From a fair state an answer leads to a fair one if and only if it comes from the peer that was asked. */
  lemma AnswerIsFairIff(m: Metainfo, s: State, p: nat, b: uint32, passes: bool)
    requires Exact(m) && Allowed(s, Answer(p, b, passes)) && Fair(s)
    ensures Fair(Step(m, s, Answer(p, b, passes))) <==> Faithful(s, Answer(p, b, passes))
  {
    AnswerFields(m, s, p, b, passes);
    var t := Step(m, s, Answer(p, b, passes));
    assert FairPeer(s, p);
    AnswerOwed(m, s, p, b, passes, p);
    hide Step, Exact, Owed;
    if Faithful(s, Answer(p, b, passes)) {
      assert b as nat in Owed(s, p) by { OwedIff(s, p, b); }
      forall q: nat | q < |t.peers| && t.peers[q].connected ensures FairPeer(t, q) {
        AnswerOwed(m, s, p, b, passes, q);
        if q != p {
          assert FairPeer(s, q);
          assert b as nat !in Owed(s, q) by { OwedIff(s, q, b); }
        }
      }
    } else {
      assert b as nat !in Owed(s, p) by { OwedIff(s, p, b); }
      assert Owed(s, p) - {b as nat} == Owed(s, p);
      assert !FairPeer(t, p);
    }
  }

  lemma OwedIff(s: State, p: nat, b: nat)
    requires b in s.active
    ensures b in Owed(s, p) <==> b in s.askedOf && s.askedOf[b] == p
  {
  }

  lemma AskIsFair(s: State, p: nat, sent: seq<nat>)
    requires Fair(s) && p < |s.peers| && s.peers[p].connected
    requires Elements(sent) !! s.active && |Elements(sent)| == |sent|
    ensures Fair(Sent(s, p, sent))
  {
    var t, asked := Sent(s, p, sent), Elements(sent);
    hide Elements, Owed;
    forall q: nat | q < |t.peers| && t.peers[q].connected ensures FairPeer(t, q) {
      assert FairPeer(s, q);
      SentOwed(s, p, sent, q);
    }
  }

  lemma SentOwed(s: State, p: nat, sent: seq<nat>, q: nat)
    requires p < |s.peers| && Elements(sent) !! s.active
    ensures Owed(Sent(s, p, sent), q) == if q == p then Owed(s, p) + Elements(sent) else Owed(s, q)
    ensures Owed(s, p) !! Elements(sent)
  {
    hide Elements;
    var t, asked := Sent(s, p, sent), Elements(sent);
    forall b | b in asked ensures t.askedOf[b] == p {}
    forall b | b !in asked
      ensures (b in t.askedOf <==> b in s.askedOf) && (b in s.askedOf ==> t.askedOf[b] == s.askedOf[b]) {}
  }

  lemma IdleIsFair(m: Metainfo, s: State, p: nat)
    requires Exact(m) && Inv(m, s) && Allowed(s, Idle(p)) && Fair(s)
    ensures Fair(Step(m, s, Idle(p)))
  {
    InvParts(m, s);
    hide Exact, Inv, Asked, Elements, Fair, Sent, Counters, OnceOnly, Requests;
    AskedIsWanted(m, s, Idle(p));
    AskIsFair(s, p, Asked(m, s, Idle(p)));
  }

  lemma OtherIsFair(m: Metainfo, s: State, e: Event)
    requires Exact(m) && Allowed(s, e) && Fair(s) && !e.Answer? && !e.Idle?
    ensures Fair(Step(m, s, e))
  {
    hide Exact, Owed;
    var t := Step(m, s, e);
    forall q: nat | q < |t.peers| && t.peers[q].connected ensures FairPeer(t, q) {
      assert FairPeer(s, q);
      SameOwed(s, t, q);
    }
  }

  lemma SameOwed(s: State, t: State, q: nat)
    requires t.active == s.active && t.askedOf == s.askedOf
    ensures Owed(t, q) == Owed(s, q)
  {
  }

  lemma FaithfulIsFair(m: Metainfo, s: State, e: Event)
    requires Exact(m) && Inv(m, s) && Allowed(s, e) && Faithful(s, e) && Fair(s)
    ensures Fair(Step(m, s, e))
  {
    hide Exact, Inv, Fair, Step, Allowed;
    match e
    case Answer(p, b, passes) => AnswerIsFairIff(m, s, p, b, passes);
    case Idle(p) => IdleIsFair(m, s, p);
    case _ => OtherIsFair(m, s, e);
  }

  /** The allowed events of a run that are answers come from the peers that were asked. */
  ghost predicate FaithfulRun(m: Metainfo, s: State, events: seq<Event>)
    requires Exact(m)
    decreases |events|
  {
    events != [] ==>
      var before, e := Run(m, s, events[..|events| - 1]), events[|events| - 1];
      FaithfulRun(m, s, events[..|events| - 1]) && (Allowed(before, e) ==> Faithful(before, e))
  }

  /** When peers only answer what they were asked, every peer has in flight exactly the blocks asked of it and not
      yet answered, in every run. */
  lemma {:induction false} RunIsFair(m: Metainfo, n: nat, events: seq<Event>)
    requires Exact(m) && WholeBlocks(m) && FaithfulRun(m, Start(m, n), events)
    ensures Fair(Run(m, Start(m, n), events))
    decreases |events|
  {
    hide Exact, Inv, Step, Faithful, Fair, WholeBlocks, Allowed, Start;
    if events == [] {
      StartIsFair(m, n);
    } else {
      var before, e := Run(m, Start(m, n), events[..|events| - 1]), events[|events| - 1];
      RunIsFair(m, n, events[..|events| - 1]);
      RunKeepsInv(m, n, events[..|events| - 1]);
      if Allowed(before, e) { FaithfulIsFair(m, before, e); }
    }
  }

  lemma StartIsFair(m: Metainfo, n: nat)
    ensures Fair(Start(m, n))
  {
    var s := Start(m, n);
    forall p: nat | p < |s.peers| ensures FairPeer(s, p) { assert Owed(s, p) == {}; }
  }

  // ---- the checksum at a wrapped offset

  /** The pieces that are hashed from other bytes than their own. */
  ghost function Misread(m: Metainfo): set<nat>
    requires Exact(m)
  {
    set k | k in Below(m.piecesCount) && ChecksumOffset(m, k) != k * m.pieceLength
  }

  lemma MisreadIff(m: Metainfo, k: nat)
    requires Exact(m)
    ensures k in Misread(m) <==> k < m.piecesCount && k * m.pieceLength >= TWO_32
  {
    if k < m.piecesCount {
      NatProduct(k, m.pieceLength);
      ChecksumOffsetIff(m, k);
    }
    hide Exact, ChecksumOffset;
  }

  /** No piece is misread exactly when the last piece starts below 2^32. */
  lemma NothingMisread(m: Metainfo)
    requires Exact(m)
    ensures Misread(m) == {} <==> (m.piecesCount - 1) * m.pieceLength < TWO_32
  {
    var last: nat := m.piecesCount - 1;
    NatProduct(last, m.pieceLength);
    MisreadIff(m, last);
    forall k | k in Misread(m) ensures last in Misread(m) {
      MisreadIff(m, k);
      MulMono(last, k, m.pieceLength, m.pieceLength);
    }
    hide Exact, Misread;
  }

  /** No checksum of a piece in `bad` passes. */
  ghost predicate Respects(m: Metainfo, events: seq<Event>, bad: set<nat>)
    requires Exact(m)
  {
    forall i :: 0 <= i < |events| ==> RespectsOne(m, events[i], bad)
  }

  ghost predicate RespectsOne(m: Metainfo, e: Event, bad: set<nat>)
    requires Exact(m)
  {
    HasBlocks(m);
    e.Answer? && e.passes ==> PieceOf(m, e.block) !in bad
  }

  lemma {:induction false} NeverPasses(m: Metainfo, s: State, events: seq<Event>, bad: set<nat>)
    requires Exact(m) && Respects(m, events, bad) && s.passed !! bad
    ensures Run(m, s, events).passed !! bad
    decreases |events|
  {
    hide Exact, Step, RespectsOne;
    if events != [] {
      var n := |events| - 1;
      var before, e := Run(m, s, events[..n]), events[n];
      NeverPasses(m, s, events[..n], bad);
      assert RespectsOne(m, e, bad);
      if Allowed(before, e) { StepNeverPasses(m, before, e, bad); }
    }
  }

  lemma StepNeverPasses(m: Metainfo, s: State, e: Event, bad: set<nat>)
    requires Exact(m) && Allowed(s, e) && RespectsOne(m, e, bad) && s.passed !! bad
    ensures Step(m, s, e).passed !! bad
  {
    hide Exact, PieceBlocks, AfterPut, PieceOf, Asked, Sent;
    if e.Idle? { SentFields(s, e.p, Asked(m, s, e)); }
    if e.Answer? { AnswerFields(m, s, e.p, e.block, e.passes); }
  }

  // ---- which downloads can be finished

  ghost predicate HasConnected(s: State) { exists p: nat :: p < |s.peers| && s.peers[p].connected }

  /** Some continuation in which no piece of `bad` passes reaches the full counters. */
  ghost predicate CanReachWhole(m: Metainfo, s: State, bad: set<nat>)
    requires Exact(m)
  {
    exists more :: Respects(m, more, bad) && Run(m, s, more).totals == Whole(m)
  }

  /** Peer `p` announces the pieces from `k` on, one HAVE after the other. */
  lemma {:induction false} Announce(m: Metainfo, s: State, p: nat, k: nat) returns (events: seq<Event>)
    requires Exact(m) && WholeBlocks(m) && Inv(m, s) && Quiet(s) && s.lost == 0 && s.failed == {}
    requires p < |s.peers| && s.peers[p].connected && k <= m.piecesCount
    requires forall j: nat :: j < k ==> j in s.peers[p].have
    ensures Finishable(m, Run(m, s, events), p) && AllPositive(events)
    decreases m.piecesCount - k
  {
    hide Exact, WholeBlocks, Inv, Quiet, Run, Step, Allowed;
    if k == m.piecesCount {
      events := [];
      RunNothing(m, s);
    } else {
      var e := Have(p, k);
      HaveFields(m, s, p, k);
      StepKeepsInv(m, s, e);
      StepKeepsQuiet(m, s, e);
      var rest := Announce(m, Step(m, s, e), p, k + 1);
      RunCons(m, s, e, rest);
      events := [e] + rest;
    }
  }

  lemma HaveFields(m: Metainfo, s: State, p: nat, k: nat)
    requires Exact(m) && p < |s.peers| && s.peers[p].connected && k < m.piecesCount
    ensures Allowed(s, Have(p, k))
    ensures var t := Step(m, s, Have(p, k));
      && t.lost == s.lost && t.failed == s.failed && |t.peers| == |s.peers| && t.peers[p].connected
      && t.peers[p].have == s.peers[p].have + {k}
  {
    hide Exact;
  }

  lemma {:induction false} RunTwice(m: Metainfo, s: State, a: seq<Event>, b: seq<Event>)
    requires Exact(m)
    ensures Run(m, s, a + b) == Run(m, Run(m, s, a), b)
    decreases |b|
  {
    hide Exact, Step, Allowed;
    if b == [] {
      assert a + b == a;
    } else {
      var n := |b| - 1;
      assert (a + b)[..|a| + n] == a + b[..n] && (a + b)[|a| + n] == b[n];
      RunTwice(m, s, a, b[..n]);
    }
  }

  /** A connected peer suffices: it may announce every piece and answer. */
  lemma ConnectedSuffices(m: Metainfo, s: State)
    requires Exact(m) && WholeBlocks(m) && Inv(m, s) && Quiet(s) && s.lost == 0 && s.failed == {} && HasConnected(s)
    ensures CanReachWhole(m, s, {})
  {
    hide Exact, WholeBlocks, Inv, Quiet, Run;
    var p: nat :| p < |s.peers| && s.peers[p].connected;
    var a := Announce(m, s, p, 0);
    var b := CanFinish(m, Run(m, s, a), p);
    RunTwice(m, s, a, b);
    assert Respects(m, a + b, {});
  }

  lemma {:induction false} NobodyThere(m: Metainfo, s: State, events: seq<Event>)
    requires Exact(m) && !HasConnected(s)
    ensures Run(m, s, events) == s
    decreases |events|
  {
    hide Exact, Step;
    if events != [] { NobodyThere(m, s, events[..|events| - 1]); }
  }

  /** Counters that are full have every piece passed. */
  lemma WholePassed(m: Metainfo, s: State, bad: set<nat>)
    requires Exact(m) && Inv(m, s) && s.totals == Whole(m) && s.passed !! bad && bad <= Below(m.piecesCount)
    ensures bad == {}
  {
    InvParts(m, s);
    hide Exact, Inv, Pieces;
    assert |s.passed| == m.piecesCount;
    PassedBelow(m, s);
    assert s.passed <= Below(m.piecesCount) - bad;
    SubsetSize(s.passed, Below(m.piecesCount) - bad);
    assert |Below(m.piecesCount) - bad| == m.piecesCount - |bad|;
  }

  lemma PassedBelow(m: Metainfo, s: State)
    requires Exact(m) && Pieces(m, s.done, s.passed, s.failed)
    ensures s.passed <= Below(m.piecesCount)
  {
    hide Exact, PieceBlocks;
  }

  /** In every run in which the pieces of `bad`, all of them misread, never pass: the download can still be finished if
      and only if it is finished already, or no request was lost, no piece failed, none is bad, and a peer is
      connected. */
  lemma FinishableIff(m: Metainfo, n: nat, events: seq<Event>, bad: set<nat>)
    requires Exact(m) && WholeBlocks(m) && bad <= Misread(m) && Respects(m, events, bad)
    ensures var s := Run(m, Start(m, n), events);
      CanReachWhole(m, s, bad) <==>
        s.totals == Whole(m) || (s.lost == 0 && s.failed == {} && bad == {} && HasConnected(s))
  {
    var s := Run(m, Start(m, n), events);
    RunKeepsInv(m, n, events);
    StartIsQuiet(m, n);
    RunKeepsQuiet(m, Start(m, n), events);
    NeverPasses(m, Start(m, n), events, bad);
    hide Exact, WholeBlocks, Run, Start, Inv, Quiet, Misread, HasConnected, Respects;
    if s.totals == Whole(m) {
      RunNothing(m, s);
      assert Respects(m, [], bad) by { NothingAnswered(m, bad); }
      assert CanReachWhole(m, s, bad);
    } else if s.lost == 0 && s.failed == {} && bad == {} && HasConnected(s) {
      ConnectedSuffices(m, s);
    } else if CanReachWhole(m, s, bad) {
      OnlyThen(m, s, bad);
    }
  }

  lemma NothingAnswered(m: Metainfo, bad: set<nat>) requires Exact(m) ensures Respects(m, [], bad) {}

  lemma OnlyThen(m: Metainfo, s: State, bad: set<nat>)
    requires Exact(m) && WholeBlocks(m) && Inv(m, s) && bad <= Misread(m) && s.passed !! bad
    requires s.totals != Whole(m) && CanReachWhole(m, s, bad)
    ensures s.lost == 0 && s.failed == {} && bad == {} && HasConnected(s)
  {
    assert bad <= Below(m.piecesCount);
    hide Exact, WholeBlocks, Run, Inv, Misread, HasConnected, Respects;
    var more :| Respects(m, more, bad) && Run(m, s, more).totals == Whole(m);
    if s.lost > 0 || s.failed != {} { NeverFinishes(m, s, more); }
    RunGrows(m, s, more);
    NeverPasses(m, s, more, bad);
    WholePassed(m, Run(m, s, more), bad);
    if !HasConnected(s) { NobodyThere(m, s, more); }
  }

  /** When the last piece starts below 2^32, nothing is misread and the condition is about the run alone. */
  lemma FinishableBelow4GiB(m: Metainfo, n: nat, events: seq<Event>)
    requires Exact(m) && WholeBlocks(m) && (m.piecesCount - 1) * m.pieceLength < TWO_32
    ensures Misread(m) == {}
    ensures var s := Run(m, Start(m, n), events);
      (exists more :: Run(m, s, more).totals == Whole(m)) <==>
        s.totals == Whole(m) || (s.lost == 0 && s.failed == {} && HasConnected(s))
  {
    NothingMisread(m);
    NothingBad(m, events);
    hide Exact, WholeBlocks, Run, Start, Misread, HasConnected, Respects;
    FinishableIff(m, n, events, {});
    CanReachIff(m, Run(m, Start(m, n), events));
  }

  lemma NothingBad(m: Metainfo, events: seq<Event>)
    requires Exact(m)
    ensures Respects(m, events, {})
  {
    hide Exact, PieceOf;
  }

  lemma CanReachIff(m: Metainfo, s: State)
    requires Exact(m)
    ensures CanReachWhole(m, s, {}) <==> exists more :: Run(m, s, more).totals == Whole(m)
  {
    hide Exact, Run, Respects;
    if CanReachWhole(m, s, {}) {
      var more :| Respects(m, more, {}) && Run(m, s, more).totals == Whole(m);
      assert Run(m, s, more).totals == Whole(m);
    }
    if more :| Run(m, s, more).totals == Whole(m) {
      NothingBad(m, more);
      assert Respects(m, more, {}) && Run(m, s, more).totals == Whole(m);
      assert CanReachWhole(m, s, {});
    }
  }
}
