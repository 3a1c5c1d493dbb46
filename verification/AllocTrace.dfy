/** dtrace-alloc-postprocess/main.c: each free is linked to the allocation it releases. */
module AllocTrace {
  import opened MachineInts
  import opened HashTable

  datatype Kind = Alloc | Realloc | Free | Unknown

  /** One frame of the trace, its arguments parsed: `arg1` and `arg2` are 0 when absent. */
  datatype Frame = Frame(kind: Kind, arg0: uint64, arg1: uint64, arg2Given: bool, arg2: uint64)

  /** `ptr` and `oldPtr` belong to allocations only; a free does not record its pointer. */
  datatype Event = Event(kind: Kind, size: uint64, related: int, ptr: uint64, oldPtr: uint64)

  predicate Allocates(f: Frame) { f.kind == Alloc || f.kind == Realloc }

  /** Frames that end the program. */
  predicate Fatal(f: Frame) { f.kind == Unknown || (f.kind == Free && f.arg0 == 0) }

  // ---- what the links should be, from the trace alone

  /** The latest of the first `n` frames that allocates `p`, or -1. */
  function LastAlloc(frames: seq<Frame>, n: nat, p: uint64): (i: int)
    requires n <= |frames|
    ensures -1 <= i < n
  {
    if n == 0 then -1
    else if Allocates(frames[n - 1]) && frames[n - 1].arg1 == p then n - 1
    else LastAlloc(frames, n - 1, p)
  }

  /** The allocation a free releases; the table does not know addresses of hash 0. */
  function LinkOf(frames: seq<Frame>, i: nat): (a: int)
    requires i < |frames|
    ensures -1 <= a < i || a == -1
  {
    if frames[i].kind != Free || Hash(frames[i].arg0) == 0 then -1 else LastAlloc(frames, i, frames[i].arg0)
  }

  /** The latest of the first `n` frames that frees allocation `a`, or -1. */
  function LastFree(frames: seq<Frame>, n: nat, a: nat): (i: int)
    requires n <= |frames|
    ensures -1 <= i < n
  {
    if n == 0 then -1
    else if LinkOf(frames, n - 1) == a then n - 1
    else LastFree(frames, n - 1, a)
  }

  function EventAt(frames: seq<Frame>, i: nat): Event
    requires i < |frames|
  {
    var f := frames[i];
    if Allocates(f) then
      Event(f.kind, f.arg0, LastFree(frames, |frames|, i), f.arg1,
            if f.kind == Realloc && f.arg2Given then f.arg1 else 0)
    else
      var a := LinkOf(frames, i);
      Event(f.kind, if a == -1 then 0 else frames[a].arg0, a, 0, 0)
  }

  ghost predicate IsExpected(frames: seq<Frame>, events: seq<Event>) {
    |events| == |frames| && forall i: nat :: i < |frames| ==> events[i] == EventAt(frames, i)
  }

  // ---- one more frame

  lemma {:induction false} LastAllocStable(frames: seq<Frame>, f: Frame, n: nat, p: uint64)
    requires n <= |frames|
    ensures LastAlloc(frames + [f], n, p) == LastAlloc(frames, n, p)
  {
    if n > 0 { LastAllocStable(frames, f, n - 1, p); }
  }

  lemma LinkStable(frames: seq<Frame>, f: Frame, i: nat)
    requires i < |frames|
    ensures LinkOf(frames + [f], i) == LinkOf(frames, i)
  {
    LastAllocStable(frames, f, i, frames[i].arg0);
  }

  lemma {:induction false} LastFreeStable(frames: seq<Frame>, f: Frame, n: nat, a: nat)
    requires n <= |frames|
    ensures LastFree(frames + [f], n, a) == LastFree(frames, n, a)
  {
    if n > 0 {
      LastFreeStable(frames, f, n - 1, a);
      LinkStable(frames, f, n - 1);
    }
  }

  /** A new frame leaves the other events as they are, except the allocation it frees. */
  lemma EventStable(frames: seq<Frame>, f: Frame, i: nat)
    requires i < |frames|
    ensures var more, e := frames + [f], EventAt(frames, i);
            EventAt(more, i) == if LinkOf(more, |frames|) == i then e.(related := |frames|) else e
  {
    LastFreeStable(frames, f, |frames|, i);
    LinkStable(frames, f, i);
    if LinkOf(frames + [f], |frames|) == i { LastAllocIs(frames + [f], |frames|, f.arg0); }
  }

  lemma {:induction false} LastAllocIs(frames: seq<Frame>, n: nat, p: uint64)
    requires n <= |frames|
    ensures var a := LastAlloc(frames, n, p);
      && (a >= 0 ==> Allocates(frames[a]) && frames[a].arg1 == p)
      && (forall k: nat :: a < k < n && Allocates(frames[k]) ==> frames[k].arg1 != p)
  {
    if n > 0 { LastAllocIs(frames, n - 1, p); }
  }

  lemma {:induction false} NoFreeYet(frames: seq<Frame>, n: nat, a: nat)
    requires n <= a + 1 && n <= |frames|
    ensures LastFree(frames, n, a) == -1
  {
    if n > 0 { NoFreeYet(frames, n - 1, a); }
  }

  // ---- the table along the trace

  ghost predicate TableMatches(frames: seq<Frame>, contents: map<uint64, uint64>) {
    forall p: uint64 :: EntryMatches(frames, contents, p)
  }

  ghost predicate EntryMatches(frames: seq<Frame>, contents: map<uint64, uint64>, p: uint64) {
    var a := LastAlloc(frames, |frames|, p);
    && (p in contents <==> a >= 0 && Hash(p) != 0)
    && (p in contents ==> contents[p] == a)
  }

  lemma MatchesAfterFrame(frames: seq<Frame>, f: Frame, contents: map<uint64, uint64>)
    requires TableMatches(frames, contents) && |frames| < TWO_64
    ensures TableMatches(frames + [f],
              if Allocates(f) && Hash(f.arg1) != 0 then contents[f.arg1 := |frames|] else contents)
  {
    hide Hash;
    var contents' := if Allocates(f) && Hash(f.arg1) != 0 then contents[f.arg1 := |frames|] else contents;
    forall p: uint64 ensures EntryMatches(frames + [f], contents', p) {
      assert EntryMatches(frames, contents, p);
      LastAllocStable(frames, f, |frames|, p);
    }
  }

  function AllocCount(frames: seq<Frame>): nat {
    if frames == [] then 0
    else AllocCount(frames[..|frames| - 1]) + (if Allocates(frames[|frames| - 1]) then 1 else 0)
  }

  /** Events `i` and `a` linked to each other; -1 stands for no allocation. */
  function AfterLink(events: seq<Event>, i: nat, a: int): seq<Event>
    requires i < |events|
  {
    if a < 0 || a >= |events| then events
    else
      var linked := events[i := events[i].(related := a, size := events[a].size)];
      linked[a := linked[a].(related := i)]
  }

  function Recorded(f: Frame): Event {
    if Allocates(f) then Event(f.kind, f.arg0, -1, f.arg1, if f.kind == Realloc && f.arg2Given then f.arg1 else 0)
    else Event(f.kind, 0, -1, 0, 0)
  }

  lemma AllocKeepsExpected(frames: seq<Frame>, events: seq<Event>, f: Frame)
    requires IsExpected(frames, events) && Allocates(f)
    ensures IsExpected(frames + [f], events + [Recorded(f)])
  {
    hide Hash, LastAlloc;
    var more, n := frames + [f], |frames|;
    NoFreeYet(more, n + 1, n);
    forall i: nat | i < n ensures (events + [Recorded(f)])[i] == EventAt(more, i) { EventStable(frames, f, i); }
  }

  lemma FreeKeepsExpected(frames: seq<Frame>, events: seq<Event>, f: Frame, contents: map<uint64, uint64>)
    requires IsExpected(frames, events) && TableMatches(frames, contents) && f.kind == Free
    ensures IsExpected(frames + [f],
              AfterLink(events + [Recorded(f)], |events|, if f.arg0 in contents then contents[f.arg0] else -1))
  {
    var more, n := frames + [f], |frames|;
    assert EntryMatches(frames, contents, f.arg0);
    LastAllocStable(frames, f, n, f.arg0);
    LastAllocIs(frames, n, f.arg0);
    hide Hash, LastAlloc, LastFree;
    var a := LinkOf(more, n);
    assert a == if f.arg0 in contents then contents[f.arg0] else -1;
    if a >= 0 { assert events[a] == EventAt(frames, a); }
    var result := AfterLink(events + [Recorded(f)], n, a);
    forall i: nat | i < n ensures result[i] == EventAt(more, i) { EventStable(frames, f, i); }
    assert result[n] == EventAt(more, n);
  }

  // ---- event_ptr

  ghost predicate Linked(events: seq<Event>) {
    forall i: nat :: i < |events| ==> events[i].kind == Free ==> -1 <= events[i].related < i
  }

  function EventPtr(events: seq<Event>, i: nat): uint64
    requires Linked(events) && i < |events|
    decreases i
  {
    if events[i].kind != Free then events[i].ptr
    else if events[i].related == -1 then 0
    else EventPtr(events, events[i].related)
  }

  // ---- main properties of the recorded events

  /** A linked free belongs to the latest earlier allocation of its pointer, has its size, and event_ptr
      recovers the pointer, which the event itself does not hold. */
  lemma FreeIsLinked(frames: seq<Frame>, events: seq<Event>, i: nat)
    requires IsExpected(frames, events) && i < |frames| && frames[i].kind == Free
    ensures Linked(events)
    ensures var a := events[i].related;
      && (a == -1 <==> Hash(frames[i].arg0) == 0
                       || forall k: nat :: k < i && Allocates(frames[k]) ==> frames[k].arg1 != frames[i].arg0)
      && (a != -1 ==>
            && 0 <= a < i && Allocates(frames[a]) && frames[a].arg1 == frames[i].arg0
            && (forall k: nat :: a < k < i && Allocates(frames[k]) ==> frames[k].arg1 != frames[i].arg0)
            && events[i].size == events[a].size == frames[a].arg0
            && EventPtr(events, i) == frames[i].arg0)
  {
    hide Hash, LastAlloc, LastFree;
    forall j: nat | j < |events| && events[j].kind == Free ensures -1 <= events[j].related < j {
      assert events[j] == EventAt(frames, j);
    }
    assert events[i] == EventAt(frames, i);
    LastAllocIs(frames, i, frames[i].arg0);
    if events[i].related != -1 {
      var a := events[i].related;
      assert events[a] == EventAt(frames, a);
    }
  }

  /** An allocation points to the last free that releases it, which points back. */
  lemma AllocIsLinked(frames: seq<Frame>, events: seq<Event>, a: nat)
    requires IsExpected(frames, events) && a < |frames| && Allocates(frames[a])
    ensures var f := events[a].related;
      && (f == -1 <==> forall j: nat :: j < |frames| && frames[j].kind == Free ==> events[j].related != a)
      && (f != -1 ==>
            && a < f < |frames| && frames[f].kind == Free && frames[f].arg0 == frames[a].arg1
            && events[f].related == a && events[f].size == events[a].size
            && (forall j: nat :: f < j < |frames| && frames[j].kind == Free ==> events[j].related != a))
  {
    hide Hash, LastAlloc, LastFree;
    LastFreeIs(frames, |frames|, a);
    forall j: nat | j < |frames| && frames[j].kind == Free ensures events[j].related == LinkOf(frames, j) {
      assert events[j] == EventAt(frames, j);
    }
    var f := events[a].related;
    assert events[a] == EventAt(frames, a);
    if f != -1 {
      assert events[f] == EventAt(frames, f);
      LastAllocIs(frames, f, frames[f].arg0);
    }
  }

  lemma {:induction false} LastFreeIs(frames: seq<Frame>, n: nat, a: nat)
    requires n <= |frames|
    ensures var f := LastFree(frames, n, a);
      && (f >= 0 ==> f > a && LinkOf(frames, f) == a && frames[f].kind == Free)
      && (forall j: nat :: f < j < n ==> LinkOf(frames, j) != a)
  {
    hide Hash, LastAlloc;
    if n > 0 { LastFreeIs(frames, n - 1, a); }
  }

  /** An event has the kind of its frame; an allocation its size and pointer. The old pointer of a realloc, its third
      argument, is recorded only when that is the new pointer too: the code parses the second argument again. */
  lemma EventRecords(frames: seq<Frame>, events: seq<Event>, i: nat)
    requires IsExpected(frames, events) && i < |frames| && (!frames[i].arg2Given ==> frames[i].arg2 == 0)
    ensures var f, e := frames[i], events[i];
      && e.kind == f.kind
      && (f.kind == Alloc || f.kind == Realloc ==> e.size == f.arg0 && e.ptr == f.arg1)
      && (f.kind == Realloc ==> (e.oldPtr == f.arg2 <==> !f.arg2Given || f.arg2 == f.arg1))
  {
    hide LinkOf, LastFree;
    assert events[i] == EventAt(frames, i);
  }

  // ---- the recorder

  class Recorder {
    var events: seq<Event>
    const table: Table
    ghost var frames: seq<Frame>     // the frames recorded so far

    ghost predicate Valid()
      reads this, table, table.keys, table.values, table.hashes
    {
      && table.Valid() && |frames| == |events| < TWO_64
      && (forall i: nat :: i < table.values.Length ==> table.values[i] == 0 || table.values[i] < |events|)
      && table.len <= AllocCount(frames)
      && (!table.grown ==> IsExpected(frames, events) && TableMatches(frames, table.contents))
    }

    constructor (cap: nat)
      requires cap >= 4
      ensures Valid() && frames == [] && events == [] && !table.grown && table.keys.Length == cap
      ensures fresh(table) && fresh(table.keys) && fresh(table.values) && fresh(table.hashes)
    {
      table := new Table(cap);
      events, frames := [], [];
    }

    /** The tail of parse_input's loop for one frame that does not end the program. */
    method OnFrame(f: Frame)
      requires Valid() && !Fatal(f) && |events| + 1 < TWO_64
      modifies this, table, table.keys, table.values, table.hashes
      ensures Valid() && frames == old(frames) + [f]
      ensures fresh(table.keys) || table.keys == old(table.keys)
      ensures fresh(table.values) || table.values == old(table.values)
      ensures fresh(table.hashes) || table.hashes == old(table.hashes)
      ensures table.keys.Length >= old(table.keys.Length)
      ensures !old(table.grown) && (Allocates(f) ==> 4 * AllocCount(old(frames)) < 3 * old(table.keys.Length)) ==>
        !table.grown
    {
      hide Hash, Stored, Taken, Holds, IsExpected, TableMatches, LastAlloc, LastFree;
      ghost var was, events0, contents := frames, events, table.contents;
      frames := was + [f];
      events := events + [Recorded(f)];
      if !table.grown { MatchesAfterFrame(was, f, contents); }
      if Allocates(f) {
        if !table.grown { AllocKeepsExpected(was, events0, f); }
        table.Upsert(f.arg1, |events| - 1);
      } else {
        if !table.grown { FreeKeepsExpected(was, events0, f, contents); }
        LinkFree(|events| - 1, f.arg0);
      }
    }

    /** find_allocation_event_by_allocation_ptr. */
    method LinkFree(i: nat, ptr: uint64)
      requires table.Valid() && i < |events|
      requires forall j: nat :: j < table.values.Length ==> table.values[j] < |events|
      modifies this`events
      ensures |events| == |old(events)|
      ensures !table.grown ==>
        events == AfterLink(old(events), i, if ptr in table.contents then table.contents[ptr] else -1)
    {
      var found, slot := table.Find(ptr);
      if !found { return; }
      var other := table.values[slot];
      assert other < |events|;
      events := events[i := events[i].(related := other)];
      events := events[i := events[i].(size := events[other].size)];
      events := events[other := events[other].(related := i)];
    }
  }

  /** How many frames come before the first one that ends the program. */
  function Accepted(frames: seq<Frame>): (n: nat)
    ensures n <= |frames|
  {
    if frames == [] || Fatal(frames[0]) then 0 else 1 + Accepted(frames[1..])
  }

  lemma {:induction false} AcceptedIs(frames: seq<Frame>, n: nat)
    requires n <= |frames| && forall i :: 0 <= i < n ==> !Fatal(frames[i])
    requires n < |frames| ==> Fatal(frames[n])
    ensures Accepted(frames) == n
  {
    if n > 0 { AcceptedIs(frames[1..], n - 1); }
  }

  /** Recording stops in front of the first frame that is no allocation or free, or frees NULL. */
  lemma {:induction false} StopsAt(frames: seq<Frame>)
    ensures var n := Accepted(frames);
      && (forall i :: 0 <= i < n ==>
            (frames[i].kind == Alloc || frames[i].kind == Realloc || (frames[i].kind == Free && frames[i].arg0 != 0)))
      && (n < |frames| ==> frames[n].kind == Unknown || (frames[n].kind == Free && frames[n].arg0 == 0))
  {
    if frames != [] && !Fatal(frames[0]) { StopsAt(frames[1..]); }
  }

  lemma CountStep(frames: seq<Frame>, n: nat)
    requires n < |frames|
    ensures AllocCount(frames[..n + 1]) == AllocCount(frames[..n]) + (if Allocates(frames[n]) then 1 else 0)
  {
    assert frames[..n + 1][..n] == frames[..n];
  }

  /** parse_input on a trace whose frames are already split and parsed; `cap` is half the reserved events.
      With room for all allocations every link is the expected one. */
  method ParseInput(frames: seq<Frame>, cap: nat) returns (events: seq<Event>, fatal: bool)
    requires cap >= 4 && |frames| + 1 < TWO_64
    ensures fatal <==> Accepted(frames) < |frames|
    ensures |events| == Accepted(frames)
    ensures 4 * AllocCount(frames[..Accepted(frames)]) <= 3 * cap ==> IsExpected(frames[..Accepted(frames)], events)
  {
    var recorder := new Recorder(cap);
    var n := 0;
    fatal := false;
    while n < |frames|
      invariant n <= |frames| && recorder.Valid() && recorder.frames == frames[..n]
      invariant fresh(recorder) && fresh(recorder.table) && fresh(recorder.table.keys)
      invariant fresh(recorder.table.values) && fresh(recorder.table.hashes)
      invariant forall i :: 0 <= i < n ==> !Fatal(frames[i])
      invariant recorder.table.keys.Length >= cap
      invariant 4 * AllocCount(frames[..n]) <= 3 * cap ==> !recorder.table.grown
    {
      hide AllocCount, IsExpected, TableMatches, Holds, Taken, Accepted;
      if Fatal(frames[n]) { fatal := true; break; }
      assert frames[..n + 1] == frames[..n] + [frames[n]];
      CountStep(frames, n);
      recorder.OnFrame(frames[n]);
      n := n + 1;
    }
    AcceptedIs(frames, n);
    events := recorder.events;
  }
}
