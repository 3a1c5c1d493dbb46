/** pg/pg.h: a pool of equal chunks whose free list runs through the free chunks themselves. */
module Pool {
  import opened Arithmetic

  /** A link is 0 for NULL and `k + 1` for chunk `k`. */
  function Link(free: seq<nat>, k: nat): nat { if k < |free| then free[k] + 1 else 0 }

  /** Following the links from `head` visits exactly the chunks `free`, in this order, and ends. */
  ghost predicate IsList(head: nat, words: seq<nat>, free: seq<nat>) {
    && head == Link(free, 0)
    && forall k: nat :: k < |free| ==> LinkedAt(words, free, k)
  }

  ghost predicate LinkedAt(words: seq<nat>, free: seq<nat>, k: nat)
    requires k < |free|
  {
    free[k] < |words| && words[free[k]] == Link(free, k + 1)
  }

  /** Following the links from `head` ends. */
  ghost predicate Ends(head: nat, words: seq<nat>) { exists free :: IsList(head, words, free) }

  ghost predicate Distinct(s: seq<nat>) { forall i, j :: 0 <= i < j < |s| ==> s[i] != s[j] }

  /** The chunks visited are determined by the links. */
  lemma {:induction false} ListsAgree(head: nat, words: seq<nat>, a: seq<nat>, b: seq<nat>, k: nat)
    requires IsList(head, words, a) && IsList(head, words, b) && k <= |a|
    ensures k <= |b| && a[..k] == b[..k] && Link(a, k) == Link(b, k)
  {
    if k > 0 {
      ListsAgree(head, words, a, b, k - 1);
      assert LinkedAt(words, a, k - 1) && LinkedAt(words, b, k - 1);
    }
  }

  /** A list that ends visits no chunk twice. */
  lemma {:induction false} ListIsDistinct(head: nat, words: seq<nat>, free: seq<nat>)
    requires IsList(head, words, free)
    ensures Distinct(free)
  {
    forall i, j | 0 <= i < j < |free| ensures free[i] != free[j] {
      if free[i] == free[j] { SameSuffix(head, words, free, i, j, |free| - j); }
    }
  }

  lemma {:induction false} SameSuffix(head: nat, words: seq<nat>, free: seq<nat>, i: nat, j: nat, n: nat)
    requires IsList(head, words, free) && i < j < |free| && free[i] == free[j] && n <= |free| - j
    ensures Link(free, i + n) == Link(free, j + n)
  {
    if n > 0 {
      SameSuffix(head, words, free, i, j, n - 1);
      assert LinkedAt(words, free, i + n - 1) && LinkedAt(words, free, j + n - 1);
    }
  }

  lemma {:induction false} DistinctFit(s: seq<nat>, all: set<nat>)
    requires Distinct(s) && forall i :: 0 <= i < |s| ==> s[i] in all
    ensures |s| <= |all|
    ensures |s| == |all| ==> forall x :: x in all ==> x in s
  {
    if s != [] {
      var n := |s| - 1;
      DistinctFit(s[..n], all - {s[n]});
      assert s == s[..n] + [s[n]];
    }
  }

  /** Pushing a chunk keeps the links a list exactly when the chunk is not on the list already. */
  lemma PushIsSound(head: nat, words: seq<nat>, free: seq<nat>, i: nat)
    requires IsList(head, words, free) && i < |words|
    ensures Ends(i + 1, words[i := head]) <==> i !in free
    ensures i !in free ==> IsList(i + 1, words[i := head], [i] + free)
  {
    var after := words[i := head];
    if i !in free {
      var s := [i] + free;
      forall k: nat | k < |s| ensures LinkedAt(after, s, k) {
        if k > 0 { assert LinkedAt(words, free, k - 1) && free[k - 1] in free; }
      }
      assert IsList(i + 1, after, s);
    } else if Ends(i + 1, after) {
      var s :| IsList(i + 1, after, s);
      var m :| 0 <= m < |free| && free[m] == i;
      ListIsDistinct(head, words, free);
      Cycles(head, words, free, i, m, s, m + 1);
      ListIsDistinct(i + 1, after, s);
    }
  }

  lemma {:induction false} Cycles(head: nat, words: seq<nat>, free: seq<nat>, i: nat, m: nat, s: seq<nat>, n: nat)
    requires IsList(head, words, free) && Distinct(free) && m < |free| && free[m] == i < |words| && n <= m + 1
    requires IsList(i + 1, words[i := head], s)
    ensures n < |s| && s[0] == i && (n > 0 ==> s[n] == free[n - 1])
  {
    if n > 0 {
      Cycles(head, words, free, i, m, s, n - 1);
      assert LinkedAt(words[i := head], s, n - 1);
      if n > 1 { assert LinkedAt(words, free, n - 2); assert s[n - 1] == free[n - 2] && free[n - 2] != i; }
    }
  }

  // ---- pushing every chunk

  /** The links once pg_pool_free_all has pushed the first `k` chunks in front of the old head. */
  ghost predicate AllPushed(words: seq<nat>, was: seq<nat>, oldHead: nat, k: nat) {
    && k <= |words| == |was|
    && forall m: nat :: m < |words| ==> words[m] == if m >= k then was[m] else if m == 0 then oldHead else m
  }

  function Down(n: nat): (s: seq<nat>)
    ensures |s| == n
  {
    seq(n, k requires 0 <= k < n => n - 1 - k)
  }

  /** The result is a list exactly when the free list was empty before, and then it holds every chunk. */
  lemma FreeAllIsSound(words: seq<nat>, was: seq<nat>, oldHead: nat)
    requires AllPushed(words, was, oldHead, |words|) && 0 < |words| && oldHead <= |words|
    ensures Ends(|words|, words) <==> oldHead == 0
    ensures oldHead == 0 ==> IsList(|words|, words, Down(|words|))
  {
    var n := |words|;
    if oldHead == 0 {
      forall k: nat | k < n ensures LinkedAt(words, Down(n), k) {}
      assert IsList(n, words, Down(n));
    } else if Ends(n, words) {
      var s :| IsList(n, words, s);
      WalksDown(words, was, oldHead, s, n - 1);
      assert LinkedAt(words, s, n - 1);
      ListIsDistinct(n, words, s);
      forall k: nat | k < |s| ensures s[k] in Below(n) { assert LinkedAt(words, s, k); }
      DistinctFit(s, Below(n));
    }
  }

  lemma {:induction false} WalksDown(words: seq<nat>, was: seq<nat>, oldHead: nat, s: seq<nat>, k: nat)
    requires AllPushed(words, was, oldHead, |words|) && k < |words| && IsList(|words|, words, s)
    ensures k < |s| && s[k] == |words| - 1 - k
  {
    if k > 0 {
      WalksDown(words, was, oldHead, s, k - 1);
      assert LinkedAt(words, s, k - 1);
    }
  }

  /** The chunks that are not on the list. */
  ghost function NotOn(free: seq<nat>, n: nat): set<nat> { set i | i in Below(n) && i !in free }

  lemma NotOnCons(x: nat, rest: seq<nat>, n: nat)
    requires x < n && x !in rest
    ensures NotOn(rest, n) == NotOn([x] + rest, n) + {x} && x !in NotOn([x] + rest, n)
  {
  }

  // ---- taking the first chunk

  lemma PopKeeps(head: nat, words: seq<nat>, free: seq<nat>, word: nat)
    requires IsList(head, words, free) && head != 0
    ensures |free| > 0 && free[0] == head - 1 < |words| && head - 1 !in free[1..]
    ensures IsList(words[head - 1], words[head - 1 := word], free[1..]) && Distinct(free[1..])
  {
    ListIsDistinct(head, words, free);
    assert LinkedAt(words, free, 0);
    var after, rest := words[head - 1 := word], free[1..];
    forall k: nat | k < |rest| ensures LinkedAt(after, rest, k) {
      assert LinkedAt(words, free, k + 1);
    }
  }

  /** The free list is empty exactly when all chunks are live. */
  lemma EmptyIffAllLive(head: nat, words: seq<nat>, free: seq<nat>, live: set<nat>)
    requires IsList(head, words, free) && live == NotOn(free, |words|)
    ensures head == 0 <==> |live| == |words|
  {
    var all := Below(|words|);
    if head == 0 {
      assert live == all;
    } else {
      assert LinkedAt(words, free, 0);
      assert live <= all - {head - 1};
      Smaller(live, all - {head - 1});
    }
  }

  lemma {:induction false} Smaller(a: set<nat>, b: set<nat>)
    requires a <= b
    ensures |a| <= |b|
  {
    if a != {} {
      var x :| x in a;
      Smaller(a - {x}, b - {x});
    }
  }

  // ---- the pool

  class Pool {
    var chunkSize: nat
    var bufLen: nat
    var words: array<nat>     // the first word of each chunk
    var head: nat
    ghost var free: seq<nat>  // the chunks on the free list, in order

    ghost predicate Valid()
      reads this, words
    {
      && chunkSize > 0 && bufLen == chunkSize * words.Length
      && IsList(head, words[..], free) && Distinct(free)
    }

    /** The chunks handed out and not given back. */
    ghost function Live(): set<nat>
      reads this, words
    {
      NotOn(free, words.Length)
    }

    /** pg_pool_init, after the chunk size has been rounded up. */
    constructor (size: nat, maxItems: nat)
      requires size > 0
      ensures Valid() && fresh(words) && words.Length == maxItems && Live() == {}
    {
      chunkSize, bufLen, words, head, free := size, size * maxItems, new nat[maxItems](_ => 0), 0, [];
      new;
      FreeAll();
    }

    /** pg_pool_free_all. */
    method FreeAll()
      requires chunkSize > 0 && bufLen == chunkSize * words.Length && head <= words.Length
      modifies this`head, this`free, words
      ensures words.Length == 0 || (Ends(head, words[..]) <==> old(head) == 0)
      ensures old(head) == 0 ==> Valid() && Live() == {}
      ensures head == if words.Length == 0 then old(head) else words.Length
    {
      ghost var was, n := words[..], words.Length;
      Euclid(bufLen, chunkSize, words.Length, 0);
      for i := 0 to bufLen / chunkSize
        invariant AllPushed(words[..], was, old(head), i)
        invariant head == if i == 0 then old(head) else i
      {
        words[i] := head;
        head := i + 1;
      }
      if words.Length > 0 { FreeAllIsSound(words[..], was, old(head)); }
      free := if old(head) == 0 then Down(n) else free;
      if old(head) == 0 {
        ListIsDistinct(head, words[..], free);
        forall i | i in Below(n) ensures i in free { assert Down(n)[n - 1 - i] == i; }
      }
    }

    /** pg_pool_alloc: NULL (0) exactly when every chunk is live. */
    method Alloc() returns (p: nat)
      requires Valid()
      modifies this`head, this`free, words
      ensures Valid()
      ensures p == 0 <==> old(|Live()|) == words.Length
      ensures p == 0 ==> Live() == old(Live()) && words[..] == old(words[..])
      ensures p != 0 ==>
        0 < p <= words.Length && p - 1 !in old(Live()) && Live() == old(Live()) + {p - 1} && words[p - 1] == 0
      ensures forall i :: i in old(Live()) ==> words[i] == old(words[i])
    {
      EmptyIffAllLive(head, words[..], free, Live());
      hide IsList, Distinct, Below, NotOn;
      p := head;
      if p == 0 { return; }
      PopKeeps(head, words[..], free, 0);
      ghost var was := words[..];
      head := words[p - 1];
      words[p - 1] := 0;
      assert words[..] == was[p - 1 := 0];
      ghost var rest := free[1..];
      assert free == [p - 1] + rest && p - 1 !in rest;
      NotOnCons(p - 1, rest, words.Length);
      free := rest;
    }

    /** pg_pool_free of a chunk that is live. */
    method Free(i: nat)
      requires Valid() && i in Live()
      modifies this`head, this`free, words
      ensures Valid() && Live() == old(Live()) - {i} && head == i + 1
      ensures forall j :: j in Live() ==> words[j] == old(words[j])
    {
      PushIsSound(head, words[..], free, i);
      words[i] := head;
      head := i + 1;
      free := [i] + free;
      assert words[..] == old(words[..])[i := old(head)];
      ListIsDistinct(head, words[..], free);
    }

    /** The owner of a live chunk writes to it. */
    method Write(i: nat, word: nat)
      requires Valid() && i in Live()
      modifies words
      ensures Valid() && Live() == old(Live()) && words[..] == old(words[..])[i := word]
    {
      ghost var was := words[..];
      words[i] := word;
      forall k: nat | k < |free|
        ensures LinkedAt(words[..], free, k) { assert LinkedAt(was, free, k) && free[k] in free; }
    }
  }
}
