/** The retry loops of the allocator, over the answers that the pool and the new handler will give. */
module AllocationLoops {
  import opened MachineTypes

  const NULL: nat := 0

  /** What the operating system answers to one request: an address with whatever its bytes happen to be. */
  datatype Answer = Refuse | Grant(address: nat, garbage: seq<byte>)

  datatype Option<+T> = None | Some(value: T)

  predicate Usable(a: Answer, live: set<nat>, size: nat)
  {
    a.Grant? && a.address != NULL && a.address !in live && |a.garbage| == size
  }

  /** The answers still to come: of the pool, and of the new handler, which is asked only in the new mode. */
  datatype Future = Future(pool: seq<Answer>, handler: seq<bool>, newMode: bool)
  {
    function PoolAnswer(): Answer { if pool == [] then Refuse else pool[0] }

    function AfterPool(): Future { if pool == [] then this else this.(pool := pool[1..]) }

    /** Whether a failed request is repeated. */
    predicate Retries() { newMode && handler != [] && handler[0] }

    function AfterHandler(): Future { if newMode && handler != [] then this.(handler := handler[1..]) else this }
  }

  // ---- malloc ----

  /** The first usable answer, provided the handler asks for every further attempt before it. */
  function Allocation(f: Future, live: set<nat>, size: nat): (r: Option<Answer>)
    ensures r.Some? ==> Usable(r.value, live, size)
    decreases |f.handler|
  {
    if Usable(f.PoolAnswer(), live, size) then Some(f.PoolAnswer())
    else if f.AfterPool().Retries() then Allocation(f.AfterPool().AfterHandler(), live, size)
    else None
  }

  /** The address an allocation returns. */
  function Granted(a: Option<Answer>): nat
  {
    if a.Some? && a.value.Grant? then a.value.address else NULL
  }

  /** The future the loop leaves behind. */
  function AfterAllocation(f: Future, live: set<nat>, size: nat): Future
    decreases |f.handler|
  {
    if Usable(f.PoolAnswer(), live, size) then f.AfterPool()
    else if f.AfterPool().Retries() then AfterAllocation(f.AfterPool().AfterHandler(), live, size)
    else f.AfterPool().AfterHandler()
  }

  lemma {:induction false} HandlerShrinks(f: Future, live: set<nat>, size: nat)
    ensures |AfterAllocation(f, live, size).handler| <= |f.handler|
    decreases |f.handler|
  {
    if !Usable(f.PoolAnswer(), live, size) && f.AfterPool().Retries() {
      HandlerShrinks(f.AfterPool().AfterHandler(), live, size);
    }
  }

  /** No answer before the one at k is usable. */
  predicate NoneBefore(f: Future, live: set<nat>, size: nat, k: nat)
  {
    forall i :: 0 <= i < k && i < |f.pool| ==> !Usable(f.pool[i], live, size)
  }

  /** Attempt k is reached when all before it fail and the handler says yes k times. */
  predicate Reached(f: Future, live: set<nat>, size: nat, k: nat)
  {
    && (k > 0 ==> f.newMode) && k <= |f.handler|
    && (forall i :: 0 <= i < k ==> f.handler[i])
    && NoneBefore(f, live, size, k)
  }

  lemma NoneBeforeNext(f: Future, live: set<nat>, size: nat, k: nat, f': Future)
    requires !Usable(f.PoolAnswer(), live, size) && f'.pool == f.AfterPool().pool && k > 0
    ensures NoneBefore(f, live, size, k) <==> NoneBefore(f', live, size, k - 1)
  {
    if NoneBefore(f', live, size, k - 1) {
      forall i | 0 <= i < k && i < |f.pool|
        ensures !Usable(f.pool[i], live, size)
      {
        if i > 0 { assert f'.pool[i - 1] == f.pool[i]; }
      }
    }
    if NoneBefore(f, live, size, k) {
      forall i | 0 <= i < k - 1 && i < |f'.pool|
        ensures !Usable(f'.pool[i], live, size)
      {
        assert f'.pool[i] == f.pool[i + 1];
      }
    }
  }

  lemma ReachedNext(f: Future, live: set<nat>, size: nat, k: nat)
    requires !Usable(f.PoolAnswer(), live, size) && f.AfterPool().Retries()
    requires k > 0
    ensures Reached(f, live, size, k) <==> Reached(f.AfterPool().AfterHandler(), live, size, k - 1)
  {
    var f' := f.AfterPool().AfterHandler();
    NoneBeforeNext(f, live, size, k, f');
    assert f'.handler == f.handler[1..];
    if Reached(f', live, size, k - 1) {
      forall i | 0 <= i < k
        ensures f.handler[i]
      {
        if i > 0 { assert f'.handler[i - 1] == f.handler[i]; }
      }
    }
  }

  /** An allocation succeeds with an answer exactly when that answer is usable at a reached attempt. */
  lemma {:induction false} AllocationMeaning(f: Future, live: set<nat>, size: nat)
    ensures Allocation(f, live, size).Some? <==>
              exists k :: 0 <= k < |f.pool| && Usable(f.pool[k], live, size) && Reached(f, live, size, k)
    ensures forall k :: 0 <= k < |f.pool| && Usable(f.pool[k], live, size) && Reached(f, live, size, k) ==>
              Allocation(f, live, size) == Some(f.pool[k])
    decreases |f.handler|
  {
    var f' := f.AfterPool().AfterHandler();
    if Usable(f.PoolAnswer(), live, size) {
      assert Reached(f, live, size, 0);
    } else if f.AfterPool().Retries() {
      AllocationMeaning(f', live, size);
      forall k | 0 < k < |f.pool|
        ensures Reached(f, live, size, k) <==> Reached(f', live, size, k - 1)
      {
        ReachedNext(f, live, size, k);
      }
      if k' :| 0 <= k' < |f'.pool| && Usable(f'.pool[k'], live, size) && Reached(f', live, size, k') {
        assert Reached(f, live, size, k' + 1) && f.pool[k' + 1] == f'.pool[k'];
      }
    }
  }

  /** The same over the answers themselves: attempt k serves when the handler has said yes k times in the new mode,
      no earlier answer was a block of the size at a free address, and its own answer is one. */
  lemma ServedAttempt(f: Future, live: set<nat>, size: nat, k: nat)
    requires k < |f.pool| && k <= |f.handler| && (k > 0 ==> f.newMode)
    requires forall i :: 0 <= i < k ==> f.handler[i]
    requires forall i :: 0 <= i < k && f.pool[i].Grant? ==>
               f.pool[i].address == 0 || f.pool[i].address in live || |f.pool[i].garbage| != size
    ensures Allocation(f, live, size) == Some(f.pool[k]) <==>
              f.pool[k].Grant? && f.pool[k].address != 0 && f.pool[k].address !in live && |f.pool[k].garbage| == size
  {
    AllocationMeaning(f, live, size);
    assert Reached(f, live, size, k);
  }

  /** What a malloc uses up when it reaches attempt k: k + 1 answers of the pool, as far as there are any, the k
      agreements of the handler, and its refusal when attempt k fails too. */
  lemma {:induction false} AllocationConsumes(f: Future, live: set<nat>, size: nat, k: nat)
    requires Reached(f, live, size, k)
    ensures var served := k < |f.pool| && Usable(f.pool[k], live, size);
            var refused := f.newMode && k < |f.handler| && !f.handler[k];
            served || refused || !f.newMode || k == |f.handler| ==>
              AfterAllocation(f, live, size) ==
              Future(if k < |f.pool| then f.pool[k + 1..] else [],
                     if !served && refused then f.handler[k + 1..] else f.handler[k..], f.newMode)
    decreases k
  {
    if k > 0 {
      var f' := f.AfterPool().AfterHandler();
      assert !Usable(f.PoolAnswer(), live, size) && f.handler[0];
      ReachedNext(f, live, size, k);
      AllocationConsumes(f', live, size, k - 1);
      assert f'.handler == f.handler[1..] && f'.pool == if f.pool == [] then [] else f.pool[1..];
      assert k < |f.handler| ==> f'.handler[k - 1] == f.handler[k];
      assert f'.handler[k - 1..] == f.handler[k..];
      assert k < |f.handler| ==> f'.handler[k..] == f.handler[k + 1..];
      assert k < |f.pool| ==> f'.pool[k - 1] == f.pool[k] && f'.pool[k..] == f.pool[k + 1..];
    }
  }

  // ---- calloc ----

  /** calloc asks the handler once more after malloc has given up, and then starts malloc again. */
  function ZeroedAllocation(f: Future, live: set<nat>, size: nat): (r: Option<Answer>)
    ensures r.Some? ==> Usable(r.value, live, size)
    decreases |f.handler|
  {
    HandlerShrinks(f, live, size);
    var g := AfterAllocation(f, live, size);
    if Allocation(f, live, size).Some? then Allocation(f, live, size)
    else if g.Retries() then ZeroedAllocation(g.AfterHandler(), live, size)
    else None
  }

  function AfterZeroedAllocation(f: Future, live: set<nat>, size: nat): Future
    decreases |f.handler|
  {
    HandlerShrinks(f, live, size);
    var g := AfterAllocation(f, live, size);
    if Allocation(f, live, size).Some? then g
    else if g.Retries() then AfterZeroedAllocation(g.AfterHandler(), live, size)
    else g.AfterHandler()
  }

  /** Whatever malloc can get, calloc gets too, and never from a worse answer. */
  lemma CallocIsNoWorse(f: Future, live: set<nat>, size: nat)
    requires Allocation(f, live, size).Some?
    ensures ZeroedAllocation(f, live, size) == Allocation(f, live, size)
  {
  }

  /** The future at calloc's next attempt: after a yes, or after a no and then a yes. */
  function NextAttempt(f: Future): (r: Option<Future>)
    ensures r.Some? ==> |r.value.handler| < |f.handler| && r.value.pool == f.AfterPool().pool
  {
    var g := f.AfterPool();
    if g.Retries() then Some(g.AfterHandler())
    else if g.AfterHandler().Retries() then Some(g.AfterHandler().AfterHandler())
    else None
  }

  /** The two nested loops, attempt by attempt. */
  lemma ZeroedUnfolds(f: Future, live: set<nat>, size: nat)
    ensures ZeroedAllocation(f, live, size) ==
            if Usable(f.PoolAnswer(), live, size) then Some(f.PoolAnswer())
            else if NextAttempt(f).Some? then ZeroedAllocation(NextAttempt(f).value, live, size)
            else None
  {
    var g := f.AfterPool();
    if !Usable(f.PoolAnswer(), live, size) && g.Retries() {
      var f' := g.AfterHandler();
      assert Allocation(f, live, size) == Allocation(f', live, size);
      assert AfterAllocation(f, live, size) == AfterAllocation(f', live, size);
    }
  }

  /** The first m answers of the handler end with a yes and never hold two refusals in a row. */
  predicate Insists(h: seq<bool>, m: nat)
  {
    m <= |h| && (m > 0 ==> h[m - 1]) && forall i :: 0 <= i < m - 1 ==> h[i] || h[i + 1]
  }

  function Agreements(h: seq<bool>): (n: nat)
    ensures n <= |h|
  {
    if h == [] then 0 else Agreements(h[1..]) + if h[0] then 1 else 0
  }

  /** The handler agrees k times before it refuses twice in a row. */
  ghost predicate AgreesBeforeTwoRefusals(h: seq<bool>, k: nat)
  {
    exists m :: 0 <= m <= |h| && Insists(h, m) && Agreements(h[..m]) == k
  }

  /** calloc reaches attempt k when all before it fail and the handler agrees k times before refusing twice in a row. */
  ghost predicate ReachedByCalloc(f: Future, live: set<nat>, size: nat, k: nat)
  {
    && (k > 0 ==> f.newMode)
    && AgreesBeforeTwoRefusals(f.handler, k)
    && NoneBefore(f, live, size, k)
  }

  /** How many answers lead to the next attempt. */
  predicate Leads(h: seq<bool>, c: nat)
  {
    (c == 1 && h != [] && h[0]) || (c == 2 && |h| >= 2 && !h[0] && h[1])
  }

  lemma AgreementsNext(h: seq<bool>, c: nat, m: nat)
    requires Leads(h, c) && c <= m <= |h|
    ensures Agreements(h[..m]) == 1 + Agreements(h[c..][..m - c])
  {
    assert h[..m][1..] == h[1..][..m - 1];
    if c == 2 {
      assert h[1..][..m - 1][1..] == h[2..][..m - 2];
    }
  }

  lemma InsistsTail(h: seq<bool>, c: nat, m: nat)
    requires Leads(h, c) && 0 < m <= |h| && Insists(h, m)
    ensures c <= m && Insists(h[c..], m - c)
  {
    forall i | 0 <= i < m - c - 1
      ensures h[c..][i] || h[c..][i + 1]
    {
      assert h[c + i] || h[c + i + 1];
    }
  }

  lemma InsistsLonger(h: seq<bool>, c: nat, m: nat)
    requires Leads(h, c) && c <= m <= |h| && Insists(h[c..], m - c)
    ensures Insists(h, m)
  {
    var t := h[c..];
    forall i | 0 <= i < m - 1
      ensures h[i] || h[i + 1]
    {
      if i >= c { assert t[i - c] || t[i - c + 1]; }
    }
  }

  lemma NotNone(h: seq<bool>, m: nat, k: nat)
    requires m <= |h| && Agreements(h[..m]) == k > 0
    ensures m > 0
  {
  }

  lemma AgreesNext(h: seq<bool>, c: nat, k: nat)
    requires Leads(h, c) && k > 0
    ensures AgreesBeforeTwoRefusals(h, k) <==> AgreesBeforeTwoRefusals(h[c..], k - 1)
  {
    hide Agreements, Insists;
    if AgreesBeforeTwoRefusals(h, k) {
      var m :| 0 <= m <= |h| && Insists(h, m) && Agreements(h[..m]) == k;
      NotNone(h, m, k);
      InsistsTail(h, c, m);
      AgreementsNext(h, c, m);
      assert Insists(h[c..], m - c) && Agreements(h[c..][..m - c]) == k - 1;
    }
    if AgreesBeforeTwoRefusals(h[c..], k - 1) {
      var m :| 0 <= m <= |h[c..]| && Insists(h[c..], m) && Agreements(h[c..][..m]) == k - 1;
      InsistsLonger(h, c, m + c);
      AgreementsNext(h, c, m + c);
      assert Insists(h, m + c) && Agreements(h[..m + c]) == k;
    }
  }

  lemma ReachedByCallocNext(f: Future, live: set<nat>, size: nat, k: nat)
    requires !Usable(f.PoolAnswer(), live, size) && NextAttempt(f).Some?
    requires k > 0
    ensures ReachedByCalloc(f, live, size, k) <==> ReachedByCalloc(NextAttempt(f).value, live, size, k - 1)
  {
    hide Usable, NoneBefore, AgreesBeforeTwoRefusals;
    var f' := NextAttempt(f).value;
    var c := if f.handler[0] then 1 else 2;
    assert Leads(f.handler, c) && f'.handler == f.handler[c..];
    NoneBeforeNext(f, live, size, k, f');
    AgreesNext(f.handler, c, k);
  }

  lemma CallocStops(f: Future, live: set<nat>, size: nat, k: nat)
    requires NextAttempt(f).None? && k > 0
    ensures !ReachedByCalloc(f, live, size, k)
  {
    forall m | 0 < m <= |f.handler| && f.newMode
      ensures !Insists(f.handler, m)
    {
    }
  }

  /** calloc succeeds with an answer exactly when that answer is usable at an attempt that calloc reaches. */
  lemma {:induction false} ZeroedMeaning(f: Future, live: set<nat>, size: nat)
    ensures ZeroedAllocation(f, live, size).Some? <==>
              exists k :: 0 <= k < |f.pool| && Usable(f.pool[k], live, size) && ReachedByCalloc(f, live, size, k)
    ensures forall k :: 0 <= k < |f.pool| && Usable(f.pool[k], live, size) && ReachedByCalloc(f, live, size, k) ==>
              ZeroedAllocation(f, live, size) == Some(f.pool[k])
    decreases |f.handler|
  {
    ZeroedUnfolds(f, live, size);
    hide ZeroedAllocation;
    if Usable(f.PoolAnswer(), live, size) {
      assert Insists(f.handler, 0) && Agreements(f.handler[..0]) == 0;
      assert ReachedByCalloc(f, live, size, 0);
    } else if NextAttempt(f).Some? {
      var f' := NextAttempt(f).value;
      ZeroedMeaning(f', live, size);
      forall k | 0 < k < |f.pool|
        ensures ReachedByCalloc(f, live, size, k) <==> ReachedByCalloc(f', live, size, k - 1)
        ensures f.pool[k] == f'.pool[k - 1]
      {
        ReachedByCallocNext(f, live, size, k);
      }
      if k' :| 0 <= k' < |f'.pool| && Usable(f'.pool[k'], live, size) && ReachedByCalloc(f', live, size, k') {
        assert ReachedByCalloc(f, live, size, k' + 1) && f.pool[k' + 1] == f'.pool[k'];
      }
    } else {
      forall k | 0 < k < |f.pool|
        ensures !ReachedByCalloc(f, live, size, k)
      {
        CallocStops(f, live, size, k);
      }
    }
  }

  /** Attempts without a refusal on the way are those malloc reaches too. */
  lemma ReachedWithoutRefusal(f: Future, live: set<nat>, size: nat, k: nat)
    requires ReachedByCalloc(f, live, size, k)
    ensures k <= |f.handler|
    ensures Reached(f, live, size, k) <==> forall i :: 0 <= i < k ==> f.handler[i]
  {
    var m :| 0 <= m <= |f.handler| && Insists(f.handler, m) && Agreements(f.handler[..m]) == k;
  }

  /** malloc fails where calloc succeeds exactly when the usable attempt calloc reaches comes after a refusal. */
  lemma CallocAloneSucceeds(f: Future, live: set<nat>, size: nat)
    ensures Allocation(f, live, size).None? && ZeroedAllocation(f, live, size).Some? <==>
              exists k :: && 0 <= k < |f.pool| && Usable(f.pool[k], live, size) && ReachedByCalloc(f, live, size, k)
                          && exists i :: 0 <= i < k && i < |f.handler| && !f.handler[i]
  {
    AllocationMeaning(f, live, size);
    ZeroedMeaning(f, live, size);
    if k :| 0 <= k < |f.pool| && Usable(f.pool[k], live, size) && ReachedByCalloc(f, live, size, k) {
      ReachedWithoutRefusal(f, live, size, k);
      if j :| 0 <= j < |f.pool| && Usable(f.pool[j], live, size) && Reached(f, live, size, j) {
        assert j == k;
      }
      forall k' | 0 <= k' < |f.pool| && Usable(f.pool[k'], live, size) && ReachedByCalloc(f, live, size, k')
        ensures k' == k
      {
      }
    }
  }

  /** A handler that refuses once and then agrees makes malloc fail and calloc succeed. */
  lemma CallocRetriesAfterRefusal(f: Future, live: set<nat>, size: nat)
    requires |f.pool| >= 2 && |f.handler| >= 2 && f.newMode && !f.handler[0] && f.handler[1]
    requires !Usable(f.pool[0], live, size) && Usable(f.pool[1], live, size)
    ensures Allocation(f, live, size).None? && ZeroedAllocation(f, live, size) == Some(f.pool[1])
  {
    var g := AfterAllocation(f, live, size);
    assert g.pool[0] == f.pool[1] && g.handler[0] == f.handler[1];
  }

  // ---- realloc of a block said to be empty ----

  /** Asking the handler until it refuses, and never the pool. */
  function AfterRefusal(f: Future): Future
    decreases |f.handler|
  {
    if f.Retries() then AfterRefusal(f.AfterHandler()) else f.AfterHandler()
  }

  /** With n agreements in front, n + 1 answers are used up: nothing but a refusal ends the asking. */
  lemma {:induction false} RefusalMeaning(f: Future, n: nat)
    requires f.newMode && n <= |f.handler| && forall i :: 0 <= i < n ==> f.handler[i]
    requires n < |f.handler| ==> !f.handler[n]
    ensures AfterRefusal(f) == f.(handler := if n < |f.handler| then f.handler[n + 1..] else [])
    decreases n
  {
    if n > 0 {
      var f' := f.AfterHandler();
      assert forall i :: 0 <= i < |f'.handler| ==> f'.handler[i] == f.handler[i + 1];
      RefusalMeaning(f', n - 1);
      if n < |f.handler| {
        assert f'.handler[n..] == f.handler[n + 1..];
      }
    }
  }

  lemma {:induction false} RefusalLeavesPool(f: Future)
    ensures AfterRefusal(f).pool == f.pool
    decreases |f.handler|
  {
    if f.Retries() {
      RefusalLeavesPool(f.AfterHandler());
    }
  }
}
