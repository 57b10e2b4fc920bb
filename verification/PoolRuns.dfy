/** Whole runs of the pool functions: what is live, what was freed, and what a block keeps in the meantime. */
module PoolRuns {
  import opened AllocationLoops
  import opened MachineTypes
  import opened Pool

  datatype Request =
    | Allocating(size: size_t, tag: nat)
    | AllocatingZeroed(count: size_t, size: size_t, tag: nat)
    | Resizing(block: nat, oldSize: size_t, newSize: size_t, tag: nat)
    | ResizingArray(block: nat, count: size_t, oldSize: size_t, newSize: size_t, tag: nat)
    | Freeing(block: nat, tag: nat)

  datatype State = State(blocks: map<nat, Block>, future: Future)

  /** What one request returns and leaves, and which addresses it obtained and gave back. */
  datatype Effect = Effect(result: nat, after: State, granted: multiset<nat>, freed: multiset<nat>)

  function Unchanged(s: State): Effect
  {
    Effect(NULL, s, multiset{}, multiset{})
  }

  /** A block is obtained, unless the allocation failed. */
  function Obtained(s: State, a: Option<Answer>, bytes: seq<byte>, tag: nat, future: Future): Effect
  {
    if a.None? then Effect(NULL, State(s.blocks, future), multiset{}, multiset{})
    else Effect(Granted(a), State(s.blocks[Granted(a) := Block(bytes, tag)], future), multiset{Granted(a)}, multiset{})
  }

  function AllocatingEffect(s: State, size: nat, tag: nat): Effect
  {
    var live, n := s.blocks.Keys, AtLeastOne(size);
    if size > HEAP_MAXREQ then Unchanged(s)
    else
      var a := Allocation(s.future, live, n);
      var garbage := if a.Some? then a.value.garbage else [];
      Obtained(s, a, garbage, tag, AfterAllocation(s.future, live, n))
  }

  function ZeroedEffect(s: State, size: nat, tag: nat): Effect
  {
    var live, n := s.blocks.Keys, AtLeastOne(size);
    if size > HEAP_MAXREQ then Unchanged(s)
    else Obtained(s, ZeroedAllocation(s.future, live, n), Zeros(n), tag, AfterZeroedAllocation(s.future, live, n))
  }

  /** A new array obtained by resizing none: malloc's retries, and the bytes are cleared if there are any. */
  function ArrayEffect(s: State, size: nat, tag: nat): Effect
  {
    var live := s.blocks.Keys;
    if size == 0 || size > HEAP_MAXREQ then AllocatingEffect(s, size, tag)
    else Obtained(s, Allocation(s.future, live, size), Zeros(size), tag, AfterAllocation(s.future, live, size))
  }

  function FreeingEffect(s: State, block: nat): Effect
  {
    Effect(NULL, State(s.blocks - {block}, s.future), multiset{}, multiset{block})
  }

  /** What every resize of a live block does, to sizes in bytes. */
  function ResizingEffect(s: State, block: nat, oldSize: size_t, newSize: nat, tag: nat): Effect
    requires block in s.blocks && oldSize <= |s.blocks[block].bytes|
  {
    if newSize == 0 then FreeingEffect(s, block)
    else if newSize > HEAP_MAXREQ then Unchanged(s)
    else if oldSize == 0 then Effect(NULL, State(s.blocks, AfterRefusal(s.future)), multiset{}, multiset{})
    else
      var a := Allocation(s.future, s.blocks.Keys, newSize);
      var future := AfterAllocation(s.future, s.blocks.Keys, newSize);
      if a.None? then Effect(NULL, State(s.blocks, future), multiset{}, multiset{})
      else
        var bytes := Resized(s.blocks[block].bytes, oldSize, newSize);
        Effect(Granted(a), State(Replaced(s.blocks, block, Granted(a), bytes, tag), future),
               multiset{Granted(a)}, multiset{block})
  }

  /** The caller works on live blocks with their own tags and true sizes. */
  ghost predicate Legal(r: Request, s: State)
  {
    match r
    case Allocating(_, _) => true
    case AllocatingZeroed(_, _, _) => true
    case Resizing(block, oldSize, _, tag) =>
      block == NULL || (block in s.blocks && s.blocks[block].tag == tag && oldSize <= |s.blocks[block].bytes|)
    case ResizingArray(block, count, oldSize, _, tag) =>
      block == NULL || (block in s.blocks && s.blocks[block].tag == tag
                        && Total(count, oldSize) <= |s.blocks[block].bytes| < BASE64)
    case Freeing(block, tag) => block == NULL || (block in s.blocks && s.blocks[block].tag == tag)
  }

  ghost function EffectOf(r: Request, s: State): Effect
    requires Legal(r, s)
  {
    match r
    case Allocating(size, tag) => AllocatingEffect(s, size, tag)
    case AllocatingZeroed(count, size, tag) => ZeroedEffect(s, Total(count, size), tag)
    case Resizing(block, oldSize, newSize, tag) =>
      if block == NULL then AllocatingEffect(s, newSize, tag) else ResizingEffect(s, block, oldSize, newSize, tag)
    case ResizingArray(block, count, oldSize, newSize, tag) =>
      if block == NULL then ArrayEffect(s, Total(count, newSize), tag)
      else ResizingEffect(s, block, Total(count, oldSize), Total(count, newSize), tag)
    case Freeing(block, _) => if block == NULL then Unchanged(s) else FreeingEffect(s, block)
  }

  // ---- one request ----

  ghost function StateOf(p: Pool): State
    reads p
  {
    State(p.blocks, p.future)
  }

  twostate predicate Did(p: Pool, result: nat, e: Effect)
    reads p
  {
    && p.Valid() && result == e.result && p.blocks == e.after.blocks && p.future == e.after.future
    && p.freed == old(p.freed) + e.freed
  }

  method PerformAllocating(p: Pool, size: size_t, tag: nat) returns (result: nat)
    requires p.Valid()
    modifies p
    ensures Did(p, result, AllocatingEffect(old(StateOf(p)), size, tag))
  {
    hide Allocation, AfterAllocation, AtLeastOne;
    result := p.Malloc(size, tag);
  }

  method PerformZeroed(p: Pool, count: size_t, size: size_t, tag: nat) returns (result: nat)
    requires p.Valid()
    modifies p
    ensures Did(p, result, ZeroedEffect(old(StateOf(p)), Total(count, size), tag))
  {
    hide Total, ZeroedAllocation, AfterZeroedAllocation, AtLeastOne;
    result := p.Calloc(count, size, tag);
  }

  method PerformResizing(p: Pool, block: nat, oldSize: size_t, newSize: size_t, tag: nat) returns (result: nat)
    requires p.Valid() && (block != NULL ==> p.Owned(block, tag) && oldSize <= |p.blocks[block].bytes|)
    modifies p
    ensures Did(p, result, if block == NULL then AllocatingEffect(old(StateOf(p)), newSize, tag)
                           else ResizingEffect(old(StateOf(p)), block, oldSize, newSize, tag))
  {
    hide Allocation, AfterAllocation, AfterRefusal, AtLeastOne, Resized, Replaced;
    result := p.Realloc(block, oldSize, newSize, tag);
  }

  method PerformResizingArray(p: Pool, block: nat, count: size_t, oldSize: size_t, newSize: size_t, tag: nat)
    returns (result: nat)
    requires p.Valid()
    requires block != NULL ==> p.Owned(block, tag) && Total(count, oldSize) <= |p.blocks[block].bytes| < BASE64
    modifies p
    ensures Did(p, result, if block == NULL then ArrayEffect(old(StateOf(p)), Total(count, newSize), tag)
                           else ResizingEffect(old(StateOf(p)), block, Total(count, oldSize),
                                               Total(count, newSize), tag))
  {
    hide Total, Allocation, AfterAllocation, AfterRefusal, Resized, Replaced;
    result := p.Recalloc(block, count, oldSize, newSize, tag);
  }

  /** Each of the five functions has exactly the effect of its request. */
  method Perform(p: Pool, r: Request) returns (result: nat)
    requires p.Valid() && Legal(r, StateOf(p))
    modifies p
    ensures Did(p, result, EffectOf(r, old(StateOf(p))))
  {
    hide Total, AllocatingEffect, ZeroedEffect, ResizingEffect, ArrayEffect;
    match r
    case Allocating(size, tag) =>
      result := PerformAllocating(p, size, tag);
    case AllocatingZeroed(count, size, tag) =>
      result := PerformZeroed(p, count, size, tag);
    case Resizing(block, oldSize, newSize, tag) =>
      result := PerformResizing(p, block, oldSize, newSize, tag);
    case ResizingArray(block, count, oldSize, newSize, tag) =>
      result := PerformResizingArray(p, block, count, oldSize, newSize, tag);
    case Freeing(block, tag) =>
      p.Free(block, tag);
      result := NULL;
  }

  // ---- what an effect keeps ----

  lemma KeysAdded(m: map<nat, Block>, k: nat, b: Block)
    requires k !in m
    ensures multiset(m[k := b].Keys) == multiset(m.Keys) + multiset{k}
  {
    assert m[k := b].Keys == m.Keys + {k};
  }

  lemma KeysRemoved(m: map<nat, Block>, k: nat)
    requires k in m
    ensures multiset((m - {k}).Keys) + multiset{k} == multiset(m.Keys)
  {
    assert m.Keys == (m - {k}).Keys + {k};
  }

  /** Live addresses change by those obtained and given back, null is never live, and others keep their blocks. */
  ghost predicate Balanced(s: State, e: Effect, named: nat)
  {
    && NULL !in e.after.blocks
    && multiset(e.after.blocks.Keys) + e.freed == multiset(s.blocks.Keys) + e.granted
    && forall b :: b in s.blocks && b != named ==> b in e.after.blocks && e.after.blocks[b] == s.blocks[b]
  }

  lemma ObtainedBalanced(s: State, a: Option<Answer>, bytes: seq<byte>, tag: nat, future: Future, named: nat)
    requires NULL !in s.blocks && (a.Some? ==> a.value.Grant? && a.value.address !in s.blocks.Keys + {NULL})
    ensures Balanced(s, Obtained(s, a, bytes, tag, future), named)
  {
    if a.Some? {
      KeysAdded(s.blocks, a.value.address, Block(bytes, tag));
    }
  }

  lemma AllocatingBalanced(s: State, size: nat, tag: nat, named: nat)
    requires NULL !in s.blocks
    ensures Balanced(s, AllocatingEffect(s, size, tag), named)
  {
    hide Allocation, AfterAllocation;
    var live, n := s.blocks.Keys, AtLeastOne(size);
    if size <= HEAP_MAXREQ {
      var a := Allocation(s.future, live, n);
      var garbage := if a.Some? then a.value.garbage else [];
      ObtainedBalanced(s, a, garbage, tag, AfterAllocation(s.future, live, n), named);
    }
  }

  lemma ResizingBalanced(s: State, block: nat, oldSize: size_t, newSize: nat, tag: nat)
    requires NULL !in s.blocks && block in s.blocks && oldSize <= |s.blocks[block].bytes|
    ensures Balanced(s, ResizingEffect(s, block, oldSize, newSize, tag), block)
  {
    hide Allocation, AfterAllocation, AfterRefusal, Resized;
    KeysRemoved(s.blocks, block);
    var a := Allocation(s.future, s.blocks.Keys, newSize);
    if a.Some? && newSize <= HEAP_MAXREQ {
      var bytes := Resized(s.blocks[block].bytes, oldSize, newSize);
      KeysAdded(s.blocks - {block}, a.value.address, Block(bytes, tag));
    }
  }

  /** The block a request works on; null for one that only allocates. */
  function Named(r: Request): nat
  {
    match r
    case Allocating(_, _) => NULL
    case AllocatingZeroed(_, _, _) => NULL
    case Resizing(block, _, _, _) => block
    case ResizingArray(block, _, _, _, _) => block
    case Freeing(block, _) => block
  }

  lemma UnchangedBalanced(s: State, named: nat)
    requires NULL !in s.blocks
    ensures Balanced(s, Unchanged(s), named)
  {
  }

  lemma FreedBalanced(s: State, block: nat)
    requires NULL !in s.blocks
    ensures block in s.blocks ==> Balanced(s, FreeingEffect(s, block), block)
  {
    if block in s.blocks {
      KeysRemoved(s.blocks, block);
    }
  }

  lemma EffectBalanced(r: Request, s: State)
    requires NULL !in s.blocks && Legal(r, s)
    ensures Balanced(s, EffectOf(r, s), Named(r))
  {
    hide Total, AllocatingEffect, ResizingEffect, Obtained, Balanced, Allocation, AfterAllocation;
    UnchangedBalanced(s, Named(r));
    match r
    case Allocating(size, tag) =>
      AllocatingBalanced(s, size, tag, NULL);
    case AllocatingZeroed(count, size, tag) =>
      var live, n := s.blocks.Keys, AtLeastOne(Total(count, size));
      var a := ZeroedAllocation(s.future, live, n);
      ObtainedBalanced(s, a, Zeros(n), tag, AfterZeroedAllocation(s.future, live, n), NULL);
    case Resizing(block, oldSize, newSize, tag) =>
      if block == NULL {
        AllocatingBalanced(s, newSize, tag, NULL);
      } else {
        ResizingBalanced(s, block, oldSize, newSize, tag);
      }
    case ResizingArray(block, count, oldSize, newSize, tag) =>
      var total, live := Total(count, newSize), s.blocks.Keys;
      if block == NULL {
        AllocatingBalanced(s, total, tag, NULL);
        var a := Allocation(s.future, live, total);
        ObtainedBalanced(s, a, Zeros(total), tag, AfterAllocation(s.future, live, total), NULL);
      } else {
        ResizingBalanced(s, block, Total(count, oldSize), total, tag);
      }
    case Freeing(block, _) =>
      FreedBalanced(s, block);
  }

  // ---- runs ----

  /** A run's results in order, the state after it, and all addresses obtained and given back. */
  datatype Outcome = Outcome(results: seq<nat>, after: State, granted: multiset<nat>, freed: multiset<nat>)

  ghost predicate LegalRun(rs: seq<Request>, s: State)
    decreases rs
  {
    rs == [] || (Legal(rs[0], s) && LegalRun(rs[1..], EffectOf(rs[0], s).after))
  }

  ghost function RunOutcome(rs: seq<Request>, s: State): Outcome
    requires LegalRun(rs, s)
    decreases rs
  {
    if rs == [] then Outcome([], s, multiset{}, multiset{})
    else
      var e := EffectOf(rs[0], s);
      var rest := RunOutcome(rs[1..], e.after);
      Outcome([e.result] + rest.results, rest.after, e.granted + rest.granted, e.freed + rest.freed)
  }

  lemma Chain(k0: multiset<nat>, k1: multiset<nat>, k2: multiset<nat>,
              f1: multiset<nat>, g1: multiset<nat>, f2: multiset<nat>, g2: multiset<nat>)
    requires k1 + f1 == k0 + g1 && k2 + f2 == k1 + g2
    ensures k2 + (f1 + f2) == k0 + (g1 + g2)
  {
    calc {
      k2 + (f1 + f2);
      (k2 + f2) + f1;
      (k1 + f1) + g2;
      k0 + (g1 + g2);
    }
  }

  /** After any run the live addresses are those before it and those obtained, minus those given back. */
  lemma {:induction false} RunLedger(rs: seq<Request>, s: State)
    requires NULL !in s.blocks && LegalRun(rs, s)
    ensures var o := RunOutcome(rs, s);
            && NULL !in o.after.blocks
            && multiset(o.after.blocks.Keys) + o.freed == multiset(s.blocks.Keys) + o.granted
    decreases rs
  {
    hide Legal, EffectOf;
    if rs != [] {
      EffectBalanced(rs[0], s);
      var e := EffectOf(rs[0], s);
      RunLedger(rs[1..], e.after);
      var rest := RunOutcome(rs[1..], e.after);
      Chain(multiset(s.blocks.Keys), multiset(e.after.blocks.Keys), multiset(rest.after.blocks.Keys),
            e.freed, e.granted, rest.freed, rest.granted);
    }
  }

  /** A live block that no request of a run names stays live with its bytes and its tag. */
  lemma {:induction false} RunSpares(rs: seq<Request>, s: State, block: nat)
    requires NULL !in s.blocks && LegalRun(rs, s)
    requires block in s.blocks && forall i :: 0 <= i < |rs| ==> Named(rs[i]) != block
    ensures block in RunOutcome(rs, s).after.blocks && RunOutcome(rs, s).after.blocks[block] == s.blocks[block]
    decreases rs
  {
    hide Legal, EffectOf, Named;
    if rs != [] {
      EffectBalanced(rs[0], s);
      RunSpares(rs[1..], EffectOf(rs[0], s).after, block);
    }
  }

  /** The run seen after its first requests: what they did, and what is still to come. */
  ghost predicate Halfway(rs: seq<Request>, s: State, i: nat, results: seq<nat>, now: State, freed: multiset<nat>)
  {
    && i <= |rs| && LegalRun(rs, s) && LegalRun(rs[i..], now)
    && var (whole, rest) := (RunOutcome(rs, s), RunOutcome(rs[i..], now));
       && whole.results == results + rest.results && whole.after == rest.after
       && whole.freed == freed + rest.freed
  }

  lemma HalfwayStep(rs: seq<Request>, s: State, i: nat, results: seq<nat>, now: State, freed: multiset<nat>)
    requires i < |rs| && Halfway(rs, s, i, results, now, freed)
    ensures Legal(rs[i], now)
    ensures var e := EffectOf(rs[i], now);
            Halfway(rs, s, i + 1, results + [e.result], e.after, freed + e.freed)
  {
    hide Legal, EffectOf;
    assert rs[i..][0] == rs[i] && rs[i..][1..] == rs[i + 1..];
    var e := EffectOf(rs[i], now);
    var rest := RunOutcome(rs[i + 1..], e.after);
    assert results + ([e.result] + rest.results) == results + [e.result] + rest.results;
  }

  lemma HalfwayEnds(rs: seq<Request>, s: State, results: seq<nat>, now: State, freed: multiset<nat>)
    requires Halfway(rs, s, |rs|, results, now, freed)
    ensures var o := RunOutcome(rs, s); results == o.results && now == o.after && freed == o.freed
  {
    assert rs[|rs|..] == [];
  }

  lemma HalfwayStarts(rs: seq<Request>, s: State)
    requires LegalRun(rs, s)
    ensures Halfway(rs, s, 0, [], s, multiset{})
  {
    assert rs[0..] == rs;
  }

  /** What is granted follows from what is live and what is freed. */
  lemma GrantedFollows(granted0: multiset<nat>, freed0: multiset<nat>, live0: multiset<nat>, granted: multiset<nat>,
                       freed: multiset<nat>, live: multiset<nat>, f: multiset<nat>, g: multiset<nat>)
    requires granted0 == freed0 + live0 && granted == freed + live
    requires freed == freed0 + f && live + f == live0 + g
    ensures granted == granted0 + g
  {
    calc {
      granted;
      freed0 + (live + f);
      granted0 + g;
    }
  }

  /** Any legal run of the pool functions has the outcome of its requests, and the ledger balances. */
  method Run(p: Pool, rs: seq<Request>) returns (results: seq<nat>)
    requires p.Valid() && LegalRun(rs, StateOf(p))
    modifies p
    ensures p.Valid()
    ensures var o := RunOutcome(rs, old(StateOf(p)));
            && results == o.results && StateOf(p) == o.after
            && p.freed == old(p.freed) + o.freed && p.granted == old(p.granted) + o.granted
            && multiset(p.blocks.Keys) + o.freed == multiset(old(p.blocks).Keys) + o.granted
  {
    hide LegalRun, RunOutcome, Legal, EffectOf, Halfway;
    ghost var s, now, done := StateOf(p), StateOf(p), multiset{};
    results := [];
    HalfwayStarts(rs, s);
    for i := 0 to |rs|
      invariant p.Valid() && StateOf(p) == now && p.freed == old(p.freed) + done
      invariant Halfway(rs, s, i, results, now, done)
    {
      HalfwayStep(rs, s, i, results, now, done);
      ghost var e := EffectOf(rs[i], now);
      var result := Perform(p, rs[i]);
      results := results + [result];
      now, done := e.after, done + e.freed;
    }
    HalfwayEnds(rs, s, results, now, done);
    RunLedger(rs, s);
    GrantedFollows(old(p.granted), old(p.freed), multiset(s.blocks.Keys), p.granted, p.freed, multiset(now.blocks.Keys),
                   done, RunOutcome(rs, s).granted);
  }
}
