/** Vectors whose views and iterators notice every later change through a shared change counter. */
module VersionedVector {
  import opened MachineTypes

  const COUNTER_MAX: int := 0xFFFF_FFFF
  const SIZE_MAX: int := 0x7FFF_FFFF

  datatype Error = OutOfBounds | ChangedState | OutOfMemory | Failure
  datatype Result<+T> = Ok(value: T) | Err(error: Error)

  // ---- what the mutators do to the contents ----

  datatype Mutation<T> =
    | SetAt(index: u32, item: T)
    | InsertAt(index: u32, item: T)
    | Append(item: T)
    | RemoveAt(index: u32)
    | RemoveAtEnd
    | Clear
    | ReplaceAll(items: seq<T>)

  /** The contents after a mutation, or the error that leaves them alone. */
  function Apply<T>(m: Mutation<T>, s: seq<T>): Result<seq<T>>
  {
    match m
    case SetAt(i, x) => if i < |s| then Ok(s[i := x]) else Err(OutOfBounds)
    case InsertAt(i, x) =>
      if i > |s| then Err(OutOfBounds)
      else if |s| + 1 > SIZE_MAX then Err(OutOfMemory)
      else Ok(s[..i] + [x] + s[i..])
    case Append(x) => if |s| + 1 > SIZE_MAX then Err(OutOfMemory) else Ok(s + [x])
    case RemoveAt(i) => if i < |s| then Ok(s[..i] + s[i + 1..]) else Err(OutOfBounds)
    case RemoveAtEnd => if s != [] then Ok(s[..|s| - 1]) else Err(OutOfBounds)
    case Clear => Ok([])
    case ReplaceAll(items) => if |items| > SIZE_MAX then Err(OutOfMemory) else Ok(items)
  }

  function Contents<T>(m: Mutation<T>, s: seq<T>): seq<T>
  {
    match Apply(m, s)
    case Ok(s') => s'
    case Err(_) => s
  }

  function Outcome<T>(m: Mutation<T>, s: seq<T>): Result<()>
  {
    match Apply(m, s)
    case Ok(_) => Ok(())
    case Err(e) => Err(e)
  }

  /** Removing what was inserted gives the old contents back, and so does inserting what was removed. */
  lemma RemoveUndoesInsert<T>(s: seq<T>, i: u32, x: T)
    ensures i <= |s| && |s| < SIZE_MAX ==> Apply(RemoveAt(i), Contents(InsertAt(i, x), s)) == Ok(s)
    ensures i < |s| <= SIZE_MAX ==> Apply(InsertAt(i, s[i]), Contents(RemoveAt(i), s)) == Ok(s)
  {
    if i <= |s| && |s| < SIZE_MAX {
      var s' := s[..i] + [x] + s[i..];
      assert s'[..i] == s[..i] && s'[i + 1..] == s[i..];
      assert s[..i] + s[i..] == s;
    }
    if i < |s| <= SIZE_MAX {
      var s' := s[..i] + s[i + 1..];
      assert s'[..i] == s[..i] && s'[i..] == s[i + 1..];
      assert s[..i] + [s[i]] + s[i + 1..] == s;
    }
  }

  /** Appending is inserting at the end, and removing at the end undoes it. */
  lemma RemoveAtEndUndoesAppend<T>(s: seq<T>, x: T)
    ensures |s| < SIZE_MAX ==> Apply(RemoveAtEnd, Contents(Append(x), s)) == Ok(s)
    ensures |s| < SIZE_MAX ==> Apply(InsertAt(|s|, x), s) == Apply(Append(x), s)
    ensures 0 < |s| <= SIZE_MAX ==> Apply(Append(s[|s| - 1]), Contents(RemoveAtEnd, s)) == Ok(s)
    ensures 0 < |s| <= SIZE_MAX ==> Apply(RemoveAt(|s| - 1), s) == Apply(RemoveAtEnd, s)
  {
    assert s[..|s|] == s;
    assert s + [x] + [] == s + [x];
    assert (s + [x])[..|s|] == s;
    if s != [] {
      assert s[..|s| - 1] + [s[|s| - 1]] == s;
      assert s[..|s| - 1] + s[|s|..] == s[..|s| - 1];
    }
  }

  // ---- shared objects ----

  class Counter {
    var n: u32

    constructor ()
      ensures n == 0
    {
      n := 0;
    }
  }

  class Store<T> {
    var items: seq<T>

    constructor (items: seq<T>)
      ensures this.items == items
    {
      this.items := items;
    }
  }

  /** The shared pointers and the counter value a view or iterator was created with. */
  datatype Handle<T> = Handle(ctr: Counter, vec: Store<T>, goodCtr: u32)

  /** A handle with what the proof remembers: how many mutations preceded it and the contents it saw. */
  datatype Reader<T> = Reader(handle: Handle<T>, born: nat, snapshot: seq<T>)

  /** ValidateCounter. */
  predicate Unchanged<T>(h: Handle<T>)
    reads h.ctr
  {
    h.ctr.n == h.goodCtr
  }

  class Vector<T(0)> {
    var ctr: Counter
    var vec: Store<T>
    /** Mutators called so far, failed ones included. */
    ghost var attempts: nat
    /** Every view and iterator created so far. */
    ghost var readers: set<Reader<T>>

    /**
      A reader on the current counter is as many counts behind as there were mutations since; a reader on a
      replaced counter finds it stuck at a value no reader was created with.
     */
    ghost predicate Tracks(r: Reader<T>)
      reads this, ctr, vec, r.handle.ctr
    {
      && r.handle.vec == vec && r.born <= attempts && r.handle.goodCtr < COUNTER_MAX
      && (if r.handle.ctr == ctr then ctr.n == r.handle.goodCtr + (attempts - r.born)
          else r.handle.ctr.n == COUNTER_MAX && r.born < attempts)
      && (r.born == attempts ==> r.snapshot == vec.items)
    }

    ghost predicate Valid()
      reads this, ctr, vec, set r | r in readers :: r.handle.ctr
    {
      && ctr.n < COUNTER_MAX && |vec.items| <= SIZE_MAX
      && forall r :: r in readers ==> Tracks(r)
    }

    constructor (items: seq<T>)
      requires |items| <= SIZE_MAX
      ensures Valid() && fresh(ctr) && fresh(vec)
      ensures vec.items == items && attempts == 0 && readers == {}
    {
      ctr := new Counter();
      vec := new Store(items);
      attempts, readers := 0, {};
    }

    /** What one mutation leaves: readers kept, one more attempt, everything still tracked. */
    twostate predicate Stepped(m: Mutation<T>)
      reads this, ctr, vec, set r | r in readers :: r.handle.ctr
    {
      && Valid() && vec == old(vec) && readers == old(readers) && attempts == old(attempts) + 1
      && (ctr == old(ctr) || fresh(ctr))
      && vec.items == Contents(m, old(vec.items))
    }

    /** IncrementCounter: a counter about to wrap is left at its largest value and replaced. */
    method IncrementCounter()
      requires Valid()
      modifies this`ctr, this`attempts, ctr
      ensures ctr.n < COUNTER_MAX && (ctr == old(ctr) || fresh(ctr))
      ensures if old(ctr.n) < 0xFFFF_FFFE then ctr == old(ctr) && ctr.n == old(ctr.n) + 1
              else fresh(ctr) && ctr.n == 0 && old(ctr).n == 0xFFFF_FFFF
      ensures attempts == old(attempts) + 1
      ensures forall r :: r in readers ==>
                && r.handle.vec == vec && r.born < attempts && r.handle.goodCtr < COUNTER_MAX
                && (if r.handle.ctr == ctr then ctr.n == r.handle.goodCtr + (attempts - r.born)
                    else r.handle.ctr.n == COUNTER_MAX)
    {
      ctr.n := ctr.n + 1;
      if ctr.n == COUNTER_MAX {
        ctr := new Counter();
      }
      attempts := attempts + 1;
    }

    method SetAt(index: u32, item: T) returns (r: Result<()>)
      requires Valid()
      modifies this`ctr, this`attempts, ctr, vec
      ensures Stepped(Mutation.SetAt(index, item)) && r == Outcome(Mutation.SetAt(index, item), old(vec.items))
      ensures r == if index < |old(vec.items)| then Ok(()) else Err(OutOfBounds)
      ensures |vec.items| == |old(vec.items)|
      ensures forall k :: 0 <= k < |vec.items| ==> vec.items[k] == if k == index then item else old(vec.items)[k]
    {
      IncrementCounter();
      if !(index < |vec.items|) {
        return Err(OutOfBounds);
      }
      vec.items := vec.items[index := item];
      r := Ok(());
    }

    method InsertAt(index: u32, item: T) returns (r: Result<()>)
      requires Valid()
      modifies this`ctr, this`attempts, ctr, vec
      ensures Stepped(Mutation.InsertAt(index, item)) && r == Outcome(Mutation.InsertAt(index, item), old(vec.items))
      ensures r == if index > |old(vec.items)| then Err(OutOfBounds)
                   else if |old(vec.items)| >= 0x7FFF_FFFF then Err(OutOfMemory) else Ok(())
      ensures r.Err? ==> vec.items == old(vec.items)
      ensures r.Ok? ==>
                && |vec.items| == |old(vec.items)| + 1 && vec.items[index] == item
                && (forall k :: 0 <= k < index ==> vec.items[k] == old(vec.items)[k])
                && (forall k :: index <= k < |old(vec.items)| ==> vec.items[k + 1] == old(vec.items)[k])
    {
      IncrementCounter();
      if !(index <= |vec.items|) {
        return Err(OutOfBounds);
      }
      if !(|vec.items| + 1 <= SIZE_MAX) {
        return Err(OutOfMemory);
      }
      vec.items := vec.items[..index] + [item] + vec.items[index..];
      r := Ok(());
    }

    method Append(item: T) returns (r: Result<()>)
      requires Valid()
      modifies this`ctr, this`attempts, ctr, vec
      ensures Stepped(Mutation.Append(item)) && r == Outcome(Mutation.Append(item), old(vec.items))
      ensures r == if |old(vec.items)| >= 0x7FFF_FFFF then Err(OutOfMemory) else Ok(())
      ensures r.Err? ==> vec.items == old(vec.items)
      ensures r.Ok? ==>
                && |vec.items| == |old(vec.items)| + 1 && vec.items[|old(vec.items)|] == item
                && (forall k :: 0 <= k < |old(vec.items)| ==> vec.items[k] == old(vec.items)[k])
    {
      IncrementCounter();
      if !(|vec.items| + 1 <= SIZE_MAX) {
        return Err(OutOfMemory);
      }
      vec.items := vec.items + [item];
      r := Ok(());
    }

    method RemoveAt(index: u32) returns (r: Result<()>)
      requires Valid()
      modifies this`ctr, this`attempts, ctr, vec
      ensures Stepped(Mutation.RemoveAt(index)) && r == Outcome(Mutation.RemoveAt(index), old(vec.items))
      ensures r == if index < |old(vec.items)| then Ok(()) else Err(OutOfBounds)
      ensures r.Err? ==> vec.items == old(vec.items)
      ensures r.Ok? ==>
                && |vec.items| == |old(vec.items)| - 1
                && (forall k :: 0 <= k < index ==> vec.items[k] == old(vec.items)[k])
                && (forall k :: index < k < |old(vec.items)| ==> vec.items[k - 1] == old(vec.items)[k])
    {
      IncrementCounter();
      if !(index < |vec.items|) {
        return Err(OutOfBounds);
      }
      vec.items := vec.items[..index] + vec.items[index + 1..];
      r := Ok(());
    }

    method RemoveAtEnd() returns (r: Result<()>)
      requires Valid()
      modifies this`ctr, this`attempts, ctr, vec
      ensures Stepped(Mutation.RemoveAtEnd) && r == Outcome(Mutation.RemoveAtEnd, old(vec.items))
      ensures r == if |old(vec.items)| > 0 then Ok(()) else Err(OutOfBounds)
      ensures |vec.items| == if r.Ok? then |old(vec.items)| - 1 else 0
      ensures forall k :: 0 <= k < |vec.items| ==> vec.items[k] == old(vec.items)[k]
    {
      IncrementCounter();
      if !(vec.items != []) {
        return Err(OutOfBounds);
      }
      vec.items := vec.items[..|vec.items| - 1];
      r := Ok(());
    }

    method Clear() returns (r: Result<()>)
      requires Valid()
      modifies this`ctr, this`attempts, ctr, vec
      ensures Stepped(Mutation.Clear) && r == Outcome(Mutation.Clear, old(vec.items))
      ensures r == Ok(()) && vec.items == []
    {
      IncrementCounter();
      vec.items := [];
      r := Ok(());
    }

    method ReplaceAll(items: seq<T>) returns (r: Result<()>)
      requires Valid()
      modifies this`ctr, this`attempts, ctr, vec
      ensures Stepped(Mutation.ReplaceAll(items)) && r == Outcome(Mutation.ReplaceAll(items), old(vec.items))
      ensures r == if |items| > 0x7FFF_FFFF then Err(OutOfMemory) else Ok(())
      ensures vec.items == if r.Ok? then items else old(vec.items)
    {
      IncrementCounter();
      if !(|items| <= SIZE_MAX) {
        return Err(OutOfMemory);
      }
      vec.items := items;
      r := Ok(());
    }

    method Mutate(m: Mutation<T>) returns (r: Result<()>)
      requires Valid()
      modifies this`ctr, this`attempts, ctr, vec
      ensures Stepped(m) && r == Outcome(m, old(vec.items))
    {
      match m
      case SetAt(i, x) => r := SetAt(i, x);
      case InsertAt(i, x) => r := InsertAt(i, x);
      case Append(x) => r := Append(x);
      case RemoveAt(i) => r := RemoveAt(i);
      case RemoveAtEnd => r := RemoveAtEnd();
      case Clear => r := Clear();
      case ReplaceAll(items) => r := ReplaceAll(items);
    }

    /** The reader a view or an iterator created now becomes. */
    ghost function NewReader(): Reader<T>
      reads this, ctr, vec
    {
      Reader(Handle(ctr, vec, ctr.n), attempts, vec.items)
    }

    method GetView() returns (view: VectorView<T>)
      requires Valid()
      modifies this`readers
      ensures view.ViewOf(this) && readers == old(readers) + {view.reader} && view.reader == NewReader()
      ensures fresh(view)
    {
      view := new VectorView(Handle(ctr, vec, ctr.n), attempts, vec.items);
      readers := readers + {view.reader};
    }

    method First() returns (iter: VectorIterator<T>)
      requires Valid()
      modifies this`readers
      ensures iter.IteratorOf(this) && readers == old(readers) + {iter.reader} && iter.reader == NewReader()
      ensures fresh(iter) && iter.index == 0
    {
      iter := new VectorIterator(Handle(ctr, vec, ctr.n), attempts, vec.items);
      readers := readers + {iter.reader};
    }
  }

  /** A reader sees an error exactly when some mutation was attempted since it was created. */
  ghost predicate Stale<T(0)>(r: Reader<T>, owner: Vector<T>)
    reads owner
  {
    r.born < owner.attempts
  }

  lemma CounterTellsStaleness<T(0)>(r: Reader<T>, owner: Vector<T>)
    requires owner.Valid() && r in owner.readers
    ensures Unchanged(r.handle) <==> !Stale(r, owner)
    ensures !Stale(r, owner) ==> r.handle.vec.items == r.snapshot
  {
    assert owner.Tracks(r);
  }

  /** VectorGetMany: copies as many elements from start as the destination takes. */
  method VectorGetMany<T>(items: seq<T>, start: u32, dest: array<T>) returns (actual: u32)
    requires start <= |items| <= SIZE_MAX && dest.Length <= COUNTER_MAX
    modifies dest
    ensures actual == if |items| - start < dest.Length then |items| - start else dest.Length
    ensures dest[..actual] == items[start..start + actual]
    ensures dest[actual..] == old(dest[actual..])
  {
    var capacity: u32 := dest.Length;
    actual := |items| - start;
    if actual > capacity {
      actual := capacity;
    }
    ghost var before := dest[..];
    for i := 0 to actual
      invariant forall k :: 0 <= k < i ==> dest[k] == items[start + k]
      invariant forall k :: i <= k < dest.Length ==> dest[k] == before[k]
    {
      dest[i] := items[start + i];
    }
    assert dest[actual..] == before[actual..];
  }

  class VectorView<T(0)> {
    const handle: Handle<T>
    ghost const reader: Reader<T>

    constructor (handle: Handle<T>, ghost born: nat, ghost snapshot: seq<T>)
      ensures this.handle == handle && reader == Reader(handle, born, snapshot)
    {
      this.handle := handle;
      reader := Reader(handle, born, snapshot);
    }

    /** The view belongs to the vector and was registered when it was created. */
    ghost predicate ViewOf(owner: Vector<T>)
      reads owner, owner.ctr, owner.vec, set r | r in owner.readers :: r.handle.ctr
    {
      owner.Valid() && reader in owner.readers && reader.handle == handle
    }

    method GetAt(index: u32, ghost owner: Vector<T>) returns (r: Result<T>)
      requires ViewOf(owner)
      ensures r == if Stale(reader, owner) then Err(ChangedState)
                   else if index < |reader.snapshot| then Ok(reader.snapshot[index]) else Err(OutOfBounds)
    {
      CounterTellsStaleness(reader, owner);
      if !Unchanged(handle) {
        return Err(ChangedState);
      }
      if !(index < |handle.vec.items|) {
        return Err(OutOfBounds);
      }
      r := Ok(handle.vec.items[index]);
    }

    method Size(ghost owner: Vector<T>) returns (r: Result<u32>)
      requires ViewOf(owner)
      ensures r == if Stale(reader, owner) then Err(ChangedState) else Ok(|reader.snapshot|)
      ensures r.Ok? ==> r.value <= SIZE_MAX
    {
      CounterTellsStaleness(reader, owner);
      if !Unchanged(handle) {
        return Err(ChangedState);
      }
      r := Ok(|handle.vec.items|);
    }

    method GetMany(start: u32, dest: array<T>, ghost owner: Vector<T>) returns (r: Result<u32>)
      requires ViewOf(owner) && dest.Length <= COUNTER_MAX
      modifies dest
      ensures Stale(reader, owner) ==> r == Err(ChangedState)
      ensures !Stale(reader, owner) && start > |reader.snapshot| ==> r == Err(OutOfBounds)
      ensures !Stale(reader, owner) && start <= |reader.snapshot| ==>
                && r == Ok(if |reader.snapshot| - start < dest.Length then |reader.snapshot| - start else dest.Length)
                && dest[..r.value] == reader.snapshot[start..start + r.value]
      ensures r.Err? ==> dest[..] == old(dest[..])
      ensures r.Ok? ==> r.value <= dest.Length && dest[r.value..] == old(dest[r.value..])
    {
      CounterTellsStaleness(reader, owner);
      if !Unchanged(handle) {
        return Err(ChangedState);
      }
      if !(start <= |handle.vec.items|) {
        return Err(OutOfBounds);
      }
      var n := VectorGetMany(handle.vec.items, start, dest);
      r := Ok(n);
    }

    method First(ghost owner: Vector<T>) returns (r: Result<VectorIterator<T>>)
      requires ViewOf(owner)
      modifies owner`readers
      ensures owner.Valid() && old(owner.readers) <= owner.readers
      ensures Stale(reader, owner) ==> r == Err(ChangedState)
      ensures !Stale(reader, owner) ==>
                && r.Ok? && r.value.IteratorOf(owner) && r.value.index == 0 && fresh(r.value)
                && r.value.reader.snapshot == reader.snapshot && !Stale(r.value.reader, owner)
    {
      CounterTellsStaleness(reader, owner);
      assert owner.Tracks(reader);
      if !Unchanged(handle) {
        return Err(ChangedState);
      }
      var iter := new VectorIterator(Handle(handle.ctr, handle.vec, handle.ctr.n), owner.attempts, handle.vec.items);
      owner.readers := owner.readers + {iter.reader};
      r := Ok(iter);
    }
  }

  class VectorIterator<T(0)> {
    const handle: Handle<T>
    ghost const reader: Reader<T>
    var index: u32

    constructor (handle: Handle<T>, ghost born: nat, ghost snapshot: seq<T>)
      ensures this.handle == handle && reader == Reader(handle, born, snapshot) && index == 0
    {
      this.handle := handle;
      reader := Reader(handle, born, snapshot);
      index := 0;
    }

    /** The index never passes the end of what the iterator walks over. */
    ghost predicate Consistent()
      reads this
    {
      index <= |reader.snapshot| <= SIZE_MAX
    }

    ghost predicate IteratorOf(owner: Vector<T>)
      reads this, owner, owner.ctr, owner.vec, set r | r in owner.readers :: r.handle.ctr
    {
      owner.Valid() && reader in owner.readers && reader.handle == handle && Consistent()
    }

    method Current(ghost owner: Vector<T>) returns (r: Result<T>)
      requires IteratorOf(owner)
      ensures r == if Stale(reader, owner) then Err(ChangedState)
                   else if index < |reader.snapshot| then Ok(reader.snapshot[index]) else Err(OutOfBounds)
    {
      CounterTellsStaleness(reader, owner);
      if !Unchanged(handle) {
        return Err(ChangedState);
      }
      if !(index < |handle.vec.items|) {
        return Err(OutOfBounds);
      }
      r := Ok(handle.vec.items[index]);
    }

    method HasCurrent(ghost owner: Vector<T>) returns (r: Result<bool>)
      requires IteratorOf(owner)
      ensures r == if Stale(reader, owner) then Err(ChangedState) else Ok(index < |reader.snapshot|)
    {
      CounterTellsStaleness(reader, owner);
      if !Unchanged(handle) {
        return Err(ChangedState);
      }
      r := Ok(index < |handle.vec.items|);
    }

    method MoveNext(ghost owner: Vector<T>) returns (r: Result<bool>)
      requires IteratorOf(owner)
      modifies this`index
      ensures IteratorOf(owner)
      ensures r == if Stale(reader, owner) then Err(ChangedState)
                   else if old(index) < |reader.snapshot| then Ok(index < |reader.snapshot|) else Err(OutOfBounds)
      ensures index == if r.Ok? then old(index) + 1 else old(index)
    {
      CounterTellsStaleness(reader, owner);
      if !Unchanged(handle) {
        return Err(ChangedState);
      }
      if !(index < |handle.vec.items|) {
        return Err(OutOfBounds);
      }
      index := index + 1;
      r := Ok(index < |handle.vec.items|);
    }

    method GetMany(dest: array<T>, ghost owner: Vector<T>) returns (r: Result<u32>)
      requires IteratorOf(owner) && dest.Length <= COUNTER_MAX
      modifies this`index, dest
      ensures IteratorOf(owner)
      ensures Stale(reader, owner) ==> r == Err(ChangedState) && index == old(index)
      ensures !Stale(reader, owner) ==>
                && r.Ok? && r.value <= dest.Length && index == old(index) + r.value
                && (index == |reader.snapshot| || r.value == dest.Length)
                && dest[..r.value] == reader.snapshot[old(index)..index]
      ensures r.Err? ==> dest[..] == old(dest[..])
      ensures r.Ok? ==> r.value <= dest.Length && dest[r.value..] == old(dest[r.value..])
    {
      CounterTellsStaleness(reader, owner);
      if !Unchanged(handle) {
        return Err(ChangedState);
      }
      var actual := VectorGetMany(handle.vec.items, index, dest);
      index := index + actual;
      r := Ok(actual);
    }
  }

  /** to_vector: copies out of a view block by block; on a current view it gets everything. */
  method ToVector<T(0)>(view: VectorView<T>, ghost owner: Vector<T>) returns (r: Result<seq<T>>)
    requires view.ViewOf(owner)
    ensures r == if Stale(view.reader, owner) then Err(ChangedState) else Ok(view.reader.snapshot)
  {
    var sized := view.Size(owner);
    if sized.Err? {
      return Err(sized.error);
    }
    var size: u32 := sized.value;
    var result: seq<T> := [];
    var actual: u32 := 0;
    while actual < size
      invariant actual <= size && result == view.reader.snapshot[..actual]
    {
      var arr := new T[size - actual];
      var got := view.GetMany(actual, arr, owner);
      assert got.Ok?;
      if got.value == 0 {
        return Err(Failure);
      }
      result := result + arr[..got.value];
      actual := actual + got.value;
    }
    assert view.reader.snapshot[..size] == view.reader.snapshot;
    r := Ok(result);
  }

  /** Walking an iterator from where it stands to the end. */
  method Walk<T(0)>(iter: VectorIterator<T>, ghost owner: Vector<T>) returns (r: Result<seq<T>>)
    requires iter.IteratorOf(owner)
    modifies iter
    ensures iter.IteratorOf(owner) && iter.index == if r.Ok? then |iter.reader.snapshot| else old(iter.index)
    ensures r == if Stale(iter.reader, owner) then Err(ChangedState) else Ok(iter.reader.snapshot[old(iter.index)..])
  {
    ghost var start := iter.index;
    var result: seq<T> := [];
    var more := iter.HasCurrent(owner);
    while more.Ok? && more.value
      invariant start <= iter.index && iter.IteratorOf(owner)
      invariant Stale(iter.reader, owner) ==> iter.index == start
      invariant result == iter.reader.snapshot[start..iter.index]
      invariant more == if Stale(iter.reader, owner) then Err(ChangedState) else Ok(iter.index < |iter.reader.snapshot|)
      decreases |iter.reader.snapshot| - iter.index
    {
      var x := iter.Current(owner);
      assert x.Ok?;
      result := result + [x.value];
      more := iter.MoveNext(owner);
    }
    if more.Err? {
      return Err(more.error);
    }
    assert iter.reader.snapshot[start..iter.index] == iter.reader.snapshot[start..];
    r := Ok(result);
  }

  // ---- whole runs ----

  datatype Event<T> = Mutating(m: Mutation<T>) | TakingView | TakingIterator

  function Mutations<T>(events: seq<Event<T>>): nat
  {
    if events == [] then 0
    else Mutations(events[..|events| - 1]) + if events[|events| - 1].Mutating? then 1 else 0
  }

  function ContentsAfter<T>(events: seq<Event<T>>, s: seq<T>): seq<T>
  {
    if events == [] then s
    else
      var before := ContentsAfter(events[..|events| - 1], s);
      var last := events[|events| - 1];
      if last.Mutating? then Contents(last.m, before) else before
  }

  /** Runs compose; one without mutations changes nothing, and only such a run attempts none. */
  lemma {:induction false} RunsCompose<T>(first: seq<Event<T>>, second: seq<Event<T>>, s: seq<T>)
    ensures ContentsAfter(first + second, s) == ContentsAfter(second, ContentsAfter(first, s))
    ensures Mutations(first + second) == Mutations(first) + Mutations(second)
    ensures Mutations(second) == 0 <==> forall k :: 0 <= k < |second| ==> !second[k].Mutating?
    ensures Mutations(second) == 0 ==> ContentsAfter(second, s) == s
    decreases |second|
  {
    if second == [] {
      assert first + second == first;
    } else {
      var n := |second| - 1;
      RunsCompose(first, second[..n], s);
      assert (first + second)[..|first + second| - 1] == first + second[..n];
    }
  }

  /** A run of one event: a mutation that succeeds or leaves the contents alone, or a reader. */
  lemma SingleEvent<T>(e: Event<T>, s: seq<T>)
    ensures Mutations([e]) == if e.Mutating? then 1 else 0
    ensures ContentsAfter([e], s) == if e.Mutating? && Apply(e.m, s).Ok? then Apply(e.m, s).value else s
  {
    assert [e][..0] == [];
  }

  /** Any run keeps every reader, old or new, tracked. */
  method Run<T(0)>(v: Vector<T>, events: seq<Event<T>>)
    requires v.Valid()
    modifies v, v.ctr, v.vec
    ensures v.Valid() && v.vec == old(v.vec) && (v.ctr == old(v.ctr) || fresh(v.ctr))
    ensures old(v.readers) <= v.readers
    ensures v.attempts == old(v.attempts) + Mutations(events)
    ensures v.vec.items == ContentsAfter(events, old(v.vec.items))
  {
    for i := 0 to |events|
      invariant v.Valid() && v.vec == old(v.vec) && (v.ctr == old(v.ctr) || fresh(v.ctr))
      invariant old(v.readers) <= v.readers
      invariant v.attempts == old(v.attempts) + Mutations(events[..i])
      invariant v.vec.items == ContentsAfter(events[..i], old(v.vec.items))
    {
      assert events[..i + 1][..i] == events[..i];
      match events[i]
      case Mutating(m) =>
        var _ := v.Mutate(m);
      case TakingView =>
        var _ := v.GetView();
      case TakingIterator =>
        var _ := v.First();
    }
    assert events[..|events|] == events;
  }

  /**
    The safety claim: after any run, reading through a view created before it fails with ChangedState exactly
    when the run, or anything between the view and the run, attempted a mutation; otherwise the read
    succeeds or fails by its index alone, on the contents of the moment the view was created.
   */
  method ReadAfterRun<T(0)>(v: Vector<T>, view: VectorView<T>, events: seq<Event<T>>, index: u32) returns (r: Result<T>)
    requires view.ViewOf(v)
    modifies v, v.ctr, v.vec
    ensures view.ViewOf(v) && v.vec == old(v.vec) && (v.ctr == old(v.ctr) || fresh(v.ctr))
    ensures r == if old(Stale(view.reader, v)) || Mutations(events) > 0 then Err(ChangedState)
                 else if index < |view.reader.snapshot| then Ok(view.reader.snapshot[index]) else Err(OutOfBounds)
  {
    assert v.Tracks(view.reader);
    Run(v, events);
    r := view.GetAt(index, v);
  }

  method WalkAfterRun<T(0)>(v: Vector<T>, iter: VectorIterator<T>, events: seq<Event<T>>) returns (r: Result<seq<T>>)
    requires iter.IteratorOf(v)
    modifies v, v.ctr, v.vec, iter
    ensures iter.IteratorOf(v) && v.vec == old(v.vec) && (v.ctr == old(v.ctr) || fresh(v.ctr))
    ensures r == if old(Stale(iter.reader, v)) || Mutations(events) > 0 then Err(ChangedState)
                 else Ok(iter.reader.snapshot[old(iter.index)..])
  {
    assert v.Tracks(iter.reader);
    Run(v, events);
    r := Walk(iter, v);
  }

  /**
    The whole history of a read: a view taken after any run and read after any further one sees the contents
    between the two runs, or fails exactly when the second one attempted a mutation.
   */
  method ReadBetweenRuns<T(0)>(v: Vector<T>, before: seq<Event<T>>, after: seq<Event<T>>, index: u32)
    returns (r: Result<T>)
    requires v.Valid()
    modifies v, v.ctr, v.vec
    ensures var s := ContentsAfter(before, old(v.vec.items));
            r == if Mutations(after) > 0 then Err(ChangedState)
                 else if index < |s| then Ok(s[index]) else Err(OutOfBounds)
  {
    Run(v, before);
    var view := v.GetView();
    r := ReadAfterRun(v, view, after, index);
  }

  method WalkBetweenRuns<T(0)>(v: Vector<T>, before: seq<Event<T>>, after: seq<Event<T>>) returns (r: Result<seq<T>>)
    requires v.Valid()
    modifies v, v.ctr, v.vec
    ensures r == if Mutations(after) > 0 then Err(ChangedState) else Ok(ContentsAfter(before, old(v.vec.items)))
  {
    Run(v, before);
    var iter := v.First();
    r := WalkAfterRun(v, iter, after);
  }

  /** The same for an iterator obtained from a view, and for copying a view out. */
  method WalkViewBetweenRuns<T(0)>(v: Vector<T>, before: seq<Event<T>>, after: seq<Event<T>>)
    returns (r: Result<seq<T>>)
    requires v.Valid()
    modifies v, v.ctr, v.vec
    ensures r == if Mutations(after) > 0 then Err(ChangedState) else Ok(ContentsAfter(before, old(v.vec.items)))
  {
    Run(v, before);
    var view := v.GetView();
    var iter := view.First(v);
    assert iter.Ok?;
    r := WalkAfterRun(v, iter.value, after);
  }

  method CopyBetweenRuns<T(0)>(v: Vector<T>, before: seq<Event<T>>, after: seq<Event<T>>) returns (r: Result<seq<T>>)
    requires v.Valid()
    modifies v, v.ctr, v.vec
    ensures r == if Mutations(after) > 0 then Err(ChangedState) else Ok(ContentsAfter(before, old(v.vec.items)))
  {
    Run(v, before);
    var view := v.GetView();
    assert v.Tracks(view.reader);
    Run(v, after);
    r := ToVector(view, v);
  }
}
