/** The output buffers of formatting: every character pushed arrives once and in order, up to the limit if any. */
module FormatBuffer {
  const BUFFER_SIZE: int := 256

  /** Formatting to an iterator writes everything; format_to_n stops writing at its limit and goes on counting. */
  datatype Traits = Unlimited | Limited(limit: int)

  /** The first m characters, none when m is negative. */
  function Prefix<T>(s: seq<T>, m: int): (p: seq<T>)
    ensures p <= s && |p| == if m <= 0 then 0 else if m < |s| then m else |s|
  {
    if m <= 0 then [] else if m < |s| then s[..m] else s
  }

  /** How much of a chunk of this size may still be written after count characters. */
  function Allowed(limit: int, count: nat, size: nat): (n: nat)
    ensures n <= size
  {
    var avail := if limit > count then limit - count else 0;
    if size < avail then size else avail
  }

  /** Cutting each chunk to what is left cuts the whole text to the limit. */
  lemma ChunksTruncate<T>(flushed: seq<T>, chunk: seq<T>, limit: int)
    ensures Prefix(flushed, limit) + chunk[..Allowed(limit, |flushed|, |chunk|)] == Prefix(flushed + chunk, limit)
  {
    var left := Prefix(flushed, limit) + chunk[..Allowed(limit, |flushed|, |chunk|)];
    if limit <= |flushed| {
      assert left == Prefix(flushed, limit);
    }
  }

  /** What was pushed is what was flushed and then what waits in the buffer. */
  ghost predicate Conserved<T>(traits: Traits, waiting: seq<T>, count: nat, output: seq<T>, pushed: seq<T>)
  {
    && |waiting| <= |pushed|
    && var flushed := pushed[..|pushed| - |waiting|];
       && pushed == flushed + waiting
       && match traits
          case Unlimited => output == flushed
          case Limited(limit) => count == |flushed| && output == Prefix(flushed, limit)
  }

  lemma PushConserves<T>(traits: Traits, waiting: seq<T>, count: nat, output: seq<T>, pushed: seq<T>, value: T)
    requires Conserved(traits, waiting, count, output, pushed)
    ensures Conserved(traits, waiting + [value], count, output, pushed + [value])
  {
    var flushed := pushed[..|pushed| - |waiting|];
    assert (pushed + [value])[..|pushed| - |waiting|] == flushed;
    assert pushed + [value] == flushed + (waiting + [value]);
  }

  lemma FlushConserves<T>(traits: Traits, waiting: seq<T>, count: nat, output: seq<T>, pushed: seq<T>)
    requires Conserved(traits, waiting, count, output, pushed)
    ensures traits == Unlimited ==> Conserved(traits, [], count, output + waiting, pushed)
    ensures traits.Limited? ==> var n := Allowed(traits.limit, count, |waiting|);
                                Conserved(traits, [], count + |waiting|, output + waiting[..n], pushed)
  {
    assert pushed[..|pushed|] == pushed == pushed + [];
    if traits.Limited? {
      ChunksTruncate(pushed[..|pushed| - |waiting|], waiting, traits.limit);
    }
  }

  class IteratorBuffer<T(0)> {
    const traits: Traits
    const data: array<T>
    var size: nat
    var count: nat
    var output: seq<T>
    ghost var pushed: seq<T>

    ghost predicate Valid()
      reads this, data
    {
      data.Length == BUFFER_SIZE && size <= BUFFER_SIZE && Conserved(traits, data[..size], count, output, pushed)
    }

    constructor (traits: Traits)
      ensures Valid() && fresh(data) && pushed == [] && this.traits == traits
    {
      this.traits := traits;
      data := new T[BUFFER_SIZE];
      size, count, output, pushed := 0, 0, [], [];
    }

    method Limit(n: nat) returns (r: nat)
      modifies this`count
      ensures traits == Unlimited ==> r == n && count == old(count)
      ensures traits.Limited? ==> r == Allowed(traits.limit, old(count), n) && count == old(count) + n
    {
      if traits == Unlimited {
        return n;
      }
      r := Allowed(traits.limit, count, n);
      count := count + n;
    }

    method Flush()
      requires Valid()
      modifies this
      ensures Valid() && size == 0 && pushed == old(pushed)
    {
      hide Conserved;
      var n := size;
      size := 0;
      var end := Limit(n);
      ghost var waiting := data[..n];
      FlushConserves(traits, waiting, old(count), output, pushed);
      assert data[..end] == waiting[..end] && data[..size] == [];
      output := output + data[..end];
    }

    method Grow(capacity: nat)
      requires Valid()
      modifies this
      ensures Valid() && pushed == old(pushed) && size < BUFFER_SIZE
      ensures old(size) < BUFFER_SIZE ==> output == old(output) && size == old(size)
      ensures old(size) == BUFFER_SIZE ==> size == 0
    {
      if size == BUFFER_SIZE {
        Flush();
      }
    }

    method TryReserve(newCapacity: nat)
      requires Valid()
      modifies this
      ensures Valid() && pushed == old(pushed)
      ensures newCapacity > old(size) ==> size < BUFFER_SIZE
      ensures old(size) < BUFFER_SIZE ==> output == old(output) && size == old(size)
      ensures old(size) == BUFFER_SIZE < newCapacity ==> size == 0
    {
      if newCapacity > BUFFER_SIZE {
        Grow(newCapacity);
      }
    }

    method PushBack(value: T)
      requires Valid()
      modifies this, data
      ensures Valid() && pushed == old(pushed) + [value]
      ensures old(size) < 256 ==> output == old(output) && size == old(size) + 1
      ensures old(size) == 256 ==> size == 1
    {
      hide Conserved;
      TryReserve(size + 1);
      ghost var waiting := data[..size];
      PushConserves(traits, waiting, count, output, pushed, value);
      data[size] := value;
      size := size + 1;
      pushed := pushed + [value];
      assert data[..size] == waiting + [value];
    }

    /** Hands over everything pushed so far, or as much of it as the limit allows. */
    method Out() returns (r: seq<T>)
      requires Valid()
      modifies this
      ensures Valid() && pushed == old(pushed) && r == output
      ensures r == if traits.Limited? then Prefix(pushed, traits.limit) else pushed
    {
      Flush();
      assert pushed[..|pushed|] == pushed;
      r := output;
    }

    /** With a limit, the number of characters pushed, written or not. */
    method Count() returns (r: nat)
      requires Valid()
      ensures traits.Limited? ==> r == |pushed|
      ensures traits == Unlimited ==> r == size
    {
      r := (if traits == Unlimited then 0 else count) + size;
    }
  }

  /** The buffer of formatted_size: it forgets what it holds when full and remembers how much that was. */
  class CountingBuffer<T(0)> {
    const data: array<T>
    var size: nat
    var count: nat
    ghost var pushed: seq<T>

    ghost predicate Valid()
      reads this, data
    {
      data.Length == BUFFER_SIZE && size <= BUFFER_SIZE && count + size == |pushed|
    }

    constructor ()
      ensures Valid() && fresh(data) && pushed == []
    {
      data := new T[BUFFER_SIZE];
      size, count, pushed := 0, 0, [];
    }

    method PushBack(value: T)
      requires Valid()
      modifies this, data
      ensures Valid() && pushed == old(pushed) + [value]
    {
      if size + 1 > BUFFER_SIZE {
        if size == BUFFER_SIZE {
          count := count + size;
          size := 0;
        }
      }
      data[size] := value;
      size := size + 1;
      pushed := pushed + [value];
    }

    method Count() returns (r: nat)
      requires Valid()
      ensures r == |pushed|
    {
      r := count + size;
    }
  }

  /** Formatting with a limit writes the text cut to the limit and returns the length of the whole text. */
  method FormatToN<T(0)>(max: int, text: seq<T>) returns (out: seq<T>, size: nat)
    ensures out == if max <= 0 then [] else if max < |text| then text[..max] else text
    ensures size == |text|
  {
    var buf := new IteratorBuffer<T>(Limited(max));
    for i := 0 to |text|
      invariant buf.Valid() && buf.pushed == text[..i] && buf.traits == Limited(max) && fresh(buf) && fresh(buf.data)
    {
      buf.PushBack(text[i]);
    }
    assert text[..|text|] == text;
    out := buf.Out();
    size := buf.Count();
  }

  method FormatTo<T(0)>(text: seq<T>) returns (out: seq<T>)
    ensures out == text
  {
    var buf := new IteratorBuffer<T>(Unlimited);
    for i := 0 to |text|
      invariant buf.Valid() && buf.pushed == text[..i] && buf.traits == Unlimited && fresh(buf) && fresh(buf.data)
    {
      buf.PushBack(text[i]);
    }
    assert text[..|text|] == text;
    out := buf.Out();
  }

  method FormattedSize<T(0)>(text: seq<T>) returns (size: nat)
    ensures size == |text|
  {
    var buf := new CountingBuffer<T>();
    for i := 0 to |text|
      invariant buf.Valid() && buf.pushed == text[..i] && fresh(buf) && fresh(buf.data)
    {
      buf.PushBack(text[i]);
    }
    size := buf.Count();
  }
}
