/** Format arguments packed at running offsets in one byte buffer, and read back by their tags. */
module FormatArgs {
  import opened Arith
  import opened Bits
  import opened MachineTypes

  /** The first offset that the 60-bit index field cannot hold. */
  const INDEX_LIMIT: int := 0x1000_0000_0000_0000

  /** The character type of the formatting context: char, signed or not, or wchar_t. */
  datatype CharKind = SignedChar | UnsignedChar | WideChar
  {
    function Size(): nat
    {
      if this == WideChar then 2 else 1
    }

    predicate InRange(c: int)
    {
      match this
      case SignedChar => -0x80 <= c < 0x80
      case UnsignedChar => 0 <= c < 0x100
      case WideChar => 0 <= c < 0x1_0000
    }
  }

  /** An argument as the caller passes it. Pointers are addresses; floating values are their bit patterns. */
  datatype Raw =
    | RawBool(b: bool)
    | RawChar(c: int)
    | RawNarrowChar(c: int)
    | RawSigned(size: nat, v: int)
    | RawUnsigned(size: nat, v: int)
    | RawFloat(bits32: u32)
    | RawDouble(bits64: u64)
    | RawLongDouble(bits64: u64)
    | RawString(address: u64, length: u64)
    | RawCString(address: u64)
    | RawPointer(address: u64)
    | RawNullPointer
    | RawUserType(address: u64, formatter: u64)

  /** How many values an integer type of this many bytes has. */
  function Modulus(size: nat): int
  {
    if size == 1 then 0x100 else if size == 2 then 0x1_0000 else if size == 4 then BASE else BASE64
  }

  ghost predicate RawValid(kind: CharKind, raw: Raw)
  {
    match raw
    case RawChar(c) => kind.InRange(c)
    case RawNarrowChar(c) => kind == WideChar && -0x80 <= c < 0x100
    case RawSigned(size, v) => size in {1, 2, 4, 8} && -Modulus(size) / 2 <= v < Modulus(size) / 2
    case RawUnsigned(size, v) => size in {1, 2, 4, 8} && 0 <= v < Modulus(size)
    case _ => true
  }

  /** A type-erased argument; None is the empty one. */
  datatype Arg =
    | None
    | Int(i: i32)
    | UInt(u: u32)
    | LongLong(ll: i64)
    | ULongLong(ull: u64)
    | Bool(b: bool)
    | Char(c: int)
    | Float(bits32: u32)
    | Double(bits64: u64)
    | LongDouble(bits64: u64)
    | Pointer(address: u64)
    | CString(address: u64)
    | String(address: u64, length: u64)
    | Custom(address: u64, formatter: u64)

  ghost predicate ArgValid(kind: CharKind, a: Arg)
  {
    a != None && (a.Char? ==> kind.InRange(a.c))
  }

  /** What an integral argument is worth. */
  function IntegralValue(a: Arg): int
  {
    match a
    case Int(i) => i
    case UInt(u) => u
    case LongLong(ll) => ll
    case ULongLong(ull) => ull
    case _ => 0
  }

  // ---- erasing the type ----

  function Erase(kind: CharKind, raw: Raw): (a: Arg)
    requires RawValid(kind, raw)
    ensures ArgValid(kind, a)
    ensures raw.RawSigned? || raw.RawUnsigned? ==> IntegralValue(a) == raw.v
    ensures raw.RawChar? ==> a == Char(raw.c)
    ensures raw.RawNarrowChar? ==> a == Char(raw.c % 0x100)
    ensures raw.RawSigned? ==> a.Int? || a.LongLong?
    ensures raw.RawUnsigned? ==> a.UInt? || a.ULongLong?
  {
    match raw
    case RawBool(b) => Bool(b)
    case RawChar(c) => Char(c)
    case RawNarrowChar(c) => Char(c % 0x100)
    case RawSigned(size, v) => if size <= 4 then Int(v) else LongLong(v)
    case RawUnsigned(size, v) => if size <= 4 then UInt(v) else ULongLong(v)
    case RawFloat(bits) => Float(bits)
    case RawDouble(bits) => Double(bits)
    case RawLongDouble(bits) => LongDouble(bits)
    case RawString(address, length) => String(address, length)
    case RawCString(address) => CString(address)
    case RawPointer(address) => Pointer(address)
    case RawNullPointer => Pointer(0)
    case RawUserType(address, formatter) => Custom(address, formatter)
  }

  // ---- object representations ----

  lemma HigherBytes(n: nat, width: nat)
    requires width > 0 && n < Pow2(8 * width)
    ensures n / 0x100 < Pow2(8 * (width - 1))
  {
    hide Pow2;
    assert 8 + 8 * (width - 1) == 8 * width;
    Pow2Add(8, 8 * (width - 1));
    WordSizes();
  }

  /** The value as little-endian bytes. */
  function Bytes(n: nat, width: nat): (b: seq<byte>)
    requires n < Pow2(8 * width)
    ensures |b| == width
  {
    if width == 0 then []
    else
      HigherBytes(n, width);
      [n % 0x100] + Bytes(n / 0x100, width - 1)
  }

  function Number(b: seq<byte>): (n: nat)
  {
    if b == [] then 0 else b[0] + 0x100 * Number(b[1..])
  }

  lemma {:induction false} NumberOfBytes(n: nat, width: nat)
    requires n < Pow2(8 * width)
    ensures Number(Bytes(n, width)) == n
  {
    hide Pow2;
    WordSizes();
    if width > 0 {
      HigherBytes(n, width);
      NumberOfBytes(n / 0x100, width - 1);
      assert Bytes(n, width)[1..] == Bytes(n / 0x100, width - 1);
    }
  }

  lemma NextByte(n: nat, k: nat)
    requires k > 0
    ensures n / Pow2(8 * k) == n / 0x100 / Pow2(8 * (k - 1))
  {
    hide Pow2;
    WordSizes();
    assert 8 + 8 * (k - 1) == 8 * k;
    Pow2Add(8, 8 * (k - 1));
    DivTwice(n, 0x100, Pow2(8 * (k - 1)));
  }

  /** The bytes come lowest first. */
  lemma {:induction false} ByteOfNumber(n: nat, width: nat, k: nat)
    requires n < Pow2(8 * width) && k < width
    ensures Bytes(n, width)[k] == n / Pow2(8 * k) % 0x100
  {
    hide Pow2;
    HigherBytes(n, width);
    if k > 0 {
      ByteOfNumber(n / 0x100, width - 1, k - 1);
      NextByte(n, k);
    } else {
      WordSizes();
    }
  }

  lemma {:induction false} NumberBelow(b: seq<byte>)
    ensures Number(b) < Pow2(8 * |b|)
  {
    hide Pow2;
    WordSizes();
    if b != [] {
      NumberBelow(b[1..]);
      Pow2Add(8, 8 * (|b| - 1));
    }
  }

  function Type(a: Arg): (t: nat)
    ensures t < 14 && (t == 0 <==> a == None)
  {
    match a
    case None => 0
    case Int(_) => 1
    case UInt(_) => 2
    case LongLong(_) => 3
    case ULongLong(_) => 4
    case Bool(_) => 5
    case Char(_) => 6
    case Float(_) => 7
    case Double(_) => 8
    case LongDouble(_) => 9
    case Pointer(_) => 10
    case CString(_) => 11
    case String(_, _) => 12
    case Custom(_, _) => 13
  }

  /** The size of a stored argument of each type. */
  function SizeOf(kind: CharKind, t: nat): nat
  {
    if t in {1, 2, 7} then 4
    else if t in {3, 4, 8, 9, 10, 11} then 8
    else if t == 5 then 1
    else if t == 6 then kind.Size()
    else if t in {12, 13} then 16
    else 0
  }

  /** Two's complement. */
  function Wrap(v: int, modulus: int): int
  {
    if v < 0 then v + modulus else v
  }

  function Unwrap(u: int, modulus: int): int
  {
    if 2 * u >= modulus then u - modulus else u
  }

  function Dword(x: u32): (b: seq<byte>)
    ensures |b| == 4
  {
    WordSizes();
    Bytes(x, 4)
  }

  function Qword(x: u64): (b: seq<byte>)
    ensures |b| == 8
  {
    WordSizes();
    Bytes(x, 8)
  }

  function CharBytes(kind: CharKind, c: int): (b: seq<byte>)
    requires kind.InRange(c)
    ensures |b| == kind.Size()
  {
    WordSizes();
    Bytes(if kind == WideChar then c else Wrap(c, 0x100), kind.Size())
  }

  function Encode(kind: CharKind, a: Arg): (b: seq<byte>)
    requires ArgValid(kind, a)
    ensures |b| == SizeOf(kind, Type(a))
  {
    match a
    case None => []
    case Int(i) => Dword(Wrap(i, BASE))
    case UInt(u) => Dword(u)
    case LongLong(ll) => Qword(Wrap(ll, BASE64))
    case ULongLong(ull) => Qword(ull)
    case Bool(b) => [if b then 1 else 0]
    case Char(c) => CharBytes(kind, c)
    case Float(bits) => Dword(bits)
    case Double(bits) => Qword(bits)
    case LongDouble(bits) => Qword(bits)
    case Pointer(address) => Qword(address)
    case CString(address) => Qword(address)
    case String(address, length) => Qword(address) + Qword(length)
    case Custom(address, formatter) => Qword(address) + Qword(formatter)
  }

  function FromDword(b: seq<byte>): u32
    requires |b| == 4
  {
    NumberBelow(b);
    WordSizes();
    Number(b)
  }

  function FromQword(b: seq<byte>): u64
    requires |b| == 8
  {
    NumberBelow(b);
    WordSizes();
    Number(b)
  }

  /** The bytes of a stored argument taken as a value of its type. */
  function Decode(kind: CharKind, t: nat, b: seq<byte>): Arg
    requires |b| == SizeOf(kind, t)
  {
    match t
    case 1 => Int(Unwrap(FromDword(b), BASE))
    case 2 => UInt(FromDword(b))
    case 3 => LongLong(Unwrap(FromQword(b), BASE64))
    case 4 => ULongLong(FromQword(b))
    case 5 => Bool(b[0] != 0)
    case 6 => Char(if kind == SignedChar then Unwrap(b[0], 0x100) else Number(b))
    case 7 => Float(FromDword(b))
    case 8 => Double(FromQword(b))
    case 9 => LongDouble(FromQword(b))
    case 10 => Pointer(FromQword(b))
    case 11 => CString(FromQword(b))
    case 12 => String(FromQword(b[..8]), FromQword(b[8..]))
    case 13 => Custom(FromQword(b[..8]), FromQword(b[8..]))
    case _ => None
  }

  lemma WordsBack(x: u32, y: u64, z: u64)
    ensures FromDword(Dword(x)) == x && FromQword(Qword(y)) == y
    ensures (Qword(y) + Qword(z))[..8] == Qword(y) && (Qword(y) + Qword(z))[8..] == Qword(z)
  {
    WordSizes();
    NumberOfBytes(x, 4);
    NumberOfBytes(y, 8);
  }

  lemma CharBack(kind: CharKind, c: int)
    requires kind.InRange(c)
    ensures Decode(kind, 6, CharBytes(kind, c)) == Char(c)
  {
    hide Pow2;
    WordSizes();
    if kind == WideChar {
      NumberOfBytes(c, 2);
    } else {
      NumberOfBytes(Wrap(c, 0x100), 1);
    }
  }

  lemma PairBack(kind: CharKind, a: Arg)
    requires a.String? || a.Custom?
    ensures Decode(kind, Type(a), Encode(kind, a)) == a
  {
    hide Dword, Qword, FromDword, FromQword, CharBytes, Number;
    var x, y := a.address, if a.String? then a.length else a.formatter;
    WordsBack(0, x, y);
    WordsBack(0, y, 0);
  }

  /** Reading an argument's bytes by its tag gives the argument. */
  lemma DecodeEncode(kind: CharKind, a: Arg)
    requires ArgValid(kind, a)
    ensures Decode(kind, Type(a), Encode(kind, a)) == a
  {
    hide Dword, Qword, FromDword, FromQword, CharBytes, Number;
    match a
    case Int(i) => WordsBack(Wrap(i, BASE), 0, 0);
    case UInt(u) => WordsBack(u, 0, 0);
    case LongLong(ll) => WordsBack(0, Wrap(ll, BASE64), 0);
    case ULongLong(ull) => WordsBack(0, ull, 0);
    case Bool(_) =>
    case Char(c) => CharBack(kind, c);
    case Float(bits) => WordsBack(bits, 0, 0);
    case Double(bits) => WordsBack(0, bits, 0);
    case LongDouble(bits) => WordsBack(0, bits, 0);
    case Pointer(address) => WordsBack(0, address, 0);
    case CString(address) => WordsBack(0, address, 0);
    case String(_, _) => PairBack(kind, a);
    case Custom(_, _) => PairBack(kind, a);
  }

  lemma {:induction false} NumberOfPair(a: seq<byte>, b: seq<byte>)
    ensures Number(a + b) == Number(a) + Pow2(8 * |a|) * Number(b)
  {
    hide Pow2;
    WordSizes();
    if a == [] {
      assert a + b == b;
    } else {
      NumberOfPair(a[1..], b);
      assert (a + b)[1..] == a[1..] + b;
      Pow2Add(8, 8 * (|a| - 1));
      Associate(0x100, Pow2(8 * (|a| - 1)), Number(b));
    }
  }

  lemma NumberOfByte(x: byte)
    ensures Number([x]) == x
  {
    assert Number([]) == 0;
  }

  lemma NumberOfWords(x: u64, y: u64)
    ensures Number(Qword(x) + Qword(y)) == x + BASE64 * y
  {
    hide Pow2;
    WordSizes();
    NumberOfBytes(x, 8);
    NumberOfBytes(y, 8);
    NumberOfPair(Qword(x), Qword(y));
  }

  /** The stored bytes are the value in two's complement, or two words one after the other. */
  lemma EncodedNumber(kind: CharKind, a: Arg)
    requires ArgValid(kind, a)
    ensures Number(Encode(kind, a)) ==
            match a
            case None => 0
            case Int(i) => if i < 0 then i + 0x1_0000_0000 else i
            case UInt(u) => u
            case LongLong(ll) => if ll < 0 then ll + 0x1_0000_0000_0000_0000 else ll
            case ULongLong(ull) => ull
            case Bool(b) => if b then 1 else 0
            case Char(c) => if c < 0 then c + 0x100 else c
            case Float(bits) => bits
            case Double(bits) => bits
            case LongDouble(bits) => bits
            case Pointer(address) => address
            case CString(address) => address
            case String(address, length) => address + 0x1_0000_0000_0000_0000 * length
            case Custom(address, formatter) => address + 0x1_0000_0000_0000_0000 * formatter
  {
    hide Pow2, Bytes, Number;
    WordSizes();
    match a
    case Int(i) => NumberOfBytes(Wrap(i, BASE), 4);
    case UInt(u) => NumberOfBytes(u, 4);
    case LongLong(ll) => NumberOfBytes(Wrap(ll, BASE64), 8);
    case ULongLong(ull) => NumberOfBytes(ull, 8);
    case Bool(b) => NumberOfByte(if b then 1 else 0);
    case Char(c) => NumberOfBytes(if kind == WideChar then c else Wrap(c, 0x100), kind.Size());
    case Float(bits) => NumberOfBytes(bits, 4);
    case Double(bits) => NumberOfBytes(bits, 8);
    case LongDouble(bits) => NumberOfBytes(bits, 8);
    case Pointer(address) => NumberOfBytes(address, 8);
    case CString(address) => NumberOfBytes(address, 8);
    case String(address, length) => NumberOfWords(address, length);
    case Custom(address, formatter) => NumberOfWords(address, formatter);
  }

  /** The type and the bytes of the buffer that each kind of argument takes. */
  lemma StoredSizes(kind: CharKind, raw: Raw)
    requires RawValid(kind, raw)
    ensures Type(Erase(kind, raw)) ==
            match raw
            case RawBool(_) => 5
            case RawChar(_) => 6
            case RawNarrowChar(_) => 6
            case RawSigned(size, _) => if size == 8 then 3 else 1
            case RawUnsigned(size, _) => if size == 8 then 4 else 2
            case RawFloat(_) => 7
            case RawDouble(_) => 8
            case RawLongDouble(_) => 9
            case RawString(_, _) => 12
            case RawCString(_) => 11
            case RawPointer(_) => 10
            case RawNullPointer => 10
            case RawUserType(_, _) => 13
    ensures |Encode(kind, Erase(kind, raw))| == SizeOf(kind, Type(Erase(kind, raw)))
            == match raw
               case RawBool(_) => 1
               case RawChar(_) => if kind.WideChar? then 2 else 1
               case RawNarrowChar(_) => 2
               case RawSigned(size, _) => if size == 8 then 8 else 4
               case RawUnsigned(size, _) => if size == 8 then 8 else 4
               case RawFloat(_) => 4
               case RawString(_, _) => 16
               case RawUserType(_, _) => 16
               case _ => 8
  {
  }

  // ---- the packed layout ----

  /** One entry of the index array: 60 bits of offset and 4 bits of type. */
  datatype PackedIndex = PackedIndex(index: nat, tag: nat)

  /** Storing into the bit fields drops what does not fit. */
  function Pack(index: nat, tag: nat): PackedIndex
  {
    PackedIndex(index % INDEX_LIMIT, tag % 16)
  }

  /** Where argument i starts: the sum of the sizes before it. */
  function Offset(kind: CharKind, args: seq<Arg>, i: nat): (n: nat)
    requires i <= |args|
  {
    if i == 0 then 0 else Offset(kind, args, i - 1) + SizeOf(kind, Type(args[i - 1]))
  }

  /** Arguments lie one after the other, so they never overlap and end inside the buffer. */
  lemma {:induction false} OffsetsAscend(kind: CharKind, args: seq<Arg>, i: nat, j: nat)
    requires i < j <= |args|
    ensures Offset(kind, args, i) + SizeOf(kind, Type(args[i])) <= Offset(kind, args, j)
  {
    if i + 1 < j {
      OffsetsAscend(kind, args, i, j - 1);
    }
  }

  /** The index field keeps an offset exactly when the offset is below its limit. */
  lemma IndexFieldExact(offset: nat, tag: nat)
    requires tag < 14
    ensures Pack(offset, tag) == PackedIndex(offset, tag) <==> offset < 0x1000_0000_0000_0000
  {
    assert offset % INDEX_LIMIT < INDEX_LIMIT;
    if offset < INDEX_LIMIT {
      assert offset % INDEX_LIMIT == offset;
    }
  }

  ghost predicate Args(kind: CharKind, args: seq<Arg>)
  {
    && (forall i :: 0 <= i < |args| ==> ArgValid(kind, args[i]))
    && (|args| > 0 ==> Offset(kind, args, |args| - 1) < INDEX_LIMIT)
  }

  ghost predicate Stored(kind: CharKind, index: seq<PackedIndex>, storage: seq<byte>, args: seq<Arg>, i: nat)
    requires Args(kind, args) && |index| == |args| && |storage| == Offset(kind, args, |args|) && i < |args|
  {
    OffsetsAscend(kind, args, i, |args|);
    var at := Offset(kind, args, i);
    index[i] == PackedIndex(at, Type(args[i])) && storage[at..at + SizeOf(kind, Type(args[i]))] == Encode(kind, args[i])
  }

  /** The first k arguments are in place and the next one knows where to start. */
  ghost predicate Packed(kind: CharKind, index: seq<PackedIndex>, storage: seq<byte>, args: seq<Arg>, k: nat)
  {
    && Args(kind, args) && |index| == |args| && |storage| == Offset(kind, args, |args|) && k <= |args|
    && (forall i :: 0 <= i < k ==> Stored(kind, index, storage, args, i))
    && (k < |args| ==> index[k] == PackedIndex(Offset(kind, args, k), 0))
  }

  lemma SameSlice(s: seq<byte>, s': seq<byte>, n: nat, a: nat, b: nat)
    requires a <= b <= n <= |s| && n <= |s'| && s[..n] == s'[..n]
    ensures s[a..b] == s'[a..b]
  {
    assert s[a..b] == s[..n][a..b];
    assert s'[a..b] == s'[..n][a..b];
  }

  lemma EarlierStays(kind: CharKind, index: seq<PackedIndex>, storage: seq<byte>, args: seq<Arg>, i: nat, k: nat,
                     index': seq<PackedIndex>, storage': seq<byte>)
    requires Args(kind, args) && |index| == |args| == |index'| && |storage| == Offset(kind, args, |args|) == |storage'|
    requires i < k < |args| && Stored(kind, index, storage, args, i) && index'[i] == index[i]
    requires Offset(kind, args, k) <= |storage|
    requires storage'[..Offset(kind, args, k)] == storage[..Offset(kind, args, k)]
    ensures Stored(kind, index', storage', args, i)
  {
    hide Encode, Type, SizeOf, Args;
    OffsetsAscend(kind, args, i, k);
    var a := Offset(kind, args, i);
    SameSlice(storage, storage', Offset(kind, args, k), a, a + SizeOf(kind, Type(args[i])));
  }

  /** Writing the next argument's bytes and entry leaves the earlier arguments in place. */
  lemma StoreKeepsEarlier(kind: CharKind, index: seq<PackedIndex>, storage: seq<byte>, args: seq<Arg>, k: nat,
                          index': seq<PackedIndex>, storage': seq<byte>)
    requires Packed(kind, index, storage, args, k) && k < |args|
    requires |index'| == |index| && |storage'| == |storage|
    requires forall i :: 0 <= i < k ==> index'[i] == index[i]
    requires index'[k] == PackedIndex(Offset(kind, args, k), Type(args[k]))
    requires k + 1 < |args| ==> index'[k + 1] == PackedIndex(Offset(kind, args, k + 1), 0)
    requires var at := Offset(kind, args, k);
             at + SizeOf(kind, Type(args[k])) <= |storage|
             && storage'[..at] == storage[..at]
             && storage'[at..at + SizeOf(kind, Type(args[k]))] == Encode(kind, args[k])
    ensures Packed(kind, index', storage', args, k + 1)
  {
    hide Encode, Type, SizeOf, Args;
    var at := Offset(kind, args, k);
    forall i | 0 <= i < k + 1
      ensures Stored(kind, index', storage', args, i)
    {
      if i < k {
        assert Stored(kind, index, storage, args, i);
        EarlierStays(kind, index, storage, args, i, k, index', storage');
      }
    }
  }

  /** Each entry leads back to its argument. */
  lemma StoredDecodes(kind: CharKind, index: seq<PackedIndex>, storage: seq<byte>, args: seq<Arg>, i: nat)
    requires Packed(kind, index, storage, args, |args|) && i < |args|
    ensures var p := index[i];
            && p.index + SizeOf(kind, p.tag) <= |storage|
            && Decode(kind, p.tag, storage[p.index..p.index + SizeOf(kind, p.tag)]) == args[i]
  {
    assert Stored(kind, index, storage, args, i);
    OffsetsAscend(kind, args, i, |args|);
    DecodeEncode(kind, args[i]);
  }

  function Erased(kind: CharKind, raws: seq<Raw>): (args: seq<Arg>)
    requires forall i :: 0 <= i < |raws| ==> RawValid(kind, raws[i])
    ensures |args| == |raws| && forall i :: 0 <= i < |raws| ==> args[i] == Erase(kind, raws[i])
  {
    seq(|raws|, i requires 0 <= i < |raws| => Erase(kind, raws[i]))
  }

  /** Before the first store only the first entry matters. */
  lemma NothingPacked(kind: CharKind, index: seq<PackedIndex>, storage: seq<byte>, args: seq<Arg>)
    requires Args(kind, args) && |index| == |args| && |storage| == Offset(kind, args, |args|)
    requires |args| > 0 ==> index[0] == Pack(0, 0)
    ensures Packed(kind, index, storage, args, 0)
  {
  }

  class FormatArgStore {
    const kind: CharKind
    const indexArray: array<PackedIndex>
    const storage: array<byte>
    ghost var args: seq<Arg>

    ghost predicate Valid()
      reads this, indexArray, storage
    {
      Packed(kind, indexArray[..], storage[..], args, |args|)
    }

    method StoreImpl(argIndex: nat, argType: nat, bytes: seq<byte>)
      requires argIndex < indexArray.Length && argType < 14
      requires indexArray[argIndex].index + |bytes| <= storage.Length
      requires indexArray[argIndex].index < INDEX_LIMIT
      requires argIndex + 1 < indexArray.Length ==> indexArray[argIndex].index + |bytes| < INDEX_LIMIT
      modifies indexArray, storage
      ensures var at := old(indexArray[argIndex].index);
              && storage[..at] == old(storage[..at])
              && storage[at..at + |bytes|] == bytes
              && storage[at + |bytes|..] == old(storage[at + |bytes|..])
              && indexArray[argIndex] == PackedIndex(at, argType)
              && (argIndex + 1 < indexArray.Length ==> indexArray[argIndex + 1] == PackedIndex(at + |bytes|, 0))
      ensures forall i :: 0 <= i < indexArray.Length && i != argIndex && i != argIndex + 1
                          ==> indexArray[i] == old(indexArray[i])
    {
      var storeIndex := indexArray[argIndex].index;
      forall i | 0 <= i < |bytes| {
        storage[storeIndex + i] := bytes[i];
      }
      IndexFieldExact(storeIndex, argType);
      indexArray[argIndex] := Pack(storeIndex, argType);
      if argIndex + 1 < indexArray.Length {
        IndexFieldExact(storeIndex + |bytes|, 0);
        indexArray[argIndex + 1] := Pack(storeIndex + |bytes|, 0);
      }
    }

    method Store(argIndex: nat, val: Raw)
      requires argIndex < |args| && RawValid(kind, val) && args[argIndex] == Erase(kind, val)
      requires Packed(kind, indexArray[..], storage[..], args, argIndex)
      modifies indexArray, storage
      ensures Packed(kind, indexArray[..], storage[..], args, argIndex + 1)
    {
      hide Encode, SizeOf, Erase;
      ghost var index0, storage0 := indexArray[..], storage[..];
      var erased := Erase(kind, val);
      OffsetsAscend(kind, args, argIndex, |args|);
      if argIndex + 1 < |args| {
        OffsetsAscend(kind, args, argIndex, |args| - 1);
        if argIndex + 2 < |args| {
          OffsetsAscend(kind, args, argIndex + 1, |args| - 1);
        }
      }
      StoreImpl(argIndex, Type(erased), Encode(kind, erased));
      StoreKeepsEarlier(kind, index0, storage0, args, argIndex, indexArray[..], storage[..]);
    }

    constructor (kind: CharKind, raws: seq<Raw>)
      requires forall i :: 0 <= i < |raws| ==> RawValid(kind, raws[i])
      requires Args(kind, Erased(kind, raws))
      ensures Valid() && fresh(indexArray) && fresh(storage)
      ensures args == Erased(kind, raws) && this.kind == kind
    {
      hide Encode, SizeOf, Type, Erase, Packed, Offset, Args, Pack;
      this.kind := kind;
      var erased := Erased(kind, raws);
      args := erased;
      indexArray := new PackedIndex[|raws|];
      storage := new byte[Offset(kind, erased, |raws|)];
      new;
      if |raws| > 0 {
        indexArray[0] := Pack(0, 0);
      }
      NothingPacked(kind, indexArray[..], storage[..], erased);
      var argIndex := 0;
      while argIndex < |raws|
        invariant 0 <= argIndex <= |raws| && args == erased && this.kind == kind
        invariant Packed(kind, indexArray[..], storage[..], args, argIndex)
      {
        Store(argIndex, raws[argIndex]);
        argIndex := argIndex + 1;
      }
    }

    /** Reading by index gives back the argument with its type, and the empty argument past the end. */
    method Get(index: nat) returns (a: Arg)
      requires Valid()
      ensures a == if index < |args| then args[index] else None
    {
      if index >= indexArray.Length {
        return None;
      }
      var packedIndex := indexArray[index];
      StoredDecodes(kind, indexArray[..], storage[..], args, index);
      var at, size := packedIndex.index, SizeOf(kind, packedIndex.tag);
      a := Decode(kind, packedIndex.tag, storage[at..at + size]);
    }
  }

  /** Every argument comes back with the type it is stored as and the value it was passed with. */
  method RoundTrip(kind: CharKind, raws: seq<Raw>, index: nat) returns (a: Arg)
    requires forall i :: 0 <= i < |raws| ==> RawValid(kind, raws[i])
    requires Args(kind, Erased(kind, raws))
    ensures index >= |raws| <==> a == None
    ensures index < |raws| ==>
              match raws[index]
              case RawBool(b) => a == Bool(b)
              case RawChar(c) => a == Char(c)
              case RawNarrowChar(c) => a == Char(if c < 0 then c + 0x100 else c)
              case RawSigned(size, v) => if size <= 4 then a.Int? && a.i == v else a.LongLong? && a.ll == v
              case RawUnsigned(size, v) => if size <= 4 then a.UInt? && a.u == v else a.ULongLong? && a.ull == v
              case RawFloat(bits) => a == Float(bits)
              case RawDouble(bits) => a == Double(bits)
              case RawLongDouble(bits) => a == LongDouble(bits)
              case RawString(address, length) => a == String(address, length)
              case RawCString(address) => a == CString(address)
              case RawPointer(address) => a == Pointer(address)
              case RawNullPointer => a == Pointer(0)
              case RawUserType(address, formatter) => a == Custom(address, formatter)
  {
    var store := new FormatArgStore(kind, raws);
    a := store.Get(index);
  }
}
