/** Searching, comparing and moving character ranges: the portable paths of the string view operations. */
module StringSearch {
  import opened MachineTypes

  const NPOS: int := 0xFFFF_FFFF_FFFF_FFFF

  /** The conversion to unsigned char. */
  function ToByte(c: int): (b: int)
    ensures 0 <= b < 256
  {
    c % 256
  }

  /** Which character traits a range uses. The first three are handled by the library itself. */
  datatype Traits =
    | Narrow(signed: bool)
    | SignedChar
    | Wide
    | Custom(eq: (int, int) -> bool, lt: (int, int) -> bool)
  {
    predicate InRange(c: int)
    {
      match this
      case Narrow(signed) => if signed then -128 <= c < 128 else 0 <= c < 256
      case SignedChar => -128 <= c < 128
      case Wide => 0 <= c < 0x1_0000_0000
      case Custom(_, _) => true
    }

    predicate Eq(a: int, b: int)
    {
      if Custom? then eq(a, b) else a == b
    }

    /** Narrow characters are ordered as unsigned bytes. */
    predicate Lt(a: int, b: int)
    {
      match this
      case Narrow(_) => ToByte(a) < ToByte(b)
      case SignedChar => a < b
      case Wide => a < b
      case Custom(_, _) => lt(a, b)
    }
  }

  ghost predicate Text(t: Traits, s: seq<int>)
  {
    |s| < NPOS && forall k :: 0 <= k < |s| ==> t.InRange(s[k])
  }

  // ---- what the searches promise ----

  /** r is the least position in [from, bound) with the property, or NPOS exactly when there is none. */
  ghost predicate IsFirst(p: int -> bool, from: int, bound: int, r: int)
  {
    if exists i :: from <= i < bound && p(i) then
      from <= r < bound && p(r) && forall i :: from <= i < r ==> !p(i)
    else
      r == NPOS
  }

  /** r is the greatest position below bound with the property, or NPOS exactly when there is none. */
  ghost predicate IsLast(p: int -> bool, bound: int, r: int)
  {
    if exists i :: 0 <= i < bound && p(i) then
      0 <= r < bound && p(r) && forall i :: r < i < bound ==> !p(i)
    else
      r == NPOS
  }

  ghost predicate MatchAt(t: Traits, hay: seq<int>, needle: seq<int>, i: int)
  {
    0 <= i && i + |needle| <= |hay| && forall k :: 0 <= k < |needle| ==> t.Eq(hay[i + k], needle[k])
  }

  ghost predicate OneOf(t: Traits, needle: seq<int>, c: int)
  {
    exists k :: 0 <= k < |needle| && t.Eq(needle[k], c)
  }

  ghost function Matches(t: Traits, hay: seq<int>, needle: seq<int>): int -> bool
  {
    i => MatchAt(t, hay, needle, i)
  }

  ghost function Holding(t: Traits, hay: seq<int>, ch: int): int -> bool
  {
    i => 0 <= i < |hay| && t.Eq(hay[i], ch)
  }

  ghost function NotHolding(t: Traits, hay: seq<int>, ch: int): int -> bool
  {
    i => 0 <= i < |hay| && !t.Eq(hay[i], ch)
  }

  ghost function Among(t: Traits, hay: seq<int>, needle: seq<int>): int -> bool
  {
    i => 0 <= i < |hay| && OneOf(t, needle, hay[i])
  }

  ghost function Outside(t: Traits, hay: seq<int>, needle: seq<int>): int -> bool
  {
    i => 0 <= i < |hay| && !OneOf(t, needle, hay[i])
  }

  // ---- comparing ----

  /** Lexicographic order by the first difference, a proper prefix coming first. */
  function Order(t: Traits, a: seq<int>, b: seq<int>): int
  {
    if a == [] || b == [] then
      if |a| < |b| then -1 else if |a| > |b| then 1 else 0
    else if t.Eq(a[0], b[0]) then
      Order(t, a[1..], b[1..])
    else if t.Lt(a[0], b[0]) then -1 else 1
  }

  lemma {:induction false} OrderZero(t: Traits, a: seq<int>, b: seq<int>)
    ensures Order(t, a, b) == 0 <==> |a| == |b| && forall k :: 0 <= k < |a| ==> t.Eq(a[k], b[k])
  {
    if a != [] && b != [] && t.Eq(a[0], b[0]) {
      OrderZero(t, a[1..], b[1..]);
      if |a| == |b| {
        if forall k :: 0 <= k < |a[1..]| ==> t.Eq(a[1..][k], b[1..][k]) {
          forall k | 0 < k < |a| ensures t.Eq(a[k], b[k]) {
            assert t.Eq(a[1..][k - 1], b[1..][k - 1]);
          }
        } else {
          var k :| 0 <= k < |a[1..]| && !t.Eq(a[1..][k], b[1..][k]);
          assert !t.Eq(a[k + 1], b[k + 1]);
        }
      }
    }
  }

  /** For the library's own traits the order is zero on equal strings only. */
  lemma OrderIsEquality(t: Traits, a: seq<int>, b: seq<int>)
    requires !t.Custom?
    ensures Order(t, a, b) == 0 <==> a == b
  {
    OrderZero(t, a, b);
  }

  lemma {:induction false} OrderFlips(t: Traits, a: seq<int>, b: seq<int>)
    requires !t.Custom? && Text(t, a) && Text(t, b)
    ensures Order(t, a, b) == -Order(t, b, a)
  {
    if a != [] && b != [] {
      assert t.InRange(a[0]) && t.InRange(b[0]);
      if a[0] == b[0] {
        OrderFlips(t, a[1..], b[1..]);
      }
    }
  }

  /** Strings are totally ordered: with OrderIsEquality and OrderFlips. */
  lemma {:induction false} OrderTransitive(t: Traits, a: seq<int>, b: seq<int>, c: seq<int>)
    requires !t.Custom? && Text(t, a) && Text(t, b) && Text(t, c)
    requires Order(t, a, b) <= 0 && Order(t, b, c) <= 0
    ensures Order(t, a, c) <= 0
  {
    if a != [] && b != [] && c != [] {
      assert t.InRange(a[0]) && t.InRange(b[0]) && t.InRange(c[0]);
      if a[0] == b[0] == c[0] {
        OrderTransitive(t, a[1..], b[1..], c[1..]);
      }
    }
  }

  /** Comparing a common prefix first and the lengths after gives the lexicographic order. */
  lemma {:induction false} OrderByPrefix(t: Traits, a: seq<int>, b: seq<int>, n: nat)
    requires n == if |a| < |b| then |a| else |b|
    ensures var ans := Order(t, a[..n], b[..n]);
            Order(t, a, b) == if ans != 0 then ans else if |a| < |b| then -1 else if |a| > |b| then 1 else 0
  {
    if n > 0 {
      OrderByPrefix(t, a[1..], b[1..], n - 1);
      assert a[..n][1..] == a[1..][..n - 1] && b[..n][1..] == b[1..][..n - 1];
    }
  }

  /** The first difference decides: narrow characters compare as unsigned bytes, others as they are. */
  lemma FirstDifference(t: Traits, a: seq<int>, b: seq<int>, k: nat, count: nat)
    requires !t.Custom? && k < count <= |a| && count <= |b|
    requires (forall j :: 0 <= j < k ==> a[j] == b[j]) && a[k] != b[k]
    ensures a[..count] != b[..count]
    ensures t.Lt(a[k], b[k]) <==>
              exists j :: 0 <= j < count && a[..j] == b[..j]
                          && (if t.Narrow? then a[j] % 256 < b[j] % 256 else a[j] < b[j])
  {
    assert a[..count][k] != b[..count][k];
    forall j | k < j < count
      ensures a[..j] != b[..j]
    {
      assert a[..j][k] != b[..j][k];
    }
    assert a[..k] == b[..k];
  }

  lemma FirstCustomDifference(t: Traits, a: seq<int>, b: seq<int>, k: nat, count: nat)
    requires t.Custom? && k < count <= |a| && count <= |b|
    requires (forall j :: 0 <= j < k ==> t.eq(a[j], b[j])) && !t.eq(a[k], b[k])
    ensures t.lt(a[k], b[k]) <==>
              exists j :: 0 <= j < count && (forall i :: 0 <= i < j ==> t.eq(a[i], b[i]))
                          && !t.eq(a[j], b[j]) && t.lt(a[j], b[j])
  {
  }

  lemma NoDifference(t: Traits, a: seq<int>, b: seq<int>, count: nat)
    requires !t.Custom? && count <= |a| && count <= |b| && forall j :: 0 <= j < count ==> a[j] == b[j]
    ensures a[..count] == b[..count]
  {
  }

  lemma OrderFrom(t: Traits, a: seq<int>, b: seq<int>, k: nat, count: nat)
    requires k <= count <= |a| && count <= |b|
    ensures Order(t, a[k..count], b[k..count]) ==
            if k == count then 0
            else if t.Eq(a[k], b[k]) then Order(t, a[k + 1..count], b[k + 1..count])
            else if t.Lt(a[k], b[k]) then -1 else 1
  {
    if k < count {
      assert a[k..count][0] == a[k] && b[k..count][0] == b[k];
      assert a[k..count][1..] == a[k + 1..count] && b[k..count][1..] == b[k + 1..count];
    }
  }

  /** The traits' comparison: narrow characters compare as unsigned bytes, others as they are. */
  method Compare(t: Traits, a: seq<int>, b: seq<int>, count: size_t) returns (r: int)
    requires count <= |a| && count <= |b|
    ensures r == Order(t, a[..count], b[..count])
    ensures !t.Custom? ==> (r == 0 <==> a[..count] == b[..count])
    ensures !t.Custom? ==>
              (r < 0 <==> exists k :: 0 <= k < count && a[..k] == b[..k]
                                      && (if t.Narrow? then a[k] % 256 < b[k] % 256 else a[k] < b[k]))
    ensures t.Custom? ==> (r == 0 <==> forall k :: 0 <= k < count ==> t.eq(a[k], b[k]))
    ensures t.Custom? ==>
              (r < 0 <==> exists k :: 0 <= k < count && (forall j :: 0 <= j < k ==> t.eq(a[j], b[j]))
                                      && !t.eq(a[k], b[k]) && t.lt(a[k], b[k]))
  {
    hide Order;
    var k: size_t := 0;
    assert a[0..count] == a[..count] && b[0..count] == b[..count];
    while k < count
      invariant k <= count
      invariant Order(t, a[..count], b[..count]) == Order(t, a[k..count], b[k..count])
      invariant forall j :: 0 <= j < k ==> t.Eq(a[j], b[j])
    {
      OrderFrom(t, a, b, k, count);
      if !t.Eq(a[k], b[k]) {
        if t.Custom? {
          FirstCustomDifference(t, a, b, k, count);
        } else {
          FirstDifference(t, a, b, k, count);
        }
        return if t.Lt(a[k], b[k]) then -1 else 1;
      }
      k := k + 1;
    }
    OrderFrom(t, a, b, k, count);
    if !t.Custom? {
      NoDifference(t, a, b, count);
    }
    r := 0;
  }

  method TraitsCompare(t: Traits, left: seq<int>, right: seq<int>) returns (r: int)
    requires |left| < NPOS && |right| < NPOS
    ensures r == Order(t, left, right)
    ensures !t.Custom? ==> (r == 0 <==> left == right)
    ensures !t.Custom? ==>
              (r < 0 <==>
                 || (|left| < |right| && left == right[..|left|])
                 || exists k :: 0 <= k < |left| && k < |right| && left[..k] == right[..k]
                                && (if t.Narrow? then left[k] % 256 < right[k] % 256 else left[k] < right[k]))
  {
    var n: size_t := if |left| < |right| then |left| else |right|;
    r := Compare(t, left, right, n);
    OrderByPrefix(t, left, right, n);
    if !t.Custom? {
      OrderIsEquality(t, left, right);
    }
    if r != 0 {
      return;
    }
    if |left| < |right| {
      return -1;
    }
    if |left| > |right| {
      return 1;
    }
  }

  method TraitsEqual(t: Traits, left: seq<int>, right: seq<int>) returns (r: bool)
    requires |left| < NPOS && |right| < NPOS
    ensures r <==> Order(t, left, right) == 0
    ensures !t.Custom? ==> (r <==> left == right)
    ensures t.Custom? ==> (r <==> |left| == |right| && forall k :: 0 <= k < |left| ==> t.eq(left[k], right[k]))
  {
    OrderZero(t, left, right);
    if !t.Custom? {
      OrderIsEquality(t, left, right);
    }
    if |left| != |right| {
      return false;
    }
    if |left| == 0 {
      return true;
    }
    var ans := Compare(t, left, right, |left|);
    assert left[..|left|] == left && right[..|left|] == right;
    r := ans == 0;
  }

  /** The traits' own comparison at a position decides whether the needle is there. */
  method MatchesAt(t: Traits, hay: seq<int>, needle: seq<int>, i: size_t) returns (r: bool)
    requires i + |needle| <= |hay| < NPOS
    ensures r <==> MatchAt(t, hay, needle, i)
  {
    var ans := Compare(t, hay[i..], needle, |needle|);
    var a, b := hay[i..][..|needle|], needle[..|needle|];
    OrderZero(t, a, b);
    assert forall k :: 0 <= k < |needle| ==> a[k] == hay[i + k] && b[k] == needle[k];
    r := ans == 0;
  }

  // ---- substring search ----

  /** The traits' character search: the index of the first occurrence, or count. */
  method FindChar(t: Traits, s: seq<int>, from: size_t, count: size_t, ch: int) returns (at: size_t)
    requires from + count <= |s| < NPOS
    ensures from <= at <= from + count
    ensures forall i :: from <= i < at ==> !t.Eq(s[i], ch)
    ensures at < from + count ==> t.Eq(s[at], ch)
  {
    at := from;
    while at < from + count
      invariant from <= at <= from + count
      invariant forall i :: from <= i < at ==> !t.Eq(s[i], ch)
    {
      if t.Eq(s[at], ch) {
        return;
      }
      at := at + 1;
    }
  }

  method Find(t: Traits, hay: seq<int>, start: size_t, needle: seq<int>) returns (r: size_t)
    requires |hay| < NPOS && |needle| < NPOS
    ensures IsFirst(Matches(t, hay, needle), start, |hay| + 1, r)
  {
    ghost var p := Matches(t, hay, needle);
    if |needle| > |hay| {
      return NPOS;
    }
    var lastStart: size_t := |hay| - |needle|;
    if start > lastStart {
      return NPOS;
    }
    if |needle| == 0 {
      assert p(start);
      return start;
    }
    var possibleMatchesEnd: size_t := lastStart + 1;
    var matchTry: size_t := start;
    while true
      invariant start <= matchTry <= possibleMatchesEnd
      invariant forall i :: start <= i < matchTry ==> !p(i)
      decreases possibleMatchesEnd - matchTry
    {
      var at := FindChar(t, hay, matchTry, possibleMatchesEnd - matchTry, needle[0]);
      forall i | matchTry <= i < at ensures !p(i) {
        assert !t.Eq(hay[i + 0], needle[0]);
      }
      if at == possibleMatchesEnd {
        return NPOS;
      }
      var same := MatchesAt(t, hay, needle, at);
      if same {
        return at;
      }
      matchTry := at + 1;
    }
  }

  method FindCh(t: Traits, hay: seq<int>, start: size_t, ch: int) returns (r: size_t)
    requires |hay| < NPOS
    ensures IsFirst(Holding(t, hay, ch), start, |hay|, r)
  {
    if start >= |hay| {
      return NPOS;
    }
    var at := FindChar(t, hay, start, |hay| - start, ch);
    r := if at < |hay| then at else NPOS;
  }

  method RFind(t: Traits, hay: seq<int>, start: size_t, needle: seq<int>) returns (r: size_t)
    requires |hay| < NPOS && |needle| < NPOS
    ensures IsLast(Matches(t, hay, needle), start + 1, r)
  {
    ghost var p := Matches(t, hay, needle);
    if |needle| == 0 {
      r := if start < |hay| then start else |hay|;
      assert p(r);
      return;
    }
    if |needle| > |hay| {
      return NPOS;
    }
    var lastStart: size_t := |hay| - |needle|;
    var matchTry: size_t := if start < lastStart then start else lastStart;
    while true
      invariant matchTry + |needle| <= |hay| && matchTry <= start
      invariant forall i :: matchTry < i <= start ==> !p(i)
      decreases matchTry
    {
      if t.Eq(hay[matchTry], needle[0]) {
        var same := MatchesAt(t, hay, needle, matchTry);
        if same {
          return matchTry;
        }
      } else {
        assert !t.Eq(hay[matchTry + 0], needle[0]);
      }
      if matchTry == 0 {
        return NPOS;
      }
      matchTry := matchTry - 1;
    }
  }

  method RFindCh(t: Traits, hay: seq<int>, start: size_t, ch: int) returns (r: size_t)
    requires |hay| < NPOS
    ensures IsLast(Holding(t, hay, ch), start + 1, r)
  {
    if |hay| == 0 {
      return NPOS;
    }
    var matchTry: size_t := if start < |hay| - 1 then start else |hay| - 1;
    while true
      invariant matchTry < |hay| && matchTry <= start
      invariant forall i :: matchTry < i <= start ==> !Holding(t, hay, ch)(i)
      decreases matchTry
    {
      if t.Eq(hay[matchTry], ch) {
        return matchTry;
      }
      if matchTry == 0 {
        return NPOS;
      }
      matchTry := matchTry - 1;
    }
  }

  method FindNotCh(t: Traits, hay: seq<int>, start: size_t, ch: int) returns (r: size_t)
    requires |hay| < NPOS
    ensures IsFirst(NotHolding(t, hay, ch), start, |hay|, r)
  {
    if start >= |hay| {
      return NPOS;
    }
    var matchTry: size_t := start;
    while matchTry < |hay|
      invariant start <= matchTry <= |hay|
      invariant forall i :: start <= i < matchTry ==> !NotHolding(t, hay, ch)(i)
    {
      if !t.Eq(hay[matchTry], ch) {
        return matchTry;
      }
      matchTry := matchTry + 1;
    }
    r := NPOS;
  }

  method RFindNotCh(t: Traits, hay: seq<int>, start: size_t, ch: int) returns (r: size_t)
    requires |hay| < NPOS
    ensures IsLast(NotHolding(t, hay, ch), start + 1, r)
  {
    if |hay| == 0 {
      return NPOS;
    }
    var matchTry: size_t := if start < |hay| - 1 then start else |hay| - 1;
    while true
      invariant matchTry < |hay| && matchTry <= start
      invariant forall i :: matchTry < i <= start ==> !NotHolding(t, hay, ch)(i)
      decreases matchTry
    {
      if !t.Eq(hay[matchTry], ch) {
        return matchTry;
      }
      if matchTry == 0 {
        return NPOS;
      }
      matchTry := matchTry - 1;
    }
  }

  // ---- the bitmap ----

  /** The flags are exactly the bytes of the given characters. */
  ghost predicate Flags(flags: seq<bool>, chars: seq<int>)
  {
    && |flags| == 256
    && (forall k :: 0 <= k < |chars| ==> flags[ToByte(chars[k])])
    && (forall b :: 0 <= b < 256 && flags[b] ==> exists k :: 0 <= k < |chars| && ToByte(chars[k]) == b)
  }

  lemma MarkOne(flags: seq<bool>, chars: seq<int>, ch: int)
    requires Flags(flags, chars)
    ensures Flags(flags[ToByte(ch) := true], chars + [ch])
  {
    var flags', chars' := flags[ToByte(ch) := true], chars + [ch];
    forall b | 0 <= b < 256 && flags'[b]
      ensures exists k :: 0 <= k < |chars'| && ToByte(chars'[k]) == b
    {
      if b == ToByte(ch) {
        assert ToByte(chars'[|chars|]) == b;
      } else {
        var k :| 0 <= k < |chars| && ToByte(chars[k]) == b;
        assert ToByte(chars'[k]) == b;
      }
    }
  }

  /** One flag for each byte value; wider characters cannot be marked. */
  class StringBitmap {
    const matches: array<bool>

    ghost predicate Marked(chars: seq<int>)
      reads matches
    {
      Flags(matches[..], chars)
    }

    constructor ()
      ensures fresh(matches) && Marked([])
    {
      matches := new bool[256](_ => false);
    }

    method Mark(t: Traits, needle: seq<int>) returns (ok: bool)
      requires !t.Custom? && Text(t, needle) && Marked([])
      modifies matches
      ensures ok <==> (t.Wide? ==> forall k :: 0 <= k < |needle| ==> needle[k] < 256)
      ensures ok ==> Marked(needle)
    {
      var k: size_t := 0;
      while k < |needle|
        invariant k <= |needle| && Marked(needle[..k])
        invariant t.Wide? ==> forall j :: 0 <= j < k ==> needle[j] < 256
      {
        var ch := needle[k];
        if t.Wide? && ch >= 256 {
          return false;
        }
        MarkOne(matches[..], needle[..k], ch);
        matches[ToByte(ch)] := true;
        assert needle[..k + 1] == needle[..k] + [ch];
        k := k + 1;
      }
      assert needle[..k] == needle;
      ok := true;
    }

    predicate Match(t: Traits, ch: int)
      requires t.InRange(ch) && matches.Length == 256
      reads matches
    {
      if t.Wide? then ch < 256 && matches[ch] else matches[ToByte(ch)]
    }
  }

  /** Characters of one type have the same byte only when they are the same. */
  lemma ByteInjective(t: Traits, a: int, b: int)
    requires !t.Custom? && t.InRange(a) && t.InRange(b) && (t.Wide? ==> a < 256 && b < 256)
    ensures ToByte(a) == ToByte(b) <==> a == b
  {
    if t != Wide && t != Narrow(false) {
      assert ToByte(a) == if a < 0 then a + 256 else a;
      assert ToByte(b) == if b < 0 then b + 256 else b;
    }
  }

  /** The fast test is the serial test. */
  lemma BitmapIsMembership(t: Traits, bitmap: StringBitmap, needle: seq<int>, ch: int)
    requires !t.Custom? && Text(t, needle) && t.InRange(ch) && bitmap.Marked(needle)
    requires t.Wide? ==> forall k :: 0 <= k < |needle| ==> needle[k] < 256
    ensures bitmap.matches.Length == 256 && (bitmap.Match(t, ch) <==> OneOf(t, needle, ch))
  {
    forall k | 0 <= k < |needle| && (t.Wide? ==> ch < 256)
      ensures ToByte(needle[k]) == ToByte(ch) <==> t.Eq(needle[k], ch)
    {
      ByteInjective(t, needle[k], ch);
    }
    if bitmap.Match(t, ch) {
      var k :| 0 <= k < |needle| && ToByte(needle[k]) == ToByte(ch);
      assert t.Eq(needle[k], ch);
    }
  }

  /** The serial test: look for the character in the needle. */
  method IsOneOf(t: Traits, needle: seq<int>, ch: int) returns (found: bool)
    requires |needle| < NPOS
    ensures found <==> OneOf(t, needle, ch)
  {
    var at := FindChar(t, needle, 0, |needle|, ch);
    found := at < |needle|;
  }

  // ---- character class search ----

  lemma AmongMeaning(t: Traits, hay: seq<int>, needle: seq<int>)
    ensures forall i: int :: Among(t, hay, needle)(i) <==> 0 <= i < |hay| && OneOf(t, needle, hay[i])
  {
  }

  lemma OutsideMeaning(t: Traits, hay: seq<int>, needle: seq<int>)
    ensures forall i: int :: Outside(t, hay, needle)(i) <==> 0 <= i < |hay| && !OneOf(t, needle, hay[i])
  {
  }

  method FindFirstOf(t: Traits, hay: seq<int>, start: size_t, needle: seq<int>) returns (r: size_t)
    requires Text(t, hay) && Text(t, needle)
    ensures IsFirst(Among(t, hay, needle), start, |hay|, r)
  {
    AmongMeaning(t, hay, needle);
    hide Flags, Among;
    ghost var p := Among(t, hay, needle);
    if |needle| == 0 || start >= |hay| {
      return NPOS;
    }
    if !t.Custom? {
      var bitmap := new StringBitmap();
      var ok := bitmap.Mark(t, needle);
      if ok {
        var at: size_t := start;
        while at < |hay|
          invariant start <= at <= |hay| && bitmap.Marked(needle)
          invariant forall i :: start <= i < at ==> !p(i)
        {
          BitmapIsMembership(t, bitmap, needle, hay[at]);
          if bitmap.Match(t, hay[at]) {
            return at;
          }
          at := at + 1;
        }
        return NPOS;
      }
    }
    var matchTry: size_t := start;
    while matchTry < |hay|
      invariant start <= matchTry <= |hay|
      invariant forall i :: start <= i < matchTry ==> !p(i)
    {
      var found := IsOneOf(t, needle, hay[matchTry]);
      if found {
        return matchTry;
      }
      matchTry := matchTry + 1;
    }
    r := NPOS;
  }

  method FindLastOf(t: Traits, hay: seq<int>, start: size_t, needle: seq<int>) returns (r: size_t)
    requires Text(t, hay) && Text(t, needle)
    ensures IsLast(Among(t, hay, needle), start + 1, r)
  {
    AmongMeaning(t, hay, needle);
    hide Flags, Among;
    ghost var p := Among(t, hay, needle);
    if |needle| == 0 || |hay| == 0 {
      return NPOS;
    }
    var hayStart: size_t := if start < |hay| - 1 then start else |hay| - 1;
    if !t.Custom? {
      var bitmap := new StringBitmap();
      var ok := bitmap.Mark(t, needle);
      if ok {
        var at: size_t := hayStart;
        while true
          invariant at <= hayStart && bitmap.Marked(needle)
          invariant forall i :: at < i <= start ==> !p(i)
          decreases at
        {
          BitmapIsMembership(t, bitmap, needle, hay[at]);
          if bitmap.Match(t, hay[at]) {
            return at;
          }
          if at == 0 {
            return NPOS;
          }
          at := at - 1;
        }
      }
    }
    var matchTry: size_t := hayStart;
    while true
      invariant matchTry <= hayStart
      invariant forall i :: matchTry < i <= start ==> !p(i)
      decreases matchTry
    {
      var found := IsOneOf(t, needle, hay[matchTry]);
      if found {
        return matchTry;
      }
      if matchTry == 0 {
        return NPOS;
      }
      matchTry := matchTry - 1;
    }
  }

  method FindFirstNotOf(t: Traits, hay: seq<int>, start: size_t, needle: seq<int>) returns (r: size_t)
    requires Text(t, hay) && Text(t, needle)
    ensures IsFirst(Outside(t, hay, needle), start, |hay|, r)
  {
    OutsideMeaning(t, hay, needle);
    hide Flags, Outside;
    ghost var p := Outside(t, hay, needle);
    if start >= |hay| {
      return NPOS;
    }
    if !t.Custom? {
      var bitmap := new StringBitmap();
      var ok := bitmap.Mark(t, needle);
      if ok {
        var at: size_t := start;
        while at < |hay|
          invariant start <= at <= |hay| && bitmap.Marked(needle)
          invariant forall i :: start <= i < at ==> !p(i)
        {
          BitmapIsMembership(t, bitmap, needle, hay[at]);
          if !bitmap.Match(t, hay[at]) {
            return at;
          }
          at := at + 1;
        }
        return NPOS;
      }
    }
    var matchTry: size_t := start;
    while matchTry < |hay|
      invariant start <= matchTry <= |hay|
      invariant forall i :: start <= i < matchTry ==> !p(i)
    {
      var found := IsOneOf(t, needle, hay[matchTry]);
      if !found {
        return matchTry;
      }
      matchTry := matchTry + 1;
    }
    r := NPOS;
  }

  method FindLastNotOf(t: Traits, hay: seq<int>, start: size_t, needle: seq<int>) returns (r: size_t)
    requires Text(t, hay) && Text(t, needle)
    ensures IsLast(Outside(t, hay, needle), start + 1, r)
  {
    OutsideMeaning(t, hay, needle);
    hide Flags, Outside;
    ghost var p := Outside(t, hay, needle);
    if |hay| == 0 {
      return NPOS;
    }
    var hayStart: size_t := if start < |hay| - 1 then start else |hay| - 1;
    if !t.Custom? {
      var bitmap := new StringBitmap();
      var ok := bitmap.Mark(t, needle);
      if ok {
        var at: size_t := hayStart;
        while true
          invariant at <= hayStart && bitmap.Marked(needle)
          invariant forall i :: at < i <= start ==> !p(i)
          decreases at
        {
          BitmapIsMembership(t, bitmap, needle, hay[at]);
          if !bitmap.Match(t, hay[at]) {
            return at;
          }
          if at == 0 {
            return NPOS;
          }
          at := at - 1;
        }
      }
    }
    var matchTry: size_t := hayStart;
    while true
      invariant matchTry <= hayStart
      invariant forall i :: matchTry < i <= start ==> !p(i)
      decreases matchTry
    {
      var found := IsOneOf(t, needle, hay[matchTry]);
      if !found {
        return matchTry;
      }
      if matchTry == 0 {
        return NPOS;
      }
      matchTry := matchTry - 1;
    }
  }

  // ---- what the searches mean for the library's own traits ----

  lemma FirstMeaning(p: int -> bool, from: nat, bound: nat, r: int)
    requires bound <= NPOS
    ensures IsFirst(p, from, bound, r) <==>
              || (r == 0xFFFF_FFFF_FFFF_FFFF && forall i :: from <= i < bound ==> !p(i))
              || (from <= r < bound && p(r) && forall i :: from <= i < r ==> !p(i))
  {
  }

  lemma LastMeaning(p: int -> bool, bound: nat, r: int)
    requires forall i :: NPOS <= i < bound ==> !p(i)
    ensures IsLast(p, bound, r) <==>
              || (r == 0xFFFF_FFFF_FFFF_FFFF && forall i :: 0 <= i < bound ==> !p(i))
              || (0 <= r < bound && p(r) && forall i :: r < i < bound ==> !p(i))
  {
  }

  /** Substring searches: the first place from start on, or the last one up to start, where the needle stands. */
  lemma SubstringSearches(t: Traits, hay: seq<int>, needle: seq<int>, start: size_t, r: int)
    requires !t.Custom? && |hay| < NPOS
    ensures IsFirst(Matches(t, hay, needle), start, |hay| + 1, r) <==>
              || (r == 0xFFFF_FFFF_FFFF_FFFF
                  && forall i :: start <= i && i + |needle| <= |hay| ==> hay[i..][..|needle|] != needle)
              || (start <= r && r + |needle| <= |hay| && hay[r..][..|needle|] == needle
                  && forall i :: start <= i < r ==> hay[i..][..|needle|] != needle)
    ensures IsLast(Matches(t, hay, needle), start + 1, r) <==>
              || (r == 0xFFFF_FFFF_FFFF_FFFF
                  && forall i :: 0 <= i <= start && i + |needle| <= |hay| ==> hay[i..][..|needle|] != needle)
              || (0 <= r <= start && r + |needle| <= |hay| && hay[r..][..|needle|] == needle
                  && forall i :: r < i <= start && i + |needle| <= |hay| ==> hay[i..][..|needle|] != needle)
  {
    var p := Matches(t, hay, needle);
    forall i: int
      ensures p(i) <==> 0 <= i && i + |needle| <= |hay| && hay[i..][..|needle|] == needle
    {
      if 0 <= i && i + |needle| <= |hay| {
        var part := hay[i..][..|needle|];
        assert forall k :: 0 <= k < |needle| ==> part[k] == hay[i + k];
        if p(i) {
          assert part == needle;
        }
      }
    }
    hide Matches, MatchAt, IsFirst, IsLast;
    FirstMeaning(p, start, |hay| + 1, r);
    LastMeaning(p, start + 1, r);
  }

  /** Searches for a character, or for any other one. */
  lemma CharacterSearches(t: Traits, hay: seq<int>, ch: int, start: size_t, r: int)
    requires !t.Custom? && |hay| < NPOS
    ensures IsFirst(Holding(t, hay, ch), start, |hay|, r) <==>
              || (r == 0xFFFF_FFFF_FFFF_FFFF && forall i :: start <= i < |hay| ==> hay[i] != ch)
              || (start <= r < |hay| && hay[r] == ch && forall i :: start <= i < r ==> hay[i] != ch)
    ensures IsLast(Holding(t, hay, ch), start + 1, r) <==>
              || (r == 0xFFFF_FFFF_FFFF_FFFF && forall i :: 0 <= i <= start && i < |hay| ==> hay[i] != ch)
              || (0 <= r <= start && r < |hay| && hay[r] == ch
                  && forall i :: r < i <= start && i < |hay| ==> hay[i] != ch)
    ensures IsFirst(NotHolding(t, hay, ch), start, |hay|, r) <==>
              || (r == 0xFFFF_FFFF_FFFF_FFFF && forall i :: start <= i < |hay| ==> hay[i] == ch)
              || (start <= r < |hay| && hay[r] != ch && forall i :: start <= i < r ==> hay[i] == ch)
    ensures IsLast(NotHolding(t, hay, ch), start + 1, r) <==>
              || (r == 0xFFFF_FFFF_FFFF_FFFF && forall i :: 0 <= i <= start && i < |hay| ==> hay[i] == ch)
              || (0 <= r <= start && r < |hay| && hay[r] != ch
                  && forall i :: r < i <= start && i < |hay| ==> hay[i] == ch)
  {
    var p, q := Holding(t, hay, ch), NotHolding(t, hay, ch);
    assert forall i: int :: p(i) <==> 0 <= i < |hay| && hay[i] == ch;
    assert forall i: int :: q(i) <==> 0 <= i < |hay| && hay[i] != ch;
    hide Holding, NotHolding, IsFirst, IsLast;
    FirstMeaning(p, start, |hay|, r);
    LastMeaning(p, start + 1, r);
    FirstMeaning(q, start, |hay|, r);
    LastMeaning(q, start + 1, r);
  }

  /** Searches for a character of a set. */
  lemma AmongSearches(t: Traits, hay: seq<int>, needle: seq<int>, start: size_t, r: int)
    requires !t.Custom? && |hay| < NPOS
    ensures IsFirst(Among(t, hay, needle), start, |hay|, r) <==>
              || (r == 0xFFFF_FFFF_FFFF_FFFF && forall i :: start <= i < |hay| ==> hay[i] !in needle)
              || (start <= r < |hay| && hay[r] in needle && forall i :: start <= i < r ==> hay[i] !in needle)
    ensures IsLast(Among(t, hay, needle), start + 1, r) <==>
              || (r == 0xFFFF_FFFF_FFFF_FFFF && forall i :: 0 <= i <= start && i < |hay| ==> hay[i] !in needle)
              || (0 <= r <= start && r < |hay| && hay[r] in needle
                  && forall i :: r < i <= start && i < |hay| ==> hay[i] !in needle)
  {
    var p := Among(t, hay, needle);
    assert forall i: int :: p(i) <==> 0 <= i < |hay| && hay[i] in needle;
    hide Among, OneOf, IsFirst, IsLast;
    FirstMeaning(p, start, |hay|, r);
    LastMeaning(p, start + 1, r);
  }

  /** Searches for a character outside a set. */
  lemma OutsideSearches(t: Traits, hay: seq<int>, needle: seq<int>, start: size_t, r: int)
    requires !t.Custom? && |hay| < NPOS
    ensures IsFirst(Outside(t, hay, needle), start, |hay|, r) <==>
              || (r == 0xFFFF_FFFF_FFFF_FFFF && forall i :: start <= i < |hay| ==> hay[i] in needle)
              || (start <= r < |hay| && hay[r] !in needle && forall i :: start <= i < r ==> hay[i] in needle)
    ensures IsLast(Outside(t, hay, needle), start + 1, r) <==>
              || (r == 0xFFFF_FFFF_FFFF_FFFF && forall i :: 0 <= i <= start && i < |hay| ==> hay[i] in needle)
              || (0 <= r <= start && r < |hay| && hay[r] !in needle
                  && forall i :: r < i <= start && i < |hay| ==> hay[i] in needle)
  {
    var p := Outside(t, hay, needle);
    assert forall i: int :: p(i) <==> 0 <= i < |hay| && hay[i] !in needle;
    hide Outside, OneOf, IsFirst, IsLast;
    FirstMeaning(p, start, |hay|, r);
    LastMeaning(p, start + 1, r);
  }

  // ---- laws relating the searches ----

  /** The promise leaves one answer, so every path that keeps it agrees with every other. */
  lemma FirstIsUnique(p: int -> bool, from: int, bound: int, r: int, s: int)
    requires IsFirst(p, from, bound, r) && IsFirst(p, from, bound, s)
    ensures r == s
  {
    if exists i :: from <= i < bound && p(i) {
      assert p(r) && p(s);
    }
  }

  /** Searching backwards is searching forwards in the mirror. */
  lemma LastMirrorsFirst(p: int -> bool, n: nat, r: size_t)
    requires n < NPOS
    ensures IsLast(p, n, r) <==> IsFirst(i => p(n - 1 - i), 0, n, if r == NPOS then NPOS else n - 1 - r)
  {
    var q := (i: int) => p(n - 1 - i);
    var m := if r == NPOS then NPOS else n - 1 - r;
    if i :| 0 <= i < n && p(i) {
      assert q(n - 1 - i);
      assert p(r) == q(n - 1 - r);
      if IsLast(p, n, r) {
        forall j | 0 <= j < m ensures !q(j) { assert !p(n - 1 - j); }
      }
      if IsFirst(q, 0, n, m) {
        forall j | r < j < n ensures !p(j) { assert !q(n - 1 - j); }
      }
    } else {
      forall i | 0 <= i < n ensures !q(i) { assert !p(n - 1 - i); }
    }
  }

  /** A one-character needle makes all three forward searches the same search. */
  lemma SingleCharacter(t: Traits, hay: seq<int>, ch: int, start: int, r: int)
    requires !t.Custom? && |hay| < NPOS
    ensures IsFirst(Matches(t, hay, [ch]), start, |hay| + 1, r) <==> IsFirst(Holding(t, hay, ch), start, |hay|, r)
    ensures IsFirst(Among(t, hay, [ch]), start, |hay|, r) <==> IsFirst(Holding(t, hay, ch), start, |hay|, r)
  {
    var m, h, a := Matches(t, hay, [ch]), Holding(t, hay, ch), Among(t, hay, [ch]);
    forall i ensures m(i) <==> h(i) {
      if h(i) { assert hay[i + 0] == [ch][0]; }
      if m(i) { assert t.Eq(hay[i + 0], [ch][0]); }
    }
    forall i ensures a(i) <==> h(i) {
      if h(i) { assert t.Eq([ch][0], hay[i]); }
    }
  }

  /** Inside the haystack one of the two forward class searches stops at once, and the other does not. */
  lemma FirstOfOrNotOf(t: Traits, hay: seq<int>, needle: seq<int>, start: nat, r: int, s: int)
    requires start < |hay| < NPOS
    requires IsFirst(Among(t, hay, needle), start, |hay|, r)
    requires IsFirst(Outside(t, hay, needle), start, |hay|, s)
    ensures (r == start && s > start) || (s == start && r > start)
  {
    assert Among(t, hay, needle)(start) != Outside(t, hay, needle)(start);
  }

  // ---- moving with overlap ----

  /** The destination holds what the source held, and nothing else of it changed. */
  twostate predicate Moved(dest: array<int>, d: size_t, src: array<int>, s: size_t, count: size_t)
    requires d + count <= dest.Length && s + count <= src.Length
    reads dest
  {
    && dest[d..d + count] == old(src[s..s + count])
    && forall i :: 0 <= i < dest.Length && !(d <= i < d + count) ==> dest[i] == old(dest[i])
  }

  /** Whether the destination starts inside the source: a scan, since pointers to different arrays have no order. */
  method StartsInside(dest: array<int>, d: size_t, src: array<int>, s: size_t, count: size_t) returns (inside: bool)
    requires s + count <= src.Length < BASE64
    ensures inside <==> dest == src && s <= d < s + count
  {
    var at: size_t := s;
    while at != s + count
      invariant s <= at <= s + count
      invariant !(dest == src && s <= d < at)
      decreases s + count - at
    {
      if dest == src && d == at {
        return true;
      }
      at := at + 1;
    }
    inside := false;
  }

  lemma SliceMoved(now: seq<int>, was: seq<int>, d: nat, s: nat, count: nat)
    requires d + count <= |now| && s + count <= |was| && forall i :: d <= i < d + count ==> now[i] == was[i - d + s]
    ensures now[d..d + count] == was[s..s + count]
  {
  }

  method MoveForward(dest: array<int>, d: size_t, src: array<int>, s: size_t, count: size_t)
    requires d + count <= dest.Length && s + count <= src.Length && !(dest == src && s <= d < s + count)
    modifies dest
    ensures Moved(dest, d, src, s, count)
  {
    ghost var was, rest := src[..], dest[..];
    var idx: size_t := 0;
    while idx != count
      invariant idx <= count
      invariant forall i :: d <= i < d + idx ==> dest[i] == was[i - d + s]
      invariant forall i :: 0 <= i < dest.Length && !(d <= i < d + idx) ==> dest[i] == rest[i]
      invariant dest != src ==> src[..] == was
    {
      dest[d + idx] := src[s + idx];
      idx := idx + 1;
    }
    SliceMoved(dest[..], was, d, s, count);
    assert dest[..][d..d + count] == dest[d..d + count];
  }

  method MoveBackward(a: array<int>, d: size_t, s: size_t, count: size_t)
    requires s <= d && d + count <= a.Length
    modifies a
    ensures Moved(a, d, a, s, count)
  {
    ghost var was := a[..];
    var idx: size_t := count;
    while idx != 0
      invariant idx <= count
      invariant forall i :: d + idx <= i < d + count ==> a[i] == was[i - d + s]
      invariant forall i :: 0 <= i < a.Length && !(d + idx <= i < d + count) ==> a[i] == was[i]
    {
      a[d + idx - 1] := a[s + idx - 1];
      idx := idx - 1;
    }
    SliceMoved(a[..], was, d, s, count);
    assert a[..][d..d + count] == a[d..d + count];
  }

  /** Copies count elements between ranges that may share an array; the destination gets what the source held. */
  method Move(dest: array<int>, d: size_t, src: array<int>, s: size_t, count: size_t)
    requires d + count <= dest.Length && s + count <= src.Length < BASE64
    modifies dest
    ensures dest[d..d + count] == old(src[s..s + count])
    ensures forall i :: 0 <= i < dest.Length && !(d <= i < d + count) ==> dest[i] == old(dest[i])
  {
    var inside := StartsInside(dest, d, src, s, count);
    if inside {
      MoveBackward(dest, d, s, count);
    } else {
      MoveForward(dest, d, src, s, count);
    }
  }
}
