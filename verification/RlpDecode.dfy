/** rlp/decode.go: the stateful decoder.  `Kind` compares an element's size with the list limit
    read before the header's own bytes were taken off, so `List` can wrap an enclosing limit
    below zero.  The limits are therefore tracked modulo 2^64; an accepted input is still the
    canonical encoding. */
module RlpDecode {
  import opened Bytes
  import opened Rlp
  import RlpRaw

  /** Go's `uint64` subtraction. */
  function Sub64(a: uint64, n: nat): uint64 {
    (a - n) % TWO_64
  }

  /** The stack of remaining list sizes after `n` more bytes of the innermost list. */
  function Spend(stack: seq<uint64>, n: nat): (s: seq<uint64>)
    ensures |s| == |stack|
  {
    if stack == [] then [] else stack[|stack| - 1 := Sub64(stack[|stack| - 1], n)]
  }

  lemma SpendTwice(stack: seq<uint64>, m: nat, n: nat)
    ensures Spend(Spend(stack, m), n) == Spend(stack, m + n)
  {
    if stack != [] {
      var a := stack[|stack| - 1];
      assert ((a - m) % TWO_64 - n) % TWO_64 == (a - (m + n)) % TWO_64;
    }
  }

  lemma SubWraps(a: uint64, m: nat, n: nat)
    requires m <= a && n <= a
    ensures Sub64(a, m + n) == if m + n <= a then a - (m + n) else a - (m + n) + TWO_64
  {
  }

  lemma SpendIs(stack: seq<uint64>, n: nat)
    ensures Spend(stack, n) == if stack == [] then [] else stack[|stack| - 1 := Sub64(stack[|stack| - 1], n)]
  {
  }

  /** The limit wraps exactly when it is less than what is charged to it. */
  lemma SpendLimit(stack: seq<uint64>, m: nat, n: nat)
    requires stack != [] ==> m <= stack[|stack| - 1] && n <= stack[|stack| - 1]
    ensures stack != [] ==>
      var a := stack[|stack| - 1];
      Spend(stack, m + n)[|stack| - 1] == if m + n <= a then a - (m + n) else a - (m + n) + TWO_64
  {
    if stack != [] {
      SubWraps(stack[|stack| - 1], m, n);
    }
  }

  lemma SpendNothing(stack: seq<uint64>)
    ensures Spend(stack, 0) == stack
  {
  }

  /** Limits that leave room for `n` more bytes. */
  predicate Room(stack: seq<uint64>, limited: bool, remaining: uint64, n: nat) {
    && (stack != [] ==> n <= stack[|stack| - 1])
    && (limited ==> n <= remaining)
  }

  /** The error for `n` bytes more than the limits leave room for: the innermost list's limit
      is looked at first. */
  predicate Exceeds(stack: seq<uint64>, limited: bool, remaining: uint64, n: nat, e: Error) {
    match e
    case ElemTooLarge => stack != [] && n > stack[|stack| - 1]
    case ValueTooLarge => (stack != [] ==> n <= stack[|stack| - 1]) && limited && n > remaining
    case _ => false
  }

  /** Charging `m` and then `n` bytes is charging both. */
  lemma RoomTwice(stack: seq<uint64>, limited: bool, before: uint64, m: nat, after: uint64, n: nat)
    requires Room(stack, limited, before, m)
    requires limited ==> after == before - m
    ensures Room(Spend(stack, m), limited, after, n) <==> Room(stack, limited, before, m + n)
  {
    if stack != [] {
      assert Sub64(stack[|stack| - 1], m) == stack[|stack| - 1] - m;
    }
  }

  /** `data` starts with the canonical header of a value of this kind and content size. */
  predicate HeadAt(data: seq<byte>, k: Kind, size: nat) {
    && size < TWO_64
    && match k
       case ByteKind => data != [] && data[0] < 0x80 && size == 0
       case StringKind => IsPrefix(Header(0x80, size), data)
       case ListKind => IsPrefix(Header(0xC0, size), data)
  }

  /** How many bytes `Kind` takes off: a lone byte is its own header. */
  function HeadTaken(k: Kind, size: nat): (n: nat)
    ensures n >= 1
  {
    match k
    case ByteKind => 1
    case StringKind => |Header(0x80, size)|
    case ListKind => |Header(0xC0, size)|
  }

  /** The content bytes that are still ahead once the header is taken. */
  function Body(k: Kind, size: nat): nat {
    if k.ByteKind? then 0 else size
  }

  lemma HeadAtIsPrefix(data: seq<byte>, k: Kind, n: nat)
    requires HeadAt(data, k, n)
    ensures HeadTaken(k, n) <= |data|
    ensures k.ByteKind? ==> data[0] < 0x80 && n == 0
    ensures k.StringKind? ==> data[..|Header(0x80, n)|] == Header(0x80, n)
    ensures k.ListKind? ==> data[..|Header(0xC0, n)|] == Header(0xC0, n)
  {
  }

  lemma HeadAtItem(data: seq<byte>, x: Item)
    requires |data| < TWO_64 && IsPrefix(Enc(x), data)
    ensures var k := KindOf(x);
      var n := if k.ByteKind? then 0 else |ContentOf(x)|;
      && HeadAt(data, k, n)
      && HeadTaken(k, n) + Body(k, n) == |Enc(x)|
      && (!k.ByteKind? ==> data[HeadTaken(k, n)..|Enc(x)|] == ContentOf(x))
  {
    EncIsFrame(x);
    var k := KindOf(x);
    if !k.ByteKind? {
      var h := HeadOf(k, |ContentOf(x)|);
      assert Enc(x) == h + ContentOf(x);
      assert data[..|h|] == data[..|Enc(x)|][..|h|] == h;
      assert data[|h|..|Enc(x)|] == data[..|Enc(x)|][|h|..] == ContentOf(x);
    }
  }

  /** What the first byte says about a header. */
  lemma HeadAtByte(data: seq<byte>, k: Kind, n: nat)
    requires HeadAt(data, k, n)
    ensures data != []
    ensures k.ByteKind? ==> data[0] < 0x80
    ensures !k.ByteKind? ==>
      var tag := if k.StringKind? then 0x80 else 0xC0;
      if n < 56 then data[0] == tag + n
      else
        var w := |BigEndian(n)|;
        && 1 <= w <= 8 && data[0] == tag + 0x37 + w
        && |data| >= 1 + w && data[1..1 + w] == BigEndian(n)
  {
    if !k.ByteKind? {
      var tag: Tag := if k.StringKind? then 0x80 else 0xC0;
      HeaderShape(tag, n);
      var h := Header(tag, n);
      assert data[0] == h[0];
      if n >= 56 {
        assert data[1..|h|] == data[..|h|][1..] == BigEndian(n);
      }
    }
  }

  /** The size field of `w` bytes after a tag is there, and canonical. */
  predicate SizeField(data: seq<byte>, w: nat)
  {
    && 1 <= w <= 8 && |data| >= 1 + w
    && (w >= 2 ==> data[1] != 0)
    && 56 <= Number(data[1..1 + w])
  }

  /** The errors of a size field of `w` bytes after a tag: there is no room for it, it is not all
      there, or it is not canonical. */
  ghost predicate SizeFieldFails(data: seq<byte>, stack: seq<uint64>, limited: bool, remaining: uint64, w: nat, e: Error) {
    match e
    case UnexpectedEOF => Room(stack, limited, remaining, w) && |data| < 1 + w
    case CanonSize => Room(stack, limited, remaining, w) && |data| >= 1 + w && !SizeField(data, w)
    case _ => Exceeds(stack, limited, remaining, w, e)
  }

  /** A canonical size field makes the long header of its value. */
  lemma LongHeader(data: seq<byte>, tag: Tag, w: nat)
    requires SizeField(data, w) && data[0] == tag + 0x37 + w
    ensures var n := Number(data[1..1 + w]);
      n < TWO_64 && IsPrefix(Header(tag, n), data) && |Header(tag, n)| == 1 + w
  {
    var field := data[1..1 + w];
    assert w == 1 ==> Number(field) == Number(field[..0]) * 256 + field[0];
    BigEndianOfNumber(field);
    BigEndianWidth(Number(field), 8);
    Pow256Values();
    HeaderShape(tag, Number(field));
    assert data[..1 + w] == [data[0]] + field;
  }

  /** Kind and size, read off the bytes the way `readKind` does. */
  function HeadParse(data: seq<byte>): Option<(Kind, nat)> {
    if data == [] then None
    else
      var b: int := data[0];
      if b < 0x80 then Some((ByteKind, 0))
      else if b < 0xB8 then Some((StringKind, b - 0x80))
      else if b < 0xC0 then
        if SizeField(data, b - 0xB7) then Some((StringKind, Number(data[1..1 + b - 0xB7]))) else None
      else if b < 0xF8 then Some((ListKind, b - 0xC0))
      else if SizeField(data, b - 0xF7) then Some((ListKind, Number(data[1..1 + b - 0xF7]))) else None
  }

  function HeadWidth(data: seq<byte>): nat
    requires data != []
  {
    var b: int := data[0];
    if 0xB8 <= b < 0xC0 then 1 + b - 0xB7 else if 0xF8 <= b then 1 + b - 0xF7 else 1
  }

  lemma HeadParseComplete(data: seq<byte>, k: Kind, n: nat)
    requires HeadAt(data, k, n)
    ensures HeadParse(data) == Some((k, n)) && HeadTaken(k, n) == HeadWidth(data)
  {
    HeadAtByte(data, k, n);
    NumberOfBigEndian(n);
    if !k.ByteKind? {
      HeaderShape(if k.StringKind? then 0x80 else 0xC0, n);
    }
  }

  lemma HeadParseSound(data: seq<byte>)
    requires HeadParse(data).Some?
    ensures HeadAt(data, HeadParse(data).value.0, HeadParse(data).value.1)
  {
    var b := data[0];
    if 0xB8 <= b < 0xC0 {
      LongHeader(data, 0x80, b - 0xB7);
    } else if 0xF8 <= b {
      LongHeader(data, 0xC0, b - 0xF7);
    } else if 0x80 <= b {
      assert data[..1] == [b];
    }
  }

  /** Reading off the bytes finds the canonical headers and nothing else. */
  lemma HeadParseExact(data: seq<byte>)
    ensures forall k, n: nat :: HeadAt(data, k, n) <==> HeadParse(data) == Some((k, n))
    ensures forall k, n: nat :: HeadAt(data, k, n) ==> HeadTaken(k, n) == HeadWidth(data)
    ensures HeadParse(data).Some? && HeadParse(data).value.0.ByteKind? ==> HeadParse(data).value.1 == 0
  {
    forall k, n: nat | HeadAt(data, k, n)
      ensures HeadParse(data) == Some((k, n)) && HeadTaken(k, n) == HeadWidth(data)
    {
      HeadParseComplete(data, k, n);
    }
    if HeadParse(data).Some? {
      HeadParseSound(data);
    }
  }

  /** How far `readKind` looks, if it finds a first byte. */
  function HeadReach(data: seq<byte>): nat {
    if data == [] then 1 else HeadWidth(data)
  }

  /** The errors of `readKind`.  Its first byte alone is charged before the others; when that
      fails outside of any list, the input is at its end. */
  ghost predicate HeadFails(data: seq<byte>, stack: seq<uint64>, limited: bool, remaining: uint64, e: Error) {
    var w, none := HeadReach(data), limited && remaining == 0;
    match e
    case EOF => stack == [] && (data == [] || none)
    case ElemTooLarge => stack != [] && w > stack[|stack| - 1] && (none ==> stack[|stack| - 1] == 0)
    case ValueTooLarge =>
      && limited && w > remaining
      && if none then stack != [] && stack[|stack| - 1] > 0 else stack != [] ==> w <= stack[|stack| - 1]
    case UnexpectedEOF => Room(stack, limited, remaining, w) && w > |data| && (stack == [] ==> data != [])
    case CanonSize => Room(stack, limited, remaining, w) && w <= |data| && HeadParse(data).None?
    case _ => false
  }

  /** A header is in place, and there is room for it, but not for what it announces. */
  ghost predicate SizeFails(data: seq<byte>, stack: seq<uint64>, limited: bool, remaining: uint64, e: Error) {
    && HeadParse(data).Some? && Room(stack, limited, remaining, HeadReach(data))
    && var n := HeadParse(data).value.1;
       match e
       case ElemTooLarge => stack != [] && n > stack[|stack| - 1]
       case ValueTooLarge => (stack != [] ==> n <= stack[|stack| - 1]) && limited && n > remaining - HeadReach(data)
       case _ => false
  }

  /** The errors of `Kind` before the end of a list. */
  ghost predicate KindFails(data: seq<byte>, stack: seq<uint64>, limited: bool, remaining: uint64, e: Error) {
    && (stack != [] ==> stack[|stack| - 1] > 0)
    && (HeadFails(data, stack, limited, remaining, e) || SizeFails(data, stack, limited, remaining, e))
  }

  /** The errors that a header can have. */
  predicate HeadError(e: Error) {
    e.EOF? || e.UnexpectedEOF? || e.CanonSize? || e.ElemTooLarge? || e.ValueTooLarge?
  }

  /** `Kind` has at most one error, and none for a value that it finds; end of input is one. */
  lemma FailsOnce(data: seq<byte>, stack: seq<uint64>, limited: bool, remaining: uint64, e: Error, f: Error)
    requires KindFails(data, stack, limited, remaining, e)
    ensures KindFails(data, stack, limited, remaining, f) ==> e == f
    ensures e != EOL
  {
  }

  lemma FailsAtEnd(data: seq<byte>, stack: seq<uint64>, limited: bool, remaining: uint64)
    ensures HeadFails(data, stack, limited, remaining, EOF) <==> stack == [] && (data == [] || (limited && remaining == 0))
    ensures KindFails(data, stack, limited, remaining, EOF) <==> stack == [] && (data == [] || (limited && remaining == 0))
  {
  }

  lemma FailsAtLimit(data: seq<byte>, stack: seq<uint64>, limited: bool, remaining: uint64, e: Error)
    ensures stack != [] && stack[|stack| - 1] == 0 ==> !KindFails(data, stack, limited, remaining, e)
  {
  }

  /** What the errors say: of the header or the content that it announces, there is more than the
      list around it or the input has room for; the header is cut short; or it is not canonical. */
  lemma FailsBecause(data: seq<byte>, stack: seq<uint64>, limited: bool, remaining: uint64, e: Error)
    requires KindFails(data, stack, limited, remaining, e)
    ensures e == ElemTooLarge ==>
      && stack != []
      && var a := stack[|stack| - 1]; a < HeadReach(data) || exists k, n: nat :: HeadAt(data, k, n) && n > a
    ensures e == ValueTooLarge ==>
      limited && (remaining < HeadReach(data) || exists k, n: nat :: HeadAt(data, k, n) && HeadTaken(k, n) + n > remaining)
    ensures e == UnexpectedEOF ==> |data| < HeadReach(data) <= 9
    ensures e == UnexpectedEOF || e == CanonSize ==> forall k, n: nat :: !HeadAt(data, k, n)
    ensures e == CanonSize ==> |data| >= HeadReach(data)
  {
    hide HeadAt, HeadTaken, Number, SizeField;
    HeadParseExact(data);
    if HeadParse(data).Some? {
      var (k, n) := HeadParse(data).value;
      assert HeadAt(data, k, n);
    }
    HeadReaches(data);
  }

  lemma HeadReaches(data: seq<byte>)
    ensures 1 <= HeadReach(data) <= 9
    ensures HeadParse(data).Some? ==> HeadReach(data) <= |data|
  {
    hide Number;
  }

  /** A failed header is the error; after a header, its size decides. */
  lemma HeadFailed(data: seq<byte>, stack: seq<uint64>, limited: bool, remaining: uint64, f: Error)
    requires HeadFails(data, stack, limited, remaining, f) && (stack != [] ==> stack[|stack| - 1] > 0)
    ensures forall e :: KindFails(data, stack, limited, remaining, e) <==> e == f
  {
    forall e ensures KindFails(data, stack, limited, remaining, e) <==> e == f {
      FailsOnce(data, stack, limited, remaining, f, e);
    }
  }

  lemma SizeChecked(data: seq<byte>, stack: seq<uint64>, limited: bool, remaining: uint64, after: uint64, k: Kind, n: nat)
    requires HeadParse(data) == Some((k, n)) && Room(stack, limited, remaining, HeadWidth(data))
    requires limited ==> after == remaining - HeadWidth(data)
    requires stack != [] ==> stack[|stack| - 1] > 0
    ensures forall e :: KindFails(data, stack, limited, remaining, e) <==>
      if stack != [] && n > stack[|stack| - 1] then e == ElemTooLarge else e == ValueTooLarge && limited && n > after
  {
  }

  /** There is no error for a value that is there. */
  lemma AheadSucceeds(data: seq<byte>, stack: seq<uint64>, limited: bool, remaining: uint64, k: Kind, n: nat, e: Error)
    requires HeadAt(data, k, n) && Room(stack, limited, remaining, HeadTaken(k, n))
    requires stack != [] ==> n <= stack[|stack| - 1]
    requires limited ==> n <= remaining - HeadTaken(k, n)
    ensures !KindFails(data, stack, limited, remaining, e)
  {
    hide HeadAt, HeadParse, HeadTaken, HeadWidth;
    HeadParseComplete(data, k, n);
    HeadAtIsPrefix(data, k, n);
  }

  /** There is no first byte, or no room for it. */
  lemma FirstFails(data: seq<byte>, stack: seq<uint64>, limited: bool, remaining: uint64, e: Error)
    requires if e == UnexpectedEOF then Room(stack, limited, remaining, 1) && data == []
             else Exceeds(stack, limited, remaining, 1, e)
    ensures var f := if stack == [] && (e.UnexpectedEOF? || e.ValueTooLarge?) then EOF else e;
      forall g :: HeadFails(data, stack, limited, remaining, g) <==> g == f
    ensures HeadParse(data).Some? ==> !Room(stack, limited, remaining, HeadWidth(data))
  {
  }

  /** A header of one byte, once it is there, does not fail. */
  lemma ShortHead(data: seq<byte>, stack: seq<uint64>, limited: bool, remaining: uint64)
    requires data != [] && HeadWidth(data) == 1 && Room(stack, limited, remaining, 1)
    ensures forall e :: !HeadFails(data, stack, limited, remaining, e)
    ensures HeadParse(data).Some?
  {
  }

  lemma HeadIs(data: seq<byte>)
    requires data != []
    ensures var b: int := data[0];
      if b < 0x80 then HeadWidth(data) == 1 && HeadParse(data) == Some((ByteKind, 0))
      else if b < 0xB8 then HeadWidth(data) == 1 && HeadParse(data) == Some((StringKind, b - 0x80))
      else if b < 0xC0 then
        && HeadWidth(data) == 1 + b - 0xB7
        && if SizeField(data, b - 0xB7) then HeadParse(data) == Some((StringKind, Number(data[1..1 + b - 0xB7]))) else HeadParse(data).None?
      else if b < 0xF8 then HeadWidth(data) == 1 && HeadParse(data) == Some((ListKind, b - 0xC0))
      else
        && HeadWidth(data) == 1 + b - 0xF7
        && if SizeField(data, b - 0xF7) then HeadParse(data) == Some((ListKind, Number(data[1..1 + b - 0xF7]))) else HeadParse(data).None?
  {
    hide Number, SizeField;
  }

  /** Once there is room for the first byte, the rest of a long header fails as its size field
      does. */
  lemma LongFails(data: seq<byte>, stack: seq<uint64>, limited: bool, before: uint64, after: uint64, w: nat, e: Error)
    requires data != [] && 1 <= w <= 8 && (data[0] == 0xB7 + w || data[0] == 0xF7 + w)
    requires Room(stack, limited, before, 1) && (limited ==> after == before - 1)
    ensures HeadFails(data, stack, limited, before, e) <==> SizeFieldFails(data, Spend(stack, 1), limited, after, w, e)
    ensures Spend(Spend(stack, 1), w) == Spend(stack, 1 + w)
    ensures Room(Spend(stack, 1), limited, after, w) <==> Room(stack, limited, before, 1 + w)
  {
    hide Number, Spend;
    SpendIs(stack, 1);
    SpendTwice(stack, 1, w);
    RoomTwice(stack, limited, before, 1, after, w);
  }

  lemma LongFailsAll(data: seq<byte>, stack: seq<uint64>, limited: bool, before: uint64, after: uint64, w: nat)
    requires data != [] && 1 <= w <= 8 && (data[0] == 0xB7 + w || data[0] == 0xF7 + w)
    requires Room(stack, limited, before, 1) && (limited ==> after == before - 1)
    ensures forall e :: HeadFails(data, stack, limited, before, e) <==> SizeFieldFails(data, Spend(stack, 1), limited, after, w, e)
    ensures Spend(Spend(stack, 1), w) == Spend(stack, 1 + w)
    ensures Room(Spend(stack, 1), limited, after, w) <==> Room(stack, limited, before, 1 + w)
  {
    hide *;
    LongFails(data, stack, limited, before, after, w, EOF);
    forall e ensures HeadFails(data, stack, limited, before, e) <==> SizeFieldFails(data, Spend(stack, 1), limited, after, w, e) {
      LongFails(data, stack, limited, before, after, w, e);
    }
  }

  lemma BigEndianSmall(i: uint64)
    requires i < 256
    ensures i > 0 ==> BigEndian(i) == [i]
  {
    assert i > 0 ==> BigEndian(i) == BigEndian(0) + [i];
  }

  lemma BigEndianLeads(n: nat)
    ensures n > 0 ==> |BigEndian(n)| > 0 && BigEndian(n)[0] != 0
    ensures n == 0 ==> BigEndian(n) == []
  {
  }

  /** The size that `Kind` reports for a string. */
  function StringSize(b: seq<byte>): nat {
    if |b| == 1 && b[0] < 0x80 then 0 else |b|
  }

  lemma StringOffered(input: seq<byte>, from: nat, b: seq<byte>)
    requires from <= |input| < TWO_64 && IsPrefix(Enc(Str(b)), input[from..])
    ensures var k := KindOf(Str(b));
      && HeadAt(input[from..], k, StringSize(b))
      && HeadTaken(k, StringSize(b)) + Body(k, StringSize(b)) == |Enc(Str(b))|
      && (k.ByteKind? ==> [input[from]] == b)
      && (!k.ByteKind? ==> input[from + |Header(0x80, |b|)|..][..|b|] == b)
  {
    HeadAtItem(input[from..], Str(b));
    if KindOf(Str(b)).ByteKind? {
      assert input[from] == input[from..][..1][0];
    } else {
      var h := |Header(0x80, |b|)|;
      assert input[from..][h..h + |b|] == input[from + h..][..|b|];
    }
  }

  lemma IntLeads(i: uint64)
    ensures i == 0 ==> BigEndian(i) == []
    ensures 0 < i < 256 ==> BigEndian(i) == [i]
    ensures |BigEndian(i)| <= 1 ==> i < 256
    ensures i > 0 ==> |BigEndian(i)| > 0 && BigEndian(i)[0] != 0
    ensures Number(BigEndian(i)) == i
  {
    EncInt(i);
    BigEndianWidth(i, 1);
    Pow256Values();
    if 0 < i < 256 {
      BigEndianSmall(i);
    }
    NumberOfBigEndian(i);
  }

  /** A string of the bytes of an integer, without a leading zero and above a single byte. */
  lemma IntString(b: seq<byte>, i: uint64)
    requires i == Number(b) && (|b| >= 2 ==> b[0] != 0) && (|b| > 0 ==> i >= 128)
    ensures BigEndian(i) == b && Enc(Str(b)) == Header(0x80, |b|) + b
  {
    if |b| == 1 {
      assert b == [b[0]] && Number(b[..0]) == 0;
    }
    BigEndianOfNumber(b);
  }

  /** What the content of an integer says of it, and whether it should have been a lone byte. */
  lemma IntContent(b: seq<byte>, i: uint64)
    requires i == Number(b) && |b| <= 8 && (|b| >= 2 ==> b[0] != 0)
    ensures b == [] ==> i == 0
    ensures |b| == 1 ==> i == b[0]
    ensures |b| >= 2 ==> i >= 256
    ensures (|b| > 0 ==> i >= 128) ==> BigEndian(i) == b && Enc(Str(b)) == Header(0x80, |b|) + b
  {
    hide Number, BigEndian, Header, Enc;
    NumberOfNothing();
    if |b| == 1 {
      assert b == [b[0]];
      NumberOfByte(b[0]);
    } else if |b| > 1 {
      NumberIsWide(b);
    }
    if |b| > 0 ==> i >= 128 {
      IntString(b, i);
    }
  }

  /** The numerals of naturals are the strings without a leading zero. */
  lemma BigAccepted()
    ensures forall i: nat :: Number(BigEndian(i)) == i && (BigEndian(i) != [] ==> BigEndian(i)[0] != 0)
  {
    hide Number, BigEndian;
    forall i: nat ensures Number(BigEndian(i)) == i && (BigEndian(i) != [] ==> BigEndian(i)[0] != 0) {
      NumberOfBigEndian(i);
      BigEndianLeads(i);
    }
  }

  lemma ByteInt(b: byte)
    ensures b > 0 ==> BigEndian(b) == [b]
    ensures b < 128 && b > 0 ==> Enc(Str(BigEndian(b))) == [b]
  {
    BigEndianSmall(b);
  }

  /** The integers that are spelled as a single byte. */
  lemma IntSpelled(i: uint64)
    ensures |BigEndian(i)| == 1 && BigEndian(i)[0] < 0x80 <==> 0 < i < 128
  {
    hide BigEndian;
    IntLeads(i);
  }

  /** A header has one kind and size. */
  lemma OneHead(data: seq<byte>, k: Kind, n: nat, k': Kind, n': nat)
    requires HeadAt(data, k, n) && HeadAt(data, k', n')
    ensures k == k' && n == n'
  {
    HeadParseComplete(data, k, n);
    HeadParseComplete(data, k', n');
  }

  lemma HeadAtByteKind(data: seq<byte>, k: Kind, n: nat)
    requires HeadAt(data, k, n)
    ensures k.ByteKind? ==> data != [] && data[0] < 0x80 && n == 0
  {
  }

  lemma EncText(b: seq<byte>)
    ensures KindOf(Str(b)) == (if |b| == 1 && b[0] < 0x80 then ByteKind else StringKind)
    ensures |b| == 1 && b[0] < 0x80 ==> Enc(Str(b)) == b && ItemSize(Str(b)) == 0
    ensures !(|b| == 1 && b[0] < 0x80) ==> Enc(Str(b)) == Header(0x80, |b|) + b && ItemSize(Str(b)) == |b|
  {
  }

  lemma PrefixFits(e: seq<byte>, input: seq<byte>, from: nat)
    requires from <= |input| && IsPrefix(e, input[from..])
    ensures from + |e| <= |input|
  {
  }

  /** Header and content together. */
  lemma TextAhead(input: seq<byte>, from: nat, n: nat, b: seq<byte>)
    requires from <= |input| && HeadAt(input[from..], StringKind, n) && |b| == n
    requires from + |Header(0x80, n)| + n <= |input| && input[from + |Header(0x80, n)|..][..n] == b
    ensures IsPrefix(Header(0x80, n) + b, input[from..])
  {
    var h, data := Header(0x80, n), input[from..];
    HeadAtIsPrefix(data, StringKind, n);
    assert data[..|h| + n] == data[..|h|] + input[from + |h|..][..n];
  }

  lemma SlicesOf(input: seq<byte>, from: nat, h: nat, n: nat)
    requires from + h + n <= |input|
    ensures input[from + h..][..n] == input[from + h..from + h + n]
    ensures input[from..from + h + n] == input[from..][..h] + input[from + h..from + h + n]
    ensures n == 1 ==> input[from + h..from + h + n] == [input[from + h]]
  {
  }

  lemma NumberOfByte(b: byte)
    ensures Number([b]) == b
  {
    assert [b][..0] == [];
  }

  lemma NumberFits(b: seq<byte>)
    requires |b| <= 8
    ensures Number(b) < TWO_64
  {
    NumberBound(b);
    Pow256Grows(|b|, 8);
    Pow256Values();
  }

  lemma NumberOfNothing()
    ensures Number([]) == 0
  {
  }

  class Stream {
    const input: seq<byte>
    const limited: bool
    var pos: nat
    var remaining: uint64
    var size: uint64
    var kinderr: Option<Error>
    var stack: seq<uint64>
    var kind: Option<Kind>
    var byteval: byte
    /** Where the value ahead starts, and the limits there: `Kind` may already have read its
        header. */
    ghost var from: nat
    ghost var fromStack: seq<uint64>
    ghost var fromRemaining: uint64

    /** The value ahead has this kind and size, and passes the checks of `Kind`: the header
        against both limits, the size against the list limit before the header and the input
        limit after it. */
    ghost predicate Ahead(k: Kind, n: nat)
      requires from <= |input|
      reads this
    {
      && HeadAt(input[from..], k, n)
      && Room(fromStack, limited, fromRemaining, HeadTaken(k, n))
      && (fromStack != [] ==> n <= fromStack[|fromStack| - 1])
      && (limited ==> n <= fromRemaining - HeadTaken(k, n))
    }

    /** `Kind` answers with this error. */
    ghost predicate Fails(e: Error)
      requires from <= |input|
      reads this
    {
      KindFails(input[from..], fromStack, limited, fromRemaining, e)
    }

    /** The value ahead starts with these bytes, and the limits leave room for them. */
    ghost predicate Offers(e: seq<byte>)
      requires from <= |input|
      reads this
    {
      IsPrefix(e, input[from..]) && Room(fromStack, limited, fromRemaining, |e|)
    }

    /** The decoder takes this item from here: its encoding is ahead, and passes the checks of
        `Kind`; a string must also fit into the limits as a whole, a list need not. */
    ghost predicate Accepts(x: Item)
      requires from <= |input|
      reads this
    {
      && IsPrefix(Enc(x), input[from..])
      && Ahead(KindOf(x), ItemSize(x))
      && (x.Str? ==> Room(fromStack, limited, fromRemaining, |Enc(x)|))
    }

    /** What was consumed is what was ahead. */
    twostate lemma WasAccepted(x: Item)
      requires old(from) <= |input| && pos == old(from) + |Enc(x)| <= |input| && input[old(from)..pos] == Enc(x)
      requires old(Ahead(KindOf(x), ItemSize(x))) && (x.Str? ==> old(Room(fromStack, limited, fromRemaining, |Enc(x)|)))
      ensures old(Accepts(x))
    {
      hide Enc, HeadAt;
      assert input[old(from)..][..|Enc(x)|] == input[old(from)..pos];
    }

    twostate lemma AcceptsSame()
      requires from == old(from) <= |input| && fromStack == old(fromStack) && fromRemaining == old(fromRemaining)
      ensures forall x :: Accepts(x) <==> old(Accepts(x))
      ensures forall n: nat, e :: ContentFails(n, e) <==> old(ContentFails(n, e))
      ensures forall n: nat :: LeadingZero(n) <==> old(LeadingZero(n))
      ensures forall e :: Fails(e) <==> old(Fails(e))
      ensures forall k, n: nat :: Ahead(k, n) <==> old(Ahead(k, n))
    {
      hide Header;
    }

    twostate lemma TextFailsSame()
      requires from == old(from) <= |input| && fromStack == old(fromStack) && fromRemaining == old(fromRemaining)
      ensures forall e :: TextFails(e) <==> old(TextFails(e))
    {
      hide ContentFails, Stream.Ahead;
      AcceptsSame();
    }

    /** What fits into the limits is accepted. */
    lemma OfferedAccepted(x: Item)
      requires from <= |input| < TWO_64 && Offers(Enc(x))
      ensures Accepts(x)
    {
      hide Enc, HeadAt;
      ItemOffered(input, from, x);
    }

    /** The content of a string of `n` bytes, once its header is accepted, is refused. */
    ghost predicate ContentFails(n: nat, e: Error)
      requires from <= |input|
      reads this
    {
      var len := |Header(0x80, n)| + n;
      var fits := Room(fromStack, limited, fromRemaining, len);
      match e
      case ElemTooLarge => fromStack != [] && len > fromStack[|fromStack| - 1]
      case UnexpectedEOF => fits && from + len > |input|
      case CanonSize => fits && from + len <= |input| && n == 1 && input[from + len - 1] < 0x80
      case _ => false
    }

    /** `Kind` finds a value, but no string can be read from it. */
    ghost predicate TextFails(e: Error)
      requires from <= |input|
      reads this
    {
      if e == ExpectedString then exists n: nat :: Ahead(ListKind, n)
      else exists n: nat :: Ahead(StringKind, n) && ContentFails(n, e)
    }

    /** `Kind` finds a value, but no integer of at most `width` bytes can be read from it. */
    ghost predicate IntFails(width: nat, e: Error)
      requires from <= |input|
      reads this
    {
      match e
      case ExpectedString => exists n: nat :: Ahead(ListKind, n)
      case UintOverflow => exists n: nat :: Ahead(StringKind, n) && n > width
      case CanonInt =>
        || (Ahead(ByteKind, 0) && from < |input| && input[from] == 0)
        || exists n: nat :: Ahead(StringKind, n) && n <= width && LeadingZero(n)
      case _ => exists n: nat :: Ahead(StringKind, n) && n <= width && ContentFails(n, e)
    }

    /** A string of `n` bytes is there, and starts with a zero that is not all of it. */
    ghost predicate LeadingZero(n: nat)
      requires from <= |input|
      reads this
    {
      var h := |Header(0x80, n)|;
      && n >= 2 && Room(fromStack, limited, fromRemaining, h + n)
      && from + h + n <= |input| && input[from + h] == 0
    }

    /** What these come to when `Kind` has found a value. */
    lemma TextFailsIs()
      requires from <= |input|
      ensures forall n: nat, e | Ahead(ByteKind, n) :: !TextFails(e)
      ensures forall n: nat, e | Ahead(ListKind, n) :: TextFails(e) <==> e == ExpectedString
      ensures forall n: nat, e | Ahead(StringKind, n) :: TextFails(e) <==> ContentFails(n, e)
      ensures forall e | TextFails(e) :: e != EOF && exists k, n: nat :: Ahead(k, n)
      ensures forall e | TextFails(e) :: HeadError(e) || e == ExpectedString
      ensures forall n: nat :: !ContentFails(n, EOL) && !ContentFails(n, ExpectedString)
    {
      hide HeadAt, HeadTaken, Room, Stream.Ahead;
      OneAhead();
    }

    lemma IntFailsIs(width: nat)
      requires from <= |input|
      ensures forall n: nat, e | Ahead(ByteKind, n) :: IntFails(width, e) <==> e == CanonInt && from < |input| && input[from] == 0
      ensures forall n: nat, e | Ahead(ListKind, n) :: IntFails(width, e) <==> e == ExpectedString
      ensures forall n: nat, e | Ahead(StringKind, n) ::
        IntFails(width, e) <==>
          if n > width then e == UintOverflow else (e == CanonInt && LeadingZero(n)) || ContentFails(n, e)
      ensures forall e | IntFails(width, e) :: exists k, n: nat :: Ahead(k, n)
      ensures forall n: nat, e | LeadingZero(n) :: !ContentFails(n, e)
      ensures forall n: nat :: !ContentFails(n, EOL) && !ContentFails(n, ExpectedString) && !ContentFails(n, UintOverflow)
      ensures IntFails(width, ExpectedString) <==> exists n: nat :: Ahead(ListKind, n)
      ensures IntFails(width, UintOverflow) <==> exists n: nat :: Ahead(StringKind, n) && n > width
      ensures forall k, n: nat | Ahead(k, n) :: n < TWO_64
    {
      hide HeadAt, HeadTaken, Room, Stream.Ahead, LeadingZero;
      OneAhead();
      forall n: nat, e | LeadingZero(n) ensures !ContentFails(n, e) {
        ZeroIsContent(n, e);
      }
      forall k, n: nat | Ahead(k, n) ensures n < TWO_64 {
        AheadSize(k, n);
      }
      forall n: nat | Ahead(ByteKind, n) ensures n == 0 {
        ByteSize(n);
      }
    }

    lemma ZeroIsContent(n: nat, e: Error)
      requires from <= |input| && LeadingZero(n)
      ensures !ContentFails(n, e)
    {
    }

    lemma AheadSize(k: Kind, n: nat)
      requires from <= |input| && Ahead(k, n)
      ensures n < TWO_64
    {
    }

    lemma ByteSize(n: nat)
      requires from <= |input| && Ahead(ByteKind, n)
      ensures n == 0
    {
    }

    /** What is in front; the input limit matters only if there is one. */
    ghost function Here(): Sight
      requires from <= |input|
      reads this
    {
      Sight(input[from..], fromStack, limited, if limited then fromRemaining else 0)
    }

    lemma HereIs()
      requires from <= |input|
      ensures forall k, n: nat :: Ahead(k, n) <==> AheadIn(Here(), k, n)
      ensures forall x :: Accepts(x) <==> TakesIn(Here(), x)
      ensures forall e :: Fails(e) <==> KindFails(Here().data, Here().stack, Here().limited, Here().remaining, e)
      ensures forall n: nat, e :: ContentFails(n, e) <==> ContentFailsIn(Here(), n, e)
    {
      hide Enc, Header, HeadAt, HeadTaken, HeadParse, HeadReach;
    }

    twostate lemma Entered(n: uint64)
      requires old(from) <= |input| && from == old(from) + |Header(0xC0, n)| <= |input|
      requires fromStack == Spend(old(fromStack), |Header(0xC0, n)| + n) + [n]
      requires limited ==> fromRemaining == old(fromRemaining) - |Header(0xC0, n)|
      ensures |Header(0xC0, n)| <= |old(Here()).data| && Here() == Enter(old(Here()), n)
    {
      hide Header, Spend;
      SpendTwice(old(fromStack), |Header(0xC0, n)|, n);
      DropDrop(input, old(from), |Header(0xC0, n)|);
    }

    twostate lemma Skipped(n: nat)
      requires old(from) <= |input| && from == old(from) + n <= |input|
      requires fromStack == Spend(old(fromStack), n)
      requires limited ==> fromRemaining == old(fromRemaining) - n
      ensures n <= |old(Here()).data| && Here() == Skip(old(Here()), n)
    {
      hide Spend;
      DropDrop(input, old(from), n);
    }

    /** The errors of `Kind`, and of a string's content, are refusals. */
    lemma HeadRefuses()
      requires from <= |input|
      ensures forall e | Fails(e) :: Refuses(Here(), e)
      ensures forall n: nat, e | Ahead(StringKind, n) && ContentFails(n, e) :: Refuses(Here(), e)
    {
      hide KindFails, AheadIn, ContentFailsIn, Stream.Ahead, Stream.ContentFails, RefusesAfter, Stream.Fails;
      HereIs();
    }

    ghost predicate Valid()
      reads this
    {
      && from <= pos <= |input| < TWO_64
      && match kind
         case None => from == pos && fromStack == stack && fromRemaining == remaining
         case Some(k) =>
           if kinderr.None? then
             && Ahead(k, size)
             && pos == from + HeadTaken(k, size)
             && stack == Spend(fromStack, HeadTaken(k, size))
             && (limited ==> remaining == fromRemaining - HeadTaken(k, size))
             && (k.ByteKind? ==> byteval == input[from])
           else
             Fails(kinderr.value) && forall k', n: nat :: !Ahead(k', n)
    }

    /** Ready for a new value: nothing cached by `Kind`. */
    ghost predicate Armed()
      reads this
    {
      Valid() && kind == None
    }

    /** The innermost list is used up. */
    ghost predicate AtEnd()
      reads this
    {
      kind == None && stack != [] && stack[|stack| - 1] == 0
    }

    /** Reading went `n` bytes on and charged them to the limits. */
    twostate predicate Moved(n: nat)
      reads this
    {
      && pos == old(pos) + n
      && stack == Spend(old(stack), n)
      && (limited ==> remaining == old(remaining) - n)
    }

    /** The value that was ahead had `n` bytes; they are consumed and charged. */
    twostate predicate Took(n: nat)
      reads this
    {
      && Armed()
      && pos == old(from) + n
      && stack == Spend(old(fromStack), n)
      && (limited ==> remaining == old(fromRemaining) - n)
    }

    /** `NewStream`: without an explicit limit, the length of in-memory data is the limit. */
    constructor (data: seq<byte>, limited: bool, inputLimit: uint64)
      requires |data| < TWO_64
      ensures Armed() && input == data && this.limited == limited && pos == 0 && stack == []
      ensures remaining == if inputLimit > 0 then inputLimit else |data|
    {
      input, this.limited, pos := data, limited, 0;
      remaining := if inputLimit > 0 then inputLimit else |data|;
      size, kinderr, stack, kind, byteval := 0, None, [], None, 0;
      from, fromStack := 0, [];
      fromRemaining := if inputLimit > 0 then inputLimit else |data|;
    }

    /** `willRead`: checks `n` against the limits, innermost list first, and charges it. */
    method WillRead(n: uint64) returns (err: Option<Error>)
      requires pos <= |input| < TWO_64
      modifies this
      ensures Armed() && pos == old(pos) && size == old(size) && byteval == old(byteval)
      ensures err.None? ==> stack == Spend(old(stack), n)
      ensures err.None? ==> limited ==> remaining == old(remaining) - n
      ensures err.None? <==> Room(old(stack), limited, old(remaining), n)
      ensures err == Some(ElemTooLarge) <==> old(stack) != [] && n > old(stack)[|old(stack)| - 1]
      ensures err == Some(ValueTooLarge) <==> err != Some(ElemTooLarge) && limited && n > old(remaining)
      ensures forall e :: err == Some(e) <==> Exceeds(old(stack), limited, old(remaining), n, e)
      ensures err.Some? ==>
        remaining == old(remaining) && stack == if err.value.ElemTooLarge? then old(stack) else Spend(old(stack), n)
    {
      err := None;
      kind := None;
      if stack != [] && n > stack[|stack| - 1] {
        err := Some(ElemTooLarge);
      } else {
        if stack != [] {
          stack := stack[|stack| - 1 := stack[|stack| - 1] - n];
        }
        if limited {
          if n > remaining {
            err := Some(ValueTooLarge);
          } else {
            remaining := remaining - n;
          }
        }
      }
      from, fromStack, fromRemaining := pos, stack, remaining;
    }

    method ReadByte() returns (r: Result<byte>)
      requires pos <= |input| < TWO_64
      modifies this
      ensures Armed() && pos >= old(pos) && size == old(size) && byteval == old(byteval)
      ensures r.Ok? ==> Moved(1) && old(pos) < |input| && r.value == input[old(pos)]
      ensures r.Ok? <==> Room(old(stack), limited, old(remaining), 1) && old(pos) < |input|
      ensures r.Err? ==> |stack| == |old(stack)|
      ensures forall e :: r == Err(e) <==>
        if e == UnexpectedEOF then Room(old(stack), limited, old(remaining), 1) && old(pos) == |input|
        else Exceeds(old(stack), limited, old(remaining), 1, e)
    {
      var err := WillRead(1);
      if err.Some? {
        return Err(err.value);
      }
      if pos == |input| {
        return Err(UnexpectedEOF);
      }
      pos := pos + 1;
      from := pos;
      return Ok(input[pos - 1]);
    }

    method ReadFull(n: uint64) returns (r: Result<seq<byte>>)
      requires pos <= |input| < TWO_64
      modifies this
      ensures Armed() && pos >= old(pos) && byteval == old(byteval) && size == old(size)
      ensures r.Ok? ==> Moved(n) && r.value == input[old(pos)..pos]
      ensures r.Ok? <==> Room(old(stack), limited, old(remaining), n) && old(pos) + n <= |input|
      ensures forall e :: r == Err(e) <==>
        if e == UnexpectedEOF then Room(old(stack), limited, old(remaining), n) && old(pos) + n > |input|
        else Exceeds(old(stack), limited, old(remaining), n, e)
    {
      var err := WillRead(n);
      if err.Some? {
        return Err(err.value);
      }
      if |input| - pos < n {
        pos := |input|;
        from := pos;
        return Err(UnexpectedEOF);
      }
      pos := pos + n;
      from := pos;
      return Ok(input[pos - n..pos]);
    }

    /** `readUint`: an integer of `n` bytes without a leading zero byte. */
    method ReadUint(n: nat) returns (r: Result<uint64>)
      requires Valid() && n <= 8
      modifies this
      ensures Armed() && pos >= old(pos) && byteval == old(byteval) && size == old(size)
      ensures n == 0 ==> r == Ok(0) && Moved(0)
      ensures r.Ok? ==> Moved(n) && r.value == Number(input[old(pos)..pos])
      ensures n > 0 ==> (r.Ok? <==>
        && Room(old(stack), limited, old(remaining), n) && old(pos) + n <= |input|
        && (n >= 2 ==> input[old(pos)] != 0))
      ensures n > 0 ==> forall e :: r == Err(e) <==>
        match e
        case UnexpectedEOF => Room(old(stack), limited, old(remaining), n) && old(pos) + n > |input|
        case CanonSize =>
          Room(old(stack), limited, old(remaining), n) && old(pos) + n <= |input| && n >= 2 && input[old(pos)] == 0
        case _ => Exceeds(old(stack), limited, old(remaining), n, e)
    {
      hide Number, Spend;
      if n == 0 {
        kind := None;
        from, fromStack, fromRemaining := pos, stack, remaining;
        SpendNothing(stack);
        NumberOfNothing();
        assert input[old(pos)..pos] == [];
        return Ok(0);
      }
      if n == 1 {
        var b := ReadByte();
        if b.Err? {
          return Err(b.error);
        }
        NumberOfByte(b.value);
        assert input[old(pos)..pos] == [b.value];
        return Ok(b.value);
      }
      var buffer := ReadFull(n);
      if buffer.Err? {
        return Err(buffer.error);
      }
      if buffer.value[0] == 0 {
        return Err(CanonSize);
      }
      NumberFits(buffer.value);
      return Ok(Number(buffer.value));
    }

    /** The long form of a header, after its tag: a size field that is canonical. */
    method ReadSize(w: nat) returns (r: Result<uint64>)
      requires Armed() && 1 <= w <= 8 && pos >= 1
      modifies this
      ensures Armed() && pos >= old(pos) && byteval == old(byteval)
      ensures r.Ok? <==> Room(old(stack), limited, old(remaining), w) && SizeField(input[old(pos) - 1..], w)
      ensures r.Ok? ==> Moved(w) && r.value == Number(input[old(pos) - 1..][1..1 + w])
      ensures forall e :: r == Err(e) <==> SizeFieldFails(input[old(pos) - 1..], old(stack), limited, old(remaining), w, e)
    {
      ghost var data := input[pos - 1..];
      assert pos + w <= |input| ==> input[pos..pos + w] == data[1..1 + w];
      r := ReadUint(w);
      if r.Ok? && r.value < 56 {
        r := Err(CanonSize);
      }
    }

    /** `return k, size, err` of the two long cases of `readKind`. */
    method ReadLong(k: Kind, w: nat) returns (k': Kind, n: uint64, err: Option<Error>)
      requires Armed() && 1 <= w <= 8 && pos >= 1
      modifies this
      ensures Armed() && pos >= old(pos) && byteval == old(byteval) && k' == k
      ensures err.None? <==> Room(old(stack), limited, old(remaining), w) && SizeField(input[old(pos) - 1..], w)
      ensures err.None? ==> Moved(w) && n == Number(input[old(pos) - 1..][1..1 + w])
      ensures forall e :: err == Some(e) <==> SizeFieldFails(input[old(pos) - 1..], old(stack), limited, old(remaining), w, e)
    {
      var r := ReadSize(w);
      match r {
        case Ok(size) => return k, size, None;
        case Err(e) => return k, 0, Some(e);
      }
    }

    /** `readKind`: the header of the next value. */
    method ReadKind() returns (k: Kind, n: uint64, err: Option<Error>)
      requires Armed()
      modifies this
      ensures Armed() && pos >= old(pos)
      ensures err.None? <==>
        && HeadParse(input[old(pos)..]).Some?
        && Room(old(stack), limited, old(remaining), HeadWidth(input[old(pos)..]))
      ensures err.None? ==> HeadParse(input[old(pos)..]) == Some((k, n)) && Moved(HeadWidth(input[old(pos)..]))
      ensures err.None? && k.ByteKind? ==> byteval == input[old(pos)]
      ensures err == Some(EOF) <==> old(stack) == [] && (old(pos) == |input| || (limited && old(remaining) == 0))
      ensures forall e :: err == Some(e) <==> HeadFails(input[old(pos)..], old(stack), limited, old(remaining), e)
    {
      hide Spend, SizeField, Number, Room, HeadParse, HeadWidth, HeadFails, SizeFieldFails, Exceeds;
      ghost var data, stack0, remaining0 := input[pos..], stack, remaining;
      FailsAtEnd(data, stack0, limited, remaining0);
      var first := ReadByte();
      if first.Err? {
        var e := first.error;
        FirstFails(data, stack0, limited, remaining0, e);
        if stack == [] && (e.UnexpectedEOF? || e.ValueTooLarge?) {
          e := EOF;
        }
        return ByteKind, 0, Some(e);
      }
      var b := first.value;
      HeadIs(data);
      if HeadWidth(data) == 1 {
        ShortHead(data, stack0, limited, remaining0);
      }
      byteval := 0;
      if b < 0x80 {
        byteval := b;
        k, n, err := ByteKind, 0, None;
      } else if b < 0xB8 {
        k, n, err := StringKind, b - 0x80, None;
      } else if b < 0xC0 {
        LongFailsAll(data, stack0, limited, remaining0, remaining, b - 0xB7);
        k, n, err := ReadLong(StringKind, b - 0xB7);
      } else if b < 0xF8 {
        k, n, err := ListKind, b - 0xC0, None;
      } else {
        LongFailsAll(data, stack0, limited, remaining0, remaining, b - 0xF7);
        k, n, err := ReadLong(ListKind, b - 0xF7);
      }
    }

    lemma KindFailsOnce()
      requires from <= |input|
      ensures forall e, f | Fails(e) && Fails(f) :: e == f
      ensures Fails(EOF) <==> fromStack == [] && (from == |input| || (limited && fromRemaining == 0))
      ensures forall k, n: nat, e | Ahead(k, n) :: !Fails(e)
      ensures !Fails(EOL)
      ensures fromStack != [] && fromStack[|fromStack| - 1] == 0 ==> forall e :: !Fails(e)
    {
      hide KindFails, HeadAt, HeadTaken;
      forall e ensures fromStack != [] && fromStack[|fromStack| - 1] == 0 ==> !Fails(e) {
        FailsAtLimit(input[from..], fromStack, limited, fromRemaining, e);
      }
      forall e | Fails(e)
        ensures forall f | Fails(f) :: e == f
        ensures e != EOL
      {
        forall f | Fails(f) ensures e == f {
          FailsOnce(input[from..], fromStack, limited, fromRemaining, e, f);
        }
        FailsOnce(input[from..], fromStack, limited, fromRemaining, e, e);
      }
      FailsAtEnd(input[from..], fromStack, limited, fromRemaining);
      forall k, n: nat, e | Ahead(k, n) ensures !Fails(e) {
        AheadSucceeds(input[from..], fromStack, limited, fromRemaining, k, n, e);
      }
    }

    /** `Kind`: kind and size of the value ahead.  The size is compared with the limit that
        held before the header was read. */
    method Kind() returns (r: Result<(Kind, uint64)>)
      requires Valid()
      modifies this
      ensures Valid() && from == old(from) && fromStack == old(fromStack) && fromRemaining == old(fromRemaining)
      ensures r == Err(EOL) <==> old(AtEnd())
      ensures r == Err(EOL) ==> Armed() && unchanged(this)
      ensures r.Err? ==> r.error == EOL || HeadError(r.error)
      ensures r == Err(EOF) <==>
        old(fromStack) == [] && (old(from) == |input| || (limited && old(fromRemaining) == 0))
      ensures forall e | e != EOL :: r == Err(e) <==> old(Fails(e))
      ensures r.Ok? ==> kind == Some(r.value.0) && size == r.value.1 && kinderr.None?
      ensures forall k, n: nat :: old(Ahead(k, n)) ==> r == Ok((k, n))
      ensures r.Ok? ==> old(Ahead(r.value.0, r.value.1))
    {
      hide HeadAt, HeadTaken, KindFails, Spend, Room;
      KindFailsOnce();
      FailsWith();
      if kind.Some? {
        OneAhead();
        if kinderr.Some? {
          return Err(kinderr.value);
        }
        return Ok((kind.value, size));
      }
      var inList := stack != [];
      var listLimit := if inList then stack[|stack| - 1] else 0;
      if inList && listLimit == 0 {
        NothingAhead();
        return Err(EOL);
      }
      r := ReadAhead(inList, listLimit);
    }

    lemma FailsWith()
      requires from <= |input|
      ensures forall e | Fails(e) :: HeadError(e)
    {
    }

    lemma OneAhead()
      requires from <= |input|
      ensures forall k, n: nat, k', n': nat | Ahead(k, n) && Ahead(k', n') :: k == k' && n == n'
    {
      hide HeadAt, HeadTaken;
      forall k, n: nat, k', n': nat | Ahead(k, n) && Ahead(k', n') ensures k == k' && n == n' {
        OneHead(input[from..], k, n, k', n');
      }
    }

    lemma NothingAhead()
      requires from <= |input| && fromStack != [] && fromStack[|fromStack| - 1] == 0
      ensures forall k, n: nat :: !Ahead(k, n)
    {
    }

    /** `Kind` before the end of a list: reads the header, and checks the size. */
    method ReadAhead(inList: bool, listLimit: uint64) returns (r: Result<(Kind, uint64)>)
      requires Armed() && inList == (stack != []) && (inList ==> listLimit == stack[|stack| - 1] > 0)
      modifies this
      ensures Valid() && from == old(from) && fromStack == old(fromStack) && fromRemaining == old(fromRemaining)
      ensures r.Ok? ==> kind == Some(r.value.0) && size == r.value.1 && kinderr.None?
      ensures forall e :: r == Err(e) <==> old(Fails(e))
      ensures forall k, n: nat :: r == Ok((k, n)) <==> old(Ahead(k, n))
    {
      hide HeadParse, HeadWidth, Spend, Room, HeadFails, Stream.Ahead, Stream.Fails;
      ghost var from0, stack0, remaining0 := from, fromStack, fromRemaining;
      ghost var data := input[from..];
      var k, n, err := ReadKind();
      kind, size, kinderr := Some(k), n, err;
      from, fromStack, fromRemaining := from0, stack0, remaining0;
      if kinderr == None {
        if inList && size > listLimit {
          kinderr := Some(ElemTooLarge);
        } else if limited && size > remaining {
          kinderr := Some(ValueTooLarge);
        }
        Measured(k, n);
      } else {
        Failed();
      }
      AcceptsSame();
      return if kinderr.Some? then Err(kinderr.value) else Ok((k, n));
    }

    /** A failed header, cached. */
    lemma Failed()
      requires from <= pos <= |input| < TWO_64 && kind.Some? && kinderr.Some?
      requires HeadFails(input[from..], fromStack, limited, fromRemaining, kinderr.value)
      requires fromStack != [] ==> fromStack[|fromStack| - 1] > 0
      ensures Valid()
      ensures forall e :: Fails(e) <==> kinderr == Some(e)
      ensures forall k, n: nat :: !Ahead(k, n)
    {
      hide HeadFails, KindFails, HeadAt, HeadTaken, Room, Stream.Ahead;
      HeadFailed(input[from..], fromStack, limited, fromRemaining, kinderr.value);
      assert Fails(kinderr.value);
      KindFailsOnce();
    }

    /** A header that has been read, its size checked. */
    lemma Measured(k: Kind, n: uint64)
      requires from <= pos <= |input| < TWO_64 && kind == Some(k) && size == n
      requires fromStack != [] ==> fromStack[|fromStack| - 1] > 0
      requires HeadParse(input[from..]) == Some((k, n))
      requires var w := HeadWidth(input[from..]);
        && Room(fromStack, limited, fromRemaining, w) && pos == from + w && stack == Spend(fromStack, w)
        && (limited ==> remaining == fromRemaining - w)
      requires k.ByteKind? ==> byteval == input[from]
      requires kinderr ==
        if fromStack != [] && n > fromStack[|fromStack| - 1] then Some(ElemTooLarge)
        else if limited && n > remaining then Some(ValueTooLarge) else None
      ensures Valid()
      ensures forall e :: Fails(e) <==> kinderr == Some(e)
      ensures forall k', n': nat :: Ahead(k', n') <==> kinderr.None? && k' == k && n' == n
    {
      hide HeadAt, HeadParse, HeadWidth, HeadTaken, KindFails, HeadFails, Spend;
      HeadParseExact(input[from..]);
      SizeChecked(input[from..], fromStack, limited, fromRemaining, remaining, k, n);
    }

    /** `List`: enters the list ahead.  The enclosing limit gives up the whole list at once,
        by a subtraction that wraps exactly when header and content exceed that limit. */
    method List() returns (r: Result<uint64>)
      requires Valid()
      modifies this
      ensures Valid()
      ensures r == Err(EOL) <==> old(AtEnd())
      ensures r.Ok? ==>
        var h := |Header(0xC0, r.value)|;
        && old(HeadAt(input[from..], ListKind, r.value))
        && Armed() && pos == old(from) + h
        && stack == Spend(old(fromStack), h + r.value) + [r.value]
        && (limited ==> remaining == old(fromRemaining) - h)
      ensures forall n: uint64 :: r == Ok(n) <==> old(Ahead(ListKind, n))
      ensures r == Err(ExpectedList) <==> exists k, n: nat :: old(Ahead(k, n)) && k != ListKind
      ensures forall e | e != EOL && e != ExpectedList :: r == Err(e) <==> old(Fails(e))
      ensures r.Ok? && old(fromStack) != [] ==>
        var outer, taken := old(fromStack)[|old(fromStack)| - 1], |Header(0xC0, r.value)| + r.value;
        stack[|stack| - 2] == (if taken <= outer then outer - taken else outer - taken + TWO_64)
    {
      hide Header, HeadAt, Spend, Stream.Fails, Stream.Ahead, Room, Stream.Valid;
      ghost var stack0, from0 := fromStack, from;
      Bounds();
      FailsWith();
      OneAhead();
      var ahead := Kind();
      if ahead.Err? {
        return Err(ahead.error);
      }
      var (k, size) := ahead.value;
      if k != ListKind {
        return Err(ExpectedList);
      }
      PendingList();
      SpendTwice(stack0, |Header(0xC0, size)|, size);
      SpendLimit(stack0, |Header(0xC0, size)|, size);
      SpendIs(stack, size);
      if stack != [] {
        stack := stack[|stack| - 1 := Sub64(stack[|stack| - 1], size)];
      }
      stack := stack + [size];
      kind, this.size := None, 0;
      from, fromStack, fromRemaining := pos, stack, remaining;
      Rearmed();
      return Ok(size);
    }

    /** `ListEnd`: back to the enclosing list, once the innermost one is used up. */
    method ListEnd() returns (err: Option<Error>)
      requires Valid()
      modifies this
      ensures Valid()
      ensures err.None? <==> old(stack) != [] && old(stack)[|old(stack)| - 1] == 0
      ensures err.None? ==> Armed() && pos == old(pos) && remaining == old(remaining)
      ensures err.None? ==> stack == old(stack)[..|old(stack)| - 1]
      ensures err == Some(NotInList) <==> old(stack) == []
      ensures err == Some(NotAtEOL) <==> old(stack) != [] && old(stack)[|old(stack)| - 1] > 0
      ensures err.Some? ==> unchanged(this)
    {
      if stack == [] {
        return Some(NotInList);
      }
      if stack[|stack| - 1] > 0 {
        return Some(NotAtEOL);
      }
      stack := stack[..|stack| - 1];
      kind, size := None, 0;
      from, fromStack, fromRemaining := pos, stack, remaining;
      return None;
    }

    /** The header of the value ahead has been read and accepted. */
    ghost predicate Pending(k: Kind)
      reads this
    {
      Valid() && kind == Some(k) && kinderr.None?
    }

    lemma PendingList()
      requires Pending(ListKind)
      ensures HeadAt(input[from..], ListKind, size) && pos == from + |Header(0xC0, size)|
      ensures pos <= |input| < TWO_64 && stack == Spend(fromStack, |Header(0xC0, size)|)
      ensures limited ==> remaining == fromRemaining - |Header(0xC0, size)|
      ensures fromStack != [] ==>
        |Header(0xC0, size)| <= fromStack[|fromStack| - 1] && size <= fromStack[|fromStack| - 1]
    {
    }

    lemma Bounds()
      requires Valid()
      ensures from <= pos <= |input| < TWO_64
    {
    }

    lemma Rearmed()
      requires kind == None && from == pos <= |input| < TWO_64 && fromStack == stack && fromRemaining == remaining
      ensures Armed()
    {
    }

    /** Charging the content to the limits that the header left. */
    lemma PendingString()
      requires Pending(StringKind)
      ensures from <= pos <= |input| < TWO_64 && pos == from + |Header(0x80, size)|
      ensures input[from..][..|Header(0x80, size)|] == Header(0x80, size)
      ensures Spend(stack, size) == Spend(fromStack, |Header(0x80, size)| + size)
      ensures limited ==> remaining == fromRemaining - |Header(0x80, size)|
      ensures Room(stack, limited, remaining, size) <==> Room(fromStack, limited, fromRemaining, |Header(0x80, size)| + size)
      ensures forall e :: Exceeds(stack, limited, remaining, size, e) <==> e.ElemTooLarge? && ContentFails(size, e)
      ensures ContentFails(size, UnexpectedEOF) <==> Room(stack, limited, remaining, size) && pos + size > |input|
      ensures LeadingZero(size) <==>
        size >= 2 && Room(stack, limited, remaining, size) && pos + size <= |input| && input[pos] == 0
      ensures forall e | ContentFails(size, e) :: e.ElemTooLarge? || e.UnexpectedEOF? || e.CanonSize?
      ensures size == 0 ==> Room(stack, limited, remaining, size) && forall e :: !Exceeds(stack, limited, remaining, size, e)
      ensures pos + size > |input| ==> !ContentFails(size, CanonSize)
    {
      hide Header, HeadAt, Spend;
      HeadAtIsPrefix(input[from..], StringKind, size);
      SpendTwice(fromStack, |Header(0x80, size)|, size);
      SpendIs(fromStack, |Header(0x80, size)|);
      RoomTwice(fromStack, limited, fromRemaining, |Header(0x80, size)|, remaining, size);
    }

    lemma PendingByte()
      requires Pending(ByteKind)
      ensures from < |input| && byteval == input[from]
    {
    }

    /** Hands out the byte that `Kind` kept, and rearms it. */
    method TakeByte() returns (b: byte)
      requires Pending(ByteKind)
      modifies this
      ensures Took(1) && old(from) < |input| && b == input[old(from)] < 0x80
      ensures input[old(from)..pos] == [b]
    {
      kind := None;
      b := byteval;
      from, fromStack, fromRemaining := pos, stack, remaining;
    }

    /** Reads the content of the string whose header `Kind` has read. */
    method TakeString() returns (r: Result<seq<byte>>)
      requires Pending(StringKind)
      modifies this
      ensures Armed()
      ensures r.Ok? ==> |r.value| == old(size) && Took(|Header(0x80, old(size))| + old(size))
      ensures r.Ok? ==> input[old(from)..pos] == Header(0x80, old(size)) + r.value
      ensures var len := |Header(0x80, old(size))| + old(size);
        r.Ok? <==> old(from + len <= |input| && Room(fromStack, limited, fromRemaining, len))
      ensures r.Ok? ==> r.value == input[old(from) + |Header(0x80, old(size))|..][..old(size)]
      ensures forall e :: r == Err(e) <==> e != CanonSize && old(ContentFails(size, e))
    {
      hide Header, Stream.Valid, Stream.Ahead, Room, Spend, ContentFails, Exceeds;
      PendingString();
      var n := size;
      ghost var from0, h := from, Header(0x80, n);
      r := ReadFull(n);
      if r.Ok? {
        SlicesOf(input, from0, |h|, n);
      }
    }

    /** Reads the integer in a string whose header `Kind` has read. */
    method TakeUint() returns (r: Result<uint64>)
      requires Pending(StringKind) && size <= 8
      modifies this
      ensures Armed() && size == old(size)
      ensures r.Ok? ==> Took(|Header(0x80, old(size))| + old(size))
      ensures r.Ok? ==>
        var b := input[old(from) + |Header(0x80, old(size))|..][..old(size)];
        r.value == Number(b) && input[old(from)..pos] == Header(0x80, old(size)) + b && (|b| >= 2 ==> b[0] != 0)
      ensures var len := |Header(0x80, old(size))| + old(size);
        r.Ok? <==>
          && old(from + len <= |input| && Room(fromStack, limited, fromRemaining, len))
          && (old(size) >= 2 ==> input[old(from) + |Header(0x80, old(size))|] != 0)
      ensures forall e :: r == Err(e) <==>
        if e == CanonSize then old(LeadingZero(size)) else old(ContentFails(size, e))
    {
      hide Header, BigEndian, Number, Stream.Valid, Stream.Ahead, Room, Spend, ContentFails, Exceeds, LeadingZero, Enc;
      PendingString();
      var n := size;
      ghost var from0, h := from, Header(0x80, n);
      r := ReadUint(n);
      if r.Ok? {
        SlicesOf(input, from0, |h|, n);
      }
    }

    /** The string ahead is this one, spelled canonically, and fits. */
    ghost predicate TextIs(k: Kind, b: seq<byte>)
      reads this
    {
      if k.ByteKind? then b == [byteval] else StringAhead(b) && !(|b| == 1 && b[0] < 0x80)
    }

    /** Of all strings, the decoder accepts the one whose header `Kind` has read, if it is spelled
        canonically and fits. */
    lemma TextAccepted(k: Kind)
      requires Pending(k) && !k.ListKind?
      ensures forall b :: Accepts(Str(b)) <==> TextIs(k, b)
    {
      hide TextIs, Stream.Accepts;
      forall b ensures Accepts(Str(b)) <==> TextIs(k, b) {
        if Accepts(Str(b)) {
          TextSound(k, b);
        }
        if TextIs(k, b) {
          TextComplete(k, b);
        }
      }
    }

    lemma TextSound(k: Kind, b: seq<byte>)
      requires Pending(k) && !k.ListKind? && Accepts(Str(b))
      ensures TextIs(k, b)
    {
      hide Header, Enc, HeadAt, Spend;
      HeadAtByteKind(input[from..], k, size);
      StringOffered(input, from, b);
      OneHead(input[from..], k, size, KindOf(Str(b)), ItemSize(Str(b)));
      EncText(b);
      PrefixFits(Enc(Str(b)), input, from);
    }

    lemma TextComplete(k: Kind, b: seq<byte>)
      requires Pending(k) && !k.ListKind? && TextIs(k, b)
      ensures Accepts(Str(b))
    {
      hide Header, Enc, HeadAt, Spend;
      HeadAtByteKind(input[from..], k, size);
      EncText(b);
      if k.ByteKind? {
        assert input[from..][..1] == [byteval];
      } else {
        TextAhead(input, from, size, b);
      }
    }

    /** Hands out the string whose header `Kind` has read. */
    method TakeText(k: Kind) returns (r: Result<seq<byte>>)
      requires Pending(k) && !k.ListKind?
      modifies this
      ensures Valid()
      ensures r.Ok? ==> Took(|Enc(Str(r.value))|) && input[old(from)..pos] == Enc(Str(r.value))
      ensures forall b :: r == Ok(b) <==> old(Accepts(Str(b)))
      ensures forall e :: r == Err(e) <==> k.StringKind? && old(ContentFails(size, e))
      ensures r.Ok? ==> old(from) < |input| && if k.ByteKind? then r.value == [input[old(from)]]
              else |r.value| == old(size) && (old(LeadingZero(size)) <==> |r.value| >= 2 && r.value[0] == 0)
      ensures r.Ok? && |r.value| == 1 && !k.ByteKind? ==> r.value[0] >= 128
    {
      hide Header, HeadAt, Spend, Stream.Accepts;
      TextAccepted(k);
      if k == ByteKind {
        var b := TakeByte();
        return Ok([b]);
      }
      r := TakeString();
      if r.Ok? && |r.value| == 1 && r.value[0] < 128 {
        return Err(CanonSize);
      }
    }

    /** `Bytes`: the string ahead, exactly if it is spelled canonically and fits. */
    method Bytes() returns (r: Result<seq<byte>>)
      requires Valid()
      modifies this
      ensures Valid()
      ensures r == Err(EOL) <==> old(AtEnd())
      ensures r.Ok? ==> Took(|Enc(Str(r.value))|) && input[old(from)..pos] == Enc(Str(r.value))
      ensures forall b :: r == Ok(b) <==> old(Accepts(Str(b)))
      ensures r == Err(ExpectedString) <==> exists n: nat :: old(Ahead(ListKind, n))
      ensures forall e | e != EOL :: r == Err(e) <==> old(Fails(e) || TextFails(e))
    {
      hide Header, HeadAt, Spend, Enc, Stream.Accepts, HeadTaken, Stream.Fails, ContentFails, TextFails, Room;
      AcceptsString();
      TextFailsIs();
      FailsWith();
      KindFailsOnce();
      var ahead := Kind();
      AcceptsSame();
      if ahead.Err? {
        return Err(ahead.error);
      }
      if ahead.value.0 == ListKind {
        return Err(ExpectedString);
      }
      r := TakeText(ahead.value.0);
    }

    /** A string is accepted only where `Kind` finds one. */
    lemma AcceptsString()
      requires from <= |input|
      ensures forall x | Accepts(x) :: Ahead(KindOf(x), ItemSize(x)) && (KindOf(x).ListKind? <==> x.List?)
    {
    }

    /** The string case of `uint`. */
    method UintString(maxbits: nat) returns (r: Result<uint64>)
      requires Pending(StringKind)
      requires maxbits == 8 || maxbits == 16 || maxbits == 32 || maxbits == 64
      modifies this
      ensures Valid()
      ensures r.Ok? ==> |BigEndian(r.value)| <= maxbits / 8
      ensures r.Ok? ==> Took(|Enc(Str(BigEndian(r.value)))|)
      ensures r.Ok? ==> input[old(from)..pos] == Enc(Str(BigEndian(r.value)))
      ensures r.Ok? ==> old(StringAhead(BigEndian(r.value))) && (r.value == 0 || r.value >= 128)
      ensures forall i: uint64 | old(StringAhead(BigEndian(i))) && |BigEndian(i)| <= maxbits / 8 ::
        i == 0 || i >= 128 ==> r == Ok(i)
      ensures forall e :: r == Err(e) <==>
        if old(size) > maxbits / 8 then e == UintOverflow
        else (e == CanonInt && old(LeadingZero(size))) || old(ContentFails(size, e))
    {
      hide Header, HeadAt, BigEndian, Number, Enc, Spend, Stream.Valid, Stream.Ahead, HeadTaken;
      ghost var from0, h := from, |Header(0x80, size)|;
      forall i: uint64 | StringAhead(BigEndian(i))
        ensures Number(BigEndian(i)) == i && (i == 0 ==> BigEndian(i) == [])
        ensures |BigEndian(i)| > 0 ==> BigEndian(i)[0] != 0
      {
        IntLeads(i);
      }
      var n := size;
      if n > maxbits / 8 {
        return Err(UintOverflow);
      }
      r := TakeUint();
      if r.Err? {
        return Err(if r.error == CanonSize then CanonInt else r.error);
      }
      IntContent(input[from0 + h..][..n], r.value);
      if n > 0 && r.value < 128 {
        return Err(CanonSize);
      }
    }

    /** Of all integers, the decoder accepts the one ahead, if it is spelled canonically. */
    lemma IntsAccepted(k: Kind)
      requires Pending(k) && !k.ListKind?
      ensures forall i: uint64 :: Accepts(Str(BigEndian(i))) <==>
        if k.ByteKind? then i == byteval != 0 else StringAhead(BigEndian(i)) && (i == 0 || i >= 128)
    {
      hide Stream.Accepts, BigEndian, Number, Enc, HeadAt, Spend, Header;
      TextAccepted(k);
      forall i: uint64 ensures |BigEndian(i)| == 1 && BigEndian(i)[0] < 0x80 <==> 0 < i < 128 {
        IntSpelled(i);
      }
      if k.ByteKind? {
        forall i: uint64 ensures BigEndian(i) == [byteval] <==> i == byteval != 0 {
          ByteInt(byteval);
          IntLeads(i);
          NumberOfByte(byteval);
        }
      }
    }

    /** The string ahead has this content, and fits. */
    ghost predicate StringAhead(b: seq<byte>)
      reads this
    {
      && |b| == size
      && from + |Header(0x80, size)| + size <= |input|
      && Room(fromStack, limited, fromRemaining, |Header(0x80, size)| + size)
      && input[from + |Header(0x80, size)|..][..size] == b
    }

    /** `uint`: the integer ahead, exactly if it is in the canonical form, of at most `maxbits`
        bits, and fits. */
    method Uint(maxbits: nat) returns (r: Result<uint64>)
      requires Valid()
      requires maxbits == 8 || maxbits == 16 || maxbits == 32 || maxbits == 64
      modifies this
      ensures Valid()
      ensures r == Err(EOL) <==> old(AtEnd())
      ensures r.Ok? ==> Took(|Enc(Str(BigEndian(r.value)))|)
      ensures r.Ok? ==> input[old(from)..pos] == Enc(Str(BigEndian(r.value)))
      ensures forall i: uint64 :: r == Ok(i) <==> old(Accepts(Str(BigEndian(i)))) && |BigEndian(i)| <= maxbits / 8
      ensures r == Err(ExpectedString) <==> exists n: nat :: old(Ahead(ListKind, n))
      ensures r == Err(UintOverflow) <==> exists n: nat :: old(Ahead(StringKind, n)) && n > maxbits / 8
      ensures forall e | e != EOL :: r == Err(e) <==> old(Fails(e) || IntFails(maxbits / 8, e))
    {
      hide Header, HeadAt, BigEndian, Number, Spend, Enc, Stream.Accepts, HeadTaken, Stream.Fails, ContentFails, IntFails,
           LeadingZero, Room, Stream.Ahead, Stream.Valid, Stream.StringAhead;
      Bounds();
      AcceptsString();
      IntFailsIs(maxbits / 8);
      FailsWith();
      KindFailsOnce();
      var ahead := Kind();
      AcceptsSame();
      if ahead.Err? {
        return Err(ahead.error);
      }
      if ahead.value.0 == ListKind {
        return Err(ExpectedString);
      }
      r := TakeInt(ahead.value.0, maxbits);
    }

    /** The integer in the byte or string whose header `Kind` has read. */
    method TakeInt(k: Kind, maxbits: nat) returns (r: Result<uint64>)
      requires Pending(k) && !k.ListKind?
      requires maxbits == 8 || maxbits == 16 || maxbits == 32 || maxbits == 64
      modifies this
      ensures Valid()
      ensures r.Ok? ==> Took(|Enc(Str(BigEndian(r.value)))|)
      ensures r.Ok? ==> input[old(from)..pos] == Enc(Str(BigEndian(r.value)))
      ensures forall i: uint64 :: r == Ok(i) <==> old(Accepts(Str(BigEndian(i)))) && |BigEndian(i)| <= maxbits / 8
      ensures forall e :: r == Err(e) <==>
        if k.ByteKind? then e == CanonInt && old(from) < |input| && input[old(from)] == 0
        else if old(size) > maxbits / 8 then e == UintOverflow
        else (e == CanonInt && old(LeadingZero(size))) || old(ContentFails(size, e))
    {
      hide Header, HeadAt, BigEndian, Number, Spend, Enc, Stream.Accepts, HeadTaken, ContentFails, LeadingZero, Room,
           Stream.Ahead, Stream.Valid, Stream.StringAhead;
      Bounds();
      TextAccepted(k);
      IntsAccepted(k);
      match k {
        case ByteKind =>
          PendingByte();
          if byteval == 0 {
            return Err(CanonInt);
          }
          var b := TakeByte();
          ByteInt(b);
          return Ok(b);
        case StringKind =>
          r := UintString(maxbits);
      }
    }

    /** `decodeBigInt`: the natural number ahead, of any size, exactly if it fits. */
    method DecodeBigInt() returns (r: Result<nat>)
      requires Valid()
      modifies this
      ensures Valid()
      ensures r == Err(EOL) <==> old(AtEnd())
      ensures r.Ok? ==> Took(|Enc(Str(BigEndian(r.value)))|)
      ensures r.Ok? ==> input[old(from)..pos] == Enc(Str(BigEndian(r.value)))
      ensures forall i: nat :: r == Ok(i) <==> old(Accepts(Str(BigEndian(i))))
      ensures r == Err(ExpectedString) <==> exists n: nat :: old(Ahead(ListKind, n))
      ensures r != Err(UintOverflow)
      ensures forall e | e != EOL :: r == Err(e) <==> old(Fails(e) || IntFails(TWO_64, e))
    {
      hide Header, HeadAt, BigEndian, Number, Spend, Enc, Stream.Accepts, HeadTaken, Stream.Fails, ContentFails, IntFails,
           LeadingZero, Room;
      AcceptsString();
      IntFailsIs(TWO_64);
      FailsWith();
      KindFailsOnce();
      var ahead := Kind();
      AcceptsSame();
      if ahead.Err? {
        return Err(ahead.error);
      }
      BigAccepted();
      if ahead.value.0 == ListKind {
        return Err(ExpectedString);
      }
      var text := TakeText(ahead.value.0);
      if text.Err? {
        return Err(text.error);
      }
      var buffer := text.value;
      if |buffer| > 0 && buffer[0] == 0 {
        return Err(CanonInt);
      }
      BigEndianOfNumber(buffer);
      return Ok(Number(buffer));
    }
  }

  // ---------------------------------------------------------------- whole values

  /** The size that `Kind` reports for an item. */
  function ItemSize(x: Item): nat {
    if KindOf(x).ByteKind? then 0 else |ContentOf(x)|
  }

  lemma ItemOffered(input: seq<byte>, from: nat, x: Item)
    requires from <= |input| < TWO_64 && IsPrefix(Enc(x), input[from..])
    ensures HeadAt(input[from..], KindOf(x), ItemSize(x))
    ensures HeadTaken(KindOf(x), ItemSize(x)) + Body(KindOf(x), ItemSize(x)) == |Enc(x)|
  {
    HeadAtItem(input[from..], x);
  }

  // ---------------------------------------------------------------- refusals

  /** What a decoder has in front of it: the bytes not yet read, and the limits. */
  datatype Sight = Sight(data: seq<byte>, stack: seq<uint64>, limited: bool, remaining: uint64)

  /** After `n` more bytes. */
  function Skip(v: Sight, n: nat): Sight
    requires n <= |v.data|
  {
    Sight(v.data[n..], Spend(v.stack, n), v.limited, if v.limited && n <= v.remaining then v.remaining - n else v.remaining)
  }

  /** Inside a list of `n` bytes, once its header is read. */
  function Enter(v: Sight, n: uint64): Sight
    requires |Header(0xC0, n)| <= |v.data|
  {
    var w := Skip(v, |Header(0xC0, n)|);
    Sight(w.data, Spend(w.stack, n) + [n], w.limited, w.remaining)
  }

  /** `Stream.Ahead`, of what is in front. */
  ghost predicate AheadIn(v: Sight, k: Kind, n: nat) {
    && HeadAt(v.data, k, n)
    && Room(v.stack, v.limited, v.remaining, HeadTaken(k, n))
    && (v.stack != [] ==> n <= v.stack[|v.stack| - 1])
    && (v.limited ==> n <= v.remaining - HeadTaken(k, n))
  }

  /** `Stream.Accepts`, of what is in front. */
  ghost predicate TakesIn(v: Sight, x: Item) {
    && IsPrefix(Enc(x), v.data)
    && AheadIn(v, KindOf(x), ItemSize(x))
    && (x.Str? ==> Room(v.stack, v.limited, v.remaining, |Enc(x)|))
  }

  /** These items, one after the other. */
  ghost predicate AllTaken(v: Sight, xs: seq<Item>) {
    xs == [] ||
    var n := |xs| - 1;
    AllTaken(v, xs[..n]) && |EncAll(xs[..n])| <= |v.data| && TakesIn(Skip(v, |EncAll(xs[..n])|), xs[n])
  }

  /** No item can be decoded here, and this is the error: that of a header, of a string's content,
      or, in a list, that of the first element that cannot be decoded. */
  ghost predicate Refuses(v: Sight, e: Error)
    decreases |v.data|, 1
  {
    || KindFails(v.data, v.stack, v.limited, v.remaining, e)
    || (exists n: nat :: AheadIn(v, StringKind, n) && ContentFailsIn(v, n, e))
    || exists n: uint64, xs :: RefusesAfter(v, n, xs, e)
  }

  ghost predicate ContentFailsIn(v: Sight, n: nat, e: Error) {
    var len := |Header(0x80, n)| + n;
    var fits := Room(v.stack, v.limited, v.remaining, len);
    match e
    case ElemTooLarge => v.stack != [] && len > v.stack[|v.stack| - 1]
    case UnexpectedEOF => fits && len > |v.data|
    case CanonSize => fits && len <= |v.data| && n == 1 && v.data[len - 1] < 0x80
    case _ => false
  }

  ghost predicate RefusesAfter(v: Sight, n: uint64, xs: seq<Item>, e: Error)
    decreases |v.data|, 0
  {
    && AheadIn(v, ListKind, n) && |Header(0xC0, n)| <= |v.data|
    && var w := Enter(v, n);
       AllTaken(w, xs) && |EncAll(xs)| <= |w.data| && Refuses(Skip(w, |EncAll(xs)|), e)
  }

  lemma AllTakenSnoc(v: Sight, xs: seq<Item>, x: Item)
    requires AllTaken(v, xs) && |EncAll(xs)| <= |v.data| && TakesIn(Skip(v, |EncAll(xs)|), x)
    ensures AllTaken(v, xs + [x])
  {
    assert (xs + [x])[..|xs|] == xs;
  }

  lemma {:induction false} AllTakenPrefix(v: Sight, xs: seq<Item>, m: nat)
    requires AllTaken(v, xs) && m <= |xs|
    ensures AllTaken(v, xs[..m])
    ensures m < |xs| ==> |EncAll(xs[..m])| <= |v.data| && TakesIn(Skip(v, |EncAll(xs[..m])|), xs[m])
    decreases |xs|
  {
    hide TakesIn;
    if m < |xs| - 1 {
      AllTakenPrefix(v, xs[..|xs| - 1], m);
      assert xs[..|xs| - 1][..m] == xs[..m];
    } else if m == |xs| {
      assert xs[..m] == xs;
    }
  }

  /** At most one item is taken anywhere. */
  lemma TakesOne(v: Sight, x: Item, y: Item)
    requires |v.data| < TWO_64 && TakesIn(v, x) && TakesIn(v, y)
    ensures x == y
  {
    hide Enc, HeadAt, HeadTaken, Room;
    assert v.data == Enc(x) + v.data[|Enc(x)|..] == Enc(y) + v.data[|Enc(y)|..];
    RlpRaw.EncUnique(x, y, v.data[|Enc(x)|..], v.data[|Enc(y)|..]);
  }

  /** Two series of items taken from the same place agree as far as both go. */
  lemma {:induction false} Aligned(v: Sight, xs: seq<Item>, ys: seq<Item>)
    requires |v.data| < TWO_64 && AllTaken(v, xs) && AllTaken(v, ys) && |xs| <= |ys|
    ensures xs == ys[..|xs|]
    decreases |xs|
  {
    hide TakesIn;
    if xs != [] {
      var n := |xs| - 1;
      AllTakenPrefix(v, ys, n);
      Aligned(v, xs[..n], ys);
      TakesOne(Skip(v, |EncAll(xs[..n])|), xs[n], ys[n]);
      assert xs == xs[..n] + [xs[n]] && ys[..|xs|] == ys[..n] + [ys[n]];
    }
  }

  /** Where a list is used up nothing is taken, and nothing refused. */
  lemma AtLimit(v: Sight, x: Item, e: Error)
    requires v.stack != [] && v.stack[|v.stack| - 1] == 0
    ensures !TakesIn(v, x) && !Refuses(v, e)
  {
    hide HeadAt, KindFails, Enc;
    FailsAtLimit(v.data, v.stack, v.limited, v.remaining, e);
  }

  /** What starts with these items, all of them within the limits, is taken item by item. */
  lemma {:induction false} OfferedAll(v: Sight, zs: seq<Item>, m: nat)
    requires |v.data| < TWO_64 && v.stack != [] && m <= |zs|
    requires IsPrefix(EncAll(zs), v.data) && Room(v.stack, v.limited, v.remaining, |EncAll(zs)|)
    ensures AllTaken(v, zs[..m]) && |EncAll(zs[..m])| <= |EncAll(zs)|
    decreases m
  {
    hide Enc, EncAll, Header, HeadAt;
    if m > 0 {
      OfferedAll(v, zs, m - 1);
      var xs, x := zs[..m - 1], zs[m - 1];
      assert zs[..m] == xs + [x];
      OfferedNext(v, zs, m - 1);
      AllTakenSnoc(v, xs, x);
      assert zs == zs[..m] + zs[m..];
      EncAllAppend(zs[..m], zs[m..]);
    } else {
      assert zs[..m] == [];
      EncNothing();
    }
  }

  lemma OfferedNext(v: Sight, zs: seq<Item>, m: nat)
    requires |v.data| < TWO_64 && v.stack != [] && m < |zs|
    requires IsPrefix(EncAll(zs), v.data) && Room(v.stack, v.limited, v.remaining, |EncAll(zs)|)
    ensures |EncAll(zs[..m])| <= |v.data| && TakesIn(Skip(v, |EncAll(zs[..m])|), zs[m])
  {
    hide Enc, EncAll, Header, HeadAt, HeadTaken;
    var xs, x := zs[..m], zs[m];
    assert zs == xs + zs[m..] && zs[m..][0] == x;
    EncAllAppend(xs, zs[m..]);
    PrefixOfSum(EncAll(xs), EncAll(zs[m..]), v.data);
    EncAllHead(zs[m..]);
    var w := Skip(v, |EncAll(xs)|);
    PrefixOfSum(Enc(x), EncAll(zs[m..][1..]), w.data);
    ItemOffered(w.data, 0, x);
    assert w.data[0..] == w.data;
  }

  /** A list that is taken: inside it everything is, up to its limit. */
  lemma TakenInside(v: Sight, zs: seq<Item>)
    requires |v.data| < TWO_64 && TakesIn(v, List(zs))
    ensures var n := |EncAll(zs)|;
      && n < TWO_64 && AheadIn(v, ListKind, n) && |Header(0xC0, n)| <= |v.data|
      && var w := Enter(v, n);
         && |w.data| < |v.data| && AllTaken(w, zs) && n <= |w.data|
         && Skip(w, n).stack != [] && Skip(w, n).stack[|Skip(w, n).stack| - 1] == 0
  {
    hide Enc, EncAll, Header, HeadAt, AllTaken;
    ListContent(v.data, 0, zs);
    assert v.data[0..] == v.data;
    var n := |EncAll(zs)|;
    HeadSizeFits(v.data, ListKind, ItemSize(List(zs)));
    var w := Enter(v, n);
    OfferedAll(w, zs, |zs|);
    assert zs[..|zs|] == zs;
    SpendInner(Spend(Skip(v, |Header(0xC0, n)|).stack, n), n, n);
  }

  lemma HeadSizeFits(data: seq<byte>, k: Kind, n: nat)
    requires HeadAt(data, k, n)
    ensures n < TWO_64
  {
  }

  /** What is taken is not refused. */
  lemma {:induction false} TakenNotRefused(v: Sight, x: Item, e: Error)
    requires |v.data| < TWO_64 && TakesIn(v, x)
    ensures !Refuses(v, e)
    decreases |v.data|
  {
    hide Enc, EncAll, Header, HeadAt, HeadTaken, KindFails, AllTaken, Room;
    AheadNotFailed(v, KindOf(x), ItemSize(x), e);
    forall n: nat | AheadIn(v, StringKind, n) ensures !ContentFailsIn(v, n, e) {
      StringNotFailed(v, x, n, e);
    }
    forall n: uint64, xs | RefusesAfter(v, n, xs, e) ensures false {
      OneHead(v.data, KindOf(x), ItemSize(x), ListKind, n);
      ListKindOnly(x);
      ListNotRefused(v, x.items, xs, e);
    }
  }

  lemma ListKindOnly(x: Item)
    ensures KindOf(x).ListKind? <==> x.List?
    ensures x.List? ==> ItemSize(x) == |EncAll(x.items)|
  {
  }

  lemma AheadNotFailed(v: Sight, k: Kind, n: nat, e: Error)
    requires AheadIn(v, k, n)
    ensures !KindFails(v.data, v.stack, v.limited, v.remaining, e)
  {
    hide HeadAt, HeadTaken, KindFails;
    AheadSucceeds(v.data, v.stack, v.limited, v.remaining, k, n, e);
  }

  lemma StringNotFailed(v: Sight, x: Item, n: nat, e: Error)
    requires |v.data| < TWO_64 && TakesIn(v, x) && AheadIn(v, StringKind, n)
    ensures !ContentFailsIn(v, n, e)
  {
    hide Enc, HeadAt, Header, HeadTaken;
    OneHead(v.data, KindOf(x), ItemSize(x), StringKind, n);
    ListKindOnly(x);
    EncText(x.bytes);
    if n == 1 {
      var h := Header(0x80, 1);
      assert v.data[..|h + x.bytes|][|h|] == (h + x.bytes)[|h|];
    }
  }

  lemma {:induction false} ListNotRefused(v: Sight, zs: seq<Item>, xs: seq<Item>, e: Error)
    requires |v.data| < TWO_64 && TakesIn(v, List(zs)) && |EncAll(zs)| < TWO_64
    ensures !RefusesAfter(v, |EncAll(zs)|, xs, e)
    decreases |v.data|, 0
  {
    hide Enc, EncAll, Header, HeadAt, HeadTaken, KindFails, AllTaken, TakesIn, AheadIn, Refuses, Skip;
    var n := |EncAll(zs)|;
    TakenInside(v, zs);
    if RefusesAfter(v, n, xs, e) {
      var w := Enter(v, n);
      if |xs| < |zs| {
        Aligned(w, xs, zs);
        AllTakenPrefix(w, zs, |xs|);
        SkipFits(w, |EncAll(xs)|);
        TakenNotRefused(Skip(w, |EncAll(xs)|), zs[|xs|], e);
      } else {
        Aligned(w, zs, xs);
        if |zs| < |xs| {
          AllTakenPrefix(w, xs, |zs|);
          AtLimit(Skip(w, n), xs[|zs|], e);
        } else {
          assert xs[..|zs|] == xs;
          AtLimit(Skip(w, n), List(zs), e);
        }
      }
    }
  }

  lemma SkipFits(v: Sight, n: nat)
    requires n <= |v.data|
    ensures |Skip(v, n).data| == |v.data| - n && |Skip(v, n).stack| == |v.stack|
  {
  }

  /** There is one error for what is refused. */
  lemma {:induction false} RefusesOnce(v: Sight, e: Error, f: Error)
    requires |v.data| < TWO_64 && Refuses(v, e) && Refuses(v, f)
    ensures e == f
    decreases |v.data|
  {
    hide Enc, EncAll, Header, HeadAt, HeadTaken, KindFails, AllTaken, TakesIn, AheadIn, RefusesAfter, ContentFailsIn;
    if KindFails(v.data, v.stack, v.limited, v.remaining, e) {
      FailsAlone(v, e, f);
    } else if KindFails(v.data, v.stack, v.limited, v.remaining, f) {
      FailsAlone(v, f, e);
    } else if n: nat :| AheadIn(v, StringKind, n) && ContentFailsIn(v, n, e) {
      ContentAlone(v, n, e, f);
    } else if n: nat :| AheadIn(v, StringKind, n) && ContentFailsIn(v, n, f) {
      ContentAlone(v, n, f, e);
    } else {
      var n: uint64, xs :| RefusesAfter(v, n, xs, e);
      var m: uint64, ys :| RefusesAfter(v, m, ys, f);
      SameList(v, n, xs, e, m, ys, f);
      if |xs| <= |ys| {
        InList(v, n, xs, e, ys, f);
      } else {
        InList(v, n, ys, f, xs, e);
      }
    }
  }

  /** An error of the header is the only one. */
  lemma FailsAlone(v: Sight, e: Error, f: Error)
    requires KindFails(v.data, v.stack, v.limited, v.remaining, e) && Refuses(v, f)
    ensures e == f
  {
    hide KindFails, AheadIn, ContentFailsIn, AllTaken, Enc, EncAll, Header;
    forall k, n: nat | AheadIn(v, k, n) ensures false {
      AheadNotFailed(v, k, n, e);
    }
    FailsOnce(v.data, v.stack, v.limited, v.remaining, e, f);
  }

  lemma ContentAlone(v: Sight, n: nat, e: Error, f: Error)
    requires AheadIn(v, StringKind, n) && ContentFailsIn(v, n, e) && Refuses(v, f)
    ensures e == f
  {
    hide KindFails, AllTaken, Enc, EncAll, Header, HeadAt, HeadTaken, Room;
    AheadNotFailed(v, StringKind, n, f);
    forall m: uint64, ys | RefusesAfter(v, m, ys, f) ensures false {
      OneHead(v.data, StringKind, n, ListKind, m);
    }
    var m: nat :| AheadIn(v, StringKind, m) && ContentFailsIn(v, m, f);
    OneHead(v.data, StringKind, n, StringKind, m);
    OneContent(v, n, e, f);
  }

  lemma OneContent(v: Sight, n: nat, e: Error, f: Error)
    requires ContentFailsIn(v, n, e) && ContentFailsIn(v, n, f)
    ensures e == f
  {
    hide Header;
  }

  lemma SameList(v: Sight, n: uint64, xs: seq<Item>, e: Error, m: uint64, ys: seq<Item>, f: Error)
    requires RefusesAfter(v, n, xs, e) && RefusesAfter(v, m, ys, f)
    ensures n == m
  {
    hide AllTaken, EncAll, Header, HeadAt, Refuses;
    OneHead(v.data, ListKind, n, ListKind, m);
  }

  lemma {:induction false} InList(v: Sight, n: uint64, xs: seq<Item>, e: Error, ys: seq<Item>, f: Error)
    requires |v.data| < TWO_64 && RefusesAfter(v, n, xs, e) && RefusesAfter(v, n, ys, f) && |xs| <= |ys|
    ensures e == f
    decreases |v.data|, 0
  {
    hide Enc, EncAll, Header, HeadAt, HeadTaken, KindFails, AllTaken, TakesIn, AheadIn, Refuses, Skip;
    EnterFits(v, n);
    var w := Enter(v, n);
    Aligned(w, xs, ys);
    SkipFits(w, |EncAll(xs)|);
    if |xs| < |ys| {
      AllTakenPrefix(w, ys, |xs|);
      TakenNotRefused(Skip(w, |EncAll(xs)|), ys[|xs|], e);
    } else {
      assert ys[..|xs|] == ys;
      RefusesOnce(Skip(w, |EncAll(xs)|), e, f);
    }
  }

  /** After some elements that are taken, the next is refused. */
  ghost predicate Broken(v: Sight, e: Error) {
    exists xs :: AllTaken(v, xs) && |EncAll(xs)| <= |v.data| && Refuses(Skip(v, |EncAll(xs)|), e)
  }

  lemma NoneTaken(v: Sight)
    ensures AllTaken(v, []) && EncAll([]) == [] && Skip(v, 0) == v
  {
    SpendNothing(v.stack);
  }

  lemma ElemRefused(v: Sight, xs: seq<Item>, e: Error)
    requires AllTaken(v, xs) && |EncAll(xs)| <= |v.data| && Refuses(Skip(v, |EncAll(xs)|), e)
    ensures Broken(v, e) && e != EOL && e != ExpectedList
  {
    hide AllTaken, EncAll, Skip;
    RefusedWith(Skip(v, |EncAll(xs)|), e);
  }

  /** What is wrong with what is refused is something that a header can have. */
  lemma {:induction false} RefusedWith(v: Sight, e: Error)
    requires Refuses(v, e)
    ensures HeadError(e)
    ensures e == EOF <==> v.stack == [] && (v.data == [] || (v.limited && v.remaining == 0))
    decreases |v.data|
  {
    hide KindFails, AllTaken, EncAll, Header, HeadAt, HeadTaken, Skip;
    if KindFails(v.data, v.stack, v.limited, v.remaining, e) {
      HeadFailsWith(v.data, v.stack, v.limited, v.remaining, e);
    } else if n: nat :| AheadIn(v, StringKind, n) && ContentFailsIn(v, n, e) {
      AheadIsThere(v, StringKind, n);
    } else {
      var n: uint64, xs :| RefusesAfter(v, n, xs, e);
      AheadIsThere(v, ListKind, n);
      EnterFits(v, n);
      SkipFits(Enter(v, n), |EncAll(xs)|);
      RefusedWith(Skip(Enter(v, n), |EncAll(xs)|), e);
    }
  }

  lemma HeadFailsWith(data: seq<byte>, stack: seq<uint64>, limited: bool, remaining: uint64, e: Error)
    requires KindFails(data, stack, limited, remaining, e)
    ensures HeadError(e)
    ensures e == EOF <==> stack == [] && (data == [] || (limited && remaining == 0))
  {
    hide HeadParse, HeadReach;
    FailsAtEnd(data, stack, limited, remaining);
    if stack == [] && (data == [] || (limited && remaining == 0)) {
      FailsOnce(data, stack, limited, remaining, e, EOF);
    }
  }

  lemma AheadIsThere(v: Sight, k: Kind, n: nat)
    requires AheadIn(v, k, n)
    ensures v.data != [] && (v.limited ==> v.remaining > 0)
  {
    HeadAtIsPrefix(v.data, k, n);
  }

  lemma BrokenList(v: Sight, n: uint64, e: Error)
    requires AheadIn(v, ListKind, n) && |Header(0xC0, n)| <= |v.data| && Broken(Enter(v, n), e)
    ensures Refuses(v, e)
  {
    hide AllTaken, AheadIn, EncAll, Header, KindFails, ContentFailsIn;
    var w := Enter(v, n);
    var xs :| AllTaken(w, xs) && |EncAll(xs)| <= |w.data| && Refuses(Skip(w, |EncAll(xs)|), e);
    assert RefusesAfter(v, n, xs, e);
  }

  lemma EnterFits(v: Sight, n: uint64)
    requires |Header(0xC0, n)| <= |v.data|
    ensures |Enter(v, n).data| < |v.data| && Enter(v, n).stack != []
  {
  }

  // ---------------------------------------------------------------- decoding

  /** `decodeInterface`: one item, of any nesting, exactly if the decoder accepts it.  A list
      may overrun the limit of the list around it: its own elements have the whole of it. */
  method DecodeInterface(s: Stream) returns (r: Result<Item>)
    requires s.Valid()
    modifies s
    ensures s.Valid()
    ensures r == Err(EOL) <==> old(s.AtEnd())
    ensures r == Err(EOL) ==> unchanged(s)
    ensures r.Ok? ==> s.Took(|Enc(r.value)|) && s.input[old(s.from)..s.pos] == Enc(r.value)
    ensures forall x :: r == Ok(x) <==> old(s.Accepts(x))
    ensures forall e | e != EOL :: r == Err(e) <==> old(Refuses(s.Here(), e))
    ensures r == Err(EOF) <==>
      old(s.fromStack) == [] && (old(s.from) == |s.input| || (s.limited && old(s.fromRemaining) == 0))
    decreases |s.input| - s.from, 2
  {
    hide Enc, EncAll, Header, HeadAt, HeadTaken, Stream.Accepts, Stream.Fails, Stream.TextFails, Stream.ContentFails, Refuses, TakesIn,
         AheadIn, KindFails, ContentFailsIn;
    ghost var v := s.Here();
    s.HereIs();
    s.AcceptsString();
    s.TextFailsIs();
    s.KindFailsOnce();
    s.HeadRefuses();
    var ahead := s.Kind();
    s.AcceptsSame();
    s.TextFailsSame();
    if ahead.Err? {
      r := Err(ahead.error);
    } else {
      s.OneAhead();
      if ahead.value.0 == ListKind {
        var xs := DecodeListSlice(s);
        r := if xs.Ok? then Ok(List(xs.value)) else Err(xs.error);
      } else {
        var b := s.Bytes();
        r := if b.Ok? then Ok(Str(b.value)) else Err(b.error);
      }
    }
    InterfaceRefuses(v, r);
  }

  lemma EndRefused(v: Sight)
    ensures v.stack == [] && (v.data == [] || (v.limited && v.remaining == 0)) ==> Refuses(v, EOF)
  {
    hide KindFails, AheadIn, RefusesAfter;
    FailsAtEnd(v.data, v.stack, v.limited, v.remaining);
  }

  lemma InterfaceRefuses(v: Sight, r: Result<Item>)
    requires |v.data| < TWO_64
    requires r.Err? && r.error != EOL ==> Refuses(v, r.error)
    requires r.Ok? ==> TakesIn(v, r.value)
    requires r == Err(EOL) ==> v.stack != [] && v.stack[|v.stack| - 1] == 0
    ensures forall e | e != EOL :: r == Err(e) <==> Refuses(v, e)
    ensures r == Err(EOF) <==> v.stack == [] && (v.data == [] || (v.limited && v.remaining == 0))
  {
    EndRefused(v);
    hide Refuses, TakesIn;
    if Refuses(v, EOF) {
      RefusedWith(v, EOF);
    }
    forall e | e != EOL ensures r == Err(e) <==> Refuses(v, e) {
      match r {
        case Ok(x) => TakenNotRefused(v, x, e);
        case Err(f) =>
          if f == EOL {
            AtLimit(v, Str([]), e);
          } else if Refuses(v, e) {
            RefusesOnce(v, e, f);
          }
      }
    }
  }

  lemma ListContent(input: seq<byte>, from: nat, xs: seq<Item>)
    requires from <= |input| && IsPrefix(Enc(List(xs)), input[from..])
    ensures var h := |Header(0xC0, |EncAll(xs)|)|;
      from + h <= |input| && IsPrefix(EncAll(xs), input[from + h..]) && |Enc(List(xs))| == h + |EncAll(xs)|
  {
    hide Enc, EncAll, Header;
    var h, e := Header(0xC0, |EncAll(xs)|), EncAll(xs);
    EncListIs(xs);
    PrefixOfSum(h, e, input[from..]);
    DropDrop(input, from, |h|);
  }

  lemma SpendInner(outer: seq<uint64>, n: uint64, m: nat)
    requires m < TWO_64
    ensures Spend(outer + [n], m) == outer + [Sub64(n, m)]
    ensures Sub64(n, m) == 0 ==> m == n
  {
  }

  /** A list whose limit came down to zero had exactly its announced size: the limit is right
      modulo 2^64, and no input is that long. */
  lemma ListTaken(input: seq<byte>, from: nat, n: nat, xs: seq<Item>, pos: nat)
    requires from + |Header(0xC0, n)| <= pos <= |input|
    requires input[from..from + |Header(0xC0, n)|] == Header(0xC0, n)
    requires input[from + |Header(0xC0, n)|..pos] == EncAll(xs) && |EncAll(xs)| == n
    ensures input[from..pos] == Enc(List(xs)) && |Enc(List(xs))| == |Header(0xC0, n)| + n
  {
    SliceSum(input, from, from + |Header(0xC0, n)|, pos);
  }

  lemma EncListIs(xs: seq<Item>)
    ensures Enc(List(xs)) == Header(0xC0, |EncAll(xs)|) + EncAll(xs)
  {
  }

  lemma ElemTaken(input: seq<byte>, from: nat, xs: seq<Item>, x: Item, pos: nat, stack: seq<uint64>)
    requires from + |EncAll(xs)| + |Enc(x)| == pos <= |input|
    requires input[from..from + |EncAll(xs)|] == EncAll(xs) && input[from + |EncAll(xs)|..pos] == Enc(x)
    ensures input[from..pos] == EncAll(xs + [x]) && |EncAll(xs + [x])| == |EncAll(xs)| + |Enc(x)|
    ensures Spend(Spend(stack, |EncAll(xs)|), |Enc(x)|) == Spend(stack, |EncAll(xs + [x])|)
  {
    hide Enc, EncAll, Spend;
    EncAllSnoc(xs, x);
    SliceSum(input, from, from + |EncAll(xs)|, pos);
    SpendTwice(stack, |EncAll(xs)|, |Enc(x)|);
  }

  /** `decodeListSlice`: the list ahead, exactly if the decoder accepts it. */
  method DecodeListSlice(s: Stream) returns (r: Result<seq<Item>>)
    requires s.Valid()
    modifies s
    ensures s.Valid()
    ensures r == Err(EOL) <==> old(s.AtEnd())
    ensures r.Ok? ==> s.Took(|Enc(List(r.value))|) && s.input[old(s.from)..s.pos] == Enc(List(r.value))
    ensures forall xs :: r == Ok(xs) <==> old(s.Accepts(List(xs)))
    ensures r == Err(ExpectedList) <==> exists k, n: nat :: old(s.Ahead(k, n)) && k != ListKind
    ensures r.Err? ==> r.error == EOL || r.error == ExpectedList || old(Refuses(s.Here(), r.error))
    decreases |s.input| - s.from, 1
  {
    hide Enc, EncAll, Header, HeadAt, HeadTaken, Spend, Stream.Accepts, Stream.Fails, Stream.Ahead, Refuses, Broken, AheadIn, TakesIn,
         KindFails, Enter, Skip, Room;
    ghost var input, from0, v := s.input, s.from, s.Here();
    s.HereIs();
    s.HeadRefuses();
    var size := s.List();
    if size.Err? {
      SliceTakes(v, Err(size.error));
      return Err(size.error);
    }
    HeadRead(input, from0, size.value);
    s.Entered(size.value);
    r := DecodeListBody(s, size.value);
    if r.Err? {
      BrokenList(v, size.value, r.error);
    } else {
      ListTaken(input, from0, size.value, r.value, s.pos);
      s.WasAccepted(List(r.value));
    }
    SliceTakes(v, r);
  }

  /** A list is decoded exactly if it is taken. */
  lemma SliceTakes(v: Sight, r: Result<seq<Item>>)
    requires |v.data| < TWO_64
    requires r.Ok? ==> TakesIn(v, List(r.value))
    requires r == Err(EOL) ==> v.stack != [] && v.stack[|v.stack| - 1] == 0
    requires r == Err(ExpectedList) ==> exists k, n: nat :: AheadIn(v, k, n) && k != ListKind
    requires r.Err? && r.error != EOL && r.error != ExpectedList ==> Refuses(v, r.error)
    ensures forall xs :: r == Ok(xs) <==> TakesIn(v, List(xs))
  {
    hide Refuses, HeadAt, HeadTaken, Room, Enc;
    forall xs | TakesIn(v, List(xs)) ensures r == Ok(xs) {
      if r.Ok? {
        TakesOne(v, List(xs), List(r.value));
      } else if r.error == EOL {
        AtLimit(v, List(xs), EOL);
      } else if r.error == ExpectedList {
        var k, n: nat :| AheadIn(v, k, n) && k != ListKind;
        OneHead(v.data, k, n, ListKind, ItemSize(List(xs)));
      } else {
        TakenNotRefused(v, List(xs), r.error);
      }
    }
  }

  lemma HeadRead(input: seq<byte>, from: nat, n: nat)
    requires from <= |input| && HeadAt(input[from..], ListKind, n)
    ensures from + |Header(0xC0, n)| <= |input| && input[from..from + |Header(0xC0, n)|] == Header(0xC0, n)
  {
    hide Header;
    HeadAtIsPrefix(input[from..], ListKind, n);
    assert input[from..from + |Header(0xC0, n)|] == input[from..][..|Header(0xC0, n)|];
  }

  function Ended(err: Option<Error>, xs: seq<Item>): Result<seq<Item>> {
    match err
    case None => Ok(xs)
    case Some(e) => Err(e)
  }

  /** What is left of `decodeListSlice` after `s.List()`. */
  method DecodeListBody(s: Stream, size: uint64) returns (r: Result<seq<Item>>)
    requires s.Armed() && s.stack != [] && s.stack[|s.stack| - 1] == size
    modifies s
    ensures s.Valid()
    ensures r.Err? ==> r.error != EOL && r.error != ExpectedList && old(Broken(s.Here(), r.error))
    ensures r.Ok? ==> |EncAll(r.value)| == size && s.Armed()
    ensures r.Ok? ==> s.pos == old(s.pos) + size && s.input[old(s.pos)..s.pos] == EncAll(r.value)
    ensures r.Ok? ==> s.stack == old(s.stack)[..|old(s.stack)| - 1]
    ensures r.Ok? ==> s.limited ==> s.remaining == old(s.remaining) - size
    decreases |s.input| - s.from, 4
  {
    hide Enc, EncAll, Header, HeadAt, Spend;
    ghost var outer := s.stack[..|s.stack| - 1];
    if size == 0 {
      var err := s.ListEnd();
      EncNothing();
      return Ended(err, []);
    }
    assert s.stack == outer + [size];
    var xs := DecodeSliceElems(s);
    if xs.Err? {
      return xs;
    }
    SpendInner(outer, size, |EncAll(xs.value)|);
    var err := s.ListEnd();
    return Ended(err, xs.value);
  }

  /** `decodeSliceElems`: elements until the list is used up. */
  method DecodeSliceElems(s: Stream) returns (r: Result<seq<Item>>)
    requires s.Armed() && s.stack != []
    modifies s
    ensures s.Valid()
    ensures r.Err? ==> r.error != EOL && r.error != ExpectedList && old(Broken(s.Here(), r.error))
    ensures r.Ok? ==> s.Took(|EncAll(r.value)|) && s.input[old(s.from)..s.pos] == EncAll(r.value) && s.AtEnd()
    decreases |s.input| - s.from, 3
  {
    hide Enc, EncAll, Header, HeadAt, Spend, Stream.Accepts, Stream.Fails, Stream.TextFails, Refuses, AllTaken, TakesIn, Skip, Broken;
    ghost var input, from0, stack0, v := s.input, s.from, s.stack, s.Here();
    var xs: seq<Item> := [];
    NoneTaken(v);
    assert s.Here() == v;
    EncNothing();
    SpendNothing(stack0);
    while true
      invariant s.Armed() && s.stack != [] && s.stack == Spend(stack0, |EncAll(xs)|)
      invariant s.from == from0 + |EncAll(xs)| && input[from0..s.from] == EncAll(xs)
      invariant s.limited ==> s.remaining == old(s.remaining) - |EncAll(xs)|
      invariant AllTaken(v, xs) && |EncAll(xs)| <= |v.data| && s.Here() == Skip(v, |EncAll(xs)|)
      decreases |input| - s.from
    {
      s.HereIs();
      var elem := DecodeInterface(s);
      if elem == Err(EOL) {
        return Ok(xs);
      }
      if elem.Err? {
        ElemRefused(v, xs, elem.error);
        return Err(elem.error);
      }
      AllTakenSnoc(v, xs, elem.value);
      ElemTaken(input, from0, xs, elem.value, s.pos, stack0);
      xs := xs + [elem.value];
      s.Skipped(|EncAll(xs)|);
    }
  }

  /** `DecodeBytes` into an interface value: accepts exactly the canonical encodings, and
      returns the item encoded, lists that overrun others notwithstanding. */
  method DecodeBytes(b: seq<byte>) returns (r: Result<Item>)
    requires |b| < TWO_64
    ensures r.Ok? ==> b == Enc(r.value)
    ensures r.Ok? <==> exists x :: b == Enc(x)
    ensures r == Err(EOF) <==> b == []
    ensures r == Err(MoreThanOneValue) <==> exists x :: IsPrefix(Enc(x), b) && Enc(x) != b
    ensures forall e | e != MoreThanOneValue :: r == Err(e) <==> Refuses(Sight(b, [], true, |b|), e)
    ensures r.Err? ==> r.error == MoreThanOneValue || HeadError(r.error)
  {
    hide Enc, HeadAt, Refuses, Stream.Accepts;
    var s := new Stream(b, true, |b|);
    ghost var v := Sight(b, [], true, |b|);
    assert b[0..] == b && b[..|b|] == b;
    assert s.Here() == v;
    forall e | Refuses(v, e) ensures HeadError(e) && (e == EOF <==> b == []) {
      RefusedWith(v, e);
    }
    forall x | IsPrefix(Enc(x), b) ensures s.Accepts(x) {
      s.OfferedAccepted(x);
    }
    r := DecodeInterface(s);
    if r.Ok? && s.pos < |b| {
      r := Err(MoreThanOneValue);
    }
  }

  /** The limits can wrap: a list of two bytes that starts with the header of a list of two
      bytes.  The inner one passes the check against the limit read before its own header,
      and leaves the outer one at `1 - 2`. */
  method LimitWraps() returns (s: Stream)
    ensures s.input == [0xC2, 0xC2, 0x01, 0x01]
    ensures s.Valid() && s.stack == [TWO_64 - 1, 2]
  {
    s := new Stream([0xC2, 0xC2, 0x01, 0x01], true, 4);
    assert Header(0xC0, 2) == [0xC2];
    assert s.input[0..][..1] == [0xC2];
    assert s.Ahead(ListKind, 2);
    var outer := s.List();
    assert s.input[1..][..1] == [0xC2];
    assert s.Ahead(ListKind, 2);
    var inner := s.List();
    assert Spend([2], 3) == [TWO_64 - 1];
  }

  /** And what overruns the limit is taken all the same: there the inner list, of three bytes
      where two are left, decodes to its two elements. */
  method Overruns() returns (r: Result<Item>, ghost fits: bool)
    ensures !fits && r == Ok(List([Str([1]), Str([1])]))
  {
    hide HeadAt;
    var s := new Stream([0xC2, 0xC2, 0x01, 0x01], true, 4);
    Twos(s.input);
    assert s.Ahead(ListKind, 2);
    var outer := s.List();
    ghost var x := List([Str([1]), Str([1])]);
    fits := Room(s.stack, s.limited, s.remaining, |Enc(x)|);
    assert s.Accepts(x);
    r := DecodeInterface(s);
  }

  lemma Twos(input: seq<byte>)
    requires input == [0xC2, 0xC2, 0x01, 0x01]
    ensures Header(0xC0, 2) == [0xC2] && HeadAt(input[0..], ListKind, 2) && HeadAt(input[1..], ListKind, 2)
    ensures var x := List([Str([1]), Str([1])]);
      Enc(x) == [0xC2, 1, 1] && IsPrefix(Enc(x), input[1..]) && KindOf(x) == ListKind && ItemSize(x) == 2
  {
    assert input[0..][..1] == [0xC2] && input[1..][..1] == [0xC2];
    var one := Str([1]);
    assert Enc(one) == [1];
    assert [one, one] == [one] + [one];
    EncAllSnoc([one], one);
    assert EncAll([one]) == Enc(one) + EncAll([]);
    assert input[1..][..3] == [0xC2, 1, 1];
  }
}
