/** rlp/raw.go: decoding by slicing. */
module RlpRaw {
  import opened Bytes
  import opened Rlp
  import opened RlpHeads

  datatype RawHead = RawHead(kind: Kind, tagSize: nat, contentSize: nat)

  datatype Piece = Piece(kind: Kind, content: seq<byte>, rest: seq<byte>)

  datatype Cut = Cut(content: seq<byte>, rest: seq<byte>)

  /** Go's `uint64(b) << 8*k`. */
  function Up(b: byte, k: nat): nat
    requires k < 8
  {
    (b as int) * Shift(k)
  }

  /** The sum of shifted bytes in `readSize`, for its eight lengths. */
  function ShiftSum(b: seq<byte>, slen: nat): nat
    requires 1 <= slen <= 8 && slen <= |b|
  {
    match slen
    case 1 => b[0]
    case 2 => Up(b[0], 1) + b[1]
    case 3 => Up(b[0], 2) + Up(b[1], 1) + b[2]
    case 4 => Up(b[0], 3) + Up(b[1], 2) + Up(b[2], 1) + b[3]
    case 5 => Up(b[0], 4) + Up(b[1], 3) + Up(b[2], 2) + Up(b[3], 1) + b[4]
    case 6 => Up(b[0], 5) + Up(b[1], 4) + Up(b[2], 3) + Up(b[3], 2)
              + Up(b[4], 1) + b[5]
    case 7 => Up(b[0], 6) + Up(b[1], 5) + Up(b[2], 4) + Up(b[3], 3)
              + Up(b[4], 2) + Up(b[5], 1) + b[6]
    case _ => Up(b[0], 7) + Up(b[1], 6) + Up(b[2], 5) + Up(b[3], 4)
              + Up(b[4], 3) + Up(b[5], 2) + Up(b[6], 1) + b[7]
  }

  lemma ShiftSumStep(b: seq<byte>, slen: nat)
    requires 2 <= slen <= 8 && slen <= |b|
    ensures ShiftSum(b, slen) == ShiftSum(b, slen - 1) * 256 + b[slen - 1]
  {
  }

  lemma {:induction false} ShiftSumIsNumber(b: seq<byte>, slen: nat)
    requires 1 <= slen <= 8 && slen <= |b|
    ensures ShiftSum(b, slen) == Number(b[..slen])
  {
    assert b[..slen][..slen - 1] == b[..slen - 1];
    assert Number(b[..slen]) == Number(b[..slen - 1]) * 256 + b[slen - 1];
    if slen > 1 {
      ShiftSumIsNumber(b, slen - 1);
      ShiftSumStep(b, slen);
    }
  }

  function ReadSize(b: seq<byte>, slen: nat): Result<nat>
    requires 1 <= slen <= 8
  {
    if slen > |b| then Err(UnexpectedEOF)
    else
      var s := ShiftSum(b, slen);
      if s < 56 || b[0] == 0 then Err(CanonSize) else Ok(s)
  }

  /** A size field is accepted exactly when it is the minimal numeral of a size above 55. */
  lemma ReadSizeExact(b: seq<byte>, slen: nat, n: nat)
    requires 1 <= slen <= 8
    ensures ReadSize(b, slen) == Ok(n) <==>
      n >= 56 && |BigEndian(n)| == slen && IsPrefix(BigEndian(n), b)
  {
    if slen <= |b| {
      ShiftSumIsNumber(b, slen);
      if b[0] != 0 {
        BigEndianOfNumber(b[..slen]);
      }
    }
    NumberOfBigEndian(n);
  }

  function ReadKind(buf: seq<byte>): Result<RawHead> {
    if buf == [] then Err(UnexpectedEOF)
    else
      var b := buf[0];
      var head :=
        if b < 0x80 then Ok(RawHead(ByteKind, 0, 1))
        else if b < 0xB8 then
          if b - 0x80 == 1 && |buf| > 1 && buf[1] < 128 then Err(CanonSize)
          else Ok(RawHead(StringKind, 1, b - 0x80))
        else if b < 0xC0 then
          LongHead(StringKind, b - 0xB7 + 1, ReadSize(buf[1..], b - 0xB7))
        else if b < 0xF8 then Ok(RawHead(ListKind, 1, b - 0xC0))
        else LongHead(ListKind, b - 0xF7 + 1, ReadSize(buf[1..], b - 0xF7));
      if head.Ok? && head.value.contentSize > |buf| - head.value.tagSize then Err(ValueTooLarge)
      else head
  }

  function LongHead(k: Kind, tagSize: nat, size: Result<nat>): Result<RawHead> {
    match size
    case Ok(n) => Ok(RawHead(k, tagSize, n))
    case Err(e) => Err(e)
  }

  lemma ReadKindFits(buf: seq<byte>)
    ensures ReadKind(buf).Ok? ==>
      1 <= ReadKind(buf).value.tagSize + ReadKind(buf).value.contentSize <= |buf|
  {
  }

  function Split(b: seq<byte>): Result<Piece> {
    match ReadKind(b)
    case Err(e) => Err(e)
    case Ok(RawHead(k, ts, cs)) =>
      ReadKindFits(b);
      Ok(Piece(k, b[ts..ts + cs], b[ts + cs..]))
  }

  lemma LongHeadSound(b: seq<byte>, tag: Tag)
    requires |b| > 0 && tag + 0x37 < b[0] <= tag + 0x37 + 8
    requires ReadSize(b[1..], b[0] - tag - 0x37).Ok?
    ensures var w := b[0] - tag - 0x37;
      |b| >= 1 + w && b[..1 + w] == Header(tag, ReadSize(b[1..], w).value)
  {
    var w := b[0] - tag - 0x37;
    var n := ReadSize(b[1..], w).value;
    ReadSizeExact(b[1..], w, n);
    assert b[1..][..w] == b[1..1 + w];
    assert b[..1 + w] == [b[0]] + b[1..1 + w];
  }

  /** What `ReadKind` measures is a canonical header followed by enough content. */
  lemma ReadKindSound(b: seq<byte>)
    requires ReadKind(b).Ok?
    ensures var RawHead(k, ts, cs) := ReadKind(b).value;
      ts + cs <= |b| && b[..ts] == HeadOf(k, cs)
      && (k.ByteKind? ==> cs == 1 && b[0] < 0x80)
      && (k.StringKind? && cs == 1 ==> b[1] >= 0x80)
  {
    var RawHead(k, ts, cs) := ReadKind(b).value;
    if 0xB8 <= b[0] < 0xC0 {
      LongHeadSound(b, 0x80);
    } else if 0xF8 <= b[0] {
      LongHeadSound(b, 0xC0);
    }
  }

  /** What `Split` returns is the first frame of the input; headers in any but the canonical
      form are refused. */
  lemma SplitSound(b: seq<byte>)
    requires Split(b).Ok?
    ensures var Piece(k, c, r) := Split(b).value;
      (|c| < TWO_64 ==> Framed(k, c)) && b == Frame(k, c) + r
  {
    hide ReadKind;
    ReadKindSound(b);
    var RawHead(k, ts, cs) := ReadKind(b).value;
    ThreeParts(b, ts, cs);
  }

  lemma ThreeParts(b: seq<byte>, m: nat, n: nat)
    requires m + n <= |b|
    ensures b == b[..m] + b[m..m + n] + b[m + n..]
  {
  }

  /** And the first frame of an input is always found. */
  lemma SplitComplete(k: Kind, c: seq<byte>, r: seq<byte>)
    requires Framed(k, c)
    ensures Split(Frame(k, c) + r) == Ok(Piece(k, c, r))
  {
    var b := Frame(k, c) + r;
    if k.ByteKind? {
      assert b == c + r;
    } else {
      var tag: Tag := if k.StringKind? then 0x80 else 0xC0;
      var h := Header(tag, |c|);
      HeaderShape(tag, |c|);
      assert b == h + c + r && b[0] == h[0];
      if |c| < 56 {
        assert |c| == 1 ==> b[1] == c[0];
      } else {
        var w := |BigEndian(|c|)|;
        assert b[1..][..w] == BigEndian(|c|);
        ReadSizeExact(b[1..], w, |c|);
      }
      assert ReadKind(b) == Ok(RawHead(k, |h|, |c|));
    }
  }

  /** `Split` inverts framing and accepts nothing else. */
  lemma SplitExact(b: seq<byte>, k: Kind, c: seq<byte>, r: seq<byte>)
    requires |b| < TWO_64
    ensures Split(b) == Ok(Piece(k, c, r)) <==> Framed(k, c) && b == Frame(k, c) + r
  {
    if Split(b) == Ok(Piece(k, c, r)) {
      SplitSound(b);
    }
    if Framed(k, c) && b == Frame(k, c) + r {
      SplitComplete(k, c, r);
    }
  }

  lemma SplitItem(x: Item, r: seq<byte>)
    requires |Enc(x)| < TWO_64
    ensures Split(Enc(x) + r) == Ok(Piece(KindOf(x), ContentOf(x), r))
  {
    EncIsFrame(x);
    SplitComplete(KindOf(x), ContentOf(x), r);
  }

  /** Bytes of a size field that a tag announces. */
  function FieldWidth(b: seq<byte>): nat
    requires b != []
  {
    if 0xB8 <= b[0] < 0xC0 then b[0] - 0xB7 else if 0xF8 <= b[0] then b[0] - 0xF7 else 0
  }

  /** The input starts with a canonical header of a string or list that is not all there. */
  ghost predicate CutShort(b: seq<byte>, k: Kind, n: nat) {
    && !k.ByteKind? && n < TWO_64
    && IsPrefix(HeadOf(k, n), b) && |HeadOf(k, n)| + n > |b|
  }

  /** Why `Split` refuses an input: it ends within a header; it ends within the content that a
      canonical header announces; or what it starts with is not canonical. */
  lemma SplitRefuses(b: seq<byte>)
    requires Split(b).Err?
    ensures Split(b) == Err(UnexpectedEOF) <==> b == [] || |b| < 1 + FieldWidth(b)
    ensures Split(b) == Err(ValueTooLarge) <==> exists k, n: nat :: CutShort(b, k, n)
    ensures Split(b).error.UnexpectedEOF? || Split(b).error.ValueTooLarge? || Split(b).error.CanonSize?
  {
    hide ShiftSum;
    if b != [] {
      var w := FieldWidth(b);
      var k := if b[0] < 0xC0 then StringKind else ListKind;
      if Split(b).error.ValueTooLarge? {
        if w == 0 {
          var n: nat := b[0] - if b[0] < 0xC0 then 0x80 else 0xC0;
          assert b[..1] == [b[0]];
          assert CutShort(b, k, n);
        } else {
          var n := ReadSize(b[1..], w).value;
          LongHeadSound(b, if b[0] < 0xC0 then 0x80 else 0xC0);
          ReadSizeExact(b[1..], w, n);
          BigEndianWidth(n, 8);
          Pow256Values();
          assert CutShort(b, k, n);
        }
      }
      forall k, n: nat | CutShort(b, k, n) ensures Split(b) == Err(ValueTooLarge) {
        CutRefused(b, k, n);
      }
    }
  }

  lemma CutRefused(b: seq<byte>, k: Kind, n: nat)
    requires CutShort(b, k, n)
    ensures Split(b) == Err(ValueTooLarge)
  {
    var tag: Tag := if k.StringKind? then 0x80 else 0xC0;
    HeaderShape(tag, n);
    var h := Header(tag, n);
    assert b[0] == b[..|h|][0];
    if n >= 56 {
      var w := |BigEndian(n)|;
      assert b[1..][..w] == b[..|h|][1..];
      ReadSizeExact(b[1..], w, n);
    }
  }

  function SplitString(b: seq<byte>): Result<Cut> {
    match Split(b)
    case Err(e) => Err(e)
    case Ok(Piece(k, c, r)) => if k.ListKind? then Err(ExpectedString) else Ok(Cut(c, r))
  }

  function SplitList(b: seq<byte>): Result<Cut> {
    match Split(b)
    case Err(e) => Err(e)
    case Ok(Piece(k, c, r)) => if k.ListKind? then Ok(Cut(c, r)) else Err(ExpectedList)
  }

  /** No item's encoding starts another's: an input has at most one parse. */
  lemma {:induction false} EncUnique(x: Item, y: Item, r: seq<byte>, s: seq<byte>)
    requires Enc(x) + r == Enc(y) + s
    requires |Enc(x)| < TWO_64 && |Enc(y)| < TWO_64
    ensures x == y && r == s
    decreases x, 1
  {
    SplitItem(x, r);
    SplitItem(y, s);
    if x.List? && y.List? {
      EncIsFrame(x);
      EncIsFrame(y);
      EncAllUnique(x.items, y.items);
    }
  }

  lemma {:induction false} EncAllUnique(xs: seq<Item>, ys: seq<Item>)
    requires EncAll(xs) == EncAll(ys)
    requires |EncAll(xs)| < TWO_64
    ensures xs == ys
    decreases xs, 0
  {
    if xs != [] && ys != [] {
      EncUnique(xs[0], ys[0], EncAll(xs[1..]), EncAll(ys[1..]));
      EncAllUnique(xs[1..], ys[1..]);
      assert xs == [xs[0]] + xs[1..] && ys == [ys[0]] + ys[1..];
    }
  }

  function SplitUint64(b: seq<byte>): Result<(uint64, seq<byte>)> {
    match SplitString(b)
    case Err(e) => Err(e)
    case Ok(Cut(content, rest)) =>
      if |content| == 0 then Ok((0, rest))
      else if |content| == 1 then
        if content[0] == 0 then Err(CanonInt) else Ok((content[0], rest))
      else if |content| > 8 then Err(UintOverflow)
      else
        match ReadSize(content, |content|)
        case Err(_) => Err(CanonInt)
        case Ok(n) =>
          ReadSizeExact(content, |content|, n);
          BigEndianWidth(n, 8);
          Pow256Values();
          Ok((n, rest))
  }

  /** An integer's numeral, as a string in a buffer, decodes to it. */
  lemma SplitUint64Complete(i: uint64, r: seq<byte>)
    ensures SplitUint64(Enc(Str(BigEndian(i))) + r) == Ok((i, r))
  {
    var c := BigEndian(i);
    BigEndianWidth(i, 8);
    BigEndianWidth(i, 1);
    Pow256Values();
    SplitItem(Str(c), r);
    if |c| == 1 {
      assert c == BigEndian(0) + [i];
    } else if |c| >= 2 {
      assert i >= 256;
      ReadSizeExact(c, |c|, i);
    }
  }

  lemma SplitUint64Sound(b: seq<byte>)
    requires SplitUint64(b).Ok?
    ensures var (i, r) := SplitUint64(b).value; b == Enc(Str(BigEndian(i))) + r
  {
    SplitSound(b);
    var (i, _) := SplitUint64(b).value;
    var c := Split(b).value.content;
    if |c| == 1 {
      assert BigEndian(i) == BigEndian(0) + [i];
    } else if |c| > 1 {
      ReadSizeExact(c, |c|, i);
      assert c[..|c|] == c;
    }
    assert c == BigEndian(i);
  }

  /** `SplitUint64` inverts the encoding of integers and accepts nothing else. */
  lemma SplitUint64Exact(b: seq<byte>, i: uint64, r: seq<byte>)
    ensures SplitUint64(b) == Ok((i, r)) <==> b == Enc(Str(BigEndian(i))) + r
  {
    if SplitUint64(b).Ok? {
      SplitUint64Sound(b);
    }
    SplitUint64Complete(i, r);
  }

  /** Why it refuses an input: as `Split` does, or the value is a list, has a leading zero, or is
      too long. */
  lemma SplitUint64Refuses(b: seq<byte>, e: Error)
    ensures SplitUint64(b) == Err(e) <==>
      match Split(b)
      case Err(f) => e == f
      case Ok(Piece(k, c, _)) =>
        if k.ListKind? then e == ExpectedString
        else if |c| > 8 then e == UintOverflow
        else e == CanonInt && c != [] && c[0] == 0
  {
    hide ReadKind, ReadSize, ShiftSum, Number, BigEndian, Split;
    if Split(b).Ok? {
      var c := Split(b).value.content;
      if 2 <= |c| <= 8 {
        SizeOfNumeral(c);
      }
    }
  }

  lemma SizeOfNumeral(c: seq<byte>)
    requires 2 <= |c| <= 8
    ensures ReadSize(c, |c|).Ok? <==> c[0] != 0
  {
    hide Number, BigEndian, ShiftSum;
    if c[0] != 0 {
      BigEndianOfNumber(c);
      NumberIsWide(c);
      assert c[..|c|] == c;
      ReadSizeExact(c, |c|, Number(c));
    }
  }

  /** `AppendUint64`: the second integer encoder agrees with the first. */
  function AppendUint64(b: seq<byte>, i: uint64): (r: seq<byte>)
    ensures r == b + Enc(Str(BigEndian(i)))
  {
    EncInt(i);
    if i == 0 then b + [0x80]
    else if i < 128 then b + [i]
    else
      var s := ShiftBytes(i);
      b + ([0x80 + |s|] + s)
  }

  /** `ListSize`: the length of a list with that much content, exactly when that is a 64-bit
      number; for contents of the last nine sizes the sum wraps, and is less than the content. */
  method ListSize(contentSize: uint64) returns (n: uint64)
    ensures forall c: seq<byte> | |c| == contentSize :: n == |Frame(ListKind, c)| % TWO_64
    ensures forall c: seq<byte> | |c| == contentSize :: n == |Frame(ListKind, c)| <==> contentSize < TWO_64 - 9
    ensures n < contentSize <==> contentSize >= TWO_64 - 9
  {
    var h := HeadSize(contentSize);
    HugeHeader(contentSize);
    n := (h + contentSize) % TWO_64;
  }

  lemma HugeHeader(n: uint64)
    ensures |Header(0xC0, n)| <= 9 && (n >= TWO_64 - 9 ==> |Header(0xC0, n)| == 9)
  {
    HeaderShape(0xC0, n);
    if n >= TWO_64 - 9 {
      BigEndianWidth(n, 7);
      Pow256Values();
    }
  }

  function AddCount(i: nat, r: Result<nat>): Result<nat> {
    match r
    case Ok(n) => Ok(i + n)
    case Err(e) => Err(e)
  }

  /** Specification of `CountValues`: how many values the buffer holds, if it parses. */
  function Count(b: seq<byte>): Result<nat>
    decreases |b|
  {
    if b == [] then Ok(0)
    else
      match ReadKind(b)
      case Err(e) => Err(e)
      case Ok(RawHead(k, ts, cs)) =>
        ReadKindFits(b);
        AddCount(1, Count(b[ts + cs..]))
  }

  lemma CountStep(b: seq<byte>)
    requires b != []
    ensures match ReadKind(b)
            case Ok(RawHead(_, ts, cs)) => 1 <= ts + cs <= |b| && Count(b) == AddCount(1, Count(b[ts + cs..]))
            case Err(e) => Count(b) == Err(e)
  {
    ReadKindFits(b);
  }

  method CountValues(b: seq<byte>) returns (r: Result<nat>)
    ensures r == Count(b)
  {
    hide ReadKind;
    var i, rest := 0, b;
    while |rest| > 0
      invariant Count(b) == AddCount(i, Count(rest))
      decreases |rest|
    {
      CountStep(rest);
      var head := ReadKind(rest);
      if head.Err? {
        return Err(head.error);
      }
      rest := rest[head.value.tagSize + head.value.contentSize..];
      i := i + 1;
    }
    return Ok(i);
  }

  /** Counting the values of an encoded sequence gives its length. */
  lemma {:induction false} CountItems(xs: seq<Item>)
    requires |EncAll(xs)| < TWO_64
    ensures Count(EncAll(xs)) == Ok(|xs|)
  {
    hide Enc, EncAll, Split, Count, ReadKind;
    if xs == [] {
      EncNothing();
      CountNothing();
    } else {
      EncAllHead(xs);
      SplitItem(xs[0], EncAll(xs[1..]));
      SplitCounts(EncAll(xs));
      CountItems(xs[1..]);
    }
  }

  /** And what cannot be split off after them is the error. */
  lemma {:induction false} CountRefuses(xs: seq<Item>, b: seq<byte>)
    requires |EncAll(xs)| < TWO_64 && b != [] && Split(b).Err?
    ensures Count(EncAll(xs) + b) == Err(Split(b).error)
  {
    hide Enc, EncAll, Split, Count, ReadKind;
    if xs == [] {
      EncNothing();
      assert EncAll(xs) + b == b;
      SplitErrCounts(b);
    } else {
      EncAllHead(xs);
      var rest := EncAll(xs[1..]) + b;
      assert EncAll(xs) + b == Enc(xs[0]) + rest;
      SplitItem(xs[0], rest);
      SplitCounts(EncAll(xs) + b);
      CountRefuses(xs[1..], b);
    }
  }

  lemma SplitErrCounts(b: seq<byte>)
    requires b != [] && Split(b).Err?
    ensures Count(b) == Err(Split(b).error)
  {
    hide ReadKind;
    CountStep(b);
  }

  lemma CountNothing()
    ensures Count([]) == Ok(0)
  {
  }

  /** Splitting off a value counts it. */
  lemma SplitCounts(b: seq<byte>)
    requires Split(b).Ok? && b != []
    ensures Count(b) == AddCount(1, Count(Split(b).value.rest))
  {
    hide ReadKind;
    CountStep(b);
  }
}
