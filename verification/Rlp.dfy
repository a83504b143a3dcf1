/** Recursive Length Prefix encoding, Appendix B of the Ethereum Yellow Paper: the items and
    their one encoding, written as the obvious recursion.  The encoder and the two decoders
    of the rlp package are proved against it. */
module Rlp {
  import opened Bytes

  /** What reflection sees through an empty interface: byte strings and lists of items. */
  datatype Item = Str(bytes: seq<byte>) | List(items: seq<Item>)

  datatype Kind = ByteKind | StringKind | ListKind

  datatype Error =
    | EOF | UnexpectedEOF | EOL
    | ExpectedString | ExpectedList
    | CanonInt | CanonSize
    | ElemTooLarge | ValueTooLarge | MoreThanOneValue
    | NotInList | NotAtEOL | UintOverflow

  datatype Result<+T> = Ok(value: T) | Err(error: Error)

  /** The tags of a string and of a list; the long form starts 0x37 above the short one. */
  type Tag = t: byte | t == 0x80 || t == 0xC0 witness 0x80

  /** Header of a string or list with `n` bytes of content.  Sizes are 64-bit words, so the
      long tag never exceeds 0xFF; reducing modulo 256 keeps the definition total. */
  function Header(tag: Tag, n: nat): (h: seq<byte>)
    ensures |h| >= 1
  {
    if n < 56 then [tag + n] else [(tag + 0x37 + |BigEndian(n)|) % 256] + BigEndian(n)
  }

  function Enc(x: Item): (e: seq<byte>)
    ensures |e| >= 1
    decreases x, 1
  {
    match x
    case Str(b) => if |b| == 1 && b[0] < 0x80 then b else Header(0x80, |b|) + b
    case List(xs) => Header(0xC0, |EncAll(xs)|) + EncAll(xs)
  }

  function EncAll(xs: seq<Item>): seq<byte>
    decreases xs, 0
  {
    if xs == [] then [] else Enc(xs[0]) + EncAll(xs[1..])
  }

  /** Appendix B: a byte below 128 is its own encoding; other strings and lists follow a tag that
      holds the size of the content, up to 55, or the size of the numeral that it is. */
  lemma EncodedAs(x: Item)
    requires |Enc(x)| < TWO_64
    ensures match x
      case Str(b) =>
        if |b| == 1 && b[0] <= 0x7F then Enc(x) == b
        else if |b| <= 55 then Enc(x) == [0x80 + |b|] + b
        else |BigEndian(|b|)| <= 8 && Enc(x) == [0xB7 + |BigEndian(|b|)|] + BigEndian(|b|) + b
      case List(xs) =>
        var c := EncAll(xs);
        if |c| <= 55 then Enc(x) == [0xC0 + |c|] + c
        else |BigEndian(|c|)| <= 8 && Enc(x) == [0xF7 + |BigEndian(|c|)|] + BigEndian(|c|) + c
  {
    hide BigEndian, EncAll, Header;
    match x {
      case Str(b) => HeaderShape(0x80, |b|);
      case List(xs) => HeaderShape(0xC0, |EncAll(xs)|);
    }
  }

  lemma {:induction false} EncAllAppend(xs: seq<Item>, ys: seq<Item>)
    ensures EncAll(xs + ys) == EncAll(xs) + EncAll(ys)
  {
    hide Enc, EncAll;
    if xs == [] {
      EncNothing();
      assert [] + ys == ys;
    } else {
      EncAllAppend(xs[1..], ys);
      assert (xs + ys)[1..] == xs[1..] + ys;
      EncAllHead(xs);
      EncAllHead(xs + ys);
    }
  }

  lemma EncNothing()
    ensures EncAll([]) == []
  {
  }

  lemma EncAllHead(xs: seq<Item>)
    requires xs != []
    ensures EncAll(xs) == Enc(xs[0]) + EncAll(xs[1..])
  {
  }

  lemma EncAllSnoc(xs: seq<Item>, y: Item)
    ensures EncAll(xs + [y]) == EncAll(xs) + Enc(y)
  {
    hide Enc, EncAll;
    EncAllAppend(xs, [y]);
    EncAllHead([y]);
    assert [y][1..] == [];
    EncNothing();
  }

  /** Every encoding is a frame: a kind and its content. */
  function KindOf(x: Item): Kind {
    match x
    case Str(b) => if |b| == 1 && b[0] < 0x80 then ByteKind else StringKind
    case List(_) => ListKind
  }

  function ContentOf(x: Item): seq<byte> {
    match x
    case Str(b) => b
    case List(xs) => EncAll(xs)
  }

  function HeadOf(k: Kind, n: nat): seq<byte> {
    match k
    case ByteKind => []
    case StringKind => Header(0x80, n)
    case ListKind => Header(0xC0, n)
  }

  /** The kinds and contents that some frame spells: a byte below 0x80 has no string header. */
  predicate Framed(k: Kind, content: seq<byte>) {
    && |content| < TWO_64
    && match k
       case ByteKind => |content| == 1 && content[0] < 0x80
       case StringKind => !(|content| == 1 && content[0] < 0x80)
       case ListKind => true
  }

  function Frame(k: Kind, content: seq<byte>): seq<byte> {
    HeadOf(k, |content|) + content
  }

  lemma EncIsFrame(x: Item)
    ensures Enc(x) == Frame(KindOf(x), ContentOf(x))
    ensures |ContentOf(x)| <= |Enc(x)|
    ensures |Enc(x)| < TWO_64 ==> Framed(KindOf(x), ContentOf(x))
  {
  }

  lemma NumeralNotEmpty(n: nat)
    ensures n > 0 ==> BigEndian(n) != []
  {
  }

  /** The size field of a canonical header: at most eight bytes, at least 56. */
  lemma HeaderShape(tag: Tag, n: nat)
    requires n < TWO_64
    ensures n < 56 ==> Header(tag, n) == [tag + n]
    ensures n >= 56 ==>
      var w := |BigEndian(n)|;
      1 <= w <= 8 && Header(tag, n) == [tag + 0x37 + w] + BigEndian(n)
  {
    hide BigEndian, Pow256;
    NumeralNotEmpty(n);
    BigEndianWidth(n, 8);
    Pow256Values();
  }

  /** Integers are encoded as their minimal numerals; below 128 that is a single byte. */
  lemma EncInt(i: uint64)
    ensures var e := Enc(Str(BigEndian(i)));
      if i == 0 then e == [0x80]
      else if i < 128 then e == [i]
      else |BigEndian(i)| <= 8 && e == [0x80 + |BigEndian(i)|] + BigEndian(i)
  {
    BigEndianWidth(i, 8);
    BigEndianWidth(i, 1);
    Pow256Values();
    if 0 < i < 256 {
      assert BigEndian(i) == BigEndian(0) + [i] == [i];
    }
  }
}
