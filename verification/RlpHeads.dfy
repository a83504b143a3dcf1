/** rlp/encode.go: headers and integers written into a caller's buffer. */
module RlpHeads {
  import opened Bytes
  import opened Rlp

  /** The bytes `putint` writes: the minimal numeral, except that zero still takes one byte. */
  function IntBytes(i: uint64): (bs: seq<byte>)
    ensures 1 <= |bs| <= 8
  {
    BigEndianWidth(i, 8);
    Pow256Values();
    if i == 0 then [0] else BigEndian(i)
  }

  /** The bytes that the shifts of `putint` and `AppendUint64` select, case by case. */
  function ShiftBytes(i: uint64): (bs: seq<byte>)
    ensures bs == IntBytes(i)
    ensures 1 <= |bs| <= 8
  {
    Pow256Values();
    if i < 0x100 then
      [i]
    else if i < 0x1_0000 then
      BigEndianBytes(i, 2);
      [ByteAt(i, 1), ByteAt(i, 0)]
    else if i < 0x100_0000 then
      BigEndianBytes(i, 3);
      [ByteAt(i, 2), ByteAt(i, 1), ByteAt(i, 0)]
    else if i < 0x1_0000_0000 then
      BigEndianBytes(i, 4);
      [ByteAt(i, 3), ByteAt(i, 2), ByteAt(i, 1), ByteAt(i, 0)]
    else if i < 0x100_0000_0000 then
      BigEndianBytes(i, 5);
      [ByteAt(i, 4), ByteAt(i, 3), ByteAt(i, 2), ByteAt(i, 1), ByteAt(i, 0)]
    else if i < 0x1_0000_0000_0000 then
      BigEndianBytes(i, 6);
      [ByteAt(i, 5), ByteAt(i, 4), ByteAt(i, 3), ByteAt(i, 2), ByteAt(i, 1), ByteAt(i, 0)]
    else if i < 0x100_0000_0000_0000 then
      BigEndianBytes(i, 7);
      [ByteAt(i, 6), ByteAt(i, 5), ByteAt(i, 4), ByteAt(i, 3), ByteAt(i, 2), ByteAt(i, 1),
       ByteAt(i, 0)]
    else
      BigEndianBytes(i, 8);
      [ByteAt(i, 7), ByteAt(i, 6), ByteAt(i, 5), ByteAt(i, 4), ByteAt(i, 3), ByteAt(i, 2),
       ByteAt(i, 1), ByteAt(i, 0)]
  }

  /** Go's `copy(dst[pos:], src)` where it fits. */
  method CopyAt(dst: array<byte>, pos: nat, src: seq<byte>)
    requires pos + |src| <= dst.Length
    modifies dst
    ensures dst[..pos + |src|] == old(dst[..pos]) + src
    ensures dst[pos + |src|..] == old(dst[pos + |src|..])
  {
    forall j | 0 <= j < |src| {
      dst[pos + j] := src[j];
    }
  }

  /** `putint`: big endian, in the least number of bytes, from offset `off` of `b`. */
  method PutInt(b: array<byte>, off: nat, i: uint64) returns (size: nat)
    requires off + |IntBytes(i)| <= b.Length
    modifies b
    ensures 1 <= size == |IntBytes(i)| <= 8
    ensures b[..off + size] == old(b[..off]) + IntBytes(i)
    ensures b[off + size..] == old(b[off + size..])
  {
    var bs := ShiftBytes(i);
    size := |bs|;
    CopyAt(b, off, bs);
  }

  /** `intsize`: counts the shifts by eight that leave something. */
  method IntSize(i: uint64) returns (size: nat)
    ensures size == |IntBytes(i)|
    ensures 1 <= size <= 8
  {
    size := 1;
    var rest := i / 256;
    while rest != 0
      invariant 0 <= rest <= i
      invariant i > 0 ==> |BigEndian(i)| == size + |BigEndian(rest)|
      invariant i == 0 ==> size == 1 && rest == 0
      decreases rest
    {
      size := size + 1;
      rest := rest / 256;
    }
    BigEndianWidth(i, 8);
    Pow256Values();
  }

  /** `headsize`: the length of a header for content of the given size. */
  method HeadSize(size: uint64) returns (n: nat)
    ensures forall tag: Tag :: n == |Header(tag, size)|
  {
    if size < 56 {
      n := 1;
    } else {
      var s := IntSize(size);
      n := 1 + s;
    }
  }

  /** The bytes `puthead` puts: the tag, and the size in the long form. */
  function HeadBytes(smalltag: Tag, size: uint64): (h: seq<byte>)
    ensures h == Header(smalltag, size)
    ensures 1 <= |h| <= 9
  {
    HeaderShape(smalltag, size);
    if size < 56 then [smalltag + size]
    else
      var s := ShiftBytes(size);
      [smalltag + 0x37 + |s|] + s
  }

  /** `puthead`: writes a header at offset `off` and returns its length. */
  method PutHead(b: array<byte>, off: nat, smalltag: Tag, size: uint64) returns (n: nat)
    requires off + |Header(smalltag, size)| <= b.Length
    modifies b
    ensures 1 <= n == |Header(smalltag, size)| <= 9
    ensures b[..off + n] == old(b[..off]) + Header(smalltag, size)
    ensures b[off + n..] == old(b[off + n..])
  {
    var h := HeadBytes(smalltag, size);
    n := |h|;
    CopyAt(b, off, h);
  }
}
