/** rlp/encbuffer.go: string data and list headers are kept apart while encoding, and
    interleaved at the end.  A buffer with open lists denotes one byte string per nesting
    level; each operation acts on the innermost level exactly as the recursive encoder does. */
module RlpEncode {
  import opened Bytes
  import opened Rlp
  import opened RlpHeads

  datatype ListHead = ListHead(offset: nat, size: nat)

  // ---------------------------------------------------------------- the denotation

  /** Header offsets ascend from `lo` to `hi`. */
  predicate HeadsIn(heads: seq<ListHead>, lo: nat, hi: nat) {
    if heads == [] then lo <= hi
    else
      var n := |heads| - 1;
      HeadsIn(heads[..n], lo, heads[n].offset) && heads[n].offset <= hi
  }

  lemma {:induction false} HeadsBound(heads: seq<ListHead>, lo: nat, hi: nat)
    requires HeadsIn(heads, lo, hi)
    ensures lo <= hi
    ensures heads != [] ==> lo <= heads[|heads| - 1].offset
  {
    if heads != [] {
      HeadsBound(heads[..|heads| - 1], lo, heads[|heads| - 1].offset);
    }
  }

  /** The string data from `lo` on, with the headers put in at their offsets. */
  function Lay(str: seq<byte>, heads: seq<ListHead>, lo: nat): seq<byte>
    requires HeadsIn(heads, lo, |str|)
    decreases |heads|
  {
    HeadsBound(heads, lo, |str|);
    if heads == [] then str[lo..]
    else
      var n := |heads| - 1;
      var h := heads[n];
      Lay(str[..h.offset], heads[..n], lo) + Header(0xC0, h.size) + str[h.offset..]
  }

  function HeadSum(heads: seq<ListHead>): nat {
    if heads == [] then 0
    else HeadSum(heads[..|heads| - 1]) + |Header(0xC0, heads[|heads| - 1].size)|
  }

  lemma LayAppend(str: seq<byte>, heads: seq<ListHead>, lo: nat, b: seq<byte>)
    requires HeadsIn(heads, lo, |str|)
    ensures HeadsIn(heads, lo, |str + b|)
    ensures Lay(str + b, heads, lo) == Lay(str, heads, lo) + b
  {
    HeadsBound(heads, lo, |str|);
    if heads != [] {
      var off := heads[|heads| - 1].offset;
      assert (str + b)[..off] == str[..off];
      assert (str + b)[off..] == str[off..] + b;
    } else {
      assert (str + b)[lo..] == str[lo..] + b;
    }
  }

  lemma Regroup(a: seq<byte>, b: seq<byte>, c: seq<byte>, d: seq<byte>, e: seq<byte>)
    ensures a + (b + c) + d + e == a + (b + (c + d + e))
  {
  }

  lemma Reassociate(a: seq<byte>, b: seq<byte>, c: seq<byte>)
    ensures a + b + c == a + (b + c)
  {
  }

  lemma HeadsLast(heads: seq<ListHead>, lo: nat, hi: nat)
    requires HeadsIn(heads, lo, hi) && heads != []
    ensures var last := heads[|heads| - 1]; last.offset <= hi && HeadsIn(heads[..|heads| - 1], lo, last.offset)
  {
  }

  lemma LayNone(str: seq<byte>, heads: seq<ListHead>, lo: nat)
    requires HeadsIn(heads, lo, |str|) && heads == []
    ensures lo <= |str| && Lay(str, heads, lo) == str[lo..]
  {
  }

  lemma LayLast(str: seq<byte>, front: seq<ListHead>, last: ListHead, lo: nat)
    requires last.offset <= |str| && HeadsIn(front, lo, last.offset)
    ensures HeadsIn(front + [last], lo, |str|)
    ensures Lay(str, front + [last], lo)
         == Lay(str[..last.offset], front, lo) + Header(0xC0, last.size) + str[last.offset..]
  {
    assert (front + [last])[..|front|] == front;
  }

  /** A header splits what surrounds it. */
  lemma {:induction false} LayJoin(str: seq<byte>, a: seq<ListHead>, h: ListHead, b: seq<ListHead>, lo: nat)
    requires HeadsIn(a, lo, h.offset) && HeadsIn(b, h.offset, |str|)
    ensures h.offset <= |str| && HeadsIn(a + [h] + b, lo, |str|)
    ensures Lay(str, a + [h] + b, lo)
         == Lay(str[..h.offset], a, lo) + (Header(0xC0, h.size) + Lay(str, b, h.offset))
    decreases |b|
  {
    hide Lay, HeadsIn, Header;
    HeadsBound(b, h.offset, |str|);
    var all := a + [h] + b;
    var n := |all| - 1;
    if b == [] {
      assert all == a + [h];
      LayLast(str, a, h, lo);
      LayNone(str, b, h.offset);
      Reassociate(Lay(str[..h.offset], a, lo), Header(0xC0, h.size), str[h.offset..]);
    } else {
      var last := b[|b| - 1];
      var front := b[..|b| - 1];
      assert all == a + [h] + front + [last] && b == front + [last];
      HeadsLast(b, h.offset, |str|);
      HeadsBound(front, h.offset, last.offset);
      LayJoin(str[..last.offset], a, h, front, lo);
      assert str[..last.offset][..h.offset] == str[..h.offset];
      LayLast(str, a + [h] + front, last, lo);
      LayLast(str, front, last, h.offset);
      Regroup(Lay(str[..h.offset], a, lo), Header(0xC0, h.size), Lay(str[..last.offset], front, h.offset),
              Header(0xC0, last.size), str[last.offset..]);
    }
  }

  function Levels(str: seq<byte>, heads: seq<ListHead>, open: seq<nat>): (ls: seq<seq<byte>>)
    requires Nested(str, heads, open)
    ensures |ls| == |open| + 1
    decreases |open|
  {
    if open == [] then [Lay(str, heads, 0)]
    else
      var k := |open| - 1;
      var i := open[k];
      var off := heads[i].offset;
      Levels(str[..off], heads[..i], open[..k]) + [Lay(str, heads[i + 1..], off)]
  }

  predicate Nested(str: seq<byte>, heads: seq<ListHead>, open: seq<nat>)
    decreases |open|
  {
    if open == [] then HeadsIn(heads, 0, |str|)
    else
      var k := |open| - 1;
      var i := open[k];
      && i < |heads|
      && heads[i].offset <= |str|
      && HeadsIn(heads[i + 1..], heads[i].offset, |str|)
      && Nested(str[..heads[i].offset], heads[..i], open[..k])
  }

  function Total(ls: seq<seq<byte>>): nat {
    if ls == [] then 0 else Total(ls[..|ls| - 1]) + |ls[|ls| - 1]|
  }

  /** `lhsize` is right at every nesting depth: an open header remembers the value that made
      the sizes of the enclosing levels add up. */
  predicate Sized(str: seq<byte>, heads: seq<ListHead>, open: seq<nat>, lhsize: nat)
    requires Nested(str, heads, open)
    decreases |open|
  {
    && Total(Levels(str, heads, open)) == |str| + lhsize
    && (open != [] ==>
          var k := |open| - 1;
          var h := heads[open[k]];
          Sized(str[..h.offset], heads[..open[k]], open[..k], h.size))
  }

  /** The levels with `b` appended to the innermost one. */
  function Extend(ls: seq<seq<byte>>, b: seq<byte>): seq<seq<byte>>
    requires ls != []
  {
    ls[..|ls| - 1] + [ls[|ls| - 1] + b]
  }

  lemma ExtendTwice(ls: seq<seq<byte>>, a: seq<byte>, b: seq<byte>)
    requires ls != []
    ensures Extend(Extend(ls, a), b) == Extend(ls, a + b)
  {
    assert ls[|ls| - 1] + a + b == ls[|ls| - 1] + (a + b);
  }

  lemma TotalExtend(ls: seq<seq<byte>>, b: seq<byte>)
    requires ls != []
    ensures Total(Extend(ls, b)) == Total(ls) + |b|
  {
    assert Extend(ls, b)[..|ls| - 1] == ls[..|ls| - 1];
  }

  lemma NestedAppend(str: seq<byte>, heads: seq<ListHead>, open: seq<nat>, b: seq<byte>)
    requires Nested(str, heads, open)
    ensures Nested(str + b, heads, open)
    ensures Levels(str + b, heads, open) == Extend(Levels(str, heads, open), b)
  {
    if open == [] {
      LayAppend(str, heads, 0, b);
    } else {
      var i := open[|open| - 1];
      var off := heads[i].offset;
      assert (str + b)[..off] == str[..off];
      LayAppend(str, heads[i + 1..], off, b);
    }
  }

  /** A closed header and what follows it extend the innermost of the levels before it. */
  lemma LevelsJoin(str: seq<byte>, a: seq<ListHead>, h: ListHead, b: seq<ListHead>, open: seq<nat>)
    requires h.offset <= |str| && HeadsIn(b, h.offset, |str|)
    requires Nested(str[..h.offset], a, open)
    ensures Nested(str, a + [h] + b, open)
    ensures Levels(str, a + [h] + b, open)
         == Extend(Levels(str[..h.offset], a, open), Header(0xC0, h.size) + Lay(str, b, h.offset))
  {
    var closed := a + [h] + b;
    if open == [] {
      LayJoin(str, a, h, b, 0);
    } else {
      var j := open[|open| - 1];
      var off := a[j].offset;
      assert closed[j + 1..] == a[j + 1..] + [h] + b;
      assert closed[..j] == a[..j] && closed[j] == a[j];
      assert str[..h.offset][..off] == str[..off];
      LayJoin(str, a[j + 1..], h, b, off);
    }
  }

  /** Ending a list joins its level, headed by its size, to the enclosing one. */
  lemma LevelsClose(str: seq<byte>, heads: seq<ListHead>, open: seq<nat>, content: seq<byte>)
    requires open != [] && Nested(str, heads, open)
    requires content == Levels(str, heads, open)[|open|]
    ensures var k := |open| - 1;
      var i := open[k];
      var closed := heads[i := ListHead(heads[i].offset, |content|)];
      && Nested(str, closed, open[..k])
      && Levels(str, closed, open[..k])
         == Extend(Levels(str, heads, open)[..|open|], Header(0xC0, |content|) + content)
  {
    var k := |open| - 1;
    var i := open[k];
    hide Lay, Header;
    var h := ListHead(heads[i].offset, |content|);
    assert heads[i := h] == heads[..i] + [h] + heads[i + 1..];
    LevelsJoin(str, heads[..i], h, heads[i + 1..], open[..k]);
  }

  lemma SizedClose(str: seq<byte>, heads: seq<ListHead>, open: seq<nat>, lhsize: nat, content: seq<byte>)
    requires open != [] && Nested(str, heads, open) && Sized(str, heads, open, lhsize)
    requires content == Levels(str, heads, open)[|open|]
    ensures heads[open[|open| - 1]].offset + heads[open[|open| - 1]].size + |content| == |str| + lhsize
    ensures var k := |open| - 1;
      var closed := heads[open[k] := ListHead(heads[open[k]].offset, |content|)];
      Nested(str, closed, open[..k])
      && Sized(str, closed, open[..k], lhsize + |Header(0xC0, |content|)|)
  {
    var k := |open| - 1;
    var i := open[k];
    var closed := heads[i := ListHead(heads[i].offset, |content|)];
    var ls := Levels(str, heads, open);
    assert Sized(str[..heads[i].offset], heads[..i], open[..k], heads[i].size);
    assert ls == ls[..|open|] + [content];
    LevelsClose(str, heads, open, content);
    TotalExtend(ls[..|open|], Header(0xC0, |content|) + content);
    if k > 0 {
      var j := open[k - 1];
      var off := heads[j].offset;
      assert closed[..j] == heads[..i][..j];
      assert str[..heads[i].offset][..off] == str[..off];
      assert open[..k][..k - 1] == open[..k - 1];
    }
  }

  /** What `listEnd` computes from its fields, and what it leaves behind. */
  /** A list opened at the end adds an empty level. */
  lemma OpenList(str: seq<byte>, heads: seq<ListHead>, open: seq<nat>, lhsize: nat)
    requires Nested(str, heads, open) && Sized(str, heads, open, lhsize)
    ensures var heads', open' := heads + [ListHead(|str|, lhsize)], open + [|heads|];
      && Nested(str, heads', open') && Levels(str, heads', open') == Levels(str, heads, open) + [[]]
      && Sized(str, heads', open', lhsize)
  {
    var heads', open' := heads + [ListHead(|str|, lhsize)], open + [|heads|];
    assert str[..|str|] == str && heads'[..|heads|] == heads && heads'[|heads| + 1..] == [];
    assert open'[..|open|] == open;
    var before := Levels(str, heads, open);
    assert (before + [[]])[..|before|] == before;
    hide Lay;
    LayNone(str, [], |str|);
  }

  lemma SizeFits(str: seq<byte>, heads: seq<ListHead>, open: seq<nat>, lhsize: nat)
    requires Nested(str, heads, open) && Sized(str, heads, open, lhsize)
    ensures Total(Levels(str, heads, open)) == |str| + lhsize
  {
  }

  lemma EndList(str: seq<byte>, heads: seq<ListHead>, open: seq<nat>, lhsize: nat)
    requires open != [] && Nested(str, heads, open) && Sized(str, heads, open, lhsize)
    ensures open[|open| - 1] < |heads|
    ensures var k := |open| - 1;
      var ls := Levels(str, heads, open);
      var h := heads[open[k]];
      var size := |str| + lhsize - h.offset - h.size;
      0 <= size <= Total(ls) && size == |ls[|ls| - 1]|
      && var closed := heads[open[k] := ListHead(h.offset, size)];
         && Nested(str, closed, open[..k])
         && Sized(str, closed, open[..k], lhsize + |Header(0xC0, size)|)
         && Levels(str, closed, open[..k]) == Extend(ls[..|ls| - 1], Header(0xC0, size) + ls[|ls| - 1])
  {
    hide Lay, Header;
    var content := Levels(str, heads, open)[|open|];
    LevelsClose(str, heads, open, content);
    SizedClose(str, heads, open, lhsize, content);
  }

  // ---------------------------------------------------------------- reading it out in order

  predicate Ascends(heads: seq<ListHead>, from: nat, hi: nat) {
    if heads == [] then from <= hi
    else from <= heads[0].offset <= hi && Ascends(heads[1..], heads[0].offset, hi)
  }

  /** What is still to be put out, with the headers `heads` and the string data from `from`. */
  function Ahead(str: seq<byte>, heads: seq<ListHead>, from: nat): seq<byte>
    requires Ascends(heads, from, |str|)
  {
    if heads == [] then str[from..]
    else str[from..heads[0].offset] + Header(0xC0, heads[0].size) + Ahead(str, heads[1..], heads[0].offset)
  }

  lemma {:induction false} HeadsTail(heads: seq<ListHead>, lo: nat, hi: nat)
    requires HeadsIn(heads, lo, hi) && heads != []
    ensures lo <= heads[0].offset <= hi && HeadsIn(heads[1..], heads[0].offset, hi)
    decreases |heads|
  {
    var n := |heads| - 1;
    HeadsBound(heads, lo, hi);
    if n > 0 {
      HeadsTail(heads[..n], lo, heads[n].offset);
      assert heads[..n][1..] == heads[1..][..n - 1];
    }
  }

  lemma {:induction false} AheadIsLay(str: seq<byte>, heads: seq<ListHead>, lo: nat)
    requires HeadsIn(heads, lo, |str|)
    ensures Ascends(heads, lo, |str|)
    ensures Ahead(str, heads, lo) == Lay(str, heads, lo)
    decreases |heads|
  {
    if heads != [] {
      var h := heads[0];
      var rest := heads[1..];
      HeadsTail(heads, lo, |str|);
      AheadIsLay(str, rest, h.offset);
      assert heads == [] + [h] + rest;
      LayJoin(str, [], h, rest, lo);
      var between := str[lo..h.offset];
      assert Lay(str[..h.offset], [], lo) == between;
      assert between + (Header(0xC0, h.size) + Lay(str, rest, h.offset))
          == between + Header(0xC0, h.size) + Lay(str, rest, h.offset);
    }
  }

  lemma AheadStep(str: seq<byte>, heads: seq<ListHead>, i: nat, from: nat, done: seq<byte>)
    requires i < |heads| && Ascends(heads[i..], from, |str|)
    ensures from <= heads[i].offset <= |str| && Ascends(heads[i + 1..], heads[i].offset, |str|)
    ensures done + Ahead(str, heads[i..], from)
         == done + str[from..heads[i].offset] + Header(0xC0, heads[i].size)
            + Ahead(str, heads[i + 1..], heads[i].offset)
  {
    assert heads[i..][0] == heads[i] && heads[i..][1..] == heads[i + 1..];
  }

  lemma AheadEnd(str: seq<byte>, heads: seq<ListHead>, from: nat)
    requires Ascends(heads[|heads|..], from, |str|)
    ensures from <= |str| && Ahead(str, heads[|heads|..], from) == str[from..]
  {
    assert heads[|heads|..] == [];
  }

  lemma AheadStay(str: seq<byte>, heads: seq<ListHead>, i: nat)
    requires i < |heads| && heads[i].offset <= |str|
    requires Ascends(heads[i + 1..], heads[i].offset, |str|)
    ensures Ascends(heads[i..], heads[i].offset, |str|)
    ensures Ahead(str, heads[i..], heads[i].offset)
         == Header(0xC0, heads[i].size) + Ahead(str, heads[i + 1..], heads[i].offset)
  {
    assert heads[i..][0] == heads[i] && heads[i..][1..] == heads[i + 1..];
    assert str[heads[i].offset..heads[i].offset] == [];
  }

  lemma Splice(a: seq<byte>, p: seq<byte>, n: nat, b: seq<byte>)
    requires n <= |p|
    ensures a + p[..n] + (p[n..] + b) == a + (p + b)
  {
  }

  lemma AheadDone(str: seq<byte>, heads: seq<ListHead>)
    ensures Ascends(heads[|heads|..], |str|, |str|) && Ahead(str, heads[|heads|..], |str|) == []
  {
  }

  /** `listhead.encode`, into a scratch buffer of nine bytes. */
  method EncodeHead(head: ListHead) returns (enc: seq<byte>)
    requires head.size < TWO_64
    ensures enc == Header(0xC0, head.size)
  {
    var sizebuf := new byte[9];
    HeaderShape(0xC0, head.size);
    var n := PutHead(sizebuf, 0, 0xC0, head.size);
    enc := sizebuf[..n];
  }

  /** The loop of `copyTo`: string data and headers in turn. */
  method CopyPieces(str: seq<byte>, heads: seq<ListHead>, dst: array<byte>, start: nat)
    requires Ascends(heads, 0, |str|)
    requires forall i | 0 <= i < |heads| :: heads[i].size < TWO_64
    requires start + |Ahead(str, heads, 0)| == dst.Length
    modifies dst
    ensures dst[..] == old(dst[..start]) + Ahead(str, heads, 0)
  {
    hide Header;
    ghost var done := dst[..start];
    ghost var all := done + Ahead(str, heads, 0);
    var strpos: nat, pos: nat := 0, start;
    assert heads[0..] == heads;
    for i := 0 to |heads|
      invariant pos <= dst.Length && dst[..pos] == done
      invariant Ascends(heads[i..], strpos, |str|)
      invariant done + Ahead(str, heads[i..], strpos) == all
    {
      AheadStep(str, heads, i, strpos, done);
      done := done + str[strpos..heads[i].offset] + Header(0xC0, heads[i].size);
      pos := PutPiece(dst, pos, str[strpos..heads[i].offset], heads[i].size);
      strpos := heads[i].offset;
    }
    AheadEnd(str, heads, strpos);
    CopyAt(dst, pos, str[strpos..]);
    assert dst[..] == dst[..dst.Length];
  }

  /** One round of `copyTo`: the string data before a header, and the header. */
  method PutPiece(dst: array<byte>, pos: nat, between: seq<byte>, size: uint64) returns (pos': nat)
    requires pos + |between| + |Header(0xC0, size)| <= dst.Length
    modifies dst
    ensures pos' == pos + |between| + |Header(0xC0, size)|
    ensures dst[..pos'] == old(dst[..pos]) + between + Header(0xC0, size)
  {
    hide Header;
    CopyAt(dst, pos, between);
    var n := PutHead(dst, pos + |between|, 0xC0, size);
    pos' := pos + |between| + n;
  }

  /** The loop of `writeTo`; the writes are collected in `written`. */
  method WritePieces(str: seq<byte>, heads: seq<ListHead>) returns (written: seq<byte>)
    requires Ascends(heads, 0, |str|)
    requires forall i | 0 <= i < |heads| :: heads[i].size < TWO_64
    ensures written == Ahead(str, heads, 0)
  {
    written := [];
    var strpos: nat := 0;
    assert heads[0..] == heads;
    for i := 0 to |heads|
      invariant Ascends(heads[i..], strpos, |str|)
      invariant written + Ahead(str, heads[i..], strpos) == Ahead(str, heads, 0)
    {
      var head := heads[i];
      AheadStep(str, heads, i, strpos, written);
      ghost var next := written + str[strpos..head.offset];
      if head.offset - strpos > 0 {
        written := written + str[strpos..head.offset];
        strpos := head.offset;
      }
      assert written == next;
      var enc := EncodeHead(head);
      written := written + enc;
    }
    AheadEnd(str, heads, strpos);
    if strpos < |str| {
      written := written + str[strpos..];
    }
  }

  // ---------------------------------------------------------------- big integers

  /** `big.Int.BitLen` */
  function BitLen(n: nat): nat {
    if n == 0 then 0 else 1 + BitLen(n / 2)
  }

  /** `big.Int.Bits` on a 64-bit machine: the words of a number, least significant first. */
  function Words(n: nat): seq<uint64> {
    if n == 0 then [] else [n % TWO_64] + Words(n / TWO_64)
  }

  lemma BitLenHalves(n: nat)
    requires n >= 256
    ensures BitLen(n) == 8 + BitLen(n / 256)
  {
    var a := n / 2; var b := a / 2; var c := b / 2; var d := c / 2;
    var e := d / 2; var f := e / 2; var g := f / 2; var h := g / 2;
    assert h == n / 256;
    assert BitLen(n) == 1 + BitLen(a) == 2 + BitLen(b) == 3 + BitLen(c) == 4 + BitLen(d);
    assert BitLen(d) == 1 + BitLen(e) == 2 + BitLen(f) == 3 + BitLen(g) == 4 + BitLen(h);
  }

  /** The bit length rounded up to bytes is the length of the minimal numeral. */
  lemma {:induction false} BytesOfBits(n: nat)
    ensures (BitLen(n) + 7) / 8 == |BigEndian(n)|
  {
    if n >= 256 {
      BitLenHalves(n);
      BytesOfBits(n / 256);
    } else if n > 0 {
      BitLenByte(n);
      assert BigEndian(n) == BigEndian(0) + [n];
    }
  }

  lemma BitLenByte(n: nat)
    requires 0 < n < 256
    ensures 1 <= BitLen(n) <= 8
  {
    var a := n / 2; var b := a / 2; var c := b / 2; var d := c / 2;
    var e := d / 2; var f := e / 2; var g := f / 2; var h := g / 2;
    assert h == 0;
    assert BitLen(d) <= 1 + BitLen(e) <= 2 + BitLen(f) <= 3 + BitLen(g) <= 4 + BitLen(h);
    assert BitLen(n) <= 1 + BitLen(a) <= 2 + BitLen(b) <= 3 + BitLen(c) <= 4 + BitLen(d);
  }

  lemma BitLenBound(n: nat)
    ensures BitLen(n) <= 64 <==> n < TWO_64
  {
    BytesOfBits(n);
    BigEndianWidth(n, 8);
    Pow256Values();
  }

  lemma EncBigInt(n: nat)
    requires n >= 256 && |BigEndian(n)| < TWO_64
    ensures Enc(Str(BigEndian(n))) == Header(0x80, |BigEndian(n)|) + BigEndian(n)
  {
    BigEndianWidth(n, 1);
    Pow256Values();
  }

  /** Taking off one byte of a word takes off one byte of the number: `n` is `q` words on. */
  lemma DropByte(n: nat, q: nat, p: nat, d: nat)
    requires n == q * (256 * p) + d
    ensures n % 256 == d % 256 && n / 256 == q * p + d / 256
  {
    assert q * (256 * p) == 256 * (q * p);
  }

  /** The inner loop of `writeBigInt`: one word, its bytes from the least significant on.
      `rest` is what is left of the number from this word up, `q` what is left after it. */
  method FillWord(buf: array<byte>, d0: uint64, index0: nat, ghost all: seq<byte>, ghost rest0: nat, ghost q: nat)
    returns (index: nat)
    requires index0 <= buf.Length == |all| && buf[index0..] == all[index0..]
    requires BigEndian(rest0) == all[..index0] && rest0 == q * TWO_64 + d0
    modifies buf
    ensures index <= index0 && buf[index..] == all[index..] && BigEndian(q) == all[..index]
  {
    hide BigEndian;
    index := index0;
    var d: nat := d0;
    ghost var rest: nat := rest0;
    Pow256Values();
    var j := 0;
    while j < 8 && index > 0
      invariant 0 <= j <= 8
      invariant index <= index0 && buf[index..] == all[index..] && BigEndian(rest) == all[..index]
      invariant rest == q * Pow256(8 - j) + d && d < Pow256(8 - j)
    {
      DropByte(rest, q, Pow256(7 - j), d);
      BigEndianLast(rest);
      index := index - 1;
      assert all[..index + 1][..index] == all[..index] && all[..index + 1][index] == all[index];
      buf[index] := d % 256;
      d := d / 256;
      rest := rest / 256;
      j := j + 1;
    }
    BigEndianLast(rest);
    assert j < 8 ==> rest == 0 && q == 0;
  }

  lemma BigEndianLast(n: nat)
    ensures n == 0 <==> BigEndian(n) == []
    ensures n > 0 ==> BigEndian(n) == BigEndian(n / 256) + [n % 256]
  {
  }

  /** The outer loop of `writeBigInt`: the words of the number. */
  method FillWords(buf: array<byte>, n: nat)
    requires buf.Length == |BigEndian(n)|
    modifies buf
    ensures buf[..] == BigEndian(n)
  {
    hide BigEndian;
    var index: nat := buf.Length;
    var bits := Words(n);
    ghost var rest: nat := n;
    ghost var all := BigEndian(n);
    assert all[..index] == all;
    for w := 0 to |bits|
      invariant index <= buf.Length && buf[index..] == all[index..]
      invariant BigEndian(rest) == all[..index] && Words(rest) == bits[w..]
    {
      index := FillWord(buf, bits[w], index, all, rest, rest / TWO_64);
      rest := rest / TWO_64;
    }
    BigEndianLast(rest);
  }

  // ---------------------------------------------------------------- the buffer

  class EncBuffer {
    var str: seq<byte>
    var lheads: seq<ListHead>
    var lhsize: nat
    /** The lists begun and not yet ended, outermost first. */
    ghost var open: seq<nat>

    ghost predicate Valid()
      reads this
    {
      && Nested(str, lheads, open)
      && Sized(str, lheads, open, lhsize)
      && forall i | 0 <= i < |lheads| :: lheads[i].size < TWO_64
    }

    ghost function Content(): (ls: seq<seq<byte>>)
      requires Valid()
      reads this
      ensures |ls| == |open| + 1
    {
      Levels(str, lheads, open)
    }

    /** What a buffer without open lists encodes. */
    ghost function Output(): seq<byte>
      requires Valid() && open == []
      reads this
    {
      Content()[0]
    }

    constructor ()
      ensures Valid() && Content() == [[]] && open == []
    {
      str, lheads, lhsize, open := [], [], 0, [];
    }

    method Reset()
      modifies this
      ensures Valid() && Content() == [[]] && open == []
    {
      str, lheads, lhsize, open := [], [], 0, [];
    }

    /** `size` is the exact length of everything encoded so far. */
    method Size() returns (n: nat)
      requires Valid()
      ensures n == Total(Content())
      ensures open == [] ==> n == |Output()|
    {
      n := |str| + lhsize;
      assert open == [] ==> Content()[..0] == [];
    }

    method Write(b: seq<byte>)
      requires Valid()
      modifies this
      ensures Valid() && open == old(open)
      ensures Content() == Extend(old(Content()), b)
    {
      NestedAppend(str, lheads, open, b);
      TotalExtend(Content(), b);
      assert open != [] ==> var off := lheads[open[|open| - 1]].offset; (str + b)[..off] == str[..off];
      str := str + b;
    }

    method WriteBool(b: bool)
      requires Valid()
      modifies this
      ensures Valid() && open == old(open)
      ensures Content() == Extend(old(Content()), Enc(Str(BigEndian(if b then 1 else 0))))
    {
      EncInt(if b then 1 else 0);
      if b {
        Write([0x01]);
      } else {
        Write([0x80]);
      }
    }

    method EncodeStringHeader(size: uint64)
      requires Valid()
      modifies this
      ensures Valid() && open == old(open)
      ensures Content() == Extend(old(Content()), Header(0x80, size))
    {
      hide Levels, Nested, Sized;
      if size < 56 {
        Write([0x80 + size]);
      } else {
        var header := LongHeader(size);
        Write(header);
      }
    }

    /** The bytes of the long form, in a buffer of their own. */
    static method LongHeader(size: uint64) returns (header: seq<byte>)
      requires size >= 56
      ensures header == Header(0x80, size)
    {
      HeaderShape(0x80, size);
      var sizebuf := new byte[9];
      var sizesize := PutInt(sizebuf, 1, size);
      sizebuf[0] := 0xB7 + sizesize;
      header := sizebuf[..sizesize + 1];
      assert header == [sizebuf[0]] + sizebuf[1..sizesize + 1];
    }

    method WriteBytes(b: seq<byte>)
      requires Valid() && |b| < TWO_64
      modifies this
      ensures Valid() && open == old(open)
      ensures Content() == Extend(old(Content()), Enc(Str(b)))
    {
      if |b| == 1 && b[0] <= 0x7F {
        assert b == [b[0]];
        Write([b[0]]);
      } else {
        ExtendTwice(Content(), Header(0x80, |b|), b);
        EncodeStringHeader(|b|);
        Write(b);
      }
    }

    method WriteUint64(i: uint64)
      requires Valid()
      modifies this
      ensures Valid() && open == old(open)
      ensures Content() == Extend(old(Content()), Enc(Str(BigEndian(i))))
    {
      EncInt(i);
      if i == 0 {
        Write([0x80]);
      } else if i < 128 {
        Write([i]);
      } else {
        var sizebuf := new byte[9];
        var s := PutInt(sizebuf, 1, i);
        sizebuf[0] := 0x80 + s;
        assert sizebuf[..s + 1] == [0x80 + s] + BigEndian(i);
        Write(sizebuf[..s + 1]);
      }
    }

    /** `writeBigInt`: the words of the number, least significant first, are laid out byte by
        byte from the end. */
    method WriteBigInt(n: nat)
      requires Valid() && |BigEndian(n)| < TWO_64
      modifies this
      ensures Valid() && open == old(open)
      ensures Content() == Extend(old(Content()), Enc(Str(BigEndian(n))))
    {
      hide Levels, Nested, Sized, BigEndian, BitLen;
      var bitlen := BitLen(n);
      BitLenBound(n);
      if bitlen <= 64 {
        WriteUint64(n);
        return;
      }
      BytesOfBits(n);
      var length := (bitlen + 7) / 8;
      EncBigInt(n);
      ExtendTwice(Content(), Header(0x80, length), BigEndian(n));
      EncodeStringHeader(length);
      var buf := new byte[length];
      FillWords(buf, n);
      Write(buf[..]);
    }

    /** `list` opens a header; its size field holds `lhsize` until the list ends. */
    method List() returns (index: nat)
      requires Valid() && Total(Content()) < TWO_64
      modifies this
      ensures Valid() && open == old(open) + [index]
      ensures Content() == old(Content()) + [[]]
    {
      hide Levels, Nested, Sized, Total;
      index := |lheads|;
      OpenList(str, lheads, open, lhsize);
      SizeFits(str, lheads, open, lhsize);
      lheads := lheads + [ListHead(|str|, lhsize)];
      open := open + [index];
    }

    /** `listEnd` of the innermost open list back-patches its header with the exact size of
        its content. */
    method ListEnd(index: nat)
      requires Valid() && open != [] && index == open[|open| - 1]
      requires Total(Content()) < TWO_64
      modifies this
      ensures Valid() && open == old(open)[..|old(open)| - 1]
      ensures var ls := old(Content());
        var c := ls[|ls| - 1];
        Content() == Extend(ls[..|ls| - 1], Header(0xC0, |c|) + c)
    {
      hide Levels, Nested, Sized, Total;
      EndList(str, lheads, open, lhsize);
      var lh := lheads[index];
      var size := |str| + lhsize - lh.offset - lh.size;
      lheads := lheads[index := ListHead(lh.offset, size)];
      open := open[..|open| - 1];
      if size < 56 {
        lhsize := lhsize + 1;
      } else {
        var s := IntSize(size);
        lhsize := lhsize + 1 + s;
      }
    }

    /** `copyTo`: lays the output into `dst` from `start` on. */
    method CopyTo(dst: array<byte>, start: nat)
      requires Valid() && open == [] && start + |Output()| == dst.Length
      modifies dst
      ensures dst[..] == old(dst[..start]) + Output()
    {
      AheadIsLay(str, lheads, 0);
      CopyPieces(str, lheads, dst, start);
    }

    method MakeBytes() returns (out: array<byte>)
      requires Valid() && open == []
      ensures fresh(out) && out[..] == Output()
    {
      var n := Size();
      out := new byte[n];
      CopyTo(out, 0);
    }

    method AppendToBytes(dst: seq<byte>) returns (out: seq<byte>)
      requires Valid() && open == []
      ensures out == dst + Output()
    {
      var size := Size();
      var buf := new byte[|dst| + size];
      forall j | 0 <= j < |dst| {
        buf[j] := dst[j];
      }
      CopyTo(buf, |dst|);
      out := buf[..];
    }

    /** `writeTo`: the same output as a series of writes. */
    method WriteTo() returns (written: seq<byte>)
      requires Valid() && open == []
      ensures written == Output()
    {
      AheadIsLay(str, lheads, 0);
      written := WritePieces(str, lheads);
    }
  }

  // ---------------------------------------------------------------- encoding items

  /** `writeInterface`, `makeSliceWriter` and `writeBytes`: an item goes to the innermost
      level as its recursive encoding. */
  method EncodeItem(w: EncBuffer, x: Item)
    requires w.Valid() && Total(w.Content()) + |Enc(x)| < TWO_64
    modifies w
    ensures w.Valid() && w.open == old(w.open)
    ensures w.Content() == Extend(old(w.Content()), Enc(x))
    decreases x, 1
  {
    match x {
      case Str(b) => w.WriteBytes(b);
      case List(xs) =>
        if |xs| == 0 {
          assert Enc(x) == [0xC0] + EncAll([]) == [0xC0];
          w.Write([0xC0]);
        } else {
          ghost var ls := w.Content();
          var index := w.List();
          EncodeAll(w, xs);
          assert [] + EncAll(xs) == EncAll(xs);
          assert w.Content() == ls + [EncAll(xs)];
          w.ListEnd(index);
        }
    }
  }

  method EncodeAll(w: EncBuffer, xs: seq<Item>)
    requires w.Valid() && Total(w.Content()) + |EncAll(xs)| < TWO_64
    modifies w
    ensures w.Valid() && w.open == old(w.open)
    ensures w.Content() == Extend(old(w.Content()), EncAll(xs))
    decreases xs, 0
  {
    hide Levels, Nested, Sized;
    ghost var ls := w.Content();
    assert xs[..0] == [] && ls[|ls| - 1] + [] == ls[|ls| - 1];
    for i := 0 to |xs|
      invariant w.Valid() && w.open == old(w.open)
      invariant w.Content() == Extend(ls, EncAll(xs[..i]))
    {
      EncodeStep(ls, xs, i);
      EncodeItem(w, xs[i]);
    }
    assert xs[..|xs|] == xs;
  }

  lemma EncodeStep(ls: seq<seq<byte>>, xs: seq<Item>, i: nat)
    requires ls != [] && i < |xs|
    ensures Extend(Extend(ls, EncAll(xs[..i])), Enc(xs[i])) == Extend(ls, EncAll(xs[..i + 1]))
    ensures Total(Extend(ls, EncAll(xs[..i]))) + |Enc(xs[i])| <= Total(ls) + |EncAll(xs)|
  {
    hide Enc, EncAll;
    EncAllSnoc(xs[..i], xs[i]);
    assert xs[..i] + [xs[i]] == xs[..i + 1];
    EncAllAppend(xs[..i + 1], xs[i + 1..]);
    assert xs[..i + 1] + xs[i + 1..] == xs;
    TotalExtend(ls, EncAll(xs[..i]));
    ExtendTwice(ls, EncAll(xs[..i]), Enc(xs[i]));
  }

  /** `EncodeToBytes`: the deferred-header encoder computes the recursive encoding. */
  method EncodeToBytes(x: Item) returns (out: seq<byte>)
    requires |Enc(x)| < TWO_64
    ensures out == Enc(x)
  {
    var w := new EncBuffer();
    EncodeItem(w, x);
    var a := w.MakeBytes();
    out := a[..];
  }

  // ---------------------------------------------------------------- the chunked reader

  /** The last two cases of `next`: a piece of string data or a header, and the new position. */
  method NextPiece(str: seq<byte>, heads: seq<ListHead>, lhpos: nat, strpos: nat)
    returns (p: seq<byte>, lhpos': nat, strpos': nat)
    requires lhpos <= |heads| && Ascends(heads[lhpos..], strpos, |str|)
    requires forall i | 0 <= i < |heads| :: heads[i].size < TWO_64
    ensures lhpos' <= |heads| && Ascends(heads[lhpos'..], strpos', |str|)
    ensures p + Ahead(str, heads[lhpos'..], strpos') == Ahead(str, heads[lhpos..], strpos)
    ensures p == [] ==> Ahead(str, heads[lhpos'..], strpos') == []
  {
    hide Ahead, Ascends, Header;
    p, lhpos', strpos' := [], lhpos, strpos;
    if lhpos < |heads| {
      AheadStep(str, heads, lhpos, strpos, []);
      var head := heads[lhpos];
      ghost var rest := Ahead(str, heads[lhpos + 1..], head.offset);
      var sizebefore := head.offset - strpos;
      if sizebefore > 0 {
        p := str[strpos..head.offset];
        strpos' := strpos + sizebefore;
        AheadStay(str, heads, lhpos);
        assert p + (Header(0xC0, head.size) + rest) == [] + p + Header(0xC0, head.size) + rest;
      } else {
        lhpos' := lhpos + 1;
        p := EncodeHead(head);
        assert p + rest == [] + str[strpos..head.offset] + p + rest;
      }
    } else {
      AheadEnd(str, heads, strpos);
      if strpos < |str| {
        p := str[strpos..];
        strpos' := |str|;
      }
      AheadDone(str, heads);
    }
  }

  class EncReader {
    var buf: EncBuffer?
    var lhpos: nat
    var strpos: nat
    var piece: seq<byte>

    ghost predicate Valid()
      reads this, buf
    {
      if buf == null then piece == []
      else
        && lhpos <= |buf.lheads|
        && (forall i | 0 <= i < |buf.lheads| :: buf.lheads[i].size < TWO_64)
        && Ascends(buf.lheads[lhpos..], strpos, |buf.str|)
    }

    ghost function Tail(): seq<byte>
      requires Valid()
      reads this, buf
    {
      if buf == null then [] else Ahead(buf.str, buf.lheads[lhpos..], strpos)
    }

    /** The bytes no call has returned yet. */
    ghost function Unread(): seq<byte>
      requires Valid()
      reads this, buf
    {
      piece + Tail()
    }

    constructor (buf: EncBuffer)
      requires buf.Valid() && buf.open == []
      ensures Valid() && this.buf == buf && Unread() == buf.Output()
    {
      this.buf, lhpos, strpos, piece := buf, 0, 0, [];
      new;
      AheadIsLay(buf.str, buf.lheads, 0);
      assert buf.lheads[0..] == buf.lheads;
    }

    /** `next`: the piece to be read, empty at the end of the output. */
    method Next() returns (p: seq<byte>)
      requires Valid()
      modifies this
      ensures Valid() && buf == old(buf) && piece == old(piece)
      ensures p + Tail() == old(Unread())
      ensures p == [] ==> Tail() == []
    {
      if buf == null {
        return [];
      }
      if piece != [] {
        return piece;
      }
      p, lhpos, strpos := NextPiece(buf.str, buf.lheads, lhpos, strpos);
    }

    /** `Read`: fills `b` as far as the output goes, and reports the end exactly when nothing
        is left. */
    method Read(b: array<byte>) returns (n: nat, eof: bool)
      requires Valid()
      modifies this, b
      ensures Valid() && (buf == old(buf) || buf == null)
      ensures n <= b.Length
      ensures b[..n] + Unread() == old(Unread())
      ensures eof <==> Unread() == []
      ensures !eof ==> n == b.Length
    {
      n := 0;
      ghost var whole := Unread();
      assert [] + whole == whole;
      while true
        invariant Valid() && buf == old(buf)
        invariant n <= b.Length && b[..n] + Unread() == whole
        decreases |Unread()|
      {
        ghost var done, unread := b[..n], Unread();
        var p := Next();
        ghost var tail := Tail();
        if |p| == 0 {
          piece, buf := p, null;
          assert unread == [];
          return n, true;
        }
        var nn := Deliver(b, n, p);
        n := n + nn;
        piece := p[nn..];
        Resume(done, p, nn, tail, b[..n]);
        if nn < |p| {
          return n, false;
        }
      }
    }
  }

  /** Go's `copy(b[n:], piece)`: as much as fits. */
  method Deliver(b: array<byte>, n: nat, p: seq<byte>) returns (nn: nat)
    requires n <= b.Length
    modifies b
    ensures nn == if |p| <= b.Length - n then |p| else b.Length - n
    ensures b[..n + nn] == old(b[..n]) + p[..nn]
  {
    nn := if |p| <= b.Length - n then |p| else b.Length - n;
    CopyAt(b, n, p[..nn]);
  }

  lemma Resume(done: seq<byte>, p: seq<byte>, nn: nat, tail: seq<byte>, filled: seq<byte>)
    requires nn <= |p| && filled == done + p[..nn]
    ensures filled + (p[nn..] + tail) == done + (p + tail)
  {
    Splice(done, p, nn, tail);
  }

  /** However the caller cuts its buffers, the reads put together are the encoding. */
  method ReadChunks(buf: EncBuffer, sizes: seq<nat>) returns (data: seq<byte>, eof: bool)
    requires buf.Valid() && buf.open == []
    ensures IsPrefix(data, buf.Output())
    ensures eof ==> data == buf.Output()
    ensures !eof ==> |data| == Sum(sizes)
  {
    hide Ahead, Ascends, Levels, Nested, Sized;
    var r := new EncReader(buf);
    ghost var out := buf.Output();
    data, eof := [], false;
    for i := 0 to |sizes|
      invariant r.Valid() && fresh(r) && (r.buf == buf || r.buf == null)
      invariant data + r.Unread() == out
      invariant eof ==> r.Unread() == []
      invariant !eof ==> |data| == Sum(sizes[..i])
    {
      var b := new byte[sizes[i]];
      assert sizes[..i + 1][..i] == sizes[..i];
      ghost var before := data;
      var n, e := r.Read(b);
      Splice(before, b[..n], n, r.Unread());
      data, eof := data + b[..n], e;
      assert b[..n][..n] == b[..n] && b[..n][n..] + r.Unread() == r.Unread();
    }
    assert sizes[..|sizes|] == sizes;
  }

  function Sum(sizes: seq<nat>): nat {
    if sizes == [] then 0 else Sum(sizes[..|sizes| - 1]) + sizes[|sizes| - 1]
  }
}
