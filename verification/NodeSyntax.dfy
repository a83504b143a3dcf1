/** trie/trie_node_dec.go: which bytes are nodes.  On items the decoder is a short recursion; on
    bytes it accepts what starts with the encoding of such an item, and nothing else. */
module NodeSyntax {
  import opened Bytes
  import opened Rlp
  import opened RlpRaw
  import opened HexKeys
  import opened Nodes
  import opened NodeCodec

  /** The node that an item spells: two items, a key and a value or a reference, or seventeen,
      sixteen references and a value. */
  function NodeOf(hash: Option<Hash>, x: Item): Option<Node>
    decreases x, 0
  {
    match x
    case Str(_) => None
    case List(xs) =>
      if |xs| == 2 && xs[0].Str? then ShortOf(hash, CompactToHex(xs[0].bytes), xs)
      else if |xs| == 17 && xs[16].Str? && forall i | 0 <= i < 16 :: RefOf(xs[i]).Some? then
        var ch := seq(16, i requires 0 <= i < 16 => RefOf(xs[i]).value);
        Some(Full(ch + [if |xs[16].bytes| > 0 then Value(xs[16].bytes) else Nil], Flag(hash, false)))
      else None
  }

  function ShortOf(hash: Option<Hash>, key: seq<byte>, xs: seq<Item>): Option<Node>
    requires |xs| == 2
    decreases xs, 1
  {
    if HasTerm(key) then
      if xs[1].Str? then Some(Short(key, Value(xs[1].bytes), Flag(hash, false))) else None
    else
      match RefOf(xs[1])
      case None => None
      case Some(r) => Some(Short(key, r, Flag(hash, false)))
  }

  /** A reference: nothing, a hash, or an embedded node of at most 32 bytes. */
  function RefOf(x: Item): Option<Node>
    decreases x, 2
  {
    match x
    case Str(b) => if |b| == 0 then Some(Nil) else if |b| == 32 then Some(HashNode(b)) else None
    case List(_) => if |Enc(x)| > 32 then None else NodeOf(None, x)
  }

  // ---------------------------------------------------------------- on encodings

  /** On the encoding of an item, whatever follows it, the decoder does what it does on the item. */
  lemma {:induction false} DecodesItem(hash: Option<Hash>, x: Item, rest: seq<byte>)
    requires |Enc(x)| < TWO_64
    ensures DecodeNode(hash, Enc(x) + rest) == NodeOf(hash, x)
    decreases x, 3
  {
    hide Enc, EncAll, Split, Count, DecodeShort, DecodeFull, DecodeRef;
    SplitItem(x, rest);
    EncIsFrame(x);
    if x.List? {
      CountItems(x.items);
      if |x.items| == 2 {
        DecodesShort(hash, x.items);
        assert x.items[0].List? ==> NodeOf(hash, x).None?;
      } else if |x.items| == 17 {
        DecodesFull(hash, x.items);
      }
    }
  }

  lemma DecodesShort(hash: Option<Hash>, xs: seq<Item>)
    requires |xs| == 2 && |EncAll(xs)| < TWO_64
    ensures DecodeShort(hash, EncAll(xs)) ==
      if xs[0].Str? then ShortOf(hash, CompactToHex(xs[0].bytes), xs) else None
    decreases xs, 2
  {
    hide Enc, EncAll, Split, DecodeRef, CompactToHex, HasTerm;
    TwoItems(xs);
    SplitItem(xs[0], Enc(xs[1]));
    SplitItem(xs[1], []);
    assert Enc(xs[1]) + [] == Enc(xs[1]);
    DecodesRef(xs[1], []);
    StringKinds(xs[0]);
    StringKinds(xs[1]);
  }

  lemma TwoItems(xs: seq<Item>)
    requires |xs| == 2
    ensures EncAll(xs) == Enc(xs[0]) + Enc(xs[1])
  {
    assert xs == [xs[0], xs[1]];
    EncPair(xs[0], xs[1]);
  }

  lemma StringKinds(x: Item)
    ensures KindOf(x).ListKind? <==> x.List?
    ensures x.Str? ==> ContentOf(x) == x.bytes
  {
  }

  /** A reference of 0 or 32 bytes, or of a list of at most 32 bytes that is a node. */
  lemma {:induction false} DecodesRef(x: Item, rest: seq<byte>)
    requires |Enc(x)| < TWO_64
    ensures DecodeRef(Enc(x) + rest) ==
      match RefOf(x)
      case None => None
      case Some(n) => Some((n, rest))
    decreases x, 4
  {
    hide Enc, EncAll, Split, DecodeNode;
    SplitItem(x, rest);
    StringKinds(x);
    if x.List? {
      DecodesItem(None, x, rest);
    } else {
      LoneByte(x.bytes);
    }
  }

  lemma LoneByte(b: seq<byte>)
    ensures KindOf(Str(b)).ByteKind? ==> |b| == 1
  {
  }

  lemma {:induction false} DecodesRefs(xs: seq<Item>, rest: seq<byte>)
    requires |EncAll(xs)| < TWO_64
    ensures DecodeRefs(EncAll(xs) + rest, |xs|) ==
      if forall i | 0 <= i < |xs| :: RefOf(xs[i]).Some? then
        Some((seq(|xs|, i requires 0 <= i < |xs| => RefOf(xs[i]).value), rest))
      else None
    decreases xs, 3
  {
    hide Enc, EncAll, DecodeRef, RefOf;
    var all :=
      if forall i | 0 <= i < |xs| :: RefOf(xs[i]).Some? then seq(|xs|, i requires 0 <= i < |xs| => RefOf(xs[i]).value) else [];
    if xs == [] {
      EncNothing();
      assert EncAll(xs) + rest == rest;
      assert all == [];
    } else {
      var more := EncAll(xs[1..]) + rest;
      EncAllHead(xs);
      assert EncAll(xs) + rest == Enc(xs[0]) + more;
      DecodesRef(xs[0], more);
      DecodesRefs(xs[1..], rest);
      if RefOf(xs[0]).Some? && forall i | 0 <= i < |xs[1..]| :: RefOf(xs[1..][i]).Some? {
        forall i | 0 <= i < |xs| ensures RefOf(xs[i]).Some? {
          assert i > 0 ==> xs[i] == xs[1..][i - 1];
        }
        assert all == [all[0]] + seq(|xs[1..]|, i requires 0 <= i < |xs[1..]| => RefOf(xs[1..][i]).value);
      } else if RefOf(xs[0]).Some? {
        var i :| 0 <= i < |xs[1..]| && RefOf(xs[1..][i]).None?;
        assert xs[i + 1] == xs[1..][i];
      }
    }
  }

  lemma DecodesFull(hash: Option<Hash>, xs: seq<Item>)
    requires |xs| == 17 && |EncAll(xs)| < TWO_64
    ensures DecodeFull(hash, EncAll(xs)) == NodeOf(hash, List(xs))
    decreases xs, 4
  {
    hide Enc, EncAll, Split, DecodeRefs, RefOf;
    var ys := xs[..16];
    assert xs == ys + [xs[16]];
    EncAllSnoc(ys, xs[16]);
    DecodesRefs(ys, Enc(xs[16]));
    SplitItem(xs[16], []);
    assert Enc(xs[16]) + [] == Enc(xs[16]);
    StringKinds(xs[16]);
    assert (forall i | 0 <= i < 16 :: RefOf(ys[i]).Some?) <==> forall i | 0 <= i < 16 :: RefOf(xs[i]).Some?;
    if forall i | 0 <= i < 16 :: RefOf(xs[i]).Some? {
      assert seq(16, i requires 0 <= i < 16 => RefOf(ys[i]).value) == seq(16, i requires 0 <= i < 16 => RefOf(xs[i]).value);
    }
  }

  // ---------------------------------------------------------------- on all bytes

  lemma StringAhead(b: seq<byte>)
    requires |b| < TWO_64 && SplitString(b).Ok?
    ensures b == Enc(Str(SplitString(b).value.content)) + SplitString(b).value.rest
    ensures Split(b).Ok? && Split(b).value.rest == SplitString(b).value.rest && b != []
  {
    SplitSound(b);
    ReadKindFits(b);
  }

  lemma CountOne(b: seq<byte>, n: nat)
    requires Split(b).Ok? && b != [] && Count(b) == Ok(n)
    ensures n > 0 && Count(Split(b).value.rest) == Ok(n - 1)
  {
    hide Split;
    CountIsNat(Split(b).value.rest);
    SplitCounts(b);
  }

  lemma CountIsNat(b: seq<byte>)
    ensures Count(b).Ok? ==> Count(b).value >= 0
  {
  }

  lemma CountZero(b: seq<byte>)
    ensures Count(b) == Ok(0) <==> b == []
  {
    if b != [] {
      CountStep(b);
    }
  }

  lemma SplitNotEmpty(b: seq<byte>)
    ensures Split(b).Ok? ==> b != []
  {
  }

  /** What is decoded is an item, and what follows it. */
  lemma {:induction false} ItemAhead(hash: Option<Hash>, buf: seq<byte>) returns (x: Item, rest: seq<byte>)
    requires |buf| < TWO_64 && DecodeNode(hash, buf).Some?
    ensures buf == Enc(x) + rest
    decreases |buf|, 0
  {
    hide Enc, EncAll, Split, Count, DecodeRef, DecodeRefs, CompactToHex;
    SplitSound(buf);
    SplitShrinks(buf);
    var elems := SplitList(buf).value.content;
    rest := SplitList(buf).value.rest;
    var xs;
    if Count(elems) == Ok(2) {
      xs := ShortAhead(hash, elems);
    } else {
      xs := FullAhead(hash, elems);
    }
    x := List(xs);
    ListFrame(xs);
  }

  lemma ListFrame(xs: seq<Item>)
    ensures Enc(List(xs)) == Frame(ListKind, EncAll(xs))
  {
  }

  lemma {:induction false} ShortAhead(hash: Option<Hash>, elems: seq<byte>) returns (xs: seq<Item>)
    requires |elems| < TWO_64 && DecodeShort(hash, elems).Some? && Count(elems) == Ok(2)
    ensures elems == EncAll(xs)
    decreases |elems|, 4
  {
    hide Enc, EncAll, Split, Count, DecodeRef, CompactToHex;
    var a := SplitString(elems).value;
    StringAhead(elems);
    CountOne(elems, 2);
    SplitShrinks(elems);
    SplitNotEmpty(a.rest);
    if HasTerm(CompactToHex(a.content)) {
      var b := SplitString(a.rest).value;
      StringAhead(a.rest);
      CountOne(a.rest, 1);
      CountZero(b.rest);
      xs := [Str(a.content), Str(b.content)];
      assert Enc(xs[1]) + b.rest == Enc(xs[1]);
    } else {
      var y, rest := RefAhead(a.rest);
      CountOne(a.rest, 1);
      CountZero(rest);
      xs := [Str(a.content), y];
      assert Enc(xs[1]) + rest == Enc(xs[1]);
    }
    TwoItems(xs);
  }

  lemma {:induction false} RefAhead(buf: seq<byte>) returns (y: Item, rest: seq<byte>)
    requires |buf| < TWO_64 && DecodeRef(buf).Some?
    ensures buf == Enc(y) + rest && rest == DecodeRef(buf).value.1
    ensures Split(buf).Ok? && Split(buf).value.rest == rest && buf != []
    decreases |buf|, 1
  {
    hide Enc, EncAll, Split, DecodeNode;
    SplitNotEmpty(buf);
    rest := Split(buf).value.rest;
    if Split(buf).value.kind.ListKind? {
      var rest';
      y, rest' := ItemAhead(None, buf);
      SplitItem(y, rest');
    } else {
      StringAhead(buf);
      y := Str(Split(buf).value.content);
    }
  }

  lemma {:induction false} RefsAhead(elems: seq<byte>, n: nat, m: nat) returns (xs: seq<Item>, rest: seq<byte>)
    requires |elems| < TWO_64 && DecodeRefs(elems, n).Some? && Count(elems) == Ok(m)
    ensures |xs| == n <= m && elems == EncAll(xs) + rest && rest == DecodeRefs(elems, n).value.1
    ensures Count(rest) == Ok(m - n)
    decreases |elems|, 2
  {
    hide Enc, EncAll, DecodeRef, Split, Count;
    if n == 0 {
      xs, rest := [], elems;
      EncNothing();
      assert EncAll(xs) + rest == rest;
    } else {
      var y, more := RefAhead(elems);
      CountOne(elems, m);
      var ys;
      ys, rest := RefsAhead(more, n - 1, m - 1);
      xs := [y] + ys;
      EncAllHead(xs);
      assert xs[1..] == ys;
      assert Enc(y) + (EncAll(ys) + rest) == Enc(y) + EncAll(ys) + rest;
    }
  }

  lemma {:induction false} FullAhead(hash: Option<Hash>, elems: seq<byte>) returns (xs: seq<Item>)
    requires |elems| < TWO_64 && DecodeFull(hash, elems).Some? && Count(elems) == Ok(17)
    ensures elems == EncAll(xs)
    decreases |elems|, 4
  {
    hide Enc, EncAll, Split, Count, DecodeRefs;
    var ys, rest := RefsAhead(elems, 16, 17);
    var v := SplitString(rest).value;
    StringAhead(rest);
    CountOne(rest, 1);
    CountZero(v.rest);
    xs := ys + [Str(v.content)];
    EncAllSnoc(ys, Str(v.content));
    assert Enc(Str(v.content)) + v.rest == Enc(Str(v.content));
  }

  /** The decoder accepts exactly the inputs that start with the encoding of an item that spells
      a node, and returns that node. */
  lemma DecodesExactly(hash: Option<Hash>, buf: seq<byte>, n: Node)
    requires |buf| < TWO_64
    ensures DecodeNode(hash, buf) == Some(n) <==> exists x, rest :: buf == Enc(x) + rest && NodeOf(hash, x) == Some(n)
  {
    hide Enc, DecodeNode, NodeOf;
    if DecodeNode(hash, buf) == Some(n) {
      var x, rest := ItemAhead(hash, buf);
      DecodesItem(hash, x, rest);
    }
    forall x, rest | buf == Enc(x) + rest ensures DecodeNode(hash, buf) == NodeOf(hash, x) {
      DecodesItem(hash, x, rest);
    }
  }

  /** What a reference may be: nothing, the 32 bytes of a hash, or a node of at most 32 bytes. */
  lemma RefsAllowed(x: Item)
    ensures x.Str? ==> (RefOf(x).Some? <==> |x.bytes| == 0 || |x.bytes| == 32)
    ensures x.List? ==> (RefOf(x).Some? <==> |Enc(x)| <= 32 && NodeOf(None, x).Some?)
    ensures x.List? && NodeOf(None, x).Some? ==> |x.items| == 2 || |x.items| == 17
  {
    hide Enc;
  }
}
