/** trie/trie_node_dec.go: parsing stored nodes.  `None` stands for an error; every caller
    wraps it in `mustDecodeNode`, which panics. */
module NodeCodec {
  import opened Bytes
  import opened Rlp
  import opened RlpRaw
  import opened HexKeys
  import opened Nodes

  lemma SplitShrinks(b: seq<byte>)
    requires Split(b).Ok?
    ensures |Split(b).value.content| <= |b|
    ensures |Split(b).value.rest| < |b|
    ensures !Split(b).value.kind.ByteKind? ==> |Split(b).value.content| < |b|
    ensures |Split(b).value.content| + |Split(b).value.rest| <= |b|
  {
    SplitSound(b);
    ReadKindFits(b);
  }

  function DecodeNode(hash: Option<Hash>, buf: seq<byte>): Option<Node>
    decreases |buf|, 0
  {
    if |buf| == 0 then None
    else
      match SplitList(buf)
      case Err(_) => None
      case Ok(Cut(elems, _)) =>
        SplitShrinks(buf);
        match Count(elems)
        case Ok(c) =>
          if c == 2 then DecodeShort(hash, elems)
          else if c == 17 then DecodeFull(hash, elems)
          else None
        case Err(_) => None
  }

  function DecodeShort(hash: Option<Hash>, elems: seq<byte>): Option<Node>
    decreases |elems|, 4
  {
    match SplitString(elems)
    case Err(_) => None
    case Ok(Cut(kbuf, rest)) =>
      SplitShrinks(elems);
      var flag := Flag(hash, false);
      var key := CompactToHex(kbuf);
      if HasTerm(key) then
        match SplitString(rest)
        case Err(_) => None
        case Ok(Cut(val, _)) => Some(Short(key, Value(val), flag))
      else
        match DecodeRef(rest)
        case None => None
        case Some((r, _)) => Some(Short(key, r, flag))
  }

  function DecodeFull(hash: Option<Hash>, elems: seq<byte>): Option<Node>
    decreases |elems|, 4
  {
    match DecodeRefs(elems, 16)
    case None => None
    case Some((ch, rest)) =>
      match SplitString(rest)
      case Err(_) => None
      case Ok(Cut(val, _)) =>
        Some(Full(ch + [if |val| > 0 then Value(val) else Nil], Flag(hash, false)))
  }

  /** The loop of `decodeFull`: the next `n` child references. */
  function DecodeRefs(elems: seq<byte>, n: nat): (r: Option<(seq<Node>, seq<byte>)>)
    ensures r.Some? ==> |r.value.0| == n
    decreases |elems|, 3
  {
    if n == 0 then Some(([], elems))
    else
      match DecodeRef(elems)
      case None => None
      case Some((cld, rest)) =>
        match DecodeRefs(rest, n - 1)
        case None => None
        case Some((ch, rest')) => Some(([cld] + ch, rest'))
  }

  /** `decodeFull` as it runs: the children one after the other, `elems` advancing. */
  method DecodeChildren(hash: Option<Hash>, elems: seq<byte>) returns (r: Option<Node>)
    ensures r == DecodeFull(hash, elems)
  {
    hide DecodeRef, Split;
    var children: seq<Node> := [];
    var rest := elems;
    ghost var all := DecodeRefs(elems, 16);
    assert all.Some? ==> children + all.value.0 == all.value.0;
    for i := 0 to 16
      invariant |children| == i
      invariant DecodeRefs(elems, 16) ==
        match DecodeRefs(rest, 16 - i)
        case None => None
        case Some((ch, rest')) => Some((children + ch, rest'))
    {
      var step := DecodeRef(rest);
      if step.None? {
        return None;
      }
      var (cld, rest') := step.value;
      ghost var more := DecodeRefs(rest', 16 - i - 1);
      assert more.Some? ==> children + ([cld] + more.value.0) == children + [cld] + more.value.0;
      children, rest := children + [cld], rest';
    }
    assert children + [] == children;
    var val := SplitString(rest);
    if val.Err? {
      return None;
    }
    return Some(Full(children + [if |val.value.content| > 0 then Value(val.value.content) else Nil], Flag(hash, false)));
  }

  function DecodeRef(buf: seq<byte>): (r: Option<(Node, seq<byte>)>)
    ensures r.Some? ==> |r.value.1| < |buf|
    decreases |buf|, 1
  {
    match Split(buf)
    case Err(_) => None
    case Ok(Piece(kind, val, rest)) =>
      SplitShrinks(buf);
      if kind.ListKind? then
        if |buf| - |rest| > 32 then None
        else
          match DecodeNode(None, buf)
          case None => None
          case Some(n) => Some((n, rest))
      else if kind.StringKind? && |val| == 0 then Some((Nil, rest))
      else if kind.StringKind? && |val| == 32 then Some((HashNode(val), rest))
      else None
  }

  // ---------------------------------------------------------------- round trip

  /** What decoding makes of a stored tree: embedded children are loaded, big ones are not;
      only the top carries the hash. */
  function Load(k: Keccak, t: Node, hash: Option<Hash>): Node
    decreases t, 0
  {
    match t
    case Short(key, v, _) => Short(key, LoadRef(k, v), Flag(hash, false))
    case Full(ch, _) => Full(seq(|ch|, i requires 0 <= i < |ch| => LoadRef(k, ch[i])), Flag(hash, false))
    case _ => t
  }

  function LoadRef(k: Keccak, t: Node): Node
    decreases t, 1
  {
    if Big(k, t) then HashNode(k(Blob(k, t))) else Load(k, t, None)
  }

  /** A stored node decodes to the tree that was stored, to any depth of embedding, whatever
      follows it. */
  lemma {:induction false} DecodeBlob(k: Keccak, t: Node, hash: Option<Hash>, rest: seq<byte>)
    requires Canon(t) && Sized(t)
    ensures DecodeNode(hash, Blob(k, t) + rest) == Some(Load(k, t, hash))
    decreases t, 3
  {
    hide Enc, EncAll, Split, Count;
    CanonHasShape(t);
    BlobSize(k, t);
    var x := NodeItem(k, t);
    SplitItem(x, rest);
    ItemContent(x);
    CountItems(x.items);
    if t.Short? {
      DecodeShortBlob(k, t, hash);
    } else {
      DecodeFullBlob(k, t, hash);
    }
  }

  lemma ItemContent(x: Item)
    requires x.List?
    ensures |Enc(x)| > |EncAll(x.items)| && ContentOf(x) == EncAll(x.items) && KindOf(x) == ListKind
  {
  }

  lemma {:induction false} DecodeShortBlob(k: Keccak, t: Node, hash: Option<Hash>)
    requires t.Short? && Canon(t) && Sized(t)
    requires |EncAll(NodeItem(k, t).items)| < TWO_64
    ensures DecodeShort(hash, EncAll(NodeItem(k, t).items)) == Some(Load(k, t, hash))
    decreases t, 0
  {
    hide Enc, EncAll, Split;
    var a, b := Str(StoredKey(t.key)), RefItem(k, t.val);
    EncPair(a, b);
    SplitItem(a, Enc(b));
    CompactRoundTrip(t.key);
    assert Enc(b) + [] == Enc(b);
    if HasTerm(t.key) {
      ValueSlot(k, t.val);
      SplitItem(b, []);
    } else {
      DecodeRefBlob(k, t.val, []);
    }
  }

  lemma {:induction false} DecodeRefBlob(k: Keccak, t: Node, rest: seq<byte>)
    requires CanonOrNil(t) && Sized(t)
    ensures DecodeRef(Enc(RefItem(k, t)) + rest) == Some((LoadRef(k, t), rest))
    decreases t, 4
  {
    hide Enc, EncAll, Split, DecodeNode;
    var x := RefItem(k, t);
    RefSize(k, t);
    SplitItem(x, rest);
    if t.Nil? {
      ValueSlot(k, t);
    } else if Big(k, t) {
      assert x == Str(k(Blob(k, t))) && LoadRef(k, t) == HashNode(x.bytes);
    } else {
      DecodeBlob(k, t, None, rest);
      assert x == NodeItem(k, t) && Enc(x) == Blob(k, t);
      assert LoadRef(k, t) == Load(k, t, None);
    }
  }

  lemma {:induction false} DecodeRefsBlob(k: Keccak, ch: seq<Node>, rest: seq<byte>)
    requires forall i | 0 <= i < |ch| :: CanonOrNil(ch[i]) && Sized(ch[i])
    ensures var xs := seq(|ch|, i requires 0 <= i < |ch| => RefItem(k, ch[i]));
      DecodeRefs(EncAll(xs) + rest, |ch|)
      == Some((seq(|ch|, i requires 0 <= i < |ch| => LoadRef(k, ch[i])), rest))
    decreases ch, 2
  {
    hide Enc, DecodeRef, RefItem, LoadRef;
    var xs := seq(|ch|, i requires 0 <= i < |ch| => RefItem(k, ch[i]));
    if ch == [] {
      assert EncAll(xs) + rest == rest;
    } else {
      var ys := seq(|ch[1..]|, i requires 0 <= i < |ch[1..]| => RefItem(k, ch[1..][i]));
      assert xs[1..] == ys;
      DecodeRefBlob(k, ch[0], EncAll(ys) + rest);
      DecodeRefsBlob(k, ch[1..], rest);
      assert EncAll(xs) + rest == Enc(xs[0]) + (EncAll(ys) + rest);
      var loaded := seq(|ch|, i requires 0 <= i < |ch| => LoadRef(k, ch[i]));
      assert loaded == [LoadRef(k, ch[0])] + loaded[1..];
      assert loaded[1..] == seq(|ch[1..]|, i requires 0 <= i < |ch[1..]| => LoadRef(k, ch[1..][i]));
    }
  }

  lemma {:induction false} DecodeFullBlob(k: Keccak, t: Node, hash: Option<Hash>)
    requires t.Full? && Canon(t) && Sized(t)
    requires |EncAll(NodeItem(k, t).items)| < TWO_64
    ensures DecodeFull(hash, EncAll(NodeItem(k, t).items)) == Some(Load(k, t, hash))
    decreases t, 0
  {
    hide Enc, EncAll, Split, DecodeRefs, RefItem, LoadRef;
    var ch := t.children[..16];
    var xs := NodeItem(k, t).items;
    var ys := seq(|ch|, i requires 0 <= i < |ch| => RefItem(k, ch[i]));
    assert xs == ys + [xs[16]];
    EncAllSnoc(ys, xs[16]);
    DecodeRefsBlob(k, ch, Enc(xs[16]));
    ValueSlot(k, t.children[16]);
    SplitItem(xs[16], []);
    assert Enc(xs[16]) + [] == Enc(xs[16]);
    var loaded := seq(|ch|, i requires 0 <= i < |ch| => LoadRef(k, ch[i]));
    assert Load(k, t, hash).children == loaded + [t.children[16]];
  }

  lemma ValueSlot(k: Keccak, t: Node)
    requires t.Nil? || GoodValue(t)
    ensures RefItem(k, t) == Str(if t.Nil? then [] else t.data) && LoadRef(k, t) == t
  {
    ValueRef(k, t);
    assert LoadRef(k, t) == Load(k, t, None);
  }
}
