/** trie/trie_node_enc.go, trie/trie_node_convert.go, trie/trie_types.go: printing nodes, and the
    raw form in which the node database caches them. */
module NodeEncode {
  import opened Bytes
  import opened Rlp
  import opened RlpEncode
  import opened HexKeys
  import opened Nodes
  import opened NodeCodec

  /** `rawShortNode`, `rawFullNode` and what they hold: collapsed nodes without flags. */
  datatype Raw =
    | RawNil
    | RawValue(data: seq<byte>)
    | RawHash(hash: Hash)
    | RawShort(key: seq<byte>, val: Raw)
    | RawFull(children: seq<Raw>)

  function RawItem(r: Raw): Item {
    match r
    case RawNil => Str([])
    case RawValue(d) => Str(d)
    case RawHash(h) => Str(h)
    case RawShort(key, v) => List([Str(key), RawItem(v)])
    case RawFull(ch) => List(seq(|ch|, i requires 0 <= i < |ch| => RawItem(ch[i])))
  }

  /** The encoding of a raw node: what the node database stores. */
  function RawBlob(r: Raw): seq<byte> {
    Enc(RawItem(r))
  }

  // ---------------------------------------------------------------- encode

  /** The contents of an open list, one item after the other, make the list. */
  lemma ListDone(ls: seq<seq<byte>>, xs: seq<Item>)
    requires ls != []
    ensures var all := Extend(ls + [[]], EncAll(xs));
      all == ls + [EncAll(xs)]
      && Extend(all[..|all| - 1], Header(0xC0, |all[|all| - 1]|) + all[|all| - 1]) == Extend(ls, Enc(List(xs)))
  {
    var all := Extend(ls + [[]], EncAll(xs));
    assert [] + EncAll(xs) == EncAll(xs);
    assert all == ls + [EncAll(xs)];
    assert all[..|all| - 1] == ls;
  }

  lemma EmptyString()
    ensures Enc(Str([])) == [0x80]
  {
  }

  lemma ListRoom(ls: seq<seq<byte>>, xs: seq<Item>)
    requires ls != []
    ensures Total(ls + [[]]) == Total(ls) && |EncAll(xs)| < |Enc(List(xs))|
    ensures Extend(ls + [[]], EncAll([])) == ls + [[]]
    ensures Total(ls + [EncAll(xs)]) == Total(ls) + |EncAll(xs)|
  {
    assert EncAll([]) == [] && (ls + [[]])[|ls|] + [] == [];
    assert (ls + [[]])[..|ls|] == ls && (ls + [EncAll(xs)])[..|ls|] == ls;
  }

  /** `encode` of the nodes of a trie. */
  method EncodeNode(n: Node, w: EncBuffer)
    requires w.Valid() && Total(w.Content()) + |Enc(ItemOf(n))| < TWO_64
    modifies w
    ensures w.Valid() && w.open == old(w.open)
    ensures w.Content() == Extend(old(w.Content()), Enc(ItemOf(n)))
    decreases n, 1
  {
    hide Enc, EncAll, EncBuffer.Valid, EncBuffer.Content, Extend, Total;
    ghost var ls := w.Content();
    match n {
      case Nil =>
        EmptyString();
        w.Write([0x80]);
      case Value(d) =>
        StrLength(d);
        w.WriteBytes(d);
      case HashNode(h) => w.WriteBytes(h);
      case Short(key, v, _) =>
        ghost var xs := ItemOf(n).items;
        StrLength(key);
        EncPair(Str(key), ItemOf(v));
        ListRoom(ls, xs);
        var offset := w.List();
        EncodeStep(ls + [[]], xs, 0);
        EncodeStep(ls + [[]], xs, 1);
        assert xs[..0] == [] && xs[..1] == [xs[0]] && xs[..2] == xs;
        w.WriteBytes(key);
        EncodeNode(v, w);
        ListDone(ls, xs);
        w.ListEnd(offset);
      case Full(_, _) => EncodeFull(n, w);
    }
  }

  /** The case of a branch. */
  method EncodeFull(n: Node, w: EncBuffer)
    requires n.Full? && w.Valid() && Total(w.Content()) + |Enc(ItemOf(n))| < TWO_64
    modifies w
    ensures w.Valid() && w.open == old(w.open)
    ensures w.Content() == Extend(old(w.Content()), Enc(ItemOf(n)))
    decreases n, 0
  {
    hide Enc, EncAll, EncBuffer.Valid, EncBuffer.Content, Extend, Total;
    ghost var ls, xs := w.Content(), ItemOf(n).items;
    ListRoom(ls, xs);
    var offset := w.List();
    assert xs[..0] == [];
    for i := 0 to |n.children|
      invariant w.Valid() && w.open == old(w.open) + [offset]
      invariant w.Content() == Extend(ls + [[]], EncAll(xs[..i]))
    {
      EncodeStep(ls + [[]], xs, i);
      if n.children[i] != Nil {
        EncodeNode(n.children[i], w);
      } else {
        EmptyString();
        w.Write([0x80]);
      }
    }
    assert xs[..|n.children|] == xs;
    ListDone(ls, xs);
    w.ListEnd(offset);
  }

  lemma StrLength(d: seq<byte>)
    ensures |d| <= |Enc(Str(d))|
  {
  }

  /** `encode` of the raw nodes. */
  method EncodeRaw(r: Raw, w: EncBuffer)
    requires w.Valid() && Total(w.Content()) + |RawBlob(r)| < TWO_64
    modifies w
    ensures w.Valid() && w.open == old(w.open)
    ensures w.Content() == Extend(old(w.Content()), RawBlob(r))
    decreases r
  {
    hide Enc, EncAll, EncBuffer.Valid, EncBuffer.Content, Extend, Total;
    ghost var ls := w.Content();
    match r {
      case RawNil =>
        EmptyString();
        w.Write([0x80]);
      case RawValue(d) =>
        StrLength(d);
        w.WriteBytes(d);
      case RawHash(h) => w.WriteBytes(h);
      case RawShort(key, v) =>
        ghost var xs := RawItem(r).items;
        StrLength(key);
        EncPair(Str(key), RawItem(v));
        ListRoom(ls, xs);
        var offset := w.List();
        EncodeStep(ls + [[]], xs, 0);
        EncodeStep(ls + [[]], xs, 1);
        assert xs[..0] == [] && xs[..1] == [xs[0]] && xs[..2] == xs;
        w.WriteBytes(key);
        EncodeRaw(v, w);
        ListDone(ls, xs);
        w.ListEnd(offset);
      case RawFull(ch) =>
        ghost var xs := RawItem(r).items;
        ListRoom(ls, xs);
        var offset := w.List();
        assert xs[..0] == [];
        for i := 0 to |ch|
          invariant w.Valid() && w.open == old(w.open) + [offset]
          invariant w.Content() == Extend(ls + [[]], EncAll(xs[..i]))
        {
          EncodeStep(ls + [[]], xs, i);
          assert xs[i] == RawItem(ch[i]);
          if ch[i] != RawNil {
            EncodeRaw(ch[i], w);
          } else {
            EmptyString();
            w.Write([0x80]);
          }
        }
        assert xs[..|ch|] == xs;
        ListDone(ls, xs);
        w.ListEnd(offset);
    }
  }

  /** `nodeToBytes` of a raw node. */
  method NodeToBytes(r: Raw) returns (result: seq<byte>)
    requires |RawBlob(r)| < TWO_64
    ensures result == RawBlob(r)
  {
    hide Enc, RawItem;
    var w := new EncBuffer();
    assert Total(w.Content()) == 0 by {
      assert w.Content()[..0] == [];
    }
    EncodeRaw(r, w);
    var a := w.MakeBytes();
    result := a[..];
  }

  // ---------------------------------------------------------------- raw nodes

  /** `simplifyNode` */
  function Simplify(n: Node): Raw {
    match n
    case Nil => RawNil
    case Value(d) => RawValue(d)
    case HashNode(h) => RawHash(h)
    case Short(key, v, _) => RawShort(key, Simplify(v))
    case Full(ch, _) => RawFull(seq(|ch|, i requires 0 <= i < |ch| => Simplify(ch[i])))
  }

  /** `expandNode` */
  function Expand(hash: Option<Hash>, r: Raw): Node
    decreases r
  {
    match r
    case RawNil => Nil
    case RawValue(d) => Value(d)
    case RawHash(h) => HashNode(h)
    case RawShort(key, v) => Short(CompactToHex(key), Expand(None, v), Flag(hash, false))
    case RawFull(ch) =>
      Full(seq(|ch|, i requires 0 <= i < |ch| => Expand(None, ch[i])), Flag(hash, false))
  }

  /** `forGatherChildren`: the hashes it calls back with, in order. */
  function Gather(r: Raw): seq<Hash>
    decreases r, 17
  {
    match r
    case RawShort(_, v) => Gather(v)
    case RawFull(ch) => if |ch| < 16 then [] else GatherFirst(r, 16)
    case RawHash(h) => [h]
    case _ => []
  }

  function GatherFirst(r: Raw, n: nat): seq<Hash>
    requires r.RawFull? && n <= |r.children| && n <= 16
    decreases r, n
  {
    if n == 0 then [] else GatherFirst(r, n - 1) + Gather(r.children[n - 1])
  }

  /** Discarding the flags does not change the encoding. */
  lemma {:induction false} SimplifyKeepsItem(n: Node)
    ensures RawItem(Simplify(n)) == ItemOf(n)
  {
    match n {
      case Short(_, v, _) => SimplifyKeepsItem(v);
      case Full(ch, _) =>
        forall i | 0 <= i < |ch| ensures RawItem(Simplify(ch[i])) == ItemOf(ch[i]) {
          SimplifyKeepsItem(ch[i]);
        }
      case _ =>
    }
  }

  /** The raw form of a stored tree. */
  function RawOf(k: Keccak, t: Node): Raw
    decreases t, 0
  {
    match t
    case Nil => RawNil
    case Value(d) => RawValue(d)
    case HashNode(h) => RawHash(h)
    case Short(key, v, _) => RawShort(StoredKey(key), RawRef(k, v))
    case Full(ch, _) => RawFull(seq(|ch|, i requires 0 <= i < |ch| => RawRef(k, ch[i])))
  }

  function RawRef(k: Keccak, t: Node): Raw
    decreases t, 1
  {
    if Big(k, t) then RawHash(k(Blob(k, t))) else RawOf(k, t)
  }

  lemma {:induction false} RawOfItem(k: Keccak, t: Node)
    ensures RawItem(RawOf(k, t)) == NodeItem(k, t)
    ensures RawItem(RawRef(k, t)) == RefItem(k, t)
    ensures RawBlob(RawOf(k, t)) == Blob(k, t)
  {
    hide Big, Enc;
    match t {
      case Short(_, v, _) => RawOfItem(k, v);
      case Full(ch, _) =>
        forall i | 0 <= i < |ch| ensures RawItem(RawRef(k, ch[i])) == RefItem(k, ch[i]) {
          RawOfItem(k, ch[i]);
        }
      case _ =>
    }
  }

  /** Expanding the raw form loads the tree. */
  lemma {:induction false} ExpandLoads(k: Keccak, t: Node, hash: Option<Hash>)
    requires Canon(t)
    ensures Expand(hash, RawOf(k, t)) == Load(k, t, hash)
    decreases t, 0
  {
    match t {
      case Short(key, v, _) =>
        CompactRoundTrip(key);
        ExpandRef(k, v);
      case Full(ch, _) =>
        forall i | 0 <= i < |ch| ensures Expand(None, RawRef(k, ch[i])) == LoadRef(k, ch[i]) {
          ExpandRef(k, ch[i]);
        }
    }
  }

  lemma {:induction false} ExpandRef(k: Keccak, t: Node)
    requires CanonOrNil(t) || GoodValue(t)
    ensures Expand(None, RawRef(k, t)) == LoadRef(k, t)
    decreases t, 1
  {
    if !Big(k, t) && Canon(t) {
      ExpandLoads(k, t, None);
    }
  }

  /** The two ways to read a node back agree: expanding the cached raw form, and decoding the
      bytes it is written as. */
  lemma ReadPathsAgree(k: Keccak, t: Node, hash: Hash)
    requires Canon(t) && Nodes.Sized(t)
    ensures DecodeNode(Some(hash), RawBlob(RawOf(k, t))) == Some(Expand(Some(hash), RawOf(k, t)))
  {
    hide *;
    RawOfItem(k, t);
    ExpandLoads(k, t, Some(hash));
    DecodeBlob(k, t, Some(hash), []);
    assert Blob(k, t) + [] == Blob(k, t);
  }
}
