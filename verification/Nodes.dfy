/** trie/trie_node.go, trie/trie_types.go: the nodes of a trie, in memory and collapsed. */
module Nodes {
  import opened Bytes
  import opened Rlp
  import opened HexKeys

  type Hash = h: seq<byte> | |h| == 32
    witness [0, 0, 0, 0, 0, 0, 0, 0, 0, 0, 0, 0, 0, 0, 0, 0, 0, 0, 0, 0, 0, 0, 0, 0, 0, 0, 0, 0, 0, 0, 0, 0]

  /** `emptyRoot`: 56e81f17 1bcc55a6 ff8345e6 92c0f86e 5b48e01b 996cadc0 01622fb5 e363b421 */
  const EMPTY_ROOT: Hash :=
    [0x56, 0xe8, 0x1f, 0x17, 0x1b, 0xcc, 0x55, 0xa6, 0xff, 0x83, 0x45, 0xe6, 0x92, 0xc0, 0xf8, 0x6e,
     0x5b, 0x48, 0xe0, 0x1b, 0x99, 0x6c, 0xad, 0xc0, 0x01, 0x62, 0x2f, 0xb5, 0xe3, 0x63, 0xb4, 0x21]

  const ZERO_HASH: Hash :=
    [0, 0, 0, 0, 0, 0, 0, 0, 0, 0, 0, 0, 0, 0, 0, 0, 0, 0, 0, 0, 0, 0, 0, 0, 0, 0, 0, 0, 0, 0, 0, 0]

  /** Keccak-256, about which nothing is assumed. */
  type Keccak = seq<byte> -> Hash

  /** Cached hash of a node, and whether it must still be written to the database. */
  datatype Flag = Flag(hash: Option<Hash>, dirty: bool)

  const NEW := Flag(None, true)

  /** `HashNode` stands for a node that is not loaded. */
  datatype Node =
    | Nil
    | Value(data: seq<byte>)
    | HashNode(hash: Hash)
    | Short(key: seq<byte>, val: Node, flags: Flag)
    | Full(children: seq<Node>, flags: Flag)

  /** `cache()` */
  function Cache(n: Node): Flag {
    match n
    case Short(_, _, f) => f
    case Full(_, f) => f
    case _ => Flag(None, true)
  }

  /** A node without the hashes cached in it: its keys, values and dirty flags. */
  function Unhashed(n: Node): Node {
    match n
    case Short(key, v, f) => Short(key, Unhashed(v), Flag(None, f.dirty))
    case Full(ch, f) => Full(seq(|ch|, i requires 0 <= i < |ch| => Unhashed(ch[i])), Flag(None, f.dirty))
    case _ => n
  }

  /** The item a node is written as: `encode` of every node type. */
  function ItemOf(n: Node): Item {
    match n
    case Nil => Str([])
    case Value(d) => Str(d)
    case HashNode(h) => Str(h)
    case Short(k, v, _) => List([Str(k), ItemOf(v)])
    case Full(ch, _) => List(seq(|ch|, i requires 0 <= i < |ch| => ItemOf(ch[i])))
  }

  // ---------------------------------------------------------------- loaded trees

  /** The shape that `insert`, `delete` and `tryGet` rely on: a short key ends in the
      terminator exactly when a value follows, branches have 17 slots, and values sit only
      under terminators. */
  predicate Shape(n: Node) {
    match n
    case Nil => true
    case Value(_) => false
    case HashNode(_) => true
    case Short(k, v, _) =>
      && |k| > 0
      && if HasTerm(k) then HexKey(k) && v.Value?
         else Nibbles(k) && (v.Full? || v.HashNode?) && Shape(v)
    case Full(ch, _) =>
      && |ch| == 17
      && (forall i | 0 <= i < 16 :: Shape(ch[i]))
      && (ch[16].Nil? || ch[16].Value?)
  }

  /** Canonical trees: loaded, no short node under a short node, at least two children in
      every branch, no empty values, and no flags but those of new nodes. */
  predicate Canon(t: Node) {
    match t
    case Short(k, v, f) =>
      && f == NEW && |k| > 0
      && if HasTerm(k) then HexKey(k) && GoodValue(v)
         else Nibbles(k) && v.Full? && Canon(v)
    case Full(ch, f) =>
      && f == NEW && |ch| == 17
      && (forall i | 0 <= i < 16 :: ch[i].Nil? || Canon(ch[i]))
      && (ch[16].Nil? || GoodValue(ch[16]))
      && (exists i, j | 0 <= i < j < 17 :: ch[i] != Nil && ch[j] != Nil)
    case _ => false
  }

  predicate CanonOrNil(t: Node) {
    t.Nil? || Canon(t)
  }

  predicate GoodValue(t: Node) {
    t.Value? && t.data != []
  }

  lemma {:induction false} CanonHasShape(t: Node)
    requires CanonOrNil(t)
    ensures Shape(t)
  {
    match t {
      case Nil =>
      case Short(k, v, _) =>
        if !HasTerm(k) {
          CanonHasShape(v);
        }
      case Full(ch, _) =>
        forall i | 0 <= i < 16 ensures Shape(ch[i]) {
          CanonHasShape(ch[i]);
        }
    }
  }

  /** What a tree holds under a key of nibbles and terminator. */
  function Lookup(t: Node, key: seq<byte>): Option<seq<byte>> {
    match t
    case Nil => None
    case Value(d) => if key == [] then Some(d) else None
    case HashNode(_) => None
    case Short(k, v, _) => if IsPrefix(k, key) then Lookup(v, key[|k|..]) else None
    case Full(ch, _) => if key != [] && key[0] < |ch| then Lookup(ch[key[0]], key[1..]) else None
  }

  // ---------------------------------------------------------------- the Merkle encoding

  /** The key of a stored node. */
  function StoredKey(key: seq<byte>): seq<byte> {
    if NodeKey(key) then Compact(key) else []
  }

  /** The collapsed form of a tree, as an item: Appendix D of the Yellow Paper.  Children of 32
      encoded bytes and more are replaced by their hashes. */
  function NodeItem(k: Keccak, t: Node): Item
    decreases t, 0
  {
    match t
    case Nil => Str([])
    case Value(d) => Str(d)
    case HashNode(h) => Str(h)
    case Short(key, v, _) => List([Str(StoredKey(key)), RefItem(k, v)])
    case Full(ch, _) => List(seq(|ch|, i requires 0 <= i < |ch| => RefItem(k, ch[i])))
  }

  function RefItem(k: Keccak, t: Node): Item
    decreases t, 3
  {
    if Big(k, t) then Str(k(Blob(k, t))) else NodeItem(k, t)
  }

  function Blob(k: Keccak, t: Node): seq<byte>
    decreases t, 1
  {
    Enc(NodeItem(k, t))
  }

  /** Too big to be embedded in its parent. */
  predicate Big(k: Keccak, t: Node)
    decreases t, 2
  {
    (t.Short? || t.Full?) && |Blob(k, t)| >= 32
  }

  // ---------------------------------------------------------------- sizes

  /** Go's own bounds: a value and a key in nibbles are slices, shorter than 2^63. */
  const MAX_LEN: nat := 0x8000_0000_0000_0000

  predicate Sized(t: Node) {
    match t
    case Nil => true
    case Value(d) => |d| < MAX_LEN
    case HashNode(_) => true
    case Short(key, v, _) => |key| < MAX_LEN && Sized(v)
    case Full(ch, _) => forall i | 0 <= i < |ch| :: Sized(ch[i])
  }

  lemma HeaderLength(tag: Tag, n: nat)
    requires n < TWO_64
    ensures |Header(tag, n)| <= 9 && (n < 56 ==> |Header(tag, n)| == 1)
  {
    HeaderShape(tag, n);
  }

  lemma {:induction false} EncAllBound(xs: seq<Item>)
    requires forall i | 0 <= i < |xs| :: |Enc(xs[i])| <= 33
    ensures |EncAll(xs)| <= 33 * |xs|
  {
    hide Enc;
    if xs != [] {
      EncAllBound(xs[1..]);
    }
  }

  lemma StrSize(d: seq<byte>)
    requires |d| < TWO_64
    ensures |Enc(Str(d))| <= 9 + |d| && (|d| < 56 ==> |Enc(Str(d))| <= 1 + |d|)
  {
    HeaderLength(0x80, |d|);
  }

  lemma ListSize(xs: seq<Item>)
    requires |EncAll(xs)| < TWO_64 - 9
    ensures |Enc(List(xs))| < TWO_64
  {
    HeaderLength(0xC0, |EncAll(xs)|);
  }

  lemma EncPair(x: Item, y: Item)
    ensures EncAll([x, y]) == Enc(x) + Enc(y)
  {
    assert [x, y] == [x] + [y];
    EncAllSnoc([x], y);
    assert EncAll([x]) == Enc(x) + EncAll([]);
  }

  /** A reference to a subtree takes at most 33 bytes, whatever the subtree. */
  lemma RefSize(k: Keccak, t: Node)
    requires !t.Value?
    ensures |Enc(RefItem(k, t))| <= 33
  {
    hide Enc;
    if Big(k, t) {
      StrSize(k(Blob(k, t)));
    } else if t.Nil? {
      StrSize([]);
    } else if t.HashNode? {
      StrSize(t.hash);
    } else {
      assert RefItem(k, t) == NodeItem(k, t);
      assert Blob(k, t) == Enc(NodeItem(k, t));
    }
  }

  /** Nodes of 32 encoded bytes and more are referred to by their hashes, smaller ones are embedded:
      a reference to a node is a list exactly when it takes less than 32 bytes. */
  lemma Embedded(k: Keccak, t: Node)
    requires t.Short? || t.Full?
    ensures |Enc(NodeItem(k, t))| < 32 ==> RefItem(k, t) == NodeItem(k, t) && RefItem(k, t).List?
    ensures |Enc(NodeItem(k, t))| >= 32 ==> RefItem(k, t) == Str(k(Enc(NodeItem(k, t))))
    ensures RefItem(k, t).List? <==> |Enc(RefItem(k, t))| < 32
  {
    hide Enc;
    HashSize(k(Blob(k, t)));
    assert Blob(k, t) == Enc(NodeItem(k, t));
    assert RefItem(k, t) == if |Blob(k, t)| >= 32 then Str(k(Blob(k, t))) else NodeItem(k, t);
  }

  lemma HashSize(h: Hash)
    ensures |Enc(Str(h))| == 33
  {
    HeaderShape(0x80, 32);
  }

  /** Appendix D: a leaf or extension is a pair of its hex-prefix key and its value or a reference,
      a branch sixteen references, an empty string where there is no child, and its value. */
  lemma CollapsedAs(k: Keccak, t: Node)
    requires Canon(t)
    ensures t.Short? ==>
      NodeItem(k, t) == List([Str(Compact(t.key)), if t.key[|t.key| - 1] == 16 then Str(t.val.data) else RefItem(k, t.val)])
    ensures t.Full? ==>
      var xs := NodeItem(k, t).items;
      && |xs| == 17
      && (forall i | 0 <= i < 16 :: xs[i] == if t.children[i].Nil? then Str([]) else RefItem(k, t.children[i]))
      && xs[16] == Str(if t.children[16].Nil? then [] else t.children[16].data)
  {
    if t.Short? {
      if HasTerm(t.key) {
        ValueRef(k, t.val);
      }
    } else {
      ValueRef(k, t.children[16]);
      forall i | 0 <= i < 16 && t.children[i].Nil? ensures RefItem(k, t.children[i]) == Str([]) {
        ValueRef(k, t.children[i]);
      }
    }
  }

  /** No node's encoding outgrows a 64-bit size. */
  lemma BlobSize(k: Keccak, t: Node)
    requires t.Short? || t.Full?
    requires Sized(t) && (t.Full? ==> Shape(t))
    ensures |Blob(k, t)| < TWO_64
  {
    hide Enc, RefItem;
    match t {
      case Short(key, v, _) =>
        var a, b := Str(StoredKey(key)), RefItem(k, v);
        EncPair(a, b);
        StoredKeyLength(key);
        StrSize(StoredKey(key));
        SlotSize(k, v);
        ListSize([a, b]);
      case Full(ch, _) =>
        var xs := NodeItem(k, t).items;
        assert xs == xs[..16] + [xs[16]];
        forall i | 0 <= i < 16 ensures |Enc(xs[i])| <= 33 {
          RefSize(k, ch[i]);
        }
        EncAllBound(xs[..16]);
        EncAllSnoc(xs[..16], xs[16]);
        SlotSize(k, ch[16]);
        ListSize(xs);
    }
  }

  lemma SlotSize(k: Keccak, v: Node)
    requires Sized(v)
    ensures |Enc(RefItem(k, v))| <= MAX_LEN + 9
  {
    hide Enc;
    if v.Value? {
      ValueRef(k, v);
      StrSize(v.data);
    } else {
      RefSize(k, v);
    }
  }

  lemma ValueRef(k: Keccak, v: Node)
    requires v.Value? || v.Nil?
    ensures RefItem(k, v) == Str(if v.Nil? then [] else v.data)
  {
    assert !Big(k, v);
    assert RefItem(k, v) == NodeItem(k, v);
  }

  lemma StoredKeyLength(key: seq<byte>)
    ensures |StoredKey(key)| <= |key| / 2 + 1
  {
  }
}
