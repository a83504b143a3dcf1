/** trie/trie_node_hasher.go: Merkle hashing of a lazy trie.  Hashes already cached are reused;
    the result is nevertheless the hash of the whole tree, computed from scratch. */
module Hashing {
  import opened Bytes
  import opened Rlp
  import opened RlpEncode
  import opened HexKeys
  import opened Nodes
  import opened NodeEncode
  import opened Refine

  /** What a node is collapsed to in its parent: its hash, or itself when it is small. */
  ghost predicate Collapses(k: Keccak, c: Node, t: Node, root: bool) {
    && (c.HashNode? <==> root || Big(k, t))
    && ItemOf(c) == (if root then Str(k(Blob(k, t))) else RefItem(k, t))
  }

  /** A node and its tree, with all children hashed and its own hash still open. */
  ghost predicate BelowHashed(w: World, n: Node, t: Node, root: bool) {
    && w.Rep(n, t, root) && (n.Short? || n.Full?) && n.flags.hash.None?
    && match n
       case Short(_, v, _) => t.Short? && w.Hashed(v, t.val, false)
       case Full(ch, _) =>
         t.Full? && |ch| == |t.children| && forall i | 0 <= i < |ch| :: w.Hashed(ch[i], t.children[i], false)
       case _ => false
  }

  lemma ShortItem(k: Keccak, key: seq<byte>, c: Node, f: Flag, v: Node)
    requires NodeKey(key) && ItemOf(c) == RefItem(k, v)
    ensures ItemOf(Short(Compact(key), c, f)) == NodeItem(k, Short(key, v, NEW))
  {
  }

  lemma FullItem(k: Keccak, cs: seq<Node>, f: Flag, ch: seq<Node>)
    requires |cs| == |ch| && forall i | 0 <= i < |ch| :: ItemOf(cs[i]) == RefItem(k, ch[i])
    ensures ItemOf(Full(cs, f)) == NodeItem(k, Full(ch, NEW))
  {
  }

  /** A leaf or an unloaded node collapses to itself. */
  lemma LeafCollapses(w: World, n: Node, t: Node, root: bool)
    requires w.Rep(n, t, root) && (n.HashNode? || (n.Value? && !root))
    ensures Collapses(w.k, n, t, root) && w.Hashed(n, t, root)
  {
    if n.Value? {
      ValueRef(w.k, t);
    }
  }

  lemma CachedCollapses(w: World, n: Node, t: Node, root: bool)
    requires w.Rep(n, t, root) && (n.Short? || n.Full?) && Cache(n).hash.Some?
    ensures Collapses(w.k, HashNode(Cache(n).hash.value), t, root) && w.Hashed(n, t, root)
  {
  }

  function WithHash(n: Node, hash: Option<Hash>): Node
    requires n.Short? || n.Full?
  {
    n.(flags := Flag(hash, n.flags.dirty))
  }

  /** Setting the hash completes the node. */
  lemma HashSet(w: World, n: Node, t: Node, root: bool, hash: Option<Hash>)
    requires BelowHashed(w, n, t, root)
    requires hash == if root || Big(w.k, t) then Some(w.k(Blob(w.k, t))) else None
    ensures w.Rep(WithHash(n, hash), t, root) && w.Hashed(WithHash(n, hash), t, root)
  {
  }

  lemma ShortBelow(w: World, n: Node, t: Node, root: bool, c: Node)
    requires w.Rep(n, t, root) && n.Short? && n.flags.hash.None?
    requires t.Short? ==> w.Rep(c, t.val, false) && w.Hashed(c, t.val, false)
    ensures BelowHashed(w, Short(n.key, c, n.flags), t, root)
  {
  }

  /** A child's collapsed form `c` and its hashed form `h`. */
  ghost predicate Slot(w: World, c: Node, h: Node, t: Node) {
    ItemOf(c) == RefItem(w.k, t) && w.Rep(h, t, false) && w.Hashed(h, t, false)
  }

  lemma FullBelow(w: World, n: Node, t: Node, root: bool, cs: seq<Node>, kept: seq<Node>)
    requires w.Rep(n, t, root) && n.Full? && n.flags.hash.None? && |cs| == |kept| == 17
    requires t.Full? && |t.children| == 17 && t.flags == NEW
    requires forall i | 0 <= i < 17 :: Slot(w, cs[i], kept[i], t.children[i])
    ensures BelowHashed(w, Full(kept, n.flags), t, root)
    ensures ItemOf(Full(cs, n.flags)) == NodeItem(w.k, t)
  {
    hide Slot;
    forall i | 0 <= i < 17
      ensures ItemOf(cs[i]) == RefItem(w.k, t.children[i])
      ensures w.Rep(kept[i], t.children[i], false) && w.Hashed(kept[i], t.children[i], false)
    {
      SlotIs(w, cs[i], kept[i], t.children[i]);
    }
    w.RepCases(n, t, root);
    KeptBelow(w, n, t, root, kept);
    hide *;
    FullItem(w.k, cs, n.flags, t.children);
  }

  lemma SlotIs(w: World, c: Node, h: Node, t: Node)
    requires Slot(w, c, h, t)
    ensures ItemOf(c) == RefItem(w.k, t) && w.Rep(h, t, false) && w.Hashed(h, t, false)
  {
  }

  lemma KeptBelow(w: World, n: Node, t: Node, root: bool, kept: seq<Node>)
    requires w.Rep(n, t, root) && n.Full? && n.flags.hash.None? && t.Full? && |t.children| == |kept|
    requires forall i | 0 <= i < |kept| :: w.Rep(kept[i], t.children[i], false) && w.Hashed(kept[i], t.children[i], false)
    ensures BelowHashed(w, Full(kept, n.flags), t, root)
  {
    hide World.FlagOk, World.IsRef, World.Hashed;
    w.RepCases(n, t, root);
  }

  lemma FullParts(w: World, n: Node, t: Node, root: bool)
    requires n.Full? && w.Rep(n, t, root) && Canon(t) && Nodes.Sized(t)
    ensures t.Full? && |t.children| == |n.children| == 17 && t.flags == NEW
    ensures forall i | 0 <= i < 16 ::
      w.Rep(n.children[i], t.children[i], false) && CanonOrNil(t.children[i]) && Nodes.Sized(t.children[i])
    ensures w.Rep(n.children[16], t.children[16], false) && (n.children[16].Nil? || n.children[16].Value?)
  {
    w.RepCases(n, t, root);
    w.RepCases(n.children[16], t.children[16], false);
  }

  /** Empty slots, and the value slot. */
  lemma EmptySlot(w: World, t: Node)
    requires w.Rep(Nil, t, false)
    ensures Slot(w, Value([]), Nil, t) && Slot(w, Nil, Nil, t)
  {
    ValueRef(w.k, t);
  }

  lemma LeafSlot(w: World, n: Node, t: Node)
    requires w.Rep(n, t, false) && n.Value?
    ensures Slot(w, n, n, t)
  {
    LeafCollapses(w, n, t, false);
  }

  class Hasher {
    const k: Keccak
    var tmp: seq<byte>
    const encbuf: EncBuffer

    ghost predicate Valid()
      reads this, encbuf
    {
      encbuf.Valid() && encbuf.open == [] && encbuf.Content() == [[]]
    }

    constructor (k: Keccak)
      ensures Valid() && this.k == k && fresh(encbuf)
    {
      this.k := k;
      tmp := [];
      encbuf := new EncBuffer();
    }

    /** `shortnodeToHash` and `fullnodeToHash`: below 32 bytes the node itself. */
    method NodeToHash(n: Node, force: bool, ghost t: Node) returns (hashed: Node)
      requires Valid() && (n.Short? || n.Full?) && ItemOf(n) == NodeItem(k, t) && |Blob(k, t)| < TWO_64
      requires t.Short? || t.Full?
      modifies this, encbuf
      ensures Valid() && Collapses(k, hashed, t, force)
      ensures hashed.HashNode? <==> force || |Enc(ItemOf(n))| >= 32
      ensures hashed == if hashed.HashNode? then HashNode(k(Enc(ItemOf(n)))) else n
    {
      hide Enc, EncBuffer.Valid, EncBuffer.Content;
      assert Total(encbuf.Content()) == 0 by {
        assert encbuf.Content()[..0] == [];
      }
      EncodeNode(n, encbuf);
      assert [] + Blob(k, t) == Blob(k, t);
      assert Extend([[]], Blob(k, t)) == [Blob(k, t)];
      tmp := encbuf.AppendToBytes([]);
      encbuf.Reset();
      var enc := tmp;
      assert enc == Blob(k, t);
      assert !Big(k, t) ==> RefItem(k, t) == NodeItem(k, t);
      if |enc| < 32 && !force {
        return n;
      }
      return HashNode(k(enc));
    }

    /** `hashShortNodeChildren` */
    method HashShortChildren(n: Node, ghost t: Node, ghost root: bool, ghost w: World)
      returns (collapsed: Node, cached: Node)
      requires Valid() && w.k == k && n.Short? && w.Rep(n, t, root) && n.flags.hash.None?
      requires Canon(t) && Nodes.Sized(t)
      modifies this, encbuf
      ensures Valid() && BelowHashed(w, cached, t, root) && cached.flags == n.flags && Unhashed(cached) == Unhashed(n)
      ensures collapsed.Short? && ItemOf(collapsed) == NodeItem(k, t)
      decreases n, 0
    {
      w.RepCases(n, t, root);
      hide World.Rep, World.Hashed, World.FlagOk, World.IsRef, RefItem, NodeItem, Unhashed;
      UnhashedShort(n);
      var key := HexToCompact(n.key);
      var child, kept := n.val, n.val;
      w.RepCases(n.val, t.val, false);
      if n.val.Full? || n.val.Short? {
        child, kept := Hash(n.val, false, t.val, w);
      } else {
        LeafCollapses(w, n.val, t.val, false);
      }
      collapsed := Short(key[..], child, n.flags);
      cached := Short(n.key, kept, n.flags);
      UnhashedShort(cached);
      ShortItem(k, t.key, child, n.flags, t.val);
      ShortBelow(w, n, t, root, kept);
    }

    /** `hashFullNodeChildren`, one child after the other. */
    method HashFullChildren(n: Node, ghost t: Node, ghost root: bool, ghost w: World)
      returns (collapsed: Node, cached: Node)
      requires Valid() && w.k == k && n.Full? && w.Rep(n, t, root) && n.flags.hash.None?
      requires Canon(t) && Nodes.Sized(t)
      modifies this, encbuf
      ensures Valid() && BelowHashed(w, cached, t, root) && cached.flags == n.flags && Unhashed(cached) == Unhashed(n)
      ensures collapsed.Full? && ItemOf(collapsed) == NodeItem(k, t)
      decreases n, 1
    {
      FullParts(w, n, t, root);
      hide World.Rep, World.Hashed, World.FlagOk, World.IsRef, RefItem, NodeItem, Unhashed, Canon, Nodes.Sized, EncBuffer.Valid,
           EncBuffer.Content, Slot, BelowHashed, CanonOrNil, Hasher.Valid;
      ghost var tch := t.children;
      var cs, kept := n.children, n.children;
      for i := 0 to 16
        invariant Valid() && |cs| == |kept| == 17
        invariant forall j | i <= j < 17 :: cs[j] == kept[j] == n.children[j]
        invariant forall j | 0 <= j < i :: Slot(w, cs[j], kept[j], tch[j])
        invariant forall j | 0 <= j < i :: Unhashed(kept[j]) == Unhashed(n.children[j])
      {
        var child := n.children[i];
        if child != Nil {
          var c, h := HashChild(n, i, tch[i], w);
          cs, kept := cs[i := c], kept[i := h];
        } else {
          EmptySlot(w, tch[i]);
          cs := cs[i := Value([])];
        }
      }
      if n.children[16] == Nil {
        EmptySlot(w, tch[16]);
      } else {
        LeafSlot(w, n.children[16], tch[16]);
      }
      collapsed, cached := Full(cs, n.flags), Full(kept, n.flags);
      UnhashedFull(n, kept);
      FullBelow(w, n, t, root, cs, kept);
    }

    static lemma UnhashedShort(n: Node)
      requires n.Short?
      ensures Unhashed(n) == Short(n.key, Unhashed(n.val), Flag(None, n.flags.dirty))
    {
    }

    static lemma UnhashedFull(n: Node, kept: seq<Node>)
      requires n.Full? && |kept| == |n.children| == 17
      requires kept[16] == n.children[16] && forall j | 0 <= j < 16 :: Unhashed(kept[j]) == Unhashed(n.children[j])
      ensures Unhashed(Full(kept, n.flags)) == Unhashed(n)
    {
    }

    static lemma UnhashedFlag(n: Node, hash: Option<Hash>)
      requires n.Short? || n.Full?
      ensures Unhashed(WithHash(n, hash)) == Unhashed(n)
    {
    }

    /** The body of the loop: a child that is there. */
    method HashChild(n: Node, i: nat, ghost t: Node, ghost w: World) returns (collapsed: Node, cached: Node)
      requires Valid() && w.k == k && n.Full? && i < |n.children|
      requires n.children[i] != Nil && w.Rep(n.children[i], t, false) && CanonOrNil(t) && Nodes.Sized(t)
      modifies this, encbuf
      ensures Valid() && Slot(w, collapsed, cached, t) && Unhashed(cached) == Unhashed(n.children[i])
      decreases n, 0
    {
      hide World.Rep, World.Hashed, RefItem;
      w.RepCases(n.children[i], t, false);
      collapsed, cached := Hash(n.children[i], false, t, w);
    }

    /** `hash`: the collapsed node, and the same node with all hashes filled in, for the
        same tree. */
    method Hash(n: Node, force: bool, ghost t: Node, ghost w: World) returns (hashed: Node, cached: Node)
      requires Valid() && w.k == k && w.Rep(n, t, force) && Canon(t) && Nodes.Sized(t)
      modifies this, encbuf
      ensures Valid() && w.Rep(cached, t, force) && w.Hashed(cached, t, force) && Unhashed(cached) == Unhashed(n)
      ensures Collapses(k, hashed, t, force)
      ensures hashed.HashNode? ==> hashed.hash == k(Blob(k, t))
      decreases n, 2
    {
      w.RepCases(n, t, force);
      CanonHasShape(t);
      BlobSize(k, t);
      hide World.Rep, World.Hashed, World.FlagOk, RefItem, NodeItem, Unhashed;
      if Cache(n).hash.Some? {
        CachedCollapses(w, n, t, force);
        return HashNode(Cache(n).hash.value), n;
      }
      match n {
        case Short(_, _, _) =>
          var collapsed;
          collapsed, cached := HashShortChildren(n, t, force, w);
          hashed := NodeToHash(collapsed, force, t);
          var hash := if hashed.HashNode? then Some(hashed.hash) else None;
          HashSet(w, cached, t, force, hash);
          UnhashedFlag(cached, hash);
          cached := WithHash(cached, hash);
        case Full(_, _) =>
          var collapsed;
          collapsed, cached := HashFullChildren(n, t, force, w);
          hashed := NodeToHash(collapsed, force, t);
          var hash := if hashed.HashNode? then Some(hashed.hash) else None;
          HashSet(w, cached, t, force, hash);
          UnhashedFlag(cached, hash);
          cached := WithHash(cached, hash);
        case _ =>
          LeafCollapses(w, n, t, force);
          return n, n;
      }
    }
  }
}
