/** trie/trie_committer.go, trie/trie_nodeset.go: collecting the dirty nodes of a hashed trie,
    children before parents. */
module Committing {
  import opened Bytes
  import opened Nodes
  import opened NodeEncode
  import opened TrieOps
  import opened Refine

  /** `memoryNode` with its path. */
  datatype Entry = Entry(path: seq<byte>, hash: Hash, node: Raw)

  /** `nodeWithPrev` */
  datatype DirtyNode = DirtyNode(hash: Hash, node: Raw, oldv: seq<byte>)

  datatype Leaf = Leaf(blob: seq<byte>, parent: Hash)

  /** What `markUpdated` and `addLeaf` collect. */
  datatype Updates = Updates(order: seq<seq<byte>>, nodes: map<seq<byte>, DirtyNode>, leaves: seq<Leaf>)

  function OldValue(origin: map<seq<byte>, seq<byte>>, path: seq<byte>): seq<byte> {
    if path in origin then origin[path] else []
  }

  function Mark(u: Updates, e: Entry, origin: map<seq<byte>, seq<byte>>, collectLeaf: bool): Updates {
    Updates(u.order + [e.path],
            u.nodes[e.path := DirtyNode(e.hash, e.node, OldValue(origin, e.path))],
            if collectLeaf && e.node.RawShort? && e.node.val.RawValue? then u.leaves + [Leaf(e.node.val.data, e.hash)]
            else u.leaves)
  }

  function MarkAll(u: Updates, es: seq<Entry>, origin: map<seq<byte>, seq<byte>>, collectLeaf: bool): Updates {
    if es == [] then u
    else Mark(MarkAll(u, es[..|es| - 1], origin, collectLeaf), es[|es| - 1], origin, collectLeaf)
  }

  lemma {:induction false} MarkSum(u: Updates, a: seq<Entry>, b: seq<Entry>, origin: map<seq<byte>, seq<byte>>, collectLeaf: bool)
    ensures MarkAll(u, a + b, origin, collectLeaf) == MarkAll(MarkAll(u, a, origin, collectLeaf), b, origin, collectLeaf)
  {
    hide Mark;
    if b == [] {
      assert a + b == a;
    } else {
      var n := |b| - 1;
      MarkSum(u, a, b[..n], origin, collectLeaf);
      assert (a + b)[..|a + b| - 1] == a + b[..n];
    }
  }

  // ---------------------------------------------------------------- what is emitted

  ghost function Own(k: Keccak, f: Flag, t: Node, path: seq<byte>): seq<Entry> {
    if f.hash.Some? then [Entry(path, f.hash.value, RawOf(k, t))] else []
  }

  /** The entries for the dirty nodes of `n`, which stands for `t`, children first. */
  ghost function Emit(k: Keccak, n: Node, t: Node, path: seq<byte>): seq<Entry>
    decreases n, 17
  {
    match n
    case Short(key, v, f) =>
      if !t.Short? || (f.hash.Some? && !f.dirty) then []
      else Emit(k, v, t.val, path + key) + Own(k, f, t, path)
    case Full(ch, f) =>
      if !t.Full? || |ch| != 17 || |t.children| != 17 || (f.hash.Some? && !f.dirty) then []
      else EmitKids(k, n, t, path, 16) + Own(k, f, t, path)
    case _ => []
  }

  ghost function EmitKids(k: Keccak, n: Node, t: Node, path: seq<byte>, m: nat): seq<Entry>
    requires n.Full? && t.Full? && |n.children| == |t.children| == 17 && m <= 16
    decreases n, m
  {
    if m == 0 then []
    else EmitKids(k, n, t, path, m - 1) + Emit(k, n.children[m - 1], t.children[m - 1], path + [m - 1])
  }

  /** The subtree at a path. */
  function Sub(t: Node, p: seq<byte>): Node {
    if p == [] then t
    else
      match t
      case Short(key, v, _) => if IsPrefix(key, p) && key != [] then Sub(v, p[|key|..]) else Nil
      case Full(ch, _) => if p[0] < |ch| then Sub(ch[p[0]], p[1..]) else Nil
      case _ => Nil
  }

  /** An entry describes the subtree at its path: its hash and its raw form, and it is one that
      is stored by itself. */
  ghost predicate Describes(k: Keccak, e: Entry, t: Node, root: bool, path: seq<byte>) {
    IsPrefix(path, e.path)
    && var p := e.path[|path|..];
       var s := Sub(t, p);
       && (s.Short? || s.Full?) && ((root && p == []) || Big(k, s))
       && e.hash == k(Blob(k, s)) && e.node == RawOf(k, s)
       && (CanonOrNil(t) ==> Canon(s))
  }

  lemma DescribesSelf(k: Keccak, t: Node, root: bool, path: seq<byte>)
    requires (t.Short? || t.Full?) && (root || Big(k, t))
    ensures Describes(k, Entry(path, k(Blob(k, t)), RawOf(k, t)), t, root, path)
  {
    assert path[|path|..] == [];
  }

  lemma DescribesBelow(k: Keccak, e: Entry, t: Node, root: bool, path: seq<byte>, step: seq<byte>, c: Node)
    requires Describes(k, e, c, false, path + step) && step != []
    requires (t.Short? && t.key == step && t.val == c)
          || (t.Full? && |step| == 1 && step[0] < 16 && |t.children| == 17 && t.children[step[0]] == c)
    ensures Describes(k, e, t, root, path)
    ensures IsPrefix(path + step, e.path)
  {
    PrefixOfSum(path, step, e.path);
    var p := e.path[|path|..];
    DropDrop(e.path, |path|, |step|);
    assert p[|step|..] == e.path[|path + step|..];
    assert t.Full? ==> p[..1][0] == p[0];
    assert Sub(t, p) == Sub(c, p[|step|..]);
  }

  /** Every entry describes a node of the tree. */
  lemma {:induction false} EmitDescribes(w: World, n: Node, t: Node, root: bool, path: seq<byte>, e: Entry)
    requires (w.Rep(n, t, root) && CanonOrNil(t)) || (n == t && n.Value?)
    requires w.Hashed(n, t, root)
    requires e in Emit(w.k, n, t, path)
    ensures Describes(w.k, e, t, root, path)
    decreases n, 17
  {
    if n.Short? {
      w.RepCases(n, t, root);
      if e in Emit(w.k, n.val, t.val, path + n.key) {
        EmitDescribes(w, n.val, t.val, false, path + n.key, e);
        DescribesBelow(w.k, e, t, root, path, n.key, t.val);
      } else {
        DescribesSelf(w.k, t, root, path);
      }
    } else if n.Full? {
      w.RepCases(n, t, root);
      if e in EmitKids(w.k, n, t, path, 16) {
        var i := EmitDescribesKid(w, n, t, root, path, 16, e);
      } else {
        DescribesSelf(w.k, t, root, path);
      }
    }
  }

  lemma {:induction false} EmitDescribesKid(w: World, n: Node, t: Node, root: bool, path: seq<byte>, m: nat, e: Entry)
    returns (i: byte)
    requires n.Full? && w.Rep(n, t, root) && Canon(t) && m <= 16
    requires w.Hashed(n, t, root)
    requires t.Full? && |t.children| == |n.children| ==> e in EmitKids(w.k, n, t, path, m)
    ensures Describes(w.k, e, t, root, path)
    ensures i < m && IsPrefix(path + [i], e.path)
    decreases n, m
  {
    w.RepCases(n, t, root);
    if e in EmitKids(w.k, n, t, path, m - 1) {
      i := EmitDescribesKid(w, n, t, root, path, m - 1, e);
    } else {
      i := m - 1;
      EmitDescribes(w, n.children[i], t.children[i], false, path + [i], e);
      DescribesBelow(w.k, e, t, root, path, [i], t.children[i]);
    }
  }

  /** The hasher's hash and the committer's node agree: every entry's hash is that of its own
      bytes. */
  lemma EntryHashes(w: World, n: Node, t: Node, root: bool, path: seq<byte>, e: Entry)
    requires w.Rep(n, t, root) && CanonOrNil(t) && w.Hashed(n, t, root)
    requires e in Emit(w.k, n, t, path)
    ensures e.hash == w.k(RawBlob(e.node))
  {
    EmitDescribes(w, n, t, root, path, e);
    RawOfItem(w.k, Sub(t, e.path[|path|..]));
  }

  // ---------------------------------------------------------------- each path once

  ghost predicate DistinctPaths(es: seq<Entry>) {
    forall i, j | 0 <= i < j < |es| :: es[i].path != es[j].path
  }

  lemma DistinctSum(a: seq<Entry>, b: seq<Entry>)
    requires DistinctPaths(a) && DistinctPaths(b)
    requires forall x, y | x in a && y in b :: x.path != y.path
    ensures DistinctPaths(a + b)
  {
  }

  /** No path is emitted twice. */
  lemma {:induction false} EmitDistinct(w: World, n: Node, t: Node, root: bool, path: seq<byte>)
    requires (w.Rep(n, t, root) && CanonOrNil(t)) || (n == t && n.Value?)
    requires w.Hashed(n, t, root)
    ensures DistinctPaths(Emit(w.k, n, t, path))
    decreases n, 17
  {
    if n.Short? {
      w.RepCases(n, t, root);
      EmitDistinct(w, n.val, t.val, false, path + n.key);
      forall e | e in Emit(w.k, n.val, t.val, path + n.key) ensures e.path != path {
        EmitDescribes(w, n.val, t.val, false, path + n.key, e);
      }
      DistinctSum(Emit(w.k, n.val, t.val, path + n.key), Own(w.k, n.flags, t, path));
    } else if n.Full? {
      w.RepCases(n, t, root);
      EmitDistinctKids(w, n, t, root, path, 16);
      forall e | e in EmitKids(w.k, n, t, path, 16) ensures e.path != path {
        var i := EmitDescribesKid(w, n, t, root, path, 16, e);
      }
      DistinctSum(EmitKids(w.k, n, t, path, 16), Own(w.k, n.flags, t, path));
    }
  }

  lemma {:induction false} EmitDistinctKids(w: World, n: Node, t: Node, root: bool, path: seq<byte>, m: nat)
    requires n.Full? && w.Rep(n, t, root) && Canon(t) && m <= 16
    requires w.Hashed(n, t, root)
    ensures t.Full? && |t.children| == |n.children| && DistinctPaths(EmitKids(w.k, n, t, path, m))
    decreases n, m
  {
    w.RepCases(n, t, root);
    if m > 0 {
      EmitDistinctKids(w, n, t, root, path, m - 1);
      var a, c, tc := EmitKids(w.k, n, t, path, m - 1), n.children[m - 1], t.children[m - 1];
      var b := Emit(w.k, c, tc, path + [m - 1]);
      EmitDistinct(w, c, tc, false, path + [m - 1]);
      forall x, y | x in a && y in b ensures x.path != y.path {
        var i := EmitDescribesKid(w, n, t, root, path, m - 1, x);
        EmitDescribes(w, c, tc, false, path + [m - 1], y);
        assert (path + [i])[|path|] != (path + [m - 1])[|path|];
      }
      DistinctSum(a, b);
    }
  }

  // ---------------------------------------------------------------- children first

  ghost predicate Emitted(es: seq<Entry>, h: Hash) {
    exists e :: e in es && e.hash == h
  }

  /** The nodes a raw node refers to are in the store, or among the entries. */
  ghost predicate Reached(db: Store, es: seq<Entry>, r: Raw) {
    forall c | c in Gather(r) :: c in db || Emitted(es, c)
  }

  /** Every entry comes after those it refers to, unless the store has them. */
  ghost predicate ChildrenFirst(db: Store, es: seq<Entry>) {
    forall i | 0 <= i < |es| :: Reached(db, es[..i], es[i].node)
  }

  lemma ReachedMore(db: Store, a: seq<Entry>, b: seq<Entry>, r: Raw)
    requires Reached(db, a, r) || Reached(db, b, r)
    ensures Reached(db, a + b, r)
  {
    forall c | c in Gather(r) ensures c in db || Emitted(a + b, c) {
      if c !in db {
        var e :| e in a + b && e.hash == c;
      }
    }
  }

  lemma ChildrenFirstSum(db: Store, a: seq<Entry>, b: seq<Entry>)
    requires ChildrenFirst(db, a) && ChildrenFirst(db, b)
    ensures ChildrenFirst(db, a + b)
  {
    hide Reached;
    forall i | 0 <= i < |a + b| ensures Reached(db, (a + b)[..i], (a + b)[i].node) {
      if i < |a| {
        assert (a + b)[..i] == a[..i];
      } else {
        assert (a + b)[..i] == a + b[..i - |a|];
        ReachedMore(db, a, b[..i - |a|], b[i - |a|].node);
      }
    }
  }

  lemma OwnFirst(db: Store, a: seq<Entry>, own: Entry)
    requires ChildrenFirst(db, a) && Reached(db, a, own.node)
    ensures ChildrenFirst(db, a + [own]) && Reached(db, a + [own], RawHash(own.hash))
  {
    hide Reached;
    forall i | 0 <= i < |a + [own]| ensures Reached(db, (a + [own])[..i], (a + [own])[i].node) {
      assert (a + [own])[..i] == a[..i];
      assert a[..|a|] == a;
    }
    assert Reached(db, a + [own], RawHash(own.hash)) by {
      ReachedOwn(db, a, own);
    }
  }

  lemma ReachedOwn(db: Store, a: seq<Entry>, own: Entry)
    ensures Reached(db, a + [own], RawHash(own.hash))
  {
    assert own in a + [own];
  }

  /** The collapsed form of a tree in its parent, or of the root. */
  function RawAt(k: Keccak, t: Node, root: bool): Raw {
    if (t.Short? || t.Full?) && (root || Big(k, t)) then RawHash(k(Blob(k, t))) else RawOf(k, t)
  }

  lemma OwnEntry(w: World, n: Node, t: Node, root: bool, path: seq<byte>, a: seq<Entry>)
    requires w.Rep(n, t, root) && w.Hashed(n, t, root) && (n.Short? || n.Full?)
    requires ChildrenFirst(w.db, a) && Reached(w.db, a, RawOf(w.k, t))
    ensures var es := a + Own(w.k, n.flags, t, path);
      ChildrenFirst(w.db, es) && Reached(w.db, es, RawAt(w.k, t, root))
  {
    hide ChildrenFirst, Reached, World.Rep, RawOf;
    w.RepCases(n, t, root);
    if n.flags.hash.Some? {
      OwnFirst(w.db, a, Entry(path, n.flags.hash.value, RawOf(w.k, t)));
    } else {
      assert a + [] == a;
    }
  }

  /** In a complete store, a clean node is there. */
  lemma CleanReached(w: World, t: Node, root: bool)
    requires w.complete && w.HeldAt(t, root) && (t.Short? || t.Full?) && (root || Big(w.k, t))
    ensures ChildrenFirst(w.db, []) && Reached(w.db, [], RawAt(w.k, t, root))
  {
  }

  lemma {:induction false} EmitChildrenFirst(w: World, n: Node, t: Node, root: bool, path: seq<byte>)
    requires w.complete && ((w.Rep(n, t, root) && CanonOrNil(t)) || (n == t && n.Value?))
    requires w.Hashed(n, t, root)
    ensures var es := Emit(w.k, n, t, path);
      ChildrenFirst(w.db, es) && Reached(w.db, es, RawAt(w.k, t, root))
    decreases n, 17
  {
    hide ChildrenFirst, Reached;
    w.RepCases(n, t, root);
    if (n.Short? || n.Full?) && !(n.flags.hash.Some? && !n.flags.dirty) {
      if n.Short? {
        var a := Emit(w.k, n.val, t.val, path + n.key);
        EmitChildrenFirst(w, n.val, t.val, false, path + n.key);
        assert Reached(w.db, a, RawOf(w.k, t)) by {
          ShortReached(w.k, w.db, a, t);
        }
        OwnEntry(w, n, t, root, path, a);
      } else {
        EmitChildrenFirstKids(w, n, t, root, path, 16);
        assert Reached(w.db, EmitKids(w.k, n, t, path, 16), RawOf(w.k, t)) by {
          FullReached(w.k, w.db, EmitKids(w.k, n, t, path, 16), t);
        }
        OwnEntry(w, n, t, root, path, EmitKids(w.k, n, t, path, 16));
      }
    } else if n.HashNode? || n.Short? || n.Full? {
      CleanReached(w, t, root);
    } else {
      LeafReached(w, t, root);
    }
  }

  lemma LeafReached(w: World, t: Node, root: bool)
    requires t.Nil? || t.Value?
    ensures ChildrenFirst(w.db, []) && Reached(w.db, [], RawAt(w.k, t, root))
  {
  }

  lemma RefIsAt(k: Keccak, t: Node)
    ensures RawRef(k, t) == RawAt(k, t, false)
  {
  }

  lemma ShortReached(k: Keccak, db: Store, es: seq<Entry>, t: Node)
    requires t.Short? && Reached(db, es, RawAt(k, t.val, false))
    ensures Reached(db, es, RawOf(k, t))
  {
    RefIsAt(k, t.val);
    assert Gather(RawOf(k, t)) == Gather(RawRef(k, t.val));
  }

  ghost predicate KidsReached(k: Keccak, db: Store, es: seq<Entry>, t: Node, m: nat)
    requires t.Full? && m <= |t.children| && m <= 16
  {
    forall i | 0 <= i < m :: Reached(db, es, RawAt(k, t.children[i], false))
  }

  lemma {:induction false} FirstReached(k: Keccak, db: Store, es: seq<Entry>, t: Node, m: nat)
    requires t.Full? && |t.children| == 17 && m <= 16 && KidsReached(k, db, es, t, m)
    ensures forall c | c in GatherFirst(RawOf(k, t), m) :: c in db || Emitted(es, c)
  {
    if m > 0 {
      FirstReached(k, db, es, t, m - 1);
      RefIsAt(k, t.children[m - 1]);
      assert Reached(db, es, RawAt(k, t.children[m - 1], false));
    }
  }

  lemma FullReached(k: Keccak, db: Store, es: seq<Entry>, t: Node)
    requires t.Full? && |t.children| == 17 && KidsReached(k, db, es, t, 16)
    ensures Reached(db, es, RawOf(k, t))
  {
    FirstReached(k, db, es, t, 16);
  }

  lemma KidParts(w: World, n: Node, t: Node, root: bool)
    requires n.Full? && w.Rep(n, t, root) && Canon(t) && w.Hashed(n, t, root)
    ensures t.Full? && |t.children| == |n.children| == 17
    ensures forall i | 0 <= i < 16 ::
      w.Rep(n.children[i], t.children[i], false) && CanonOrNil(t.children[i]) && w.Hashed(n.children[i], t.children[i], false)
  {
    w.RepCases(n, t, root);
  }

  lemma NoneFirst(db: Store)
    ensures ChildrenFirst(db, [])
  {
  }

  lemma {:induction false} EmitChildrenFirstKids(w: World, n: Node, t: Node, root: bool, path: seq<byte>, m: nat)
    requires w.complete && n.Full? && w.Rep(n, t, root) && Canon(t) && m <= 16
    requires w.Hashed(n, t, root)
    ensures t.Full? && |t.children| == |n.children|
    ensures var es := EmitKids(w.k, n, t, path, m);
      ChildrenFirst(w.db, es) && KidsReached(w.k, w.db, es, t, m)
    decreases n, m
  {
    hide Reached, Emit, ChildrenFirst, World.Rep, World.Hashed, Canon;
    KidParts(w, n, t, root);
    NoneFirst(w.db);
    if m > 0 {
      EmitChildrenFirstKids(w, n, t, root, path, m - 1);
      var a, c, tc := EmitKids(w.k, n, t, path, m - 1), n.children[m - 1], t.children[m - 1];
      var b := Emit(w.k, c, tc, path + [m - 1]);
      EmitChildrenFirst(w, c, tc, false, path + [m - 1]);
      ChildrenFirstSum(w.db, a, b);
      forall i | 0 <= i < m ensures Reached(w.db, a + b, RawAt(w.k, t.children[i], false)) {
        ReachedMore(w.db, a, b, RawAt(w.k, t.children[i], false));
      }
    }
  }

  // ---------------------------------------------------------------- nothing is missed

  ghost predicate Stored(w: World, es: seq<Entry>, t: Node) {
    HashOf(w, t) in w.db || exists e :: e in es && e.hash == HashOf(w, t) && e.node == RawOf(w.k, t)
  }

  ghost function HashOf(w: World, t: Node): Hash {
    w.k(Blob(w.k, t))
  }

  /** Every node of the tree that is stored by itself is in the store or among the entries. */
  ghost predicate Covered(w: World, es: seq<Entry>, t: Node, root: bool) {
    match t
    case Short(_, v, _) => (root || Big(w.k, t) ==> Stored(w, es, t)) && Covered(w, es, v, false)
    case Full(ch, _) =>
      (root || Big(w.k, t) ==> Stored(w, es, t)) && forall i | 0 <= i < |ch| :: Covered(w, es, ch[i], false)
    case _ => true
  }

  lemma {:induction false} HeldCovered(w: World, es: seq<Entry>, t: Node, root: bool)
    requires w.complete && w.HeldAt(t, root)
    ensures Covered(w, es, t, root)
    decreases t
  {
    match t {
      case Short(_, v, _) => HeldCovered(w, es, v, false);
      case Full(ch, _) =>
        forall i | 0 <= i < |ch| ensures Covered(w, es, ch[i], false) {
          HeldCovered(w, es, ch[i], false);
        }
      case _ =>
    }
  }

  lemma {:induction false} CoveredMore(w: World, es: seq<Entry>, more: seq<Entry>, t: Node, root: bool)
    requires Covered(w, es, t, root) && forall e | e in es :: e in more
    ensures Covered(w, more, t, root)
    decreases t
  {
    match t {
      case Short(_, v, _) => CoveredMore(w, es, more, v, false);
      case Full(ch, _) =>
        forall i | 0 <= i < |ch| ensures Covered(w, more, ch[i], false) {
          CoveredMore(w, es, more, ch[i], false);
        }
      case _ =>
    }
  }

  lemma OwnStored(w: World, n: Node, t: Node, root: bool, path: seq<byte>, es: seq<Entry>)
    requires w.Rep(n, t, root) && w.Hashed(n, t, root) && (n.Short? || n.Full?)
    ensures root || Big(w.k, t) ==> Stored(w, es + Own(w.k, n.flags, t, path), t)
  {
    w.RepCases(n, t, root);
    if n.flags.hash.Some? {
      var own := Entry(path, n.flags.hash.value, RawOf(w.k, t));
      assert own in es + [own];
    }
  }

  lemma {:induction false} EmitCovers(w: World, n: Node, t: Node, root: bool, path: seq<byte>)
    requires w.complete && ((w.Rep(n, t, root) && CanonOrNil(t)) || (n == t && n.Value?))
    requires w.Hashed(n, t, root)
    ensures Covered(w, Emit(w.k, n, t, path), t, root)
    decreases n, 17
  {
    w.RepCases(n, t, root);
    if (n.Short? || n.Full?) && !(n.flags.hash.Some? && !n.flags.dirty) {
      hide Stored;
      var es := Emit(w.k, n, t, path);
      if n.Short? {
        var a := Emit(w.k, n.val, t.val, path + n.key);
        EmitCovers(w, n.val, t.val, false, path + n.key);
        CoveredMore(w, a, es, t.val, false);
        OwnStored(w, n, t, root, path, a);
      } else {
        var a := EmitKids(w.k, n, t, path, 16);
        forall i | 0 <= i < 17 ensures Covered(w, es, t.children[i], false) {
          if i < 16 {
            EmitCoversKid(w, n, t, root, path, 16, i);
            CoveredMore(w, a, es, t.children[i], false);
          }
        }
        OwnStored(w, n, t, root, path, a);
      }
    } else if n.HashNode? || n.Short? || n.Full? {
      HeldCovered(w, Emit(w.k, n, t, path), t, root);
    }
  }

  lemma {:induction false} EmitCoversKid(w: World, n: Node, t: Node, root: bool, path: seq<byte>, m: nat, i: nat)
    requires w.complete && n.Full? && w.Rep(n, t, root) && Canon(t) && i < m <= 16
    requires w.Hashed(n, t, root)
    ensures t.Full? && |t.children| == |n.children| && Covered(w, EmitKids(w.k, n, t, path, m), t.children[i], false)
    decreases n, m
  {
    w.RepCases(n, t, root);
    hide Covered;
    if i < m - 1 {
      EmitCoversKid(w, n, t, root, path, m - 1, i);
      CoveredMore(w, EmitKids(w.k, n, t, path, m - 1), EmitKids(w.k, n, t, path, m), t.children[i], false);
    } else {
      EmitCovers(w, n.children[i], t.children[i], false, path + [i]);
      CoveredMore(w, Emit(w.k, n.children[i], t.children[i], path + [i]), EmitKids(w.k, n, t, path, m), t.children[i], false);
    }
  }
}
