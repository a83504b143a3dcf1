/** trie/trie_committer.go, trie/trie_nodeset.go: the run of a commit. */
module Committers {
  import opened Bytes
  import opened HexKeys
  import opened Nodes
  import opened NodeEncode
  import opened TreePaths
  import opened Refine
  import opened Capture
  import opened Committing

  // ---------------------------------------------------------------- node sets

  /** Every path in the order has a node. */
  predicate Complete(u: Updates) {
    forall p | p in u.order :: p in u.nodes
  }

  /** The entries of a node set in the order they were marked. */
  function Entries(u: Updates): seq<Entry>
    requires Complete(u)
  {
    seq(|u.order|, i requires 0 <= i < |u.order| =>
      Entry(u.order[i], u.nodes[u.order[i]].hash, u.nodes[u.order[i]].node))
  }

  const NO_UPDATES := Updates([], map[], [])

  lemma {:induction false} MarkedOrder(es: seq<Entry>, origin: map<seq<byte>, seq<byte>>, collectLeaf: bool, i: nat)
    requires i < |es|
    ensures var u := MarkAll(NO_UPDATES, es, origin, collectLeaf);
      |u.order| == |es| && u.order[i] == es[i].path
  {
    var n := |es| - 1;
    if n > 0 {
      MarkedOrder(es[..n], origin, collectLeaf, if i < n then i else 0);
    }
  }

  lemma {:induction false} MarkedNode(es: seq<Entry>, origin: map<seq<byte>, seq<byte>>, collectLeaf: bool, i: nat)
    requires i < |es| && forall j | i < j < |es| :: es[j].path != es[i].path
    ensures var u := MarkAll(NO_UPDATES, es, origin, collectLeaf);
      es[i].path in u.nodes && u.nodes[es[i].path] == DirtyNode(es[i].hash, es[i].node, OldValue(origin, es[i].path))
  {
    var n := |es| - 1;
    if i < n {
      MarkedNode(es[..n], origin, collectLeaf, i);
    }
  }

  lemma {:induction false} MarkedPath(es: seq<Entry>, origin: map<seq<byte>, seq<byte>>, collectLeaf: bool, p: seq<byte>)
    ensures p in MarkAll(NO_UPDATES, es, origin, collectLeaf).nodes ==> exists i :: 0 <= i < |es| && es[i].path == p
  {
    if es != [] {
      var n := |es| - 1;
      MarkedPath(es[..n], origin, collectLeaf, p);
      if p in MarkAll(NO_UPDATES, es[..n], origin, collectLeaf).nodes {
        var i :| 0 <= i < n && es[..n][i].path == p;
        assert es[i].path == p;
      }
    }
  }

  lemma MarkedInOrder(es: seq<Entry>, origin: map<seq<byte>, seq<byte>>, collectLeaf: bool)
    requires DistinctPaths(es)
    ensures var u := MarkAll(NO_UPDATES, es, origin, collectLeaf);
      && |u.order| == |es|
      && (forall i | 0 <= i < |es| :: u.order[i] == es[i].path)
      && (forall i | 0 <= i < |es| ::
            es[i].path in u.nodes && u.nodes[es[i].path] == DirtyNode(es[i].hash, es[i].node, OldValue(origin, es[i].path)))
      && (forall p | p in u.nodes :: exists i :: 0 <= i < |es| && es[i].path == p)
  {
    var u := MarkAll(NO_UPDATES, es, origin, collectLeaf);
    assert es == [] ==> u == NO_UPDATES;
    hide MarkAll;
    forall i | 0 <= i < |es|
      ensures |u.order| == |es| && u.order[i] == es[i].path && es[i].path in u.nodes
      ensures u.nodes[es[i].path] == DirtyNode(es[i].hash, es[i].node, OldValue(origin, es[i].path))
    {
      MarkedOrder(es, origin, collectLeaf, i);
      MarkedNode(es, origin, collectLeaf, i);
    }
    assert es != [] ==> |u.order| == |es| by {
      if es != [] {
        MarkedOrder(es, origin, collectLeaf, 0);
      }
    }
    forall p | p in u.nodes ensures exists i :: 0 <= i < |es| && es[i].path == p {
      MarkedPath(es, origin, collectLeaf, p);
    }
  }

  /** When paths are distinct, a new node set holds what was marked, in that order. */
  lemma MarkedEntries(es: seq<Entry>, origin: map<seq<byte>, seq<byte>>, collectLeaf: bool)
    requires DistinctPaths(es)
    ensures var u := MarkAll(NO_UPDATES, es, origin, collectLeaf);
      && Complete(u)
      && Entries(u) == es
      && (forall p :: p in u.nodes <==> exists e :: e in es && e.path == p)
  {
    hide MarkAll, DistinctPaths;
    MarkedInOrder(es, origin, collectLeaf);
    var u := MarkAll(NO_UPDATES, es, origin, collectLeaf);
    forall p ensures p in u.nodes <==> exists e :: e in es && e.path == p {
      if p in u.nodes {
        var i :| 0 <= i < |es| && es[i].path == p;
        assert es[i] in es;
      }
    }
  }

  /** An entry for a leaf node, and what `addLeaf` makes of it. */
  predicate LeafEntry(e: Entry, leaf: Leaf) {
    e.node.RawShort? && e.node.val == RawValue(leaf.blob) && e.hash == leaf.parent
  }

  /** The leaves collected are those of the entries, if asked for. */
  lemma {:induction false} MarkedLeaves(es: seq<Entry>, origin: map<seq<byte>, seq<byte>>, collectLeaf: bool, leaf: Leaf)
    ensures leaf in MarkAll(NO_UPDATES, es, origin, collectLeaf).leaves
       <==> collectLeaf && exists e :: e in es && LeafEntry(e, leaf)
  {
    if es != [] {
      var n := |es| - 1;
      MarkedLeaves(es[..n], origin, collectLeaf, leaf);
      assert es == es[..n] + [es[n]];
      assert es[n] in es;
    }
  }

  class NodeSet {
    const owner: Hash
    var order: seq<seq<byte>>
    var nodes: map<seq<byte>, DirtyNode>
    var deletes: map<seq<byte>, seq<byte>>
    var leaves: seq<Leaf>

    constructor (owner: Hash)
      ensures this.owner == owner && View() == NO_UPDATES && deletes == map[]
    {
      this.owner := owner;
      order, nodes, deletes, leaves := [], map[], map[], [];
    }

    function View(): Updates
      reads this
    {
      Updates(order, nodes, leaves)
    }

    method MarkUpdated(path: seq<byte>, hash: Hash, node: Raw, oldv: seq<byte>)
      modifies this`order, this`nodes
      ensures order == old(order) + [path]
      ensures nodes == old(nodes)[path := DirtyNode(hash, node, oldv)]
    {
      order := order + [path];
      nodes := nodes[path := DirtyNode(hash, node, oldv)];
    }

    method MarkDeleted(path: seq<byte>, oldv: seq<byte>)
      modifies this`deletes
      ensures deletes == old(deletes)[path := oldv]
    {
      deletes := deletes[path := oldv];
    }

    method AddLeaf(leaf: Leaf)
      modifies this`leaves
      ensures leaves == old(leaves) + [leaf]
    {
      leaves := leaves + [leaf];
    }
  }

  // ---------------------------------------------------------------- deletions

  /** The dirty nodes that are too small to be stored: the committer visits them, and they
      end up in their parents. */
  function Dropped(n: Node, path: seq<byte>): set<seq<byte>>
    decreases n, 17
  {
    match n
    case Short(key, v, f) =>
      if f.hash.Some? && !f.dirty then {}
      else Dropped(v, path + key) + if f.hash.None? then {path} else {}
    case Full(ch, f) =>
      if (f.hash.Some? && !f.dirty) || |ch| != 17 then {}
      else DroppedKids(n, path, 16) + if f.hash.None? then {path} else {}
    case _ => {}
  }

  function DroppedKids(n: Node, path: seq<byte>, m: nat): set<seq<byte>>
    requires n.Full? && |n.children| == 17 && m <= 16
    decreases n, m
  {
    if m == 0 then {} else DroppedKids(n, path, m - 1) + Dropped(n.children[m - 1], path + [m - 1])
  }

  /** Of these paths, those a blob was read from. */
  function Gone(paths: set<seq<byte>>, origin: map<seq<byte>, seq<byte>>): map<seq<byte>, seq<byte>> {
    map p | p in paths && OldValue(origin, p) != [] :: OldValue(origin, p)
  }

  function Elements(list: seq<seq<byte>>): set<seq<byte>> {
    set p | p in list
  }

  lemma GoneSum(m: map<seq<byte>, seq<byte>>, a: set<seq<byte>>, b: set<seq<byte>>, origin: map<seq<byte>, seq<byte>>)
    ensures m + Gone(a, origin) + Gone(b, origin) == m + Gone(a + b, origin)
  {
  }

  lemma GoneOne(m: map<seq<byte>, seq<byte>>, p: seq<byte>, origin: map<seq<byte>, seq<byte>>)
    ensures m + Gone({p}, origin) == if OldValue(origin, p) != [] then m[p := OldValue(origin, p)] else m
    ensures m + Gone({}, origin) == m
  {
  }

  /** A dropped path leads to a node that is small and not the root. */
  ghost predicate Small(k: Keccak, p: seq<byte>, t: Node, root: bool, path: seq<byte>) {
    IsPrefix(path, p)
    && var q := p[|path|..];
       !(root && q == []) && !Big(k, Sub(t, q))
  }

  lemma SmallBelow(k: Keccak, p: seq<byte>, t: Node, root: bool, path: seq<byte>, step: seq<byte>, c: Node)
    requires Small(k, p, c, false, path + step) && step != []
    requires (t.Short? && t.key == step && t.val == c)
          || (t.Full? && |step| == 1 && step[0] < 16 && |t.children| == 17 && t.children[step[0]] == c)
    ensures Small(k, p, t, root, path)
  {
    PrefixOfSum(path, step, p);
    var q := p[|path|..];
    DropDrop(p, |path|, |step|);
    assert q[|step|..] == p[|path + step|..];
    assert t.Full? ==> q[..1][0] == q[0];
    assert Sub(t, q) == Sub(c, q[|step|..]);
  }

  lemma {:induction false} DroppedSmall(w: World, n: Node, t: Node, root: bool, path: seq<byte>, p: seq<byte>)
    requires (w.Rep(n, t, root) && CanonOrNil(t)) || (n == t && n.Value?)
    requires w.Hashed(n, t, root) && p in Dropped(n, path)
    ensures Small(w.k, p, t, root, path)
    decreases n, 17
  {
    w.RepCases(n, t, root);
    if n.Short? {
      if p in Dropped(n.val, path + n.key) {
        DroppedSmall(w, n.val, t.val, false, path + n.key, p);
        SmallBelow(w.k, p, t, root, path, n.key, t.val);
      } else {
        assert p[|path|..] == [];
      }
    } else {
      if p in DroppedKids(n, path, 16) {
        DroppedSmallKid(w, n, t, root, path, 16, p);
      } else {
        assert p[|path|..] == [];
      }
    }
  }

  lemma {:induction false} DroppedSmallKid(w: World, n: Node, t: Node, root: bool, path: seq<byte>, m: nat, p: seq<byte>)
    requires n.Full? && w.Rep(n, t, root) && Canon(t) && m <= 16 && |n.children| == 17
    requires w.Hashed(n, t, root) && p in DroppedKids(n, path, m)
    ensures Small(w.k, p, t, root, path)
    decreases n, m
  {
    w.RepCases(n, t, root);
    if p in DroppedKids(n, path, m - 1) {
      DroppedSmallKid(w, n, t, root, path, m - 1, p);
    } else {
      DroppedSmall(w, n.children[m - 1], t.children[m - 1], false, path + [m - 1], p);
      SmallBelow(w.k, p, t, root, path, [m - 1], t.children[m - 1]);
    }
  }

  lemma {:induction false} SubIsNodeAt(t: Node, p: seq<byte>)
    requires Canon(t) && (Sub(t, p).Short? || Sub(t, p).Full?)
    ensures NodeAt(t, p)
  {
    if p != [] {
      if t.Short? {
        if Canon(t.val) {
          SubIsNodeAt(t.val, p[|t.key|..]);
        }
      } else if Canon(t.children[p[0]]) {
        SubIsNodeAt(t.children[p[0]], p[1..]);
      }
    }
  }

  /** A commit never both updates and deletes a path: neither the nodes it finds too small nor
      those an exact tracer reports as gone are among the entries. */
  lemma DeletesApart(w: World, n: Node, t: Node, insert: set<seq<byte>>, delete: set<seq<byte>>, began: Node, e: Entry)
    requires w.Rep(n, t, true) && w.Hashed(n, t, true) && Canon(t)
    requires Exact(insert, delete, NodePaths(began), NodePaths(t))
    requires e in Emit(w.k, n, t, [])
    ensures e.path !in Dropped(n, []) + delete
  {
    EmitDescribes(w, n, t, true, [], e);
    assert e.path[0..] == e.path;
    if e.path in Dropped(n, []) {
      DroppedSmall(w, n, t, true, [], e.path);
    }
    SubIsNodeAt(t, e.path);
  }

  // ---------------------------------------------------------------- the committer

  class Committer {
    const nodes: NodeSet
    const capture: TrieCapture?
    const collectLeaf: bool

    constructor (nodes: NodeSet, capture: TrieCapture?, collectLeaf: bool)
      ensures this.nodes == nodes && this.capture == capture && this.collectLeaf == collectLeaf
    {
      this.nodes, this.capture, this.collectLeaf := nodes, capture, collectLeaf;
    }

    function Origin(): map<seq<byte>, seq<byte>>
      reads this, capture
    {
      if capture == null then map[] else capture.origin
    }

    /** `nodeCommit` */
    method NodeCommit(path: seq<byte>, collapsed: Node, ghost k: Keccak, ghost t: Node, ghost root: bool)
      returns (r: Node)
      requires collapsed.Short? || collapsed.Full?
      requires Simplify(collapsed) == RawOf(k, t) && (t.Short? || t.Full?)
      requires var h := collapsed.flags.hash;
        (h.Some? <==> root || Big(k, t)) && (h.Some? ==> h.value == k(Blob(k, t)))
      modifies nodes
      ensures nodes.View() == MarkAll(old(nodes.View()), Own(k, collapsed.flags, t, path), Origin(), collectLeaf)
      ensures nodes.deletes == old(nodes.deletes) + Gone(if collapsed.flags.hash.None? then {path} else {}, Origin())
      ensures Simplify(r) == RawAt(k, t, root) && (r.HashNode? <==> root || Big(k, t))
    {
      hide RawOf, Blob;
      GoneOne(nodes.deletes, path, Origin());
      var hash := Cache(collapsed).hash;
      if hash.Some? {
        var raw := Simplify(collapsed);
        ghost var u := nodes.View();
        nodes.MarkUpdated(path, hash.value, raw, OldValue(Origin(), path));
        if collectLeaf {
          match collapsed {
            case Short(_, Value(val), _) => nodes.AddLeaf(Leaf(val, hash.value));
            case _ =>
          }
        }
        OneMark(u, Entry(path, hash.value, raw), Origin(), collectLeaf);
        return HashNode(hash.value);
      }
      var oldv := OldValue(Origin(), path);
      if |oldv| != 0 {
        nodes.MarkDeleted(path, oldv);
      }
      return collapsed;
    }

    static lemma OneMark(u: Updates, e: Entry, origin: map<seq<byte>, seq<byte>>, collectLeaf: bool)
      ensures MarkAll(u, [e], origin, collectLeaf) == Mark(u, e, origin, collectLeaf)
    {
      assert MarkAll(u, [e][..0], origin, collectLeaf) == u;
    }

    /** `commit`: marks the dirty nodes below `n` and `n` itself, and returns what the parent
        keeps of it. */
    method CommitNode(path: seq<byte>, n: Node, ghost t: Node, ghost root: bool, ghost w: World) returns (r: Node)
      requires w.Rep(n, t, root) && w.Hashed(n, t, root) && Canon(t)
      modifies nodes
      ensures nodes.View() == MarkAll(old(nodes.View()), Emit(w.k, n, t, path), Origin(), collectLeaf)
      ensures nodes.deletes == old(nodes.deletes) + Gone(Dropped(n, path), Origin())
      ensures Simplify(r) == RawAt(w.k, t, root) && (r.HashNode? <==> root || Big(w.k, t))
      decreases n, 19
    {
      NodeState(w, n, t, root, path);
      GoneOne(nodes.deletes, path, Origin());
      assert MarkAll(nodes.View(), [], Origin(), collectLeaf) == nodes.View();
      hide World.Rep, World.Hashed, Canon, MarkAll, Gone, RawAt, Blob, Emit, Dropped, NodeSet.View;
      var Flag(hash, dirty) := Cache(n);
      if hash.Some? && !dirty {
        return HashNode(hash.value);
      }
      match n {
        case Short(_, _, _) => r := CommitShort(path, n, t, root, w);
        case Full(_, _) => r := CommitFull(path, n, t, root, w);
        case _ => return n;
      }
    }

    /** The case of a dirty short node. */
    method CommitShort(path: seq<byte>, n: Node, ghost t: Node, ghost root: bool, ghost w: World) returns (r: Node)
      requires w.Rep(n, t, root) && w.Hashed(n, t, root) && Canon(t)
      requires n.Short? && !(n.flags.hash.Some? && !n.flags.dirty)
      modifies nodes
      ensures nodes.View() == MarkAll(old(nodes.View()), Emit(w.k, n, t, path), Origin(), collectLeaf)
      ensures nodes.deletes == old(nodes.deletes) + Gone(Dropped(n, path), Origin())
      ensures Simplify(r) == RawAt(w.k, t, root) && (r.HashNode? <==> root || Big(w.k, t))
      decreases n, 17
    {
      hide *;
      NodeState(w, n, t, root, path);
      ShortSteps(w, n, t, root, path, nodes.View(), nodes.deletes, Origin(), collectLeaf);
      var Short(key, val, flags) := n;
      var child := val;
      if val.Full? {
        child := CommitNode(path + key, val, t.val, false, w);
      } else {
        LeafOrHash(w, n, t, root, path, nodes.View(), nodes.deletes, Origin(), collectLeaf);
      }
      ShortCollapsed(w, n, t, root, child);
      var c := HexToCompact(key);
      r := NodeCommit(path, Short(c[..], child, flags), w.k, t, root);
    }

    /** The case of a dirty branch. */
    method CommitFull(path: seq<byte>, n: Node, ghost t: Node, ghost root: bool, ghost w: World) returns (r: Node)
      requires w.Rep(n, t, root) && w.Hashed(n, t, root) && Canon(t)
      requires n.Full? && !(n.flags.hash.Some? && !n.flags.dirty)
      modifies nodes
      ensures nodes.View() == MarkAll(old(nodes.View()), Emit(w.k, n, t, path), Origin(), collectLeaf)
      ensures nodes.deletes == old(nodes.deletes) + Gone(Dropped(n, path), Origin())
      ensures Simplify(r) == RawAt(w.k, t, root) && (r.HashNode? <==> root || Big(w.k, t))
      decreases n, 18
    {
      hide *;
      NodeState(w, n, t, root, path);
      FullSteps(w, n, t, root, path, nodes.View(), nodes.deletes, Origin(), collectLeaf);
      var kids := CommitChildren(path, n, t, root, w);
      r := NodeCommit(path, Full(kids, n.flags), w.k, t, root);
    }

    /** What the flags of a hashed node say, and what a node that is not visited emits. */
    static lemma NodeState(w: World, n: Node, t: Node, root: bool, path: seq<byte>)
      requires w.Rep(n, t, root) && w.Hashed(n, t, root) && Canon(t)
      ensures n.Short? || n.Full? || n.HashNode?
      ensures n.Short? || n.Full? ==>
        && (n.flags.hash.Some? <==> root || Big(w.k, t))
        && (n.flags.hash.Some? ==> n.flags.hash.value == w.k(Blob(w.k, t)))
      ensures n.HashNode? || (Cache(n).hash.Some? && !Cache(n).dirty) ==>
        && (root || Big(w.k, t)) && Emit(w.k, n, t, path) == [] && Dropped(n, path) == {}
        && RawAt(w.k, t, root) == RawHash(if n.HashNode? then n.hash else Cache(n).hash.value)
    {
      w.RepCases(n, t, root);
    }

    /** A short node: what its child emits, then its own entry. */
    static lemma ShortSteps(w: World, n: Node, t: Node, root: bool, path: seq<byte>,
                            u: Updates, d: map<seq<byte>, seq<byte>>, origin: map<seq<byte>, seq<byte>>, cl: bool)
      requires n.Short? && w.Rep(n, t, root) && !(n.flags.hash.Some? && !n.flags.dirty)
      requires w.Hashed(n, t, root) && Canon(t)
      ensures t.Short? && w.Rep(n.val, t.val, false) && w.Hashed(n.val, t.val, false) && (n.val.Full? ==> Canon(t.val))
      ensures MarkAll(u, Emit(w.k, n, t, path), origin, cl)
           == MarkAll(MarkAll(u, Emit(w.k, n.val, t.val, path + n.key), origin, cl), Own(w.k, n.flags, t, path), origin, cl)
      ensures d + Gone(Dropped(n, path), origin)
           == d + Gone(Dropped(n.val, path + n.key), origin) + Gone(if n.flags.hash.None? then {path} else {}, origin)
    {
      hide Gone, MarkAll;
      w.RepCases(n, t, root);
      w.RepCases(n.val, t.val, false);
      MarkSum(u, Emit(w.k, n.val, t.val, path + n.key), Own(w.k, n.flags, t, path), origin, cl);
      GoneSum(d, Dropped(n.val, path + n.key), if n.flags.hash.None? then {path} else {}, origin);
    }

    static lemma FullSteps(w: World, n: Node, t: Node, root: bool, path: seq<byte>,
                           u: Updates, d: map<seq<byte>, seq<byte>>, origin: map<seq<byte>, seq<byte>>, cl: bool)
      requires n.Full? && w.Rep(n, t, root) && Canon(t) && !(n.flags.hash.Some? && !n.flags.dirty)
      ensures t.Full? && |t.children| == |n.children| == 17
      ensures MarkAll(u, Emit(w.k, n, t, path), origin, cl)
           == MarkAll(MarkAll(u, EmitKids(w.k, n, t, path, 16), origin, cl), Own(w.k, n.flags, t, path), origin, cl)
      ensures d + Gone(Dropped(n, path), origin)
           == d + Gone(DroppedKids(n, path, 16), origin) + Gone(if n.flags.hash.None? then {path} else {}, origin)
    {
      w.RepCases(n, t, root);
      hide Gone, MarkAll;
      MarkSum(u, EmitKids(w.k, n, t, path, 16), Own(w.k, n.flags, t, path), origin, cl);
      GoneSum(d, DroppedKids(n, path, 16), if n.flags.hash.None? then {path} else {}, origin);
    }

    static lemma KidStep(k: Keccak, n: Node, t: Node, path: seq<byte>, i: nat,
                         u: Updates, d: map<seq<byte>, seq<byte>>, origin: map<seq<byte>, seq<byte>>, cl: bool)
      requires n.Full? && t.Full? && |t.children| == |n.children| == 17 && i < 16
      ensures MarkAll(u, EmitKids(k, n, t, path, i + 1), origin, cl)
           == MarkAll(MarkAll(u, EmitKids(k, n, t, path, i), origin, cl),
                      Emit(k, n.children[i], t.children[i], path + [i]), origin, cl)
      ensures d + Gone(DroppedKids(n, path, i + 1), origin)
           == d + Gone(DroppedKids(n, path, i), origin) + Gone(Dropped(n.children[i], path + [i]), origin)
    {
      hide Gone, MarkAll;
      MarkSum(u, EmitKids(k, n, t, path, i), Emit(k, n.children[i], t.children[i], path + [i]), origin, cl);
      GoneSum(d, DroppedKids(n, path, i), Dropped(n.children[i], path + [i]), origin);
    }

    static lemma NoKids(k: Keccak, n: Node, t: Node, path: seq<byte>,
                        u: Updates, d: map<seq<byte>, seq<byte>>, origin: map<seq<byte>, seq<byte>>, cl: bool)
      requires n.Full? && t.Full? && |t.children| == |n.children| == 17
      ensures MarkAll(u, EmitKids(k, n, t, path, 0), origin, cl) == u
      ensures d + Gone(DroppedKids(n, path, 0), origin) == d
    {
    }

    /** `commitChildren` */
    method CommitChildren(path: seq<byte>, n: Node, ghost t: Node, ghost root: bool, ghost w: World)
      returns (children: seq<Node>)
      requires n.Full? && w.Rep(n, t, root) && w.Hashed(n, t, root) && Canon(t)
      modifies nodes
      ensures t.Full? && |t.children| == |n.children| == 17
      ensures nodes.View() == MarkAll(old(nodes.View()), EmitKids(w.k, n, t, path, 16), Origin(), collectLeaf)
      ensures nodes.deletes == old(nodes.deletes) + Gone(DroppedKids(n, path, 16), Origin())
      ensures forall f :: Simplify(Full(children, f)) == RawOf(w.k, t)
      decreases n, 17
    {
      hide *;
      FullShape(w, n, t, root);
      children := [Nil, Nil, Nil, Nil, Nil, Nil, Nil, Nil, Nil, Nil, Nil, Nil, Nil, Nil, Nil, Nil, Nil];
      NoKids(w.k, n, t, path, nodes.View(), nodes.deletes, Origin(), collectLeaf);
      for i := 0 to 16
        invariant |children| == 17 && children[16] == Nil
        invariant nodes.View() == MarkAll(old(nodes.View()), EmitKids(w.k, n, t, path, i), Origin(), collectLeaf)
        invariant nodes.deletes == old(nodes.deletes) + Gone(DroppedKids(n, path, i), Origin())
        invariant forall j | 0 <= j < i :: Simplify(children[j]) == RawRef(w.k, t.children[j])
      {
        KidStep(w.k, n, t, path, i, old(nodes.View()), old(nodes.deletes), Origin(), collectLeaf);
        var c := CommitChild(path, n, i, t, root, w);
        children := children[i := c];
      }
      if n.children[16] != Nil {
        children := children[16 := n.children[16]];
      }
      ValueSlotRaw(w.k, t.children[16]);
      FullCollapsed(w.k, children, t);
    }

    static lemma FullShape(w: World, n: Node, t: Node, root: bool)
      requires n.Full? && w.Rep(n, t, root) && Canon(t)
      ensures t.Full? && |t.children| == |n.children| == 17
      ensures n.children[16] == t.children[16] && (t.children[16].Nil? || GoodValue(t.children[16]))
    {
      w.RepCases(n, t, root);
      w.RepCases(n.children[16], t.children[16], false);
    }

    /** The body of the loop: what stays in slot `i`. */
    method CommitChild(path: seq<byte>, n: Node, i: nat, ghost t: Node, ghost root: bool, ghost w: World)
      returns (c: Node)
      requires n.Full? && w.Rep(n, t, root) && w.Hashed(n, t, root) && Canon(t) && i < 16
      requires t.Full? && |t.children| == |n.children| == 17
      modifies nodes
      ensures nodes.View() == MarkAll(old(nodes.View()), Emit(w.k, n.children[i], t.children[i], path + [i]), Origin(), collectLeaf)
      ensures nodes.deletes == old(nodes.deletes) + Gone(Dropped(n.children[i], path + [i]), Origin())
      ensures Simplify(c) == RawRef(w.k, t.children[i])
      decreases n, 0
    {
      hide *;
      KidShape(w, n, t, root, i, path, nodes.View(), nodes.deletes, Origin(), collectLeaf);
      var child := n.children[i];
      if child == Nil {
        return Nil;
      }
      if child.HashNode? {
        return child;
      }
      c := CommitNode(path + [i], child, t.children[i], false, w);
    }

    static lemma KidShape(w: World, n: Node, t: Node, root: bool, i: nat, path: seq<byte>,
                          u: Updates, d: map<seq<byte>, seq<byte>>, origin: map<seq<byte>, seq<byte>>, cl: bool)
      requires n.Full? && w.Rep(n, t, root) && w.Hashed(n, t, root) && Canon(t) && i < 16
      requires t.Full? && |t.children| == |n.children| == 17
      ensures var c, tc := n.children[i], t.children[i];
        && w.Rep(c, tc, false) && w.Hashed(c, tc, false) && (!c.Nil? ==> Canon(tc))
        && RawRef(w.k, tc) == RawAt(w.k, tc, false)
        && (c.Nil? || c.HashNode? ==>
              && Simplify(c) == RawRef(w.k, tc)
              && MarkAll(u, Emit(w.k, c, tc, path + [i]), origin, cl) == u
              && d + Gone(Dropped(c, path + [i]), origin) == d)
    {
      w.RepCases(n, t, root);
      w.RepCases(n.children[i], t.children[i], false);
      RefIsAt(w.k, t.children[i]);
      GoneOne(d, path, origin);
    }

    static lemma ValueSlotRaw(k: Keccak, t: Node)
      requires t.Nil? || GoodValue(t)
      ensures Simplify(t) == RawRef(k, t)
    {
    }

    static lemma FullCollapsed(k: Keccak, children: seq<Node>, t: Node)
      requires t.Full? && |t.children| == |children| == 17
      requires forall j | 0 <= j < 17 :: Simplify(children[j]) == RawRef(k, t.children[j])
      ensures forall f :: Simplify(Full(children, f)) == RawOf(k, t)
    {
    }

    static lemma LeafOrHash(w: World, n: Node, t: Node, root: bool, path: seq<byte>,
                            u: Updates, d: map<seq<byte>, seq<byte>>, origin: map<seq<byte>, seq<byte>>, cl: bool)
      requires n.Short? && w.Rep(n, t, root) && Canon(t) && !n.val.Full?
      ensures t.Short? && Simplify(n.val) == RawAt(w.k, t.val, false)
      ensures MarkAll(u, Emit(w.k, n.val, t.val, path + n.key), origin, cl) == u
      ensures d + Gone(Dropped(n.val, path + n.key), origin) == d
    {
      w.RepCases(n, t, root);
      w.RepCases(n.val, t.val, false);
      GoneOne(d, path, origin);
    }

    static lemma ShortCollapsed(w: World, n: Node, t: Node, root: bool, child: Node)
      requires n.Short? && w.Rep(n, t, root) && Canon(t)
      requires t.Short? ==> Simplify(child) == RawAt(w.k, t.val, false)
      ensures NodeKey(n.key) && forall f :: Simplify(Short(Compact(n.key), child, f)) == RawOf(w.k, t)
    {
      w.RepCases(n, t, root);
      RefIsAt(w.k, t.val);
    }

    /** `Commit` of a root: what ends up in a new node set. */
    method Commit(n: Node, ghost t: Node, ghost w: World) returns (hash: Hash)
      requires w.Rep(n, t, true) && w.Hashed(n, t, true) && Canon(t)
      requires nodes.View() == NO_UPDATES && nodes.deletes == map[]
      modifies nodes
      ensures hash == w.k(Blob(w.k, t))
      ensures nodes.View() == MarkAll(NO_UPDATES, Emit(w.k, n, t, []), Origin(), collectLeaf)
      ensures nodes.deletes == Gone(Dropped(n, []) + if capture == null then {} else capture.delete, Origin())
    {
      hide RawOf, Blob, World.Rep, World.Hashed, MarkAll, Gone, Emit, Dropped, NodeSet.View;
      var r := CommitNode([], n, t, true, w);
      assert Simplify(r) == RawHash(w.k(Blob(w.k, t)));
      hash := r.hash;
      if capture != null {
        var list := capture.DeleteList();
        MarkGone(list);
        assert Elements(list) == capture.delete;
      }
      ghost var removed := if capture == null then {} else capture.delete;
      GoneSum(map[], Dropped(n, []), removed, Origin());
      GoneOne(nodes.deletes, [], Origin());
      NothingBefore(Gone(Dropped(n, []), Origin()));
      NothingBefore(Gone(Dropped(n, []) + removed, Origin()));
    }

    static lemma NothingBefore(m: map<seq<byte>, seq<byte>>)
      ensures map[] + m == m
    {
    }

    /** The loop of `Commit` over the tracer's deletions. */
    method MarkGone(list: seq<seq<byte>>)
      requires capture != null
      modifies nodes
      ensures nodes.View() == old(nodes.View())
      ensures nodes.deletes == old(nodes.deletes) + Gone(Elements(list), Origin())
    {
      GoneOne(nodes.deletes, [], Origin());
      assert Elements(list[..0]) == {};
      for i := 0 to |list|
        invariant nodes.View() == old(nodes.View())
        invariant nodes.deletes == old(nodes.deletes) + Gone(Elements(list[..i]), Origin())
      {
        hide Gone;
        GoneOne(nodes.deletes, list[i], Origin());
        GoneSum(old(nodes.deletes), Elements(list[..i]), {list[i]}, Origin());
        assert list[..i + 1] == list[..i] + [list[i]];
        assert Elements(list[..i + 1]) == Elements(list[..i]) + {list[i]};
        var oldv := OldValue(Origin(), list[i]);
        if |oldv| == 0 {
          continue;
        }
        nodes.MarkDeleted(list[i], oldv);
      }
      assert list[..|list|] == list;
    }
  }
}
