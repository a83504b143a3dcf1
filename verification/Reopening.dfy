/** What a commit needs of the hash function: that no two different nodes of this one tree, and
    none of its nodes and a node in the store, have the same hash.  Then the nodes that a
    commit marks, put into the node database, make the whole tree readable from its root. */
module Reopening {
  import opened Bytes
  import opened HexKeys
  import opened Nodes
  import opened NodeCodec
  import opened NodeEncode
  import opened TrieOps
  import opened History
  import opened Refine
  import opened Committing
  import opened Committers
  import opened FlushList
  import opened Flushing
  import opened Updating
  import TrieDatabase

  /** `f` holds of every node of the tree that is stored by itself. */
  ghost predicate Everywhere(k: Keccak, t: Node, root: bool, f: Node -> bool) {
    match t
    case Short(_, v, _) => (root || Big(k, t) ==> f(t)) && Everywhere(k, v, false, f)
    case Full(ch, _) => (root || Big(k, t) ==> f(t)) && forall i | 0 <= i < |ch| :: Everywhere(k, ch[i], false, f)
    case _ => true
  }

  lemma {:induction false} EverywhereAt(k: Keccak, t: Node, root: bool, f: Node -> bool, p: seq<byte>)
    requires Everywhere(k, t, root, f)
    requires var s := Sub(t, p); (s.Short? || s.Full?) && ((root && p == []) || Big(k, s))
    ensures f(Sub(t, p))
    decreases t
  {
    if p != [] {
      match t {
        case Short(key, v, _) => EverywhereAt(k, v, false, f, p[|key|..]);
        case Full(ch, _) => EverywhereAt(k, ch[p[0]], false, f, p[1..]);
        case _ =>
      }
    }
  }

  lemma {:induction false} EverywhereWeaker(k: Keccak, t: Node, root: bool, f: Node -> bool, g: Node -> bool)
    requires Everywhere(k, t, root, f) && forall s :: f(s) ==> g(s)
    ensures Everywhere(k, t, root, g)
    decreases t
  {
    match t {
      case Short(_, v, _) => EverywhereWeaker(k, v, false, f, g);
      case Full(ch, _) =>
        forall i | 0 <= i < |ch| ensures Everywhere(k, ch[i], false, g) {
          EverywhereWeaker(k, ch[i], false, f, g);
        }
      case _ =>
    }
  }

  lemma {:induction false} EverywhereBoth(k: Keccak, t: Node, root: bool, f: Node -> bool, g: Node -> bool)
    requires Everywhere(k, t, root, f) && Everywhere(k, t, root, g)
    ensures Everywhere(k, t, root, s => f(s) && g(s))
    decreases t
  {
    match t {
      case Short(_, v, _) => EverywhereBoth(k, v, false, f, g);
      case Full(ch, _) =>
        forall i | 0 <= i < |ch| ensures Everywhere(k, ch[i], false, s => f(s) && g(s)) {
          EverywhereBoth(k, ch[i], false, f, g);
        }
      case _ =>
    }
  }

  lemma {:induction false} HeldEverywhere(w: World, t: Node, root: bool)
    requires t.Short? || t.Full? || !root
    ensures w.HeldAt(t, root) <==> Everywhere(w.k, t, root, s => w.HeldHere(s))
    decreases t
  {
    var f := s => w.HeldHere(s);
    match t {
      case Short(_, v, _) => HeldEverywhere(w, v, false);
      case Full(ch, _) =>
        forall i | 0 <= i < |ch| ensures w.HeldAt(ch[i], false) <==> Everywhere(w.k, ch[i], false, s => w.HeldHere(s)) {
          HeldEverywhere(w, ch[i], false);
        }
      case _ =>
    }
  }

  lemma {:induction false} CoveredEverywhere(w: World, es: seq<Entry>, t: Node, root: bool)
    requires Covered(w, es, t, root)
    ensures Everywhere(w.k, t, root, s => Stored(w, es, s))
    decreases t
  {
    match t {
      case Short(_, v, _) => CoveredEverywhere(w, es, v, false);
      case Full(ch, _) =>
        forall i | 0 <= i < |ch| ensures Everywhere(w.k, ch[i], false, s => Stored(w, es, s)) {
          CoveredEverywhere(w, es, ch[i], false);
        }
      case _ =>
    }
  }

  // ---------------------------------------------------------------- no collisions

  ghost predicate NotTaken(k: Keccak, db: Store, s: Node) {
    k(Blob(k, s)) in db ==> db[k(Blob(k, s))] == Blob(k, s)
  }

  ghost predicate SameHashSameBlob(k: Keccak, s: Node, s': Node) {
    k(Blob(k, s)) == k(Blob(k, s')) ==> Blob(k, s) == Blob(k, s')
  }

  /** The nodes of the tree that are stored by themselves collide neither with each other nor
      with the store, none has the hash zero, and the root's is not that of an empty trie. */
  ghost predicate Apart(k: Keccak, db: Store, t: Node) {
    && Everywhere(k, t, true, s => NotTaken(k, db, s))
    && Everywhere(k, t, true, s => Everywhere(k, t, true, s' => SameHashSameBlob(k, s, s')))
    && Everywhere(k, t, true, s => k(Blob(k, s)) != ZERO_HASH)
    && (t.Nil? || RootHash(k, t) != EMPTY_ROOT)
  }

  ghost predicate Above(k: Keccak, rank: Hash -> nat, s: Node) {
    forall c | c in Gather(RawOf(k, s)) :: Lower(rank, c, k(Blob(k, s)))
  }

  /** `rank` is a height for the nodes of this tree. */
  ghost predicate RanksTree(k: Keccak, rank: Hash -> nat, t: Node) {
    Everywhere(k, t, true, s => Above(k, rank, s))
  }

  /** The node an entry of a commit describes. */
  lemma EntryNode(k: Keccak, t: Node, e: Entry, f: Node -> bool) returns (s: Node)
    requires CanonOrNil(t) && Describes(k, e, t, true, []) && Everywhere(k, t, true, f)
    ensures f(s) && Canon(s) && e.hash == k(Blob(k, s)) && e.node == RawOf(k, s) && RawBlob(e.node) == Blob(k, s)
    ensures s == Sub(t, e.path)
  {
    assert e.path[0..] == e.path;
    s := Sub(t, e.path);
    EverywhereAt(k, t, true, f, e.path);
    RawOfItem(k, s);
  }

  lemma {:induction false} SubSized(t: Node, p: seq<byte>)
    requires Sized(t)
    ensures Sized(Sub(t, p))
  {
    if p != [] {
      match t {
        case Short(key, v, _) =>
          if IsPrefix(key, p) && key != [] {
            SubSized(v, p[|key|..]);
          }
        case Full(ch, _) =>
          if p[0] < |ch| {
            SubSized(ch[p[0]], p[1..]);
          }
        case _ =>
      }
    }
  }

  /** All entries of the commit describe nodes of the tree. */
  ghost predicate FromTree(k: Keccak, t: Node, es: seq<Entry>) {
    forall e | e in es :: Describes(k, e, t, true, [])
  }

  /** Entries with the same hash have the same encoding. */
  lemma EntriesAgree(k: Keccak, db: Store, t: Node, es: seq<Entry>, a: Entry, b: Entry)
    requires CanonOrNil(t) && Apart(k, db, t) && FromTree(k, t, es) && a in es && b in es && a.hash == b.hash
    ensures RawBlob(a.node) == RawBlob(b.node)
  {
    var x := EntryNode(k, t, a, s => Everywhere(k, t, true, s' => SameHashSameBlob(k, s, s')));
    var y := EntryNode(k, t, b, s' => SameHashSameBlob(k, x, s'));
  }

  lemma EntryNotTaken(k: Keccak, db: Store, t: Node, es: seq<Entry>, e: Entry)
    requires CanonOrNil(t) && Apart(k, db, t) && FromTree(k, t, es) && e in es && e.hash in db
    ensures db[e.hash] == RawBlob(e.node)
  {
    var s := EntryNode(k, t, e, s => NotTaken(k, db, s));
  }

  /** After the entries are adopted, readers see every one of them, and all they saw before. */
  lemma AdoptedView(k: Keccak, t: Node, es: seq<Entry>, d: Dirties, st: Disk, d': Dirties)
    requires Canon(t) && Apart(k, View(d, st), t) && FromTree(k, t, es)
    requires Adopted(d, es, d')
    ensures forall h | h in View(d, st) :: h in View(d', st) && View(d', st)[h] == View(d, st)[h]
    ensures forall e | e in es :: e.hash in View(d', st) && View(d', st)[e.hash] == RawBlob(e.node)
    ensures forall h | h in View(d', st) && h !in View(d, st) :: Emitted(es, h)
  {
    hide *;
    forall e | e in es ensures e.hash in View(d', st) && View(d', st)[e.hash] == RawBlob(e.node) {
      AdoptedEntry(k, t, es, d, st, d', e);
    }
    forall h | h in View(d, st) ensures h in View(d', st) && View(d', st)[h] == View(d, st)[h] {
      AdoptedKeeps(k, t, es, d, st, d', h);
    }
    forall h | h in View(d', st) && h !in View(d, st) ensures Emitted(es, h) {
      AdoptedNew(es, d, st, d', h);
    }
  }

  lemma AdoptedEntry(k: Keccak, t: Node, es: seq<Entry>, d: Dirties, st: Disk, d': Dirties, e: Entry)
    requires Canon(t) && Apart(k, View(d, st), t) && FromTree(k, t, es) && e in es
    requires Adopted(d, es, d')
    ensures e.hash in View(d', st) && View(d', st)[e.hash] == RawBlob(e.node)
  {
    EntriesNotZero(k, t, es);
    hide Apart, FromTree, RawBlob, Everywhere;
    if e.hash in d {
      EntryNotTaken(k, View(d, st), t, es, e);
    } else {
      var i: nat :| FirstAt(es, i, e.hash, d'[e.hash].node);
      EntriesAgree(k, View(d, st), t, es, es[i], e);
    }
  }

  lemma AdoptedKeeps(k: Keccak, t: Node, es: seq<Entry>, d: Dirties, st: Disk, d': Dirties, h: Hash)
    requires Canon(t) && Apart(k, View(d, st), t) && FromTree(k, t, es) && h in View(d, st)
    requires Adopted(d, es, d')
    ensures h in View(d', st) && View(d', st)[h] == View(d, st)[h]
  {
    hide Apart, FromTree, RawBlob;
    if h !in d && h in d' {
      var i: nat :| FirstAt(es, i, h, d'[h].node);
      EntryNotTaken(k, View(d, st), t, es, es[i]);
    }
  }

  lemma AdoptedNew(es: seq<Entry>, d: Dirties, st: Disk, d': Dirties, h: Hash)
    requires Adopted(d, es, d') && h in View(d', st) && h !in View(d, st)
    ensures Emitted(es, h)
  {
    hide RawBlob;
    var i: nat :| FirstAt(es, i, h, d'[h].node);
    assert es[i] in es;
  }

  /** And the whole tree is there. */
  lemma AdoptedHolds(k: Keccak, t: Node, es: seq<Entry>, db: Store, db': Store)
    requires Canon(t) && Apart(k, db, t) && Covered(World(k, db, true), es, t, true)
    requires forall h | h in db :: h in db' && db'[h] == db[h]
    requires forall e | e in es :: e.hash in db' && db'[e.hash] == RawBlob(e.node)
    ensures World(k, db', true).HeldAt(t, true)
  {
    var w, w' := World(k, db, true), World(k, db', true);
    var f, g := s => NotTaken(k, db, s), s => Stored(w, es, s);
    CoveredEverywhere(w, es, t, true);
    EverywhereBoth(k, t, true, f, g);
    forall s | NotTaken(k, db, s) && Stored(w, es, s) ensures w'.HeldHere(s) {
      if HashOf(w, s) !in db {
        var e :| e in es && e.hash == HashOf(w, s) && e.node == RawOf(k, s);
        RawOfItem(k, s);
      }
    }
    EverywhereWeaker(k, t, true, s => f(s) && g(s), s => w'.HeldHere(s));
    HeldEverywhere(w', t, true);
  }

  /** The store still holds nothing but nodes. */
  lemma AdoptedStoreOk(k: Keccak, t: Node, es: seq<Entry>, db: Store, db': Store)
    requires Canon(t) && Sized(t) && FromTree(k, t, es) && StoreOk(db)
    requires forall h | h in db :: h in db' && db'[h] == db[h]
    requires forall h | h in db' && h !in db :: Emitted(es, h)
    requires forall e | e in es :: e.hash in db' && db'[e.hash] == RawBlob(e.node)
    ensures StoreOk(db')
  {
    hide DecodeNode, Shape;
    forall h | h in db' && db'[h] != []
      ensures DecodeNode(Some(h), db'[h]).Some?
      ensures var n := DecodeNode(Some(h), db'[h]).value; Shape(n) && (n.Short? || n.Full?)
    {
      if h !in db {
        var e :| e in es && e.hash == h;
        EntryDecodes(k, t, e);
      }
    }
  }

  lemma EntryDecodes(k: Keccak, t: Node, e: Entry)
    requires Canon(t) && Sized(t) && Describes(k, e, t, true, [])
    ensures DecodeNode(Some(e.hash), RawBlob(e.node)).Some?
    ensures var n := DecodeNode(Some(e.hash), RawBlob(e.node)).value; Shape(n) && (n.Short? || n.Full?)
  {
    hide DecodeNode, Shape, Describes, RawBlob;
    EverywhereTrue(k, t, true);
    var s := EntryNode(k, t, e, s => true);
    SubSized(t, e.path);
    DecodeBlob(k, s, Some(e.hash), []);
    assert Blob(k, s) + [] == Blob(k, s);
    LoadShape(k, s, Some(e.hash));
  }

  lemma {:induction false} EverywhereTrue(k: Keccak, t: Node, root: bool)
    ensures Everywhere(k, t, root, s => true)
    decreases t
  {
    match t {
      case Short(_, v, _) => EverywhereTrue(k, v, false);
      case Full(ch, _) =>
        forall i | 0 <= i < |ch| ensures Everywhere(k, ch[i], false, s => true) {
          EverywhereTrue(k, ch[i], false);
        }
      case _ =>
    }
  }

  lemma {:induction false} LoadShape(k: Keccak, t: Node, hash: Option<Hash>)
    requires Canon(t)
    ensures Shape(Load(k, t, hash)) && (Load(k, t, hash).Short? || Load(k, t, hash).Full?)
    decreases t, 0
  {
    match t {
      case Short(key, v, _) =>
        if HasTerm(key) {
          ValueSlot(k, v);
        } else {
          LoadRefShape(k, v);
        }
      case Full(ch, _) =>
        ValueSlot(k, ch[16]);
        forall i | 0 <= i < 16 ensures Shape(LoadRef(k, ch[i])) {
          LoadRefShape(k, ch[i]);
        }
    }
  }

  lemma {:induction false} LoadRefShape(k: Keccak, t: Node)
    requires CanonOrNil(t)
    ensures Shape(LoadRef(k, t)) && (t.Full? ==> LoadRef(k, t).Full? || LoadRef(k, t).HashNode?)
    decreases t, 1
  {
    if Canon(t) && !Big(k, t) {
      LoadShape(k, t, None);
    }
  }

  /** Entries that come children first refer only to what is there before them. */
  lemma ChildrenFirstBefore(d: Dirties, st: Disk, es: seq<Entry>)
    requires ChildrenFirst(View(d, st), es)
    ensures ChildrenBefore(d, st, es)
  {
    hide Gather, RawBlob;
    forall i: nat, c | i < |es| && c in Gather(es[i].node) ensures c in d || c in st || Named(es[..i], c) {
      assert Reached(View(d, st), es[..i], es[i].node);
      if c !in View(d, st) {
        var e :| e in es[..i] && e.hash == c;
        var j: nat :| j < i && es[..i][j] == e;
      }
    }
  }

  lemma BeforeThere(d: Dirties, st: Disk, es: seq<Entry>)
    requires ChildrenBefore(d, st, es)
    ensures ChildrenThere(d, st, es)
  {
    hide Gather;
    forall i: nat, c | i < |es| && IsNew(d, es, i) && c in Gather(es[i].node) ensures c in d || c in st || Named(es, c) {
      if Named(es[..i], c) {
        var j: nat :| j < i && es[..i][j].hash == c;
        assert es[j].hash == c;
      }
    }
  }

  /** `Update` takes what a commit marks. */
  lemma MarkedSetOk(k: Keccak, t: Node, es: seq<Entry>, origin: map<seq<byte>, seq<byte>>, collectLeaf: bool, rank: Hash -> nat)
    requires Canon(t) && Sized(t) && FromTree(k, t, es) && DistinctPaths(es) && RanksTree(k, rank, t)
    ensures var u := MarkAll(NO_UPDATES, es, origin, collectLeaf);
      Complete(u) && Entries(u) == es && TrieDatabase.TrieDB.SetOk(u, rank)
  {
    var u := MarkAll(NO_UPDATES, es, origin, collectLeaf);
    hide MarkAll, Gather, RawBlob, Describes, Everywhere;
    MarkedEntries(es, origin, collectLeaf);
    forall p | p in u.order && p in u.nodes
      ensures |RawBlob(u.nodes[p].node)| < TWO_64 && forall c | c in Gather(u.nodes[p].node) :: Lower(rank, c, u.nodes[p].hash)
    {
      var i :| 0 <= i < |u.order| && u.order[i] == p;
      var e := Entries(u)[i];
      assert e in es && e.hash == u.nodes[p].hash && e.node == u.nodes[p].node;
      var s := EntryNode(k, t, e, s => Above(k, rank, s));
      SubSized(t, e.path);
      CanonHasShape(s);
      BlobSize(k, s);
    }
  }

  /** The storage trie that an account leaf names is lower than the leaf. */
  ghost predicate AboveStorage(k: Keccak, rank: Hash -> nat, account: seq<byte> -> Option<Hash>, s: Node) {
    s.Short? && s.val.Value? && account(s.val.data).Some? && account(s.val.data).value != EMPTY_ROOT ==>
      Lower(rank, account(s.val.data).value, k(Blob(k, s)))
  }

  ghost predicate RanksStorage(k: Keccak, rank: Hash -> nat, account: seq<byte> -> Option<Hash>, t: Node) {
    Everywhere(k, t, true, s => AboveStorage(k, rank, account, s))
  }

  /** And its leaves can be linked. */
  lemma MarkedLeavesOk(k: Keccak, t: Node, es: seq<Entry>, origin: map<seq<byte>, seq<byte>>, collectLeaf: bool, rank: Hash -> nat,
                       account: seq<byte> -> Option<Hash>)
    requires Canon(t) && FromTree(k, t, es) && DistinctPaths(es) && (collectLeaf ==> RanksStorage(k, rank, account, t))
    requires Everywhere(k, t, true, s => k(Blob(k, s)) != ZERO_HASH)
    ensures var u := MarkAll(NO_UPDATES, es, origin, collectLeaf);
      forall leaf | leaf in u.leaves :: TrieDatabase.TrieDB.LeafOk(leaf, account, u, rank) && leaf.parent != ZERO_HASH
  {
    var u := MarkAll(NO_UPDATES, es, origin, collectLeaf);
    hide MarkAll, Gather, RawBlob, Describes, Everywhere, LeafEntry;
    MarkedEntries(es, origin, collectLeaf);
    EntriesNotZero(k, t, es);
    forall leaf | leaf in u.leaves ensures TrieDatabase.TrieDB.LeafOk(leaf, account, u, rank) && leaf.parent != ZERO_HASH {
      MarkedLeaves(es, origin, collectLeaf, leaf);
      var e :| e in es && LeafEntry(e, leaf);
      var i :| 0 <= i < |es| && es[i] == e;
      assert Entries(u)[i] == e && u.order[i] in u.order;
      var s := EntryNode(k, t, e, s => AboveStorage(k, rank, account, s));
      LeafNodeOf(k, s, e, leaf);
    }
  }

  lemma LeafNodeOf(k: Keccak, s: Node, e: Entry, leaf: Leaf)
    requires LeafEntry(e, leaf) && e.node == RawOf(k, s) && Canon(s)
    ensures s.Short? && s.val == Value(leaf.blob) && leaf.parent == e.hash
  {
  }

  lemma EntriesNotZero(k: Keccak, t: Node, es: seq<Entry>)
    requires Canon(t) && FromTree(k, t, es)
    requires Everywhere(k, t, true, s => k(Blob(k, s)) != ZERO_HASH)
    ensures forall e | e in es :: e.hash != ZERO_HASH
  {
    forall e | e in es ensures e.hash != ZERO_HASH {
      var s := EntryNode(k, t, e, s => k(Blob(k, s)) != ZERO_HASH);
    }
  }

  // ---------------------------------------------------------------- from disk alone

  /** The raw form of a loaded node. */
  function Collapse(n: Node): Raw {
    match n
    case Nil => RawNil
    case Value(d) => RawValue(d)
    case HashNode(h) => RawHash(h)
    case Short(key, v, _) => RawShort(StoredKey(key), Collapse(v))
    case Full(ch, _) => RawFull(seq(|ch|, i requires 0 <= i < |ch| => Collapse(ch[i])))
  }

  lemma {:induction false} CollapseLoad(k: Keccak, t: Node, hash: Option<Hash>)
    ensures Collapse(Load(k, t, hash)) == RawOf(k, t)
    decreases t
  {
    match t {
      case Short(_, v, _) =>
        CollapseLoad(k, v, None);
        assert Collapse(LoadRef(k, v)) == RawRef(k, v);
      case Full(ch, _) =>
        forall i | 0 <= i < |ch| ensures Collapse(LoadRef(k, ch[i])) == RawRef(k, ch[i]) {
          CollapseLoad(k, ch[i], None);
        }
      case _ =>
    }
  }

  /** Trees with the same encoding have the same raw form. */
  lemma BlobFixesRaw(k: Keccak, s: Node, t: Node)
    requires Canon(s) && Canon(t) && Sized(s) && Sized(t) && Blob(k, s) == Blob(k, t)
    ensures RawOf(k, s) == RawOf(k, t)
  {
    hide *;
    DecodeBlob(k, s, None, []);
    DecodeBlob(k, t, None, []);
    CollapseLoad(k, s, None);
    CollapseLoad(k, t, None);
  }

  /** The database holds nodes of tries only. */
  ghost predicate Authentic(k: Keccak, d: Dirties, st: Disk) {
    && (forall h | h in d && h != ZERO_HASH :: TrieDatabase.TrieDB.IsTreeNode(k, d[h].node))
    && (forall h | h in st :: TrieDatabase.TrieDB.IsTreeNode(k, st[h]))
  }

  ghost predicate OnDisk(k: Keccak, st: Disk, s: Node) {
    k(Blob(k, s)) in st && RawBlob(st[k(Blob(k, s))]) == Blob(k, s)
  }

  ghost predicate FreeOnDisk(k: Keccak, st: Disk, s: Node) {
    k(Blob(k, s)) in st ==> RawBlob(st[k(Blob(k, s))]) == Blob(k, s)
  }

  /** No node of the tree collides with what is on disk. */
  ghost predicate DiskApart(k: Keccak, st: Disk, t: Node) {
    Everywhere(k, t, true, s => FreeOnDisk(k, st, s))
  }

  lemma StoredRaw(k: Keccak, st: Disk, s: Node)
    requires Canon(s) && Sized(s) && Authentic(k, map[], st) && OnDisk(k, st, s)
    ensures st[k(Blob(k, s))] == RawOf(k, s)
  {
    var t :| Canon(t) && Sized(t) && st[k(Blob(k, s))] == RawOf(k, t);
    RawOfItem(k, t);
    BlobFixesRaw(k, s, t);
  }

  /** When the root is on a closed disk, so is the whole tree. */
  lemma {:induction false} DiskHasTree(k: Keccak, st: Disk, t: Node, root: bool)
    requires (CanonOrNil(t) || GoodValue(t)) && Sized(t) && Authentic(k, map[], st) && DiskClosed(st)
    requires Everywhere(k, t, root, s => FreeOnDisk(k, st, s))
    requires forall c | c in Gather(RawAt(k, t, root)) :: c in st
    ensures Everywhere(k, t, root, s => OnDisk(k, st, s))
    decreases t
  {
    if Canon(t) {
      if root || Big(k, t) {
        assert k(Blob(k, t)) in Gather(RawAt(k, t, root));
        StoredRaw(k, st, t);
      }
      assert forall c | c in Gather(RawOf(k, t)) :: c in st;
      hide Blob, RawOf, RawRef, RawAt, Gather, DiskClosed, Authentic;
      match t {
        case Short(_, v, _) =>
          ChildGathered(k, t, 0);
          DiskHasTree(k, st, v, false);
        case Full(ch, _) =>
          forall i | 0 <= i < |ch| ensures Everywhere(k, ch[i], false, s => OnDisk(k, st, s)) {
            if i < 16 {
              ChildGathered(k, t, i);
              DiskHasTree(k, st, ch[i], false);
            }
          }
      }
    }
  }

  /** What the child of a node refers to, the node refers to. */
  lemma ChildGathered(k: Keccak, t: Node, i: nat)
    requires Canon(t)
    ensures t.Short? ==> forall c | c in Gather(RawAt(k, t.val, false)) :: c in Gather(RawOf(k, t))
    ensures t.Full? && i < 16 ==> forall c | c in Gather(RawAt(k, t.children[i], false)) :: c in Gather(RawOf(k, t))
  {
    hide Blob;
    if t.Short? {
      RefIsAt(k, t.val);
    } else if i < 16 {
      RefIsAt(k, t.children[i]);
      FirstHas(RawOf(k, t), 16, i);
      assert Gather(RawOf(k, t)) == GatherFirst(RawOf(k, t), 16) && RawOf(k, t).children[i] == RawRef(k, t.children[i]);
    }
  }

  /** What a child refers to, the branch refers to. */
  lemma {:induction false} FirstHas(r: Raw, n: nat, i: nat)
    requires r.RawFull? && i < n <= 16 && n <= |r.children|
    ensures forall c | c in Gather(r.children[i]) :: c in GatherFirst(r, n)
  {
    if i < n - 1 {
      FirstHas(r, n - 1, i);
    }
  }

  /** What a flush leaves on disk: nodes that were there, and nodes from the cache. */
  ghost predicate Flushed(d: Dirties, st: Disk, st': Disk) {
    forall h | h in st' ::
      (h in st && st'[h] == st[h]) || (h in d && h != ZERO_HASH && st'[h] == d[h].node)
  }

  lemma FlushedFree(k: Keccak, t: Node, d: Dirties, st: Disk, st': Disk)
    requires Canon(t) && Flushed(d, st, st')
    requires World(k, View(d, st), true).HeldAt(t, true)
    requires Everywhere(k, t, true, s => FreeOnDisk(k, st, s))
    ensures Everywhere(k, t, true, s => FreeOnDisk(k, st', s))
  {
    hide RawBlob, Blob;
    var w := World(k, View(d, st), true);
    var f, g := s => w.HeldHere(s), s => FreeOnDisk(k, st, s);
    HeldEverywhere(w, t, true);
    EverywhereBoth(k, t, true, f, g);
    forall s | f(s) && g(s) ensures FreeOnDisk(k, st', s) {
    }
    EverywhereWeaker(k, t, true, s => f(s) && g(s), s => FreeOnDisk(k, st', s));
  }

  lemma OnDiskHeld(k: Keccak, t: Node, st: Disk)
    requires Canon(t) && ZERO_HASH !in st && Everywhere(k, t, true, s => OnDisk(k, st, s))
    ensures World(k, View(map[], st), true).HeldAt(t, true)
  {
    var w := World(k, View(map[], st), true);
    forall s | OnDisk(k, st, s) ensures w.HeldHere(s) {
    }
    EverywhereWeaker(k, t, true, s => OnDisk(k, st, s), s => w.HeldHere(s));
    HeldEverywhere(w, t, true);
  }

  lemma FlushedAuthentic(k: Keccak, d: Dirties, st: Disk, d': Dirties, st': Disk)
    requires Authentic(k, d, st) && Flushed(d, st, st')
    requires forall h | h in d' :: h in d && d'[h].node == d[h].node
    ensures Authentic(k, d', st')
  {
  }

  /** After a flush the disk by itself is a complete store for the tree. */
  lemma FlushedHolds(k: Keccak, t: Node, d: Dirties, st: Disk, st': Disk)
    requires Canon(t) && Sized(t) && Authentic(k, d, st) && DiskClosed(st') && ZERO_HASH !in st'
    requires World(k, View(d, st), true).HeldAt(t, true)
    requires DiskApart(k, st, t)
    requires Flushed(d, st, st') && k(Blob(k, t)) in st'
    ensures World(k, View(map[], st'), true).HeldAt(t, true)
    ensures Authentic(k, map[], st')
  {
    hide Everywhere, Blob, World.HeldAt, DiskClosed, TrieDatabase.TrieDB.IsTreeNode, OnDisk, FreeOnDisk;
    FlushedAuthentic(k, d, st, map[], st');
    FlushedFree(k, t, d, st, st');
    assert Gather(RawAt(k, t, true)) == [k(Blob(k, t))];
    DiskHasTree(k, st', t, true);
    OnDiskHeld(k, t, st');
  }

  /** What opens a trie: the hash of a tree that the store holds. */
  lemma OpensAt(w: World, t: Node, h: Hash)
    requires CanonOrNil(t) && h == RootHash(w.k, t) && (t.Nil? || w.HeldAt(t, true))
    ensures if h == EMPTY_ROOT && t.Nil? then true else Canon(t) && w.IsRef(HashNode(h), t, true)
  {
  }

  lemma AuthenticStoreOk(k: Keccak, st: Disk)
    requires Authentic(k, map[], st)
    ensures StoreOk(View(map[], st))
  {
    hide DecodeNode, Shape, RawBlob;
    var db := View(map[], st);
    forall h | h in db && db[h] != []
      ensures DecodeNode(Some(h), db[h]).Some?
      ensures var n := DecodeNode(Some(h), db[h]).value; Shape(n) && (n.Short? || n.Full?)
    {
      var t :| Canon(t) && Sized(t) && st[h] == RawOf(k, t);
      RawOfItem(k, t);
      DecodeBlob(k, t, Some(h), []);
      assert Blob(k, t) + [] == Blob(k, t);
      LoadShape(k, t, Some(h));
    }
  }

  /** Adopting a commit's entries keeps the database authentic. */
  lemma AdoptedAuthentic(k: Keccak, t: Node, es: seq<Entry>, d: Dirties, st: Disk, d': Dirties)
    requires Canon(t) && Sized(t) && FromTree(k, t, es) && Authentic(k, d, st)
    requires Adopted(d, es, d')
    ensures Authentic(k, d', st)
  {
    forall h | h in d' && h != ZERO_HASH ensures TrieDatabase.TrieDB.IsTreeNode(k, d'[h].node) {
      if h in d {
        assert TrieDatabase.TrieDB.IsTreeNode(k, d[h].node);
      } else {
        var i: nat :| FirstAt(es, i, h, d'[h].node);
        EverywhereTrue(k, t, true);
        var s := EntryNode(k, t, es[i], s => true);
        SubSized(t, es[i].path);
      }
    }
  }

  /** What these hypotheses come to for a trie of one entry. */
  lemma OneLeaf(k: Keccak, db: Store, rank: Hash -> nat, t: Node)
    requires Canon(t) && t.Short? && t.val.Value?
    ensures Apart(k, db, t) <==>
      NotTaken(k, db, t) && k(Blob(k, t)) != ZERO_HASH && k(Blob(k, t)) != EMPTY_ROOT
    ensures RanksTree(k, rank, t)
  {
    assert RawRef(k, t.val) == RawOf(k, t.val);
    assert Gather(RawOf(k, t)) == [];
    OneNode(k, t, s => NotTaken(k, db, s));
    OneNode(k, t, s => k(Blob(k, s)) != ZERO_HASH);
    OneNode(k, t, s' => SameHashSameBlob(k, t, s'));
    OneNode(k, t, s => Everywhere(k, t, true, s' => SameHashSameBlob(k, s, s')));
  }

  lemma OneNode(k: Keccak, t: Node, f: Node -> bool)
    requires t.Short? && t.val.Value?
    ensures Everywhere(k, t, true, f) <==> f(t)
  {
  }
}
