/** trie/trie_db.go, trie/trie_db_cleaner.go: the node database, a cache of dirty nodes over
    the disk. */
module TrieDatabase {
  import opened Bytes
  import opened Nodes
  import opened NodeEncode
  import opened MemoryDb
  import opened FlushList
  import opened Flushing
  import opened RefCounts
  import opened NodeCodec
  import opened Committing
  import opened Committers
  import opened Updating

  /** `accdb.IdealBatchSize` */
  const IDEAL_BATCH_SIZE: nat := 100 * 1024

  /** `common.BytesToHash` */
  function BytesToHash(b: seq<byte>): Hash {
    if |b| >= 32 then b[|b| - 32..] else seq(32 - |b|, i => 0) + b
  }

  class TrieDB {
    const diskdb: MemDB
    var dirties: Dirties
    var oldest: Hash
    var newest: Hash
    /** The cached nodes in the order of the flush list. */
    ghost var list: seq<Hash>
    /** The nodes on disk. */
    ghost var stored: Disk
    /** A height for every node. */
    ghost const rank: Hash -> nat

    function State(): Db
      reads this
    {
      Db(dirties, oldest, newest)
    }

    ghost predicate Valid()
      reads this, diskdb
    {
      && Linked(State(), list, {})
      && MetaOk(dirties) && Ranked(dirties, rank) && Writable(dirties) && Single(dirties)
      && DiskIs(diskdb.kv, stored)
    }

    /** Every reference leads to a node that is cached or on disk, and the count of every cached
        node that is not `loose` is the number of references to it. */
    ghost predicate Right(loose: iset<Hash>)
      reads this
    {
      RefCounts.Right(dirties, list, stored, loose)
    }

    /** The nodes whose counts may be off without harm: while they leave the cache and come
        back, the disk keeps them. */
    ghost function OnDisk(): iset<Hash>
      reads this
    {
      iset h | h in stored
    }

    /** What `nodeBlob` answers from. */
    ghost function Store(): TrieOps.Store
      reads this
    {
      View(dirties, stored)
    }

    /** `NewTrieDB`, on a disk with the nodes `stored` on it. */
    constructor (diskdb: MemDB, ghost stored: Disk, ghost rank: Hash -> nat)
      requires DiskIs(diskdb.kv, stored)
      ensures Valid() && this.diskdb == diskdb && this.stored == stored && this.rank == rank
      ensures dirties == map[ZERO_HASH := Cached(RawNil, 0, Some(map[]), ZERO_HASH, ZERO_HASH)] && list == []
      ensures DiskClosed(stored) ==> forall loose :: Right(loose)
    {
      this.diskdb := diskdb;
      dirties := map[ZERO_HASH := Cached(RawNil, 0, Some(map[]), ZERO_HASH, ZERO_HASH)];
      oldest, newest := ZERO_HASH, ZERO_HASH;
      list, this.stored, this.rank := [], stored, rank;
    }

    /** `nodeBlob`: "not found" for the metaroot and for nodes neither cached nor on disk. */
    method NodeBlob(hash: Hash) returns (r: Option<seq<byte>>)
      requires Valid()
      ensures r == if hash in Store() then Some(Store()[hash]) else None
    {
      hide RawBlob;
      if hash == ZERO_HASH {
        return None;
      }
      if hash in dirties {
        var blob := NodeToBytes(dirties[hash].node);
        return Some(blob);
      }
      var enc := diskdb.Get(hash);
      if hash in stored {
        BlobNotEmpty(stored[hash]);
      }
      if enc.None? || |enc.value| == 0 {
        return None;
      }
      return enc;
    }

    /** `node`: from the cache by expanding the raw node, from disk by decoding its bytes.  When
        the database holds nodes of tries, both are the decoding of the node's bytes. */
    method Node(hash: Hash, ghost k: Keccak) returns (r: Option<Nodes.Node>)
      requires Valid() && hash != ZERO_HASH
      requires hash in dirties ==> IsTreeNode(k, dirties[hash].node)
      requires hash in stored && hash !in dirties ==> IsTreeNode(k, stored[hash])
      ensures r == if hash in Store() then DecodeNode(Some(hash), Store()[hash]) else None
      ensures r.Some? <==> hash in Store()
    {
      hide RawBlob, DecodeNode, Expand, RawOf, DiskIs, Linked;
      if hash in dirties {
        ghost var t :| Canon(t) && Nodes.Sized(t) && dirties[hash].node == RawOf(k, t);
        ReadPathsAgree(k, t, hash);
        return Some(Expand(Some(hash), dirties[hash].node));
      }
      DiskAt(diskdb.kv, stored, hash);
      var enc := diskdb.Get(hash);
      if enc.None? {
        return None;
      }
      ghost var t :| Canon(t) && Nodes.Sized(t) && stored[hash] == RawOf(k, t);
      ReadPathsAgree(k, t, hash);
      return DecodeNode(Some(hash), enc.value);
    }

    static lemma DiskAt(kv: Kv, st: Disk, hash: Hash)
      requires DiskIs(kv, st)
      ensures hash in kv <==> hash in st
      ensures hash in st ==> kv[hash] == RawBlob(st[hash])
    {
    }

    /** The raw form of a canonical tree's node. */
    static ghost predicate IsTreeNode(k: Keccak, r: Raw) {
      exists t :: Canon(t) && Nodes.Sized(t) && r == RawOf(k, t)
    }

    static lemma BlobNotEmpty(r: Raw)
      ensures |RawBlob(r)| > 0
    {
    }

    // -------------------------------------------------------------- inserting

    /** `insert` */
    method Insert(hash: Hash, node: Raw)
      requires Valid() && |RawBlob(node)| < TWO_64
      requires forall c | c in Gather(node) :: Lower(rank, c, hash)
      modifies this
      ensures Valid() && stored == old(stored)
      ensures NewestOk(old(State())) && State() == Inserted(old(State()), hash, node)
      ensures list == ListAfter(old(State()), old(list), hash)
      ensures forall loose | old(Right(loose)) :: Right(loose) <==> old(InsertFits(dirties, list, stored, loose, hash, node))
    {
      hide Linked, Ranked, Writable, DiskIs, MetaOk, Single, Bumped, RawBlob, Gather, RefCounts.Right, InsertFits, Inserted, Append,
           ListAfter;
      NewestCached(State(), list);
      InsertedIs(State(), list, hash, node);
      InsertedOk(dirties, Inserted(State(), hash, node).dirties, rank, hash, node);
      forall loose | Right(loose)
        ensures RefCounts.Right(Inserted(State(), hash, node).dirties, ListAfter(State(), list, hash), stored, loose)
           <==> InsertFits(dirties, list, stored, loose, hash, node)
      {
        NotOwnChild(rank, hash, node);
        InsertRight(State(), list, stored, loose, hash, node);
      }
      if hash in dirties {
        InsertedOld(State(), list, hash, node);
        return;
      }
      ListAfterNew(State(), list, hash);
      InsertedNew(State(), hash, node);
      var entry := Cached(node, 0, None, ZERO_HASH, ZERO_HASH);
      CountIn(Gather(node));
      Enlist(hash, entry);
      list := list + [hash];
    }

    /** Putting a new node at the end of the flush list. */
    method Enlist(hash: Hash, entry: Cached)
      requires NewestOk(State()) && hash !in dirties
      modifies this`dirties, this`oldest, this`newest
      ensures State() == Append(old(State()), hash, entry)
    {
      dirties := dirties[hash := entry.(prev := newest, next := ZERO_HASH)];
      if oldest == ZERO_HASH {
        oldest, newest := hash, hash;
      } else {
        dirties := SetNext(dirties, newest, hash);
        newest := hash;
      }
    }

    static lemma NotOwnChild(rank: Hash -> nat, h: Hash, node: Raw)
      requires forall c | c in Gather(node) :: Lower(rank, c, h)
      ensures h !in Gather(node)
    {
      assert !Lower(rank, h, h);
    }

    /** The callbacks of `insert`: every cached child has one parent more. */
    method CountIn(childs: seq<Hash>)
      modifies this`dirties
      ensures dirties == Bumped(old(dirties), childs)
    {
      hide Bumped;
      BumpedNone(dirties);
      assert childs[..0] == [];
      for i := 0 to |childs|
        invariant dirties == Bumped(old(dirties), childs[..i])
      {
        BumpedNext(old(dirties), childs, i);
        var child := childs[i];
        if child in dirties {
          dirties := dirties[child := dirties[child].(parents := Inc(dirties[child].parents))];
        }
      }
      assert childs[..|childs|] == childs;
    }

    static lemma BumpedNone(d: Dirties)
      ensures Bumped(d, []) == d
    {
    }

    static lemma BumpedNext(d: Dirties, cs: seq<Hash>, i: nat)
      requires i < |cs|
      ensures Bumped(d, cs[..i + 1]) == Bump(Bumped(d, cs[..i]), cs[i])
    {
      assert cs[..i + 1][..i] == cs[..i];
    }

    static predicate NewestOk(s: Db) {
      s.oldest == ZERO_HASH || s.newest in s.dirties
    }

    static lemma InsertedOk(d: Dirties, d': Dirties, rank: Hash -> nat, h: Hash, node: Raw)
      requires MetaOk(d) && Ranked(d, rank) && Writable(d) && Single(d) && |RawBlob(node)| < TWO_64
      requires forall c | c in Gather(node) :: Lower(rank, c, h)
      requires d'.Keys == d.Keys + {h}
      requires forall g | g in d :: d'[g].node == d[g].node && d'[g].children == d[g].children
      requires h !in d ==> d'[h].node == node && d'[h].children.None?
      ensures MetaOk(d') && Ranked(d', rank) && Writable(d') && Single(d')
    {
      forall g, c | g in d' && g != ZERO_HASH && Refers(d'[g], c) ensures Lower(rank, c, g) {
        if g in d {
          assert Refers(d[g], c);
        }
      }
    }

    /** The inner loop of `Update`: one set, in the order its paths were marked.  A path
        without a node is an error. */
    method InsertSet(subset: NodeSet) returns (ok: bool)
      requires Valid() && SetOk(subset.View(), rank)
      modifies this
      ensures Valid() && stored == old(stored)
      ensures ok <==> Complete(subset.View())
      ensures ok ==> State() == InsertAll(old(State()), Entries(subset.View()))
    {
      hide TrieDB.Valid, InsertAll, Inserted, ListAfter, RawBlob, Gather, Lower, SetOk, Entries, NewestOk, RefCounts.Right, InsertFits;
      ghost var es: seq<Entry> := [];
      ghost var u := subset.View();
      InsertNone(State(), es);
      for i := 0 to |subset.order|
        invariant Valid() && stored == old(stored)
        invariant forall j | 0 <= j < i :: u.order[j] in u.nodes
        invariant IsPart(u, es, i)
        invariant State() == InsertAll(old(State()), es)
      {
        hide IsPart;
        var path := subset.order[i];
        if path !in subset.nodes {
          return false;
        }
        var n := subset.nodes[path];
        SetAt(u, rank, path);
        Insert(n.hash, n.node);
        PartSnoc(u, es, i);
        InsertAllSnoc(old(State()), es, Entry(path, n.hash, n.node));
        es := es + [Entry(path, n.hash, n.node)];
      }
      PartAll(u, es);
      return true;
    }

    /** The first `i` entries of a set. */
    static ghost predicate IsPart(u: Updates, es: seq<Entry>, i: nat) {
      |es| == i <= |u.order| && forall j | 0 <= j < i ::
        u.order[j] in u.nodes && es[j] == Entry(u.order[j], u.nodes[u.order[j]].hash, u.nodes[u.order[j]].node)
    }

    static lemma PartSnoc(u: Updates, es: seq<Entry>, i: nat)
      requires IsPart(u, es, i) && i < |u.order| && u.order[i] in u.nodes
      ensures IsPart(u, es + [Entry(u.order[i], u.nodes[u.order[i]].hash, u.nodes[u.order[i]].node)], i + 1)
    {
    }

    static lemma PartAll(u: Updates, es: seq<Entry>)
      requires IsPart(u, es, |u.order|)
      ensures Complete(u) && es == Entries(u)
    {
    }

    static lemma SetAt(u: Updates, rank: Hash -> nat, p: seq<byte>)
      requires SetOk(u, rank) && p in u.order && p in u.nodes
      ensures |RawBlob(u.nodes[p].node)| < TWO_64 && forall c | c in Gather(u.nodes[p].node) :: Lower(rank, c, u.nodes[p].hash)
    {
    }

    lemma ValidLinked()
      requires Valid()
      ensures Linked(State(), list, {})
    {
    }

    /** Nodes that `Update` takes: writable, and above what they refer to. */
    static ghost predicate SetOk(u: Updates, rank: Hash -> nat) {
      forall p | p in u.order && p in u.nodes ::
        |RawBlob(u.nodes[p].node)| < TWO_64 && forall c | c in Gather(u.nodes[p].node) :: Lower(rank, c, u.nodes[p].hash)
    }

    static function Concat(order: seq<Hash>, views: map<Hash, Updates>): seq<Entry>
      requires forall o | o in order :: o in views && Complete(views[o])
    {
      if order == [] then [] else Concat(order[..|order| - 1], views) + Entries(views[order[|order| - 1]])
    }

    /** The owners: storage tries in whatever order, the account trie last. */
    static method OwnerOrder(sets: map<Hash, NodeSet>) returns (order: seq<Hash>)
      ensures Distinct(order) && forall o :: o in order <==> o in sets
      ensures ZERO_HASH in sets ==> order != [] && order[|order| - 1] == ZERO_HASH
    {
      order := [];
      var todo := sets.Keys - {ZERO_HASH};
      while todo != {}
        invariant todo <= sets.Keys - {ZERO_HASH} && Distinct(order)
        invariant forall o :: o in order <==> o in sets && o != ZERO_HASH && o !in todo
        decreases |todo|
      {
        var o :| o in todo;
        order, todo := order + [o], todo - {o};
      }
      if ZERO_HASH in sets {
        order := order + [ZERO_HASH];
      }
    }

    /** An account leaf can be linked: the node that holds it is inserted with it. */
    static ghost predicate LeafOk(leaf: Leaf, account: seq<byte> -> Option<Hash>, u: Updates, rank: Hash -> nat) {
      && (exists p :: p in u.order && p in u.nodes && u.nodes[p].hash == leaf.parent)
      && (account(leaf.blob).Some? && account(leaf.blob).value != EMPTY_ROOT ==> Lower(rank, account(leaf.blob).value, leaf.parent))
    }

    /** `Update`: the sets' nodes go to the cache, and account leaves are linked to the storage
        tries they name.  `account` decodes a leaf; at the first one that fails the rest stay
        without a link. */
    method Update(nodes: MergedNodeSet, account: seq<byte> -> Option<Hash>)
      returns (ok: bool, ghost order: seq<Hash>, ghost linked: nat)
      requires Valid()
      requires forall o | o in nodes.sets :: SetOk(nodes.sets[o].View(), rank)
      requires ZERO_HASH in nodes.sets ==> var u := nodes.sets[ZERO_HASH].View();
        forall leaf | leaf in u.leaves :: LeafOk(leaf, account, u, rank)
      modifies this
      ensures Valid() && stored == old(stored)
      ensures var leaves := nodes.AccountLeaves();
        && linked <= |leaves| && (forall j | 0 <= j < linked :: account(leaves[j].blob).Some?)
        && (linked < |leaves| ==> account(leaves[linked].blob).None? || !nodes.AllComplete())
      ensures ok <==> nodes.AllComplete() && linked == |nodes.AccountLeaves()|
      ensures nodes.AllComplete() ==>
        && Distinct(order) && (forall o :: o in order <==> o in nodes.sets)
        && (ZERO_HASH in nodes.sets ==> order != [] && order[|order| - 1] == ZERO_HASH)
        && var es, leaves := Concat(order, nodes.Views()), nodes.AccountLeaves()[..linked];
           && State() == Updated(old(State()), es, leaves, account)
           && Settled(old(State()), old(list), stored, es, leaves, State(), list)
    {
      hide TrieDB.Valid, SetOk, Complete, Entries, LeafOk, Distinct, Concat, InsertAll, Updated, Linked, Settled, MergedNodeSet.Views,
           MergedNodeSet.AccountLeaves, MergedNodeSet.AllComplete;
      ghost var views, leaves, s, l := nodes.Views(), nodes.AccountLeaves(), State(), list;
      nodes.ViewsAre();
      ValidLinked();
      var owners := OwnerOrder(nodes.sets);
      order, linked := owners, 0;
      ok := InsertSets(nodes.sets, owners, views);
      nodes.SameSets();
      if !ok {
        return;
      }
      ghost var es := Concat(owners, views);
      NothingLinked(s, es, account);
      if ZERO_HASH in nodes.sets {
        ok, linked := LinkLeaves(nodes.sets[ZERO_HASH], account, es, owners, views, s, l);
        nodes.SameSets();
      }
      ValidLinked();
      UpdateSettles(s, l, stored, es, leaves[..linked], account, State(), list, owners, views);
    }

    static lemma NothingLinked(s: Db, es: seq<Entry>, account: seq<byte> -> Option<Hash>)
      ensures Updated(s, es, [], account) == InsertAll(s, es)
    {
      LinkNone(InsertAll(s, es).dirties, [], account);
    }

    /** What an `Update` is worth: the entries are adopted; and what was right stays right
        exactly when they fit and no count overflows. */
    static ghost predicate Settled(s: Db, l: seq<Hash>, st: Disk, es: seq<Entry>, leaves: seq<Leaf>, s': Db, l': seq<Hash>) {
      && Adopted(s.dirties, es, s'.dirties)
      && ((forall leaf | leaf in leaves :: leaf.parent != ZERO_HASH) ==>
            forall loose | RefCounts.Right(s.dirties, l, st, loose) ::
              RefCounts.Right(s'.dirties, l', st, loose) <==>
                EntriesFit(s.dirties, l, st, loose, es) && NoOverflow(s'.dirties, l', loose))
    }

    lemma UpdateSettles(s: Db, l: seq<Hash>, st: Disk, es: seq<Entry>, leaves: seq<Leaf>, account: seq<byte> -> Option<Hash>,
                        s': Db, l': seq<Hash>, order: seq<Hash>, views: map<Hash, Updates>)
      requires Linked(s, l, {}) && s' == Updated(s, es, leaves, account) && Linked(s', l', {})
      requires forall o | o in order :: o in views && Complete(views[o]) && SetOk(views[o], rank)
      requires es == Concat(order, views)
      ensures Settled(s, l, st, es, leaves, s', l')
    {
      hide Linked, Updated, Adopted, Concat, ListAll, RefCounts.Right, EntriesFit, NoOverflow, SetOk, Complete, Gather;
      UpdatedLinked(s, l, es, leaves, account);
      SameList(s', l', ListAll(s, l, es));
      if forall leaf | leaf in leaves :: leaf.parent != ZERO_HASH {
        ConcatOk(order, views, rank);
        forall loose | RefCounts.Right(s.dirties, l, st, loose)
          ensures RefCounts.Right(s'.dirties, l', st, loose) <==>
            EntriesFit(s.dirties, l, st, loose, es) && NoOverflow(s'.dirties, l', loose)
        {
          UpdateRight(s, l, st, loose, es, leaves, account);
        }
      }
    }

    static lemma {:induction false} ConcatOk(order: seq<Hash>, views: map<Hash, Updates>, rank: Hash -> nat)
      requires forall o | o in order :: o in views && Complete(views[o]) && SetOk(views[o], rank)
      ensures forall e | e in Concat(order, views) :: e.hash !in Gather(e.node)
    {
      hide SetOk, Complete, Entries;
      if order != [] {
        var n := |order| - 1;
        forall o | o in order[..n] ensures o in views && Complete(views[o]) && SetOk(views[o], rank) {
          assert o in order;
        }
        ConcatOk(order[..n], views, rank);
        assert order[n] in order;
        forall e | e in Entries(views[order[n]]) ensures e.hash !in Gather(e.node) {
          EntryOk(views[order[n]], rank, e);
        }
      }
    }

    static lemma EntryOk(u: Updates, rank: Hash -> nat, e: Entry)
      requires Complete(u) && SetOk(u, rank) && e in Entries(u)
      ensures e.hash !in Gather(e.node)
    {
      hide Gather, Lower;
      var i :| 0 <= i < |Entries(u)| && Entries(u)[i] == e;
      assert u.order[i] in u.order;
      NotOwnChild(rank, e.hash, e.node);
    }

    /** The list that is threaded through a cache is unique. */
    static lemma SameList(s: Db, a: seq<Hash>, b: seq<Hash>)
      requires Linked(s, a, {}) && Linked(s, b, {})
      ensures a == b
    {
      hide Linked;
      WalkFromOldest(s, a, |a| + |b|);
      WalkFromOldest(s, b, |a| + |b|);
    }

    static lemma WalkFromOldest(s: Db, list: seq<Hash>, n: nat)
      requires Linked(s, list, {}) && n >= |list|
      ensures Walk(s, s.oldest, n) == list
    {
      WalkRest(s, list, 0, n);
      assert list[0..] == list;
    }

    /** The outer loop of `Update`. */
    method InsertSets(sets: map<Hash, NodeSet>, owners: seq<Hash>, ghost views: map<Hash, Updates>) returns (ok: bool)
      requires Valid() && forall o | o in owners :: o in sets && o in views && sets[o].View() == views[o] && SetOk(views[o], rank)
      modifies this
      ensures Valid() && stored == old(stored)
      ensures ok <==> forall o | o in owners :: Complete(views[o])
      ensures ok ==> State() == InsertAll(old(State()), Concat(owners, views))
    {
      hide TrieDB.Valid, SetOk, Complete, Entries, Concat, InsertAll;
      ConcatNone(owners[..0], views);
      InsertNone(State(), []);
      for i := 0 to |owners|
        invariant Valid() && stored == old(stored)
        invariant forall j | 0 <= j < i :: Complete(views[owners[j]])
        invariant State() == InsertAll(old(State()), Concat(owners[..i], views))
      {
        ok := InsertSet(sets[owners[i]]);
        if !ok {
          return;
        }
        ConcatNext(owners, views, i);
        InsertAllSum(old(State()), Concat(owners[..i], views), Entries(views[owners[i]]));
      }
      assert owners[..|owners|] == owners;
      ok := true;
    }

    static lemma ConcatNone(order: seq<Hash>, views: map<Hash, Updates>)
      requires order == []
      ensures Concat(order, views) == []
    {
    }

    static lemma ConcatNext(order: seq<Hash>, views: map<Hash, Updates>, i: nat)
      requires i < |order| && forall j | 0 <= j <= i :: order[j] in views && Complete(views[order[j]])
      ensures Concat(order[..i + 1], views) == Concat(order[..i], views) + Entries(views[order[i]])
    {
      assert order[..i + 1][..i] == order[..i];
    }

    /** The last loop of `Update`. */
    method LinkLeaves(subset: NodeSet, account: seq<byte> -> Option<Hash>, ghost es: seq<Entry>,
                      ghost order: seq<Hash>, ghost views: map<Hash, Updates>, ghost s: Db, ghost l: seq<Hash>)
      returns (ok: bool, ghost linked: nat)
      requires Valid() && Linked(s, l, {}) && State() == InsertAll(s, es)
      requires forall o | o in order :: o in views && Complete(views[o])
      requires es == Concat(order, views) && ZERO_HASH in order && views[ZERO_HASH] == subset.View()
      requires forall leaf | leaf in subset.leaves :: LeafOk(leaf, account, subset.View(), rank)
      modifies this`dirties
      ensures Valid() && linked <= |subset.leaves|
      ensures State() == Updated(s, es, subset.leaves[..linked], account)
      ensures forall j | 0 <= j < linked :: account(subset.leaves[j].blob).Some?
      ensures linked < |subset.leaves| ==> account(subset.leaves[linked].blob).None?
      ensures ok <==> linked == |subset.leaves|
    {
      hide TrieDB.Valid, Linked, Adopted, SetOk, Complete, Entries, LeafOk, Concat, Lower, LinkAll, InsertAll, Referenced,
           RefCounts.Right, ReferenceFits;
      LinkNone(dirties, subset.leaves[..0], account);
      ghost var d0 := dirties;
      for i := 0 to |subset.leaves|
        invariant Valid() && dirties == LinkAll(d0, subset.leaves[..i], account)
        invariant forall j | 0 <= j < i :: account(subset.leaves[j].blob).Some?
      {
        var leaf := subset.leaves[i];
        var root := account(leaf.blob);
        if root.None? {
          return false, i;
        }
        UpdatedLinked(s, l, es, subset.leaves[..i], account);
        LeafReady(leaf, account, order, views, es, s.dirties, dirties, rank);
        LinkNext(d0, subset.leaves, i, account);
        if root.value != EMPTY_ROOT {
          LowerIs(rank, root.value, leaf.parent);
          Reference(root.value, leaf.parent);
        }
      }
      ok, linked := true, |subset.leaves|;
    }

    static lemma {:induction false} ConcatHas(order: seq<Hash>, views: map<Hash, Updates>, o: Hash, e: Entry)
      requires forall o | o in order :: o in views && Complete(views[o])
      requires o in order && e in Entries(views[o])
      ensures e in Concat(order, views)
    {
      var n := |order| - 1;
      if order[n] != o {
        assert order == order[..n] + [order[n]];
        ConcatHas(order[..n], views, o, e);
      }
    }

    static lemma LeafReady(leaf: Leaf, account: seq<byte> -> Option<Hash>, order: seq<Hash>, views: map<Hash, Updates>,
                           es: seq<Entry>, d0: Dirties, d: Dirties, rank: Hash -> nat)
      requires forall o | o in order :: o in views && Complete(views[o])
      requires es == Concat(order, views) && ZERO_HASH in order && Adopted(d0, es, d)
      requires LeafOk(leaf, account, views[ZERO_HASH], rank)
      ensures leaf.parent in d
      ensures account(leaf.blob).Some? && account(leaf.blob).value != EMPTY_ROOT ==> Lower(rank, account(leaf.blob).value, leaf.parent)
    {
      var u := views[ZERO_HASH];
      var p :| p in u.order && p in u.nodes && u.nodes[p].hash == leaf.parent;
      var i :| 0 <= i < |u.order| && u.order[i] == p;
      var e := Entries(u)[i];
      assert e in Entries(u) && e.hash == leaf.parent;
      ConcatHas(order, views, ZERO_HASH, e);
    }

    // -------------------------------------------------------------- references

    /** The cached nodes whose counts are off. */
    ghost function Off(): iset<Hash>
      reads this`dirties, this`list
    {
      Miscounted(dirties, list)
    }

    /** `reference` */
    method Reference(child: Hash, parent: Hash)
      requires Valid() && parent in dirties && (child in dirties ==> Lower(rank, child, parent) || parent == ZERO_HASH)
      requires child != parent && child != ZERO_HASH
      modifies this`dirties
      ensures Valid() && dirties == Referenced(old(dirties), child, parent)
      ensures forall loose | old(Right(loose)) :: Right(loose) <==> old(ReferenceFits(dirties, list, loose, child, parent))
    {
      hide Linked, Ranked, Writable, DiskIs, MetaOk, Single, RefCounts.Right, ReferenceFits, Referenced;
      ReferencedIs(dirties, child, parent);
      ReferencedSteps(dirties, child, parent);
      ReferencedOk(State(), list, child, parent, rank);
      forall loose | Right(loose)
        ensures RefCounts.Right(Referenced(dirties, child, parent), list, stored, loose)
           <==> ReferenceFits(dirties, list, loose, child, parent)
      {
        ReferenceRight(State(), list, stored, loose, child, parent);
      }
      assert State().(dirties := dirties) == State();
      if child !in dirties {
        return;
      }
      if dirties[parent].children.None? {
        dirties := dirties[parent := dirties[parent].(children := Some(map[]))];
      } else if child in dirties[parent].children.value && parent != ZERO_HASH {
        return;
      }
      dirties := dirties[child := dirties[child].(parents := Inc(dirties[child].parents))];
      var cs := dirties[parent].children.value;
      var n: int := if child in cs then cs[child] else 0;
      dirties := dirties[parent := dirties[parent].(children := Some(cs[child := (n + 1) % 0x1_0000]))];
      assert dirties == Referenced(old(dirties), child, parent);
      assert State() == old(State()).(dirties := dirties);
    }

    /** The steps of `reference`: the parent's map if it has none, the child's count, the reference. */
    static lemma ReferencedSteps(d: Dirties, child: Hash, parent: Hash)
      requires parent in d && child != parent
      ensures child !in d ==> Referenced(d, child, parent) == d
      ensures child in d && d[parent].children.Some? && child in d[parent].children.value && parent != ZERO_HASH ==>
        Referenced(d, child, parent) == d
      ensures child in d && !(d[parent].children.Some? && child in d[parent].children.value && parent != ZERO_HASH) ==>
        var d1 := if d[parent].children.None? then d[parent := d[parent].(children := Some(map[]))] else d;
        var d2 := d1[child := d1[child].(parents := Inc(d1[child].parents))];
        var cs := d2[parent].children.value;
        var n: int := if child in cs then cs[child] else 0;
        Referenced(d, child, parent) == d2[parent := d2[parent].(children := Some(cs[child := (n + 1) % 0x1_0000]))]
    {
    }

    static lemma ReferencedOk(s: Db, list: seq<Hash>, child: Hash, parent: Hash, rank: Hash -> nat)
      requires parent in s.dirties && child != parent && Linked(s, list, {})
      requires child in s.dirties ==> Lower(rank, child, parent) || parent == ZERO_HASH
      requires MetaOk(s.dirties) && Ranked(s.dirties, rank) && Writable(s.dirties) && Single(s.dirties)
      ensures var d' := Referenced(s.dirties, child, parent);
        MetaOk(d') && Ranked(d', rank) && Writable(d') && Single(d') && Linked(s.(dirties := d'), list, {})
    {
      hide Linked, Referenced;
      var d, d' := s.dirties, Referenced(s.dirties, child, parent);
      ReferencedIs(d, child, parent);
      LinkedSame(s, s.(dirties := d'), list, {});
      forall h, c | h in d' && h != ZERO_HASH && Refers(d'[h], c) ensures Lower(rank, c, h) {
        assert Refers(d[h], c) || (h == parent && c == child);
      }
    }

    ghost predicate Cascade(away: set<Hash>, pending: multiset<Hash>, loose: iset<Hash>)
      reads this, diskdb
    {
      CascadeOk(State(), list, away, pending, rank, loose) && DiskIs(diskdb.kv, stored)
    }

    /** `dereference`: drops one reference; a node whose last reference goes leaves the cache,
        and drops its own.  What was right stays right exactly when the parent holds an explicit
        reference to the child, or nothing is lost: the count is lowered whether or not there is
        a reference to drop. */
    method Dereference(child: Hash, parent: Hash, ghost loose: iset<Hash>)
      requires Valid() && parent in dirties && child != parent && child != ZERO_HASH
      modifies this
      ensures Valid() && stored == old(stored)
      ensures Trimmed(rank, ALL, old(dirties), old(list), dirties, list, rank(child), parent)
      ensures Dereferenced(old(dirties), old(list), dirties, list, child, parent)
      ensures old(Right(loose)) && loose <= old(OnDisk()) ==>
        (Right(loose) <==> old(DereferenceFits(dirties, stored, loose, child, parent)))
    {
      hide CascadeOk, DiskIs, Trimmed, Linked, MetaOk, Ranked, Writable, Single, TrieDB.Valid, TrieDB.Cascade, RefCounts.Right,
           Dereferenced, MayDrop, Owed, Conserved, Excused, DereferenceFits, ALL;
      ghost var counted := Right(loose) && loose <= OnDisk();
      ghost var x := if counted then Excused(dirties, stored, loose, child, parent) else ALL;
      CascadeBegins(counted, loose, x, child, parent);
      ghost var s, l := State(), list;
      DereferenceIn(child, parent, {}, multiset{}, x);
      CascadeEnds(x, s, child, parent);
      TrimmedLooser(rank, x, s.dirties, l, dirties, list, rank(child), parent);
      if counted {
        DereferenceRight(s, l, State(), list, stored, rank, loose, child, parent);
      }
    }

    lemma CascadeBegins(counted: bool, loose: iset<Hash>, x: iset<Hash>, child: Hash, parent: Hash)
      requires Valid() && parent in dirties && (counted ==> Right(loose) && loose <= OnDisk())
      requires x == if counted then Excused(dirties, stored, loose, child, parent) else ALL
      ensures Cascade({}, multiset{}, x) && MayDrop(dirties, {}, multiset{}, x, child, parent)
      ensures Linked(State(), list, {}) && Ranked(dirties, rank)
      ensures counted ==> RefCounts.Right(dirties, list, stored, loose) && forall h | h in loose :: h in stored
    {
      hide Refs, Linked, MetaOk, Ranked, Writable, Single, Closed, Explicit, DiskIs;
      LinkedKeys(State(), list);
      forall h | h in list && h !in x ensures dirties[h].parents == Refs(dirties, list, h) + multiset{}[h] {
        assert h !in loose;
      }
    }

    lemma CascadeEnds(x: iset<Hash>, was: Db, child: Hash, parent: Hash)
      requires parent in was.dirties && Cascade({}, Owed(was.dirties, {}, multiset{}, child, parent) - multiset{child}, x)
      ensures Valid() && Linked(State(), list, {}) && Conserved(dirties, list, multiset{}, x)
    {
      assert multiset{} - multiset{child} == multiset{};
      hide Conserved;
    }

    static lemma TrimmedLooser(rank: Hash -> nat, x: iset<Hash>, d: Dirties, l: seq<Hash>, d': Dirties, l': seq<Hash>, top: nat, parent: Hash)
      requires Trimmed(rank, x, d, l, d', l', top, parent)
      ensures Trimmed(rank, ALL, d, l, d', l', top, parent)
    {
      hide Count, Unreferenced;
    }

    /** A call of `dereference` within a cascade.  The flush list stays intact; counts that are
        right stay right, and no node with a right count leaves while it is referred to. */
    method DereferenceIn(child: Hash, parent: Hash, ghost away: set<Hash>, ghost pending: multiset<Hash>, ghost loose: iset<Hash>)
      requires Cascade(away, pending, loose) && parent in dirties && child != parent && child != ZERO_HASH
      requires (forall a | a in away :: rank(child) < rank(a)) && MayDrop(dirties, away, pending, loose, child, parent)
      modifies this
      ensures Cascade(away, Owed(old(dirties), away, pending, child, parent) - multiset{child}, loose)
      ensures Trimmed(rank, loose, old(dirties), old(list), dirties, list, rank(child), parent)
      ensures Dereferenced(old(dirties), old(list), dirties, list, child, parent)
      ensures stored == old(stored)
      decreases rank(child), 3
    {
      hide CascadeOk, DiskIs, Trimmed, Forgotten, Explicit, Lowered, Owed;
      ghost var owed := Owed(dirties, away, pending, child, parent);
      ForgetsOk(State(), list, away, pending, rank, loose, child, parent);
      ForgottenIs(dirties[parent], child);
      CascadeKeys(State(), list, away, pending, rank, loose);
      HalfTrimmed(rank, loose, dirties, list, child, parent, dirties[parent := Forgotten(dirties[parent], child)], rank(child));
      var node := dirties[parent];
      if node.children.Some? && child in node.children.value && node.children.value[child] > 0 {
        var n := node.children.value[child] - 1;
        var cs := if n == 0 then node.children.value - {child} else node.children.value[child := n];
        dirties := dirties[parent := node.(children := Some(cs))];
      }
      assert State() == old(State()).(dirties := old(dirties)[parent := Forgotten(old(dirties)[parent], child)]);
      ghost var d1, l1 := dirties, list;
      DropCount(child, parent, away, owed, loose);
      TrimmedTwice(rank, loose, old(dirties), old(list), d1, l1, dirties, list, rank(child), rank(child), rank(child), parent);
    }

    /** The second half of `dereference`: the child has one parent less, and may have to go. */
    method DropCount(child: Hash, ghost parent: Hash, ghost away: set<Hash>, ghost pending: multiset<Hash>, ghost loose: iset<Hash>)
      requires Cascade(away, pending, loose) && child != parent && child != ZERO_HASH
      requires forall a | a in away :: rank(child) < rank(a)
      requires child in loose || child !in dirties || pending[child] > 0 || dirties[child].parents == 0
      modifies this
      ensures Cascade(away, pending - multiset{child}, loose)
      ensures Trimmed(rank, loose, old(dirties), old(list), dirties, list, rank(child), parent)
      ensures forall h | h in dirties :: h in old(dirties) && dirties[h].children == old(dirties)[h].children
      ensures child !in old(dirties) ==> dirties == old(dirties) && list == old(list)
      ensures child in old(dirties) && old(dirties)[child].parents > 1 ==> dirties == Lowered(old(dirties), child) && list == old(list)
      ensures child in old(dirties) && old(dirties)[child].parents <= 1 ==> child !in dirties
      ensures stored == old(stored)
      decreases rank(child), 2
    {
      hide CascadeOk, DiskIs, Trimmed;
      ghost var rest := pending - multiset{child};
      CascadeKeys(State(), list, away, pending, rank, loose);
      TrimmedSelf(rank, loose, dirties, list, rank(child), parent);
      if child !in dirties {
        NotCachedOk(State(), list, away, pending, rest, rank, loose, child);
        return;
      }
      DropsOk(State(), list, away, pending, rank, loose, child);
      LoweredTrims(rank, loose, dirties, list, child, parent);
      if dirties[child].parents > 0 {
        dirties := dirties[child := dirties[child].(parents := dirties[child].parents - 1)];
      }
      assert dirties == Lowered(old(dirties), child);
      if dirties[child].parents == 0 {
        ghost var d2, l2 := dirties, list;
        Remove(child, away, rest, loose);
        SameChildren(rank, loose, d2, l2, dirties, list, rank(child), child);
        WholeTrimmed(rank, loose, old(dirties), old(list), child, parent, old(dirties), d2, dirties, list);
      }
    }

    static lemma LoweredTrims(rank: Hash -> nat, loose: iset<Hash>, d: Dirties, l: seq<Hash>, child: Hash, parent: Hash)
      requires child in d && forall h | h in l :: h in d
      ensures d[child].parents > 1 ==> Trimmed(rank, loose, d, l, Lowered(d, child), l, rank(child), parent)
    {
    }

    static lemma ForgottenIs(e: Cached, child: Hash)
      ensures Explicit(e, child) > 0 <==> e.children.Some? && child in e.children.value && e.children.value[child] > 0
      ensures Explicit(e, child) == 0 ==> Forgotten(e, child) == e
      ensures Explicit(e, child) > 0 ==>
        var n := e.children.value[child] - 1;
        Forgotten(e, child) == e.(children := Some(if n == 0 then e.children.value - {child} else e.children.value[child := n]))
      ensures Forgotten(e, child).parents == e.parents
    {
    }

    static lemma CascadeKeys(s: Db, list: seq<Hash>, away: set<Hash>, pending: multiset<Hash>, rank: Hash -> nat, loose: iset<Hash>)
      requires CascadeOk(s, list, away, pending, rank, loose)
      ensures forall h :: h in list <==> h in s.dirties && h != ZERO_HASH && h !in away
    {
      AwayKeys(s, list, away);
    }

    /** The child leaves: it is unlinked, its references are dropped, and it is deleted. */
    method Remove(child: Hash, ghost away: set<Hash>, ghost pending: multiset<Hash>, ghost loose: iset<Hash>)
      requires Cascade(away, pending, loose) && child in list && child in dirties && dirties[child].parents == 0
      requires forall a | a in away :: rank(child) < rank(a)
      modifies this
      ensures Cascade(away, pending, loose) && child !in dirties
      ensures Trimmed(rank, loose, old(dirties), old(list), dirties, list, rank(child), child)
      ensures stored == old(stored)
      decreases rank(child), 1
    {
      hide CascadeOk, DiskIs, Trimmed, Unlink, Neighbours, Without, Gather, Unreferenced, SameNodes, Lower;
      var node := dirties[child];
      var keys := ChildKeys(node);
      var refs := keys + Gather(node.node);
      CascadeKeys(State(), list, away, pending, rank, loose);
      ghost var i := LeavesOk(State(), list, away, pending, rank, loose, child, keys);
      Detach(child);
      list := Without(list, i);
      ghost var d3, l3 := dirties, list;
      ghost var away3 := away + {child};
      DropAll(refs, child, away3, pending, loose);
      RemoveTrims(rank, loose, old(dirties), old(list), i, d3, dirties, list);
      DeletesOk(State(), list, away, pending, rank, loose, child);
      dirties := dirties - {child};
    }

    static lemma LowerIs(rank: Hash -> nat, c: Hash, h: Hash)
      requires Lower(rank, c, h)
      ensures c != ZERO_HASH && rank(c) < rank(h) && c != h
    {
    }

    static lemma SameChildren(rank: Hash -> nat, loose: iset<Hash>, d: Dirties, l: seq<Hash>, d': Dirties, l': seq<Hash>, top: nat,
                              parent: Hash)
      requires Trimmed(rank, loose, d, l, d', l', top, parent)
      ensures forall h | h in d' && h != parent :: h in d && d'[h].children == d[h].children
    {
    }

    static lemma StillThere(rank: Hash -> nat, loose: iset<Hash>, d: Dirties, l: seq<Hash>, d': Dirties, l': seq<Hash>, top: nat, parent: Hash, h: Hash)
      requires Trimmed(rank, loose, d, l, d', l', top, parent) && h in d && h !in l
      ensures h in d'
    {
    }

    /** The callbacks of `forChilds` on a node that is leaving. */
    method DropAll(refs: seq<Hash>, child: Hash, ghost away: set<Hash>, ghost pending: multiset<Hash>, ghost loose: iset<Hash>)
      requires Cascade(away, pending + multiset(refs), loose) && child in away && child in dirties && child != ZERO_HASH
      requires forall a | a in away :: rank(child) <= rank(a)
      requires forall r | r in refs :: Lower(rank, r, child)
      modifies this
      ensures Cascade(away, pending, loose) && stored == old(stored)
      ensures Trimmed(rank, loose, old(dirties), old(list), dirties, list, rank(child), child)
      decreases rank(child), 0, |refs|
    {
      hide CascadeOk, DiskIs, Trimmed, Lower;
      ghost var d0, l0 := dirties, list;
      CascadeKeys(State(), list, away, pending + multiset(refs), rank, loose);
      TrimmedSelf(rank, loose, d0, l0, rank(child), child);
      assert refs[0..] == refs;
      for j := 0 to |refs|
        invariant Cascade(away, pending + multiset(refs[j..]), loose) && child in dirties
        invariant Trimmed(rank, loose, d0, l0, dirties, list, rank(child), child)
        invariant stored == old(stored)
      {
        ghost var d, l, p := dirties, list, pending + multiset(refs[j..]);
        assert refs[j] in refs;
        RefsStep(refs, j, pending);
        LowerIs(rank, refs[j], child);
        CascadeKeys(State(), list, away, p, rank, loose);
        OwedBelow(dirties, away, p, loose, refs[j], child);
        DereferenceIn(refs[j], child, away, p, loose);
        TrimmedTwice(rank, loose, d0, l0, d, l, dirties, list, rank(child), rank(refs[j]), rank(child), child);
        StillThere(rank, loose, d, l, dirties, list, rank(refs[j]), child, child);
      }
      assert refs[|refs|..] == [] && pending + multiset(refs[|refs|..]) == pending;
    }

    static lemma OwedBelow(d: Dirties, away: set<Hash>, pending: multiset<Hash>, loose: iset<Hash>, child: Hash, parent: Hash)
      requires parent in d && parent in away && pending[child] > 0
      ensures Owed(d, away, pending, child, parent) == pending && MayDrop(d, away, pending, loose, child, parent)
    {
    }

    static lemma RefsStep(refs: seq<Hash>, j: nat, pending: multiset<Hash>)
      requires j < |refs|
      ensures (pending + multiset(refs[j..]))[refs[j]] > 0
      ensures pending + multiset(refs[j..]) - multiset{refs[j]} == pending + multiset(refs[j + 1..])
    {
      assert refs[j..] == [refs[j]] + refs[j + 1..];
    }

    /** The keys of the explicit children, in an order of the map's choosing. */
    static method ChildKeys(e: Cached) returns (keys: seq<Hash>)
      ensures Distinct(keys) && forall c :: c in keys <==> e.children.Some? && c in e.children.value
    {
      keys := [];
      var todo := if e.children.Some? then e.children.value.Keys else {};
      while todo != {}
        invariant forall c | c in todo :: e.children.Some? && c in e.children.value
        invariant Distinct(keys)
        invariant forall c :: c in keys <==> e.children.Some? && c in e.children.value && c !in todo
        decreases |todo|
      {
        var c :| c in todo;
        keys, todo := keys + [c], todo - {c};
      }
    }

    /** Taking a node out of the flush list. */
    method Detach(hash: Hash)
      requires Neighbours(State(), hash)
      modifies this`dirties, this`oldest, this`newest
      ensures State() == Unlink(old(State()), hash)
    {
      var node := dirties[hash];
      if hash == oldest {
        oldest := node.next;
        dirties := SetPrev(dirties, node.next, ZERO_HASH);
      } else if hash == newest {
        newest := node.prev;
        dirties := SetNext(dirties, node.prev, ZERO_HASH);
      } else {
        dirties := SetNext(dirties, node.prev, node.next);
        dirties := SetPrev(dirties, node.next, node.prev);
      }
    }

    // -------------------------------------------------------------- flushing

    /** A flush that began with `d0` and `st0` is under way: what is cached or on disk, and
        what the batch holds, fit together. */
    ghost predicate Underway(d0: Dirties, st0: Disk, batch: MemBatch)
      reads this, diskdb, batch
    {
      && Valid() && batch.Valid() && batch.db == diskdb
      && Ranked(d0, rank) && Writable(d0)
      && Progress(d0, st0, dirties, stored)
      && (Closed(d0, st0) ==> DiskClosed(stored) && BatchClosed(d0, stored, batch.cache))
      && BatchOk(d0, dirties, stored, batch.cache)
      && DoneClosed(d0, dirties, batch.cache)
    }

    /** `submit`: the batch goes to disk, and only then are its nodes taken from the cache. */
    method Submit(batch: MemBatch, uncacher: Cleaner, ghost d0: Dirties, ghost st0: Disk)
      requires uncacher.db == this && Underway(d0, st0, batch)
      modifies this, diskdb, batch
      ensures Underway(d0, st0, batch) && batch.cache == [] && batch.size == 0
      ensures Done(d0, dirties, []) == old(Done(d0, dirties, batch.cache))
      ensures Off() <= old(Off())
    {
      hide BatchOk, BatchClosed, DoneClosed, Done, Progress, Linked, DiskIs, DiskClosed, Ranked, Writable, Closed, MetaOk, RawBlob, Landed, Applied, Miscounted;
      if Closed(d0, st0) {
        LandedClosed(diskdb.kv, stored, d0, dirties, batch.cache);
      }
      LandedIs(diskdb.kv, stored, d0, dirties, batch.cache);
      ProgressLands(d0, st0, dirties, diskdb.kv, stored, batch.cache);
      ChildrenGone(d0, dirties, stored, batch.cache);
      BatchKeys(d0, dirties, stored, batch.cache);
      ghost var b := batch.cache;
      batch.Submit();
      stored := Landed(stored, d0, b);
      uncacher.Write(batch.cache, d0, st0);
      batch.Reset();
      UncacheAll(d0, st0, old(dirties), stored, b, dirties);
    }

    lemma BatchSize(d0: Dirties, st0: Disk, batch: MemBatch)
      requires Underway(d0, st0, batch)
      ensures batch.Valid() && batch.size == Volume(batch.cache)
    {
    }

    static lemma BatchKeys(d0: Dirties, d: Dirties, st: Disk, b: seq<KeyValue>)
      requires BatchOk(d0, d, st, b)
      ensures forall kv | kv in b :: !kv.delete && kv.key in d0 && kv.key != ZERO_HASH && InBatch(b, kv.key)
    {
      forall kv | kv in b ensures !kv.delete && kv.key in d0 && kv.key != ZERO_HASH {
        var i :| 0 <= i < |b| && b[i] == kv;
        assert PutAt(d0, d, st, b, i);
      }
    }

    static lemma ChildrenGone(d0: Dirties, d: Dirties, st: Disk, b: seq<KeyValue>)
      requires BatchOk(d0, d, st, b)
      ensures forall i: nat | i < |b| ::
        (b[i].key in d0 && forall c | Refers(d0[b[i].key], c) && c in d0 :: c !in d || InBatch(b[..i], c))
    {
      forall i: nat | i < |b|
        ensures b[i].key in d0 && forall c | Refers(d0[b[i].key], c) && c in d0 :: c !in d || InBatch(b[..i], c)
      {
        assert PutAt(d0, d, st, b, i);
      }
    }

    /** `commit`: everything below `hash` is dealt with, nothing else is, and readers see the
        same nodes as before, however often the batch is submitted on the way.  The batch stays
        below its ideal size. */
    method CommitNode(hash: Hash, batch: MemBatch, uncacher: Cleaner, ghost d0: Dirties, ghost st0: Disk)
      requires uncacher.db == this && hash != ZERO_HASH && Underway(d0, st0, batch)
      modifies this, diskdb, batch
      ensures Underway(d0, st0, batch)
      ensures Done(d0, dirties, batch.cache) == old(Done(d0, dirties, batch.cache)) + Under(d0, rank, hash)
      ensures Off() <= old(Off())
      ensures old(batch.size) < 100 * 1024 ==> batch.size < 100 * 1024
      decreases rank(hash), 1
    {
      hide BatchOk, BatchClosed, DoneClosed, Done, Progress, Linked, DiskIs, DiskClosed, Ranked, Writable, Closed, MetaOk, RawBlob, Under,
           TrieDB.Valid, Underway, SameEntry, Gather, Miscounted;
      ghost var w := Done(d0, dirties, batch.cache);
      CommitStart(d0, st0, batch, hash);
      if hash !in dirties {
        return;
      }
      var node := dirties[hash];
      var todo := if node.children.Some? then node.children.value.Keys else {};
      while todo != {}
        invariant Underway(d0, st0, batch) && Off() <= old(Off())
        invariant old(batch.size) < 100 * 1024 ==> batch.size < 100 * 1024
        invariant forall c | c in todo :: Refers(d0[hash], c)
        invariant w <= Done(d0, dirties, batch.cache) <= w + (Under(d0, rank, hash) - {hash})
        invariant forall c | node.children.Some? && c in node.children.value && c !in todo ::
                    c in d0 ==> c in Done(d0, dirties, batch.cache)
        decreases |todo|
      {
        var child :| child in todo;
        todo := todo - {child};
        CommitChild(hash, child, batch, uncacher, d0, st0);
      }
      var inner := Gather(node.node);
      for i := 0 to |inner|
        invariant Underway(d0, st0, batch) && Off() <= old(Off())
        invariant old(batch.size) < 100 * 1024 ==> batch.size < 100 * 1024
        invariant w <= Done(d0, dirties, batch.cache) <= w + (Under(d0, rank, hash) - {hash})
        invariant forall c | node.children.Some? && c in node.children.value ::
                    c in d0 ==> c in Done(d0, dirties, batch.cache)
        invariant forall j | 0 <= j < i :: inner[j] in d0 ==> inner[j] in Done(d0, dirties, batch.cache)
      {
        assert inner[i] in inner;
        CommitChild(hash, inner[i], batch, uncacher, d0, st0);
      }
      PutNode(hash, node, batch, uncacher, d0, st0, w);
    }

    /** The end of `commit`: the node itself, and a submit when the batch has grown enough. */
    method PutNode(hash: Hash, node: Cached, batch: MemBatch, uncacher: Cleaner, ghost d0: Dirties, ghost st0: Disk, ghost w: set<Hash>)
      requires uncacher.db == this && Underway(d0, st0, batch)
      requires hash in d0 && hash != ZERO_HASH && SameEntry(d0[hash], node) && |RawBlob(node.node)| < TWO_64
      requires forall c | node.children.Some? && c in node.children.value :: c in d0 ==> c in Done(d0, dirties, batch.cache)
      requires forall c | c in Gather(node.node) :: c in d0 ==> c in Done(d0, dirties, batch.cache)
      requires w <= Done(d0, dirties, batch.cache) <= w + (Under(d0, rank, hash) - {hash})
      modifies this, diskdb, batch
      ensures Underway(d0, st0, batch)
      ensures Done(d0, dirties, batch.cache) == w + Under(d0, rank, hash)
      ensures Off() <= old(Off())
      ensures batch.size < 100 * 1024
    {
      hide BatchOk, BatchClosed, DoneClosed, Done, Progress, Linked, DiskIs, DiskClosed, Ranked, Writable, Closed, MetaOk, RawBlob, Under,
           TrieDB.Valid, Underway, SameEntry, Gather, Miscounted;
      var blob := NodeToBytes(node.node);
      PutReady(d0, st0, batch, hash, node, w);
      batch.Put(hash, blob);
      PutStays(d0, st0, batch);
      BatchSize(d0, st0, batch);
      var size := batch.ValueSize();
      if size >= IDEAL_BATCH_SIZE {
        Submit(batch, uncacher, d0, st0);
      }
    }

    /** One call back from `forChilds`. */
    method CommitChild(ghost hash: Hash, child: Hash, batch: MemBatch, uncacher: Cleaner, ghost d0: Dirties, ghost st0: Disk)
      requires uncacher.db == this && Underway(d0, st0, batch)
      requires hash in d0 && hash != ZERO_HASH && Refers(d0[hash], child)
      modifies this, diskdb, batch
      ensures Underway(d0, st0, batch)
      ensures var w := old(Done(d0, dirties, batch.cache));
        w <= Done(d0, dirties, batch.cache) <= w + (Under(d0, rank, hash) - {hash})
      ensures child in d0 ==> child in Done(d0, dirties, batch.cache)
      ensures Off() <= old(Off())
      ensures old(batch.size) < 100 * 1024 ==> batch.size < 100 * 1024
      decreases rank(hash), 0
    {
      UnderChild(d0, rank, hash, child);
      hide *;
      CommitNode(child, batch, uncacher, d0, st0);
      SelfUnder(d0, rank, child);
    }

    static lemma SelfUnder(d: Dirties, rank: Hash -> nat, h: Hash)
      requires Ranked(d, rank) && h != ZERO_HASH
      ensures h in d ==> h in Under(d, rank, h)
    {
    }

    /** `Commit`: a node and everything below it goes to disk and leaves the cache; nothing else
        does, and readers see the same nodes before, during and after. */
    method Commit(node: Hash)
      requires Valid() && node != ZERO_HASH
      modifies this, diskdb
      ensures Valid() && (old(Closed(dirties, stored)) ==> Closed(dirties, stored))
      ensures Store() == old(Store())
      ensures dirties.Keys == old(dirties.Keys - Under(dirties, rank, node))
      ensures forall h | h in dirties :: SameEntry(old(dirties)[h], dirties[h])
      ensures forall h | h in old(dirties) && h !in dirties :: h in stored && stored[h] == old(dirties)[h].node
      ensures forall h | h in old(stored) :: h in stored
      ensures forall h | h in stored ::
        (h in old(stored) && stored[h] == old(stored)[h]) || (h in old(dirties) && h != ZERO_HASH && stored[h] == old(dirties)[h].node)
      ensures node in Store() ==> node in stored
      ensures forall loose | old(Right(loose)) :: Right(loose)
    {
      ghost var d0, st0 := dirties, stored;
      var batch := new MemBatch(diskdb);
      var uncacher := new Cleaner(this);
      hide BatchOk, BatchClosed, DoneClosed, Done, Progress, Linked, DiskIs, DiskClosed, Ranked, Writable, Closed, MetaOk, RawBlob, Under,
           TrieDB.Valid, SameEntry, Miscounted, View, Underway, RefCounts.Right;
      ValidLinked();
      UnderwayBegins(d0, st0, batch);
      CommitNode(node, batch, uncacher, d0, st0);
      Submit(batch, uncacher, d0, st0);
      UnderwayEnds(d0, st0, batch, node);
      ValidLinked();
      RightStays(old(State()), old(list), st0, State(), list, stored);
    }

    static lemma RightStays(s0: Db, l0: seq<Hash>, st0: Disk, s: Db, l: seq<Hash>, st: Disk)
      requires Linked(s0, l0, {}) && Linked(s, l, {}) && (Closed(s0.dirties, st0) ==> Closed(s.dirties, st))
      requires Miscounted(s.dirties, l) <= Miscounted(s0.dirties, l0)
      ensures forall loose | RefCounts.Right(s0.dirties, l0, st0, loose) :: RefCounts.Right(s.dirties, l, st, loose)
    {
      LinkedKeys(s0, l0);
      LinkedKeys(s, l);
      hide Linked, Closed, Miscounted, Conserved;
      forall loose | RefCounts.Right(s0.dirties, l0, st0, loose) ensures RefCounts.Right(s.dirties, l, st, loose) {
        MiscountedIs(s0.dirties, l0, loose);
        MiscountedIs(s.dirties, l, loose);
      }
    }

    lemma UnderwayBegins(d0: Dirties, st0: Disk, batch: MemBatch)
      requires Valid() && batch.Valid() && batch.db == diskdb && batch.cache == []
      requires d0 == dirties && st0 == stored
      ensures Underway(d0, st0, batch) && Ranked(d0, rank) && Done(d0, dirties, batch.cache) == {}
    {
      CommitBegins(d0, st0, dirties);
    }

    lemma UnderwayEnds(d0: Dirties, st0: Disk, batch: MemBatch, node: Hash)
      requires Underway(d0, st0, batch) && batch.cache == [] && node != ZERO_HASH
      requires Ranked(d0, rank) && Done(d0, dirties, []) == Under(d0, rank, node)
      ensures Valid() && View(dirties, stored) == View(d0, st0)
      ensures Closed(d0, st0) ==> Closed(dirties, stored)
      ensures dirties.Keys == d0.Keys - Under(d0, rank, node)
      ensures forall h | h in dirties :: SameEntry(d0[h], dirties[h])
      ensures forall h | h in d0 && h !in dirties :: h in stored && stored[h] == d0[h].node
      ensures forall h | h in st0 :: h in stored
      ensures forall h | h in stored :: (h in st0 && stored[h] == st0[h]) || (h in d0 && h != ZERO_HASH && stored[h] == d0[h].node)
      ensures node in View(dirties, stored) ==> node in stored
    {
      ProgressKeepsView(d0, st0, dirties, stored);
      CommitEnds(d0, st0, dirties, stored, rank, node);
    }

    static lemma CommitBegins(d0: Dirties, st0: Disk, d: Dirties)
      requires d == d0 && ZERO_HASH in d && ZERO_HASH !in st0
      ensures Progress(d0, st0, d, st0) && BatchClosed(d0, st0, []) && BatchOk(d0, d, st0, []) && DoneClosed(d0, d, [])
      ensures Done(d0, d, []) == {}
    {
    }

    static lemma CommitEnds(d0: Dirties, st0: Disk, d: Dirties, st: Disk, rank: Hash -> nat, node: Hash)
      requires Progress(d0, st0, d, st) && Ranked(d0, rank) && node != ZERO_HASH
      requires Done(d0, d, []) == Under(d0, rank, node)
      ensures Closed(d0, st0) && DiskClosed(st) ==> Closed(d, st)
      ensures d.Keys == d0.Keys - Under(d0, rank, node)
      ensures forall h | h in d :: SameEntry(d0[h], d[h])
      ensures forall h | h in d0 && h !in d :: h in st && st[h] == d0[h].node
      ensures forall h | h in st0 :: h in st
      ensures forall h | h in st :: (h in st0 && st[h] == st0[h]) || (h in d0 && h != ZERO_HASH && st[h] == d0[h].node)
      ensures node in View(d, st) ==> node in st
    {
      forall h ensures h in d <==> h in d0 && h !in Under(d0, rank, node) {
        assert h in Done(d0, d, []) <==> h in d0 && h !in d;
      }
      SelfUnder(d0, rank, node);
    }

    lemma PutReady(d0: Dirties, st0: Disk, batch: MemBatch, hash: Hash, node: Cached, w: set<Hash>)
      requires Underway(d0, st0, batch) && hash in d0 && hash != ZERO_HASH && SameEntry(d0[hash], node)
      requires forall c | node.children.Some? && c in node.children.value :: c in d0 ==> c in Done(d0, dirties, batch.cache)
      requires forall c | c in Gather(node.node) :: c in d0 ==> c in Done(d0, dirties, batch.cache)
      requires w <= Done(d0, dirties, batch.cache) <= w + (Under(d0, rank, hash) - {hash})
      ensures Valid() && batch.Valid() && batch.db == diskdb
      ensures Ranked(d0, rank) && Writable(d0) && Progress(d0, st0, dirties, stored)
      ensures var b := batch.cache + [KeyValue(hash, RawBlob(node.node), false)];
        && BatchOk(d0, dirties, stored, b) && DoneClosed(d0, dirties, b)
        && (Closed(d0, st0) ==> DiskClosed(stored) && BatchClosed(d0, stored, b))
        && Done(d0, dirties, b) == w + Under(d0, rank, hash)
    {
      hide BatchOk, BatchClosed, DoneClosed, Done, Progress, Closed;
      PutDone(d0, st0, dirties, stored, batch.cache, hash);
      var b := batch.cache + [KeyValue(hash, RawBlob(node.node), false)];
      SelfUnder(d0, rank, hash);
      UnderDone(d0, rank, dirties, b, hash);
    }

    lemma PutStays(d0: Dirties, st0: Disk, batch: MemBatch)
      requires Valid() && batch.Valid() && batch.db == diskdb
      requires Ranked(d0, rank) && Writable(d0) && Progress(d0, st0, dirties, stored)
      requires Closed(d0, st0) ==> DiskClosed(stored) && BatchClosed(d0, stored, batch.cache)
      requires BatchOk(d0, dirties, stored, batch.cache) && DoneClosed(d0, dirties, batch.cache)
      ensures Underway(d0, st0, batch)
    {
    }

    lemma CommitStart(d0: Dirties, st0: Disk, batch: MemBatch, hash: Hash)
      requires hash != ZERO_HASH && Underway(d0, st0, batch)
      ensures Ranked(d0, rank)
      ensures hash !in dirties ==> Under(d0, rank, hash) <= Done(d0, dirties, batch.cache)
      ensures hash in dirties ==> hash in d0 && SameEntry(d0[hash], dirties[hash]) && |RawBlob(dirties[hash].node)| < TWO_64
      ensures hash in dirties ==> hash in Under(d0, rank, hash)
      ensures hash in dirties && dirties[hash].children.Some? ==>
                forall c | c in dirties[hash].children.value :: Refers(d0[hash], c)
      ensures hash in dirties ==> forall c | c in Gather(dirties[hash].node) :: Refers(d0[hash], c)
    {
      if hash !in dirties {
        UnderDone(d0, rank, dirties, batch.cache, hash);
      } else {
        SelfUnder(d0, rank, hash);
      }
    }
  }

  // ---------------------------------------------------------------- merged node sets

  class MergedNodeSet {
    var sets: map<Hash, NodeSet>

    constructor ()
      ensures sets == map[]
    {
      sets := map[];
    }

    ghost function Views(): map<Hash, Updates>
      reads this, sets.Values
    {
      map o | o in sets :: sets[o].View()
    }

    /** The leaves of the account trie. */
    ghost function AccountLeaves(): seq<Leaf>
      reads this, sets.Values
    {
      if ZERO_HASH in sets then sets[ZERO_HASH].leaves else []
    }

    /** Every path of every set has a node. */
    ghost predicate AllComplete()
      reads this, sets.Values
    {
      forall o | o in sets :: Complete(sets[o].View())
    }

    lemma ViewsAre()
      ensures Views().Keys == sets.Keys && forall o | o in sets :: Views()[o] == sets[o].View()
      ensures AccountLeaves() == if ZERO_HASH in sets then sets[ZERO_HASH].leaves else []
      ensures AllComplete() <==> forall o | o in sets :: Complete(Views()[o])
    {
    }

    twostate lemma SameSets()
      requires unchanged(this) && forall o | o in sets :: unchanged(sets[o])
      ensures Views() == old(Views()) && AccountLeaves() == old(AccountLeaves()) && AllComplete() == old(AllComplete())
    {
    }

    /** `Merge`: one set for each owner; `false` stands for the error. */
    method Merge(other: NodeSet) returns (ok: bool)
      modifies this
      ensures ok <==> other.owner !in old(sets)
      ensures sets == if ok then old(sets)[other.owner := other] else old(sets)
    {
      if other.owner in sets {
        return false;
      }
      sets := sets[other.owner := other];
      return true;
    }
  }

  class Cleaner {
    const db: TrieDB

    constructor (db: TrieDB)
      ensures this.db == db
    {
      this.db := db;
    }

    /** `Put`: a node written to disk leaves the flush list and the cache. */
    method Put(key: seq<byte>, rlp: seq<byte>)
      requires db.Valid() && BytesToHash(key) != ZERO_HASH
      modifies db
      ensures db.Valid() && db.stored == old(db.stored)
      ensures db.dirties.Keys == old(db.dirties.Keys) - {BytesToHash(key)}
      ensures forall h | h in db.dirties :: SameEntry(old(db.dirties)[h], db.dirties[h])
      ensures var h := BytesToHash(key);
        (h in old(db.dirties) ==> forall c | Refers(old(db.dirties)[h], c) :: c !in old(db.dirties)) ==>
          db.Off() <= old(db.Off())
    {
      hide Linked, Ranked, Writable, DiskIs, MetaOk, Unlink, Conserved, Single, Refers;
      var hash := BytesToHash(key);
      if hash !in db.dirties {
        return;
      }
      ghost var i := Position(db.State(), db.list, hash);
      UnlinkKeepsList(db.State(), db.list, {}, i);
      assert {} + {hash} == {hash} && {hash} - {hash} == {};
      ghost var s := Unlink(db.State(), hash);
      DropAway(s, Without(db.list, i), {hash}, hash);
      db.Detach(hash);
      db.dirties := db.dirties - {hash};
      db.list := Without(db.list, i);
      StillOk(old(db.dirties), db.dirties, db.rank);
      if forall c | Refers(old(db.dirties)[hash], c) :: c !in old(db.dirties) {
        LinkedKeys(old(db.State()), old(db.list));
        MiscountedIs(old(db.dirties), old(db.list), old(db.Off()));
        UncacheConserved(old(db.dirties), s.dirties, old(db.list), i, multiset{}, old(db.Off()));
        MiscountedIs(db.dirties, db.list, old(db.Off()));
      }
    }

    static lemma Position(s: Db, list: seq<Hash>, h: Hash) returns (i: nat)
      requires Linked(s, list, {}) && h in s.dirties && h != ZERO_HASH
      ensures i < |list| && list[i] == h
    {
      assert h in list;
      i :| 0 <= i < |list| && list[i] == h;
    }

    /** Fewer nodes, otherwise the same, are still in order. */
    static lemma StillOk(a: Dirties, b: Dirties, rank: Hash -> nat)
      requires MetaOk(a) && Ranked(a, rank) && Writable(a) && Single(a)
      requires b.Keys <= a.Keys && ZERO_HASH in b && forall h | h in b :: SameEntry(a[h], b[h])
      ensures MetaOk(b) && Ranked(b, rank) && Writable(b) && Single(b)
    {
      forall h, c | h in b && Refers(b[h], c) ensures Refers(a[h], c) {
      }
    }

    /** `memBatch.Write`: the batch is replayed to the cleaner.  At every step, what left the
        cache is on disk. */
    method Write(cache: seq<KeyValue>, ghost d0: Dirties, ghost st0: Disk)
      requires db.Valid() && Progress(d0, st0, db.dirties, db.stored)
      requires forall i: nat | i < |cache| ::
        (cache[i].key in d0 && forall c | Refers(d0[cache[i].key], c) && c in d0 :: c !in db.dirties || InBatch(cache[..i], c))
      requires forall kv | kv in cache ::
        && !kv.delete && kv.key in d0 && kv.key != ZERO_HASH
        && kv.key in db.stored && db.stored[kv.key] == d0[kv.key].node
      modifies db
      ensures db.Valid() && db.stored == old(db.stored) && Progress(d0, st0, db.dirties, db.stored)
      ensures db.dirties.Keys <= old(db.dirties.Keys)
      ensures forall h | h in old(db.dirties) :: h in db.dirties <==> !InBatch(cache, h)
      ensures db.Off() <= old(db.Off())
    {
      hide *;
      NoneIn(cache[..0]);
      for i := 0 to |cache|
        invariant db.Valid() && db.stored == old(db.stored) && Progress(d0, st0, db.dirties, db.stored)
        invariant db.dirties.Keys <= old(db.dirties.Keys)
        invariant forall h | h in old(db.dirties) :: h in db.dirties <==> !InBatch(cache[..i], h)
        invariant db.Off() <= old(db.Off())
      {
        var keyvalue := cache[i];
        assert keyvalue in cache;
        assert BytesToHash(keyvalue.key) == keyvalue.key by {
          HashBytes(keyvalue.key);
        }
        ghost var d := db.dirties;
        NoneCached(d0, st0, d, db.stored, old(db.dirties), cache, i);
        Put(keyvalue.key, keyvalue.value);
        ProgressUncaches(d0, st0, d, db.stored, db.dirties, keyvalue.key);
        assert cache[..i + 1] == cache[..i] + [keyvalue];
        forall h: Hash ensures InBatch(cache[..i + 1], h) <==> InBatch(cache[..i], h) || keyvalue.key == h {
          InBatchSnoc(cache[..i], keyvalue, h);
        }
      }
      assert cache[..|cache|] == cache;
    }

    /** When a node is replayed, those it refers to are gone already. */
    static lemma NoneCached(d0: Dirties, st0: Disk, d: Dirties, st: Disk, was: Dirties, cache: seq<KeyValue>, i: nat)
      requires i < |cache| && Progress(d0, st0, d, st) && cache[i].key in d0 && d.Keys <= was.Keys
      requires forall c | Refers(d0[cache[i].key], c) && c in d0 :: c !in was || InBatch(cache[..i], c)
      requires forall h | h in was :: h in d <==> !InBatch(cache[..i], h)
      ensures cache[i].key in d ==> forall c | Refers(d[cache[i].key], c) :: c !in d
    {
      if cache[i].key in d {
        assert SameEntry(d0[cache[i].key], d[cache[i].key]);
        forall c | Refers(d[cache[i].key], c) ensures c !in d {
          assert Refers(d0[cache[i].key], c);
        }
      }
    }

    static lemma HashBytes(h: Hash)
      ensures BytesToHash(h) == h
    {
    }

    static lemma NoneIn(b: seq<KeyValue>)
      requires b == []
      ensures forall h: Hash :: !InBatch(b, h)
    {
    }
  }
}
