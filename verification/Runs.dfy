/** trie/trie_db.go: whole runs of the node database, an operation after another in whatever
    order. */
module DatabaseRuns {
  import opened Bytes
  import opened Rlp
  import opened Nodes
  import opened NodeEncode
  import opened HexKeys
  import opened MemoryDb
  import opened FlushList
  import opened Flushing
  import opened RefCounts
  import opened Committing
  import opened Committers
  import opened Updating
  import opened TrieDatabase

  datatype Action =
    | Insertion(hash: Hash, node: Raw)
    | Reference(child: Hash, parent: Hash)
    | Dereference(child: Hash, parent: Hash)
    | Commit(top: Hash)
    | Update(nodes: MergedNodeSet, account: seq<byte> -> Option<Hash>)

  datatype Snap = Snap(dirties: Dirties, list: seq<Hash>, stored: Disk)

  ghost function Now(db: TrieDB): Snap
    reads db
  {
    Snap(db.dirties, db.list, db.stored)
  }

  /** Whose counts may be off: nobody's, or those of nodes that the disk has. */
  ghost function Loose(strict: bool, st: Disk): iset<Hash> {
    if strict then iset{} else iset h | h in st
  }

  /** Every reference leads to a node that is cached or on disk, and every count is right, or
      every count of a node that is not on disk. */
  ghost predicate Sound(s: Snap, strict: bool) {
    Right(s.dirties, s.list, s.stored, Loose(strict, s.stored))
  }

  /** What the operations ask of their callers in any state: references lead to nodes of lower
      rank, and the sets of an update are complete. */
  ghost predicate Allowed(rank: Hash -> nat, a: Action)
    reads if a.Update? then {a.nodes} + a.nodes.sets.Values else {}
  {
    match a
    case Insertion(h, node) => |RawBlob(node)| < TWO_64 && forall c | c in Gather(node) :: Lower(rank, c, h)
    case Reference(c, p) => c != p && c != ZERO_HASH && (Lower(rank, c, p) || p == ZERO_HASH)
    case Dereference(c, p) => c != p && c != ZERO_HASH
    case Commit(h) => h != ZERO_HASH
    case Update(nodes, account) =>
      && (forall o | o in nodes.sets :: TrieDB.SetOk(nodes.sets[o].View(), rank) && Complete(nodes.sets[o].View()))
      && (ZERO_HASH in nodes.sets ==> var u := nodes.sets[ZERO_HASH].View();
            forall leaf | leaf in u.leaves ::
              TrieDB.LeafOk(leaf, account, u, rank) && account(leaf.blob).Some? && leaf.parent != ZERO_HASH)
  }

  /** Where the source would follow a nil pointer instead: the parent is not cached. */
  predicate Possible(d: Dirties, a: Action) {
    match a
    case Reference(_, p) => p in d
    case Dereference(_, p) => p in d
    case _ => true
  }

  /** When the operation keeps everything right; `es` are the entries of an update in the order
      of their insertion, and `s'` the state after it. */
  ghost predicate Suits(s: Snap, a: Action, es: seq<Entry>, s': Snap, strict: bool)
    requires Possible(s.dirties, a)
  {
    var loose := Loose(strict, s.stored);
    match a
    case Insertion(h, node) => InsertFits(s.dirties, s.list, s.stored, loose, h, node)
    case Reference(c, p) => ReferenceFits(s.dirties, s.list, loose, c, p)
    case Dereference(c, p) => DereferenceFits(s.dirties, s.stored, loose, c, p)
    case Commit(_) => true
    case Update(_, _) => EntriesFit(s.dirties, s.list, s.stored, loose, es) && NoOverflow(s'.dirties, s'.list, loose)
  }

  /** One operation, from a sound state. */
  method Act(db: TrieDB, a: Action, ghost strict: bool) returns (ghost es: seq<Entry>)
    requires db.Valid() && Allowed(db.rank, a) && Possible(db.dirties, a)
    modifies db, db.diskdb
    ensures db.Valid()
    ensures old(Sound(Now(db), strict)) ==> (Sound(Now(db), strict) <==> Suits(old(Now(db)), a, es, Now(db), strict))
  {
    hide TrieDB.Valid, Right, InsertFits, EntriesFit, NoOverflow, ReferenceFits, DereferenceFits, TrieDB.SetOk, TrieDB.LeafOk,
         Complete, Trimmed, Dereferenced, TrieDB.Settled, Lower, RawBlob, Gather, Updated, Inserted, ListAfter, TrieDB.NewestOk,
         TrieDB.State, Loose, TrieDB.Concat, MergedNodeSet.Views, MergedNodeSet.AccountLeaves, Closed, Under, View, SameEntry;
    es := [];
    ghost var loose := Loose(strict, db.stored);
    LooseOnDisk(strict, db.stored);
    match a {
      case Insertion(h, node) => db.Insert(h, node);
      case Reference(c, p) => db.Reference(c, p);
      case Dereference(c, p) => db.Dereference(c, p, loose);
      case Commit(h) => Flush(db, h, strict);
      case Update(nodes, account) => es := Adopt(db, nodes, account, strict);
    }
  }

  lemma LooseOnDisk(strict: bool, st: Disk)
    ensures Loose(strict, st) <= iset h | h in st
  {
  }

  lemma RightLooser(d: Dirties, list: seq<Hash>, st: Disk, st': Disk, strict: bool)
    requires Right(d, list, st', Loose(strict, st)) && forall h | h in st :: h in st'
    ensures Right(d, list, st', Loose(strict, st'))
  {
    hide Closed, Conserved;
    ConservedLooser(d, list, multiset{}, Loose(strict, st), Loose(strict, st'));
  }

  method Flush(db: TrieDB, h: Hash, ghost strict: bool)
    requires db.Valid() && h != ZERO_HASH
    modifies db, db.diskdb
    ensures db.Valid() && (old(Sound(Now(db), strict)) ==> Sound(Now(db), strict))
  {
    hide TrieDB.Valid, Right, Loose, Closed, Under, View, SameEntry;
    ghost var st := db.stored;
    db.Commit(h);
    if old(Sound(Now(db), strict)) {
      assert db.Right(Loose(strict, st));
      RightLooser(db.dirties, db.list, st, db.stored, strict);
    }
  }

  method Adopt(db: TrieDB, nodes: MergedNodeSet, account: seq<byte> -> Option<Hash>, ghost strict: bool)
    returns (ghost es: seq<Entry>)
    requires db.Valid() && Allowed(db.rank, Update(nodes, account))
    modifies db
    ensures db.Valid() && db.stored == old(db.stored)
    ensures old(Sound(Now(db), strict)) ==>
      (Sound(Now(db), strict) <==> Suits(old(Now(db)), Update(nodes, account), es, Now(db), strict))
  {
    ghost var leaves := nodes.AccountLeaves();
    ghost var s, l := db.State(), db.list;
    var ok, order, linked := db.Update(nodes, account);
    es := TrieDB.Concat(order, nodes.Views());
  }

  ghost predicate SoundAt(states: seq<Snap>, i: nat, strict: bool)
    requires i < |states|
  {
    Sound(states[i], strict)
  }

  /** The guard of one step of a run. */
  ghost predicate SuitsAt(states: seq<Snap>, actions: seq<Action>, entries: seq<seq<Entry>>, i: nat, strict: bool)
    requires i + 1 < |states| && i < |actions| && i < |entries|
  {
    Possible(states[i].dirties, actions[i]) && Suits(states[i], actions[i], entries[i], states[i + 1], strict)
  }

  /** In a sound state the next one is sound exactly when the operation suits. */
  ghost predicate StepAt(states: seq<Snap>, actions: seq<Action>, entries: seq<seq<Entry>>, i: nat, strict: bool)
    requires i + 1 < |states| && i < |actions| && i < |entries|
  {
    && Possible(states[i].dirties, actions[i])
    && (SoundAt(states, i, strict) ==> (SoundAt(states, i + 1, strict) <==> SuitsAt(states, actions, entries, i, strict)))
  }

  /** A whole run, which stops where the source would panic.  As long as the database is sound,
      an operation keeps it so exactly when it suits; so it is sound throughout exactly when it
      is at the start and every operation suits. */
  method Perform(db: TrieDB, actions: seq<Action>, ghost strict: bool)
    returns (n: nat, ghost states: seq<Snap>, ghost entries: seq<seq<Entry>>)
    requires db.Valid() && forall i | 0 <= i < |actions| :: Allowed(db.rank, actions[i])
    modifies db, db.diskdb
    ensures db.Valid()
    ensures n <= |actions| && |states| == n + 1 && |entries| == n && states[0] == old(Now(db)) && states[n] == Now(db)
    ensures n < |actions| ==> !Possible(db.dirties, actions[n])
    ensures forall i: nat | i < n :: StepAt(states, actions, entries, i, strict)
    ensures (forall i: nat | i <= n :: SoundAt(states, i, strict)) <==>
      SoundAt(states, 0, strict) && forall i: nat | i < n :: SuitsAt(states, actions, entries, i, strict)
  {
    hide TrieDB.Valid, Sound, Suits, Possible, Allowed, StepAt, SoundAt, SuitsAt;
    states, entries := [Now(db)], [];
    n := 0;
    while n < |actions|
      invariant db.Valid() && forall i | 0 <= i < |actions| :: Allowed(db.rank, actions[i])
      invariant n <= |actions| && |states| == n + 1 && |entries| == n && states[0] == old(Now(db)) && states[n] == Now(db)
      invariant forall i: nat | i < n :: StepAt(states, actions, entries, i, strict)
    {
      if !Possible(db.dirties, actions[n]) {
        break;
      }
      ghost var s := Now(db);
      ghost var es := Act(db, actions[n], strict);
      StepsNext(states, actions, entries, n, s, es, Now(db), strict);
      states, entries, n := states + [Now(db)], entries + [es], n + 1;
    }
    SoundThroughout(n, states, actions, entries, strict);
  }

  lemma StepsNext(states: seq<Snap>, actions: seq<Action>, entries: seq<seq<Entry>>, n: nat, s: Snap, es: seq<Entry>, s': Snap, strict: bool)
    requires n < |actions| && |states| == n + 1 && |entries| == n && states[n] == s && Possible(s.dirties, actions[n])
    requires forall i: nat | i < n :: StepAt(states, actions, entries, i, strict)
    requires Sound(s, strict) ==> (Sound(s', strict) <==> Suits(s, actions[n], es, s', strict))
    ensures forall i: nat | i < n + 1 :: StepAt(states + [s'], actions, entries + [es], i, strict)
  {
    hide Sound, Suits;
    forall i: nat | i < n + 1 ensures StepAt(states + [s'], actions, entries + [es], i, strict) {
      if i < n {
        assert StepAt(states, actions, entries, i, strict);
      }
    }
  }

  lemma SoundThroughout(n: nat, states: seq<Snap>, actions: seq<Action>, entries: seq<seq<Entry>>, strict: bool)
    requires n < |states| && n <= |actions| && n <= |entries|
    requires forall i: nat | i < n :: StepAt(states, actions, entries, i, strict)
    ensures (forall i: nat | i <= n :: SoundAt(states, i, strict)) <==>
      SoundAt(states, 0, strict) && forall i: nat | i < n :: SuitsAt(states, actions, entries, i, strict)
  {
    hide SoundAt, SuitsAt;
    if forall i: nat | i <= n :: SoundAt(states, i, strict) {
      forall i: nat | i < n ensures SuitsAt(states, actions, entries, i, strict) {
        assert StepAt(states, actions, entries, i, strict) && SoundAt(states, i, strict) && SoundAt(states, i + 1, strict);
      }
    } else if SoundAt(states, 0, strict) && forall i: nat | i < n :: SuitsAt(states, actions, entries, i, strict) {
      forall i: nat | i <= n ensures SoundAt(states, i, strict) {
        StaysSound(i, states, actions, entries, strict);
      }
    }
  }

  lemma {:induction false} StaysSound(n: nat, states: seq<Snap>, actions: seq<Action>, entries: seq<seq<Entry>>, strict: bool)
    requires n < |states| && n <= |actions| && n <= |entries| && SoundAt(states, 0, strict)
    requires forall i: nat | i < n :: StepAt(states, actions, entries, i, strict) && SuitsAt(states, actions, entries, i, strict)
    ensures SoundAt(states, n, strict)
  {
    hide SoundAt, SuitsAt;
    if n > 0 {
      StaysSound(n - 1, states, actions, entries, strict);
      assert StepAt(states, actions, entries, n - 1, strict);
    }
  }

  // ---------------------------------------------------------------- what a sound state is worth

  /** Following references from a node that readers can see never leaves what they can see. */
  ghost predicate Leads(d: Dirties, st: Disk, h: Hash, path: seq<Hash>, x: Hash)
    decreases |path|
  {
    if path == [] then h == x
    else
      && (h in d || h in st) && path[0] in Gather(if h in d then d[h].node else st[h])
      && Leads(d, st, path[0], path[1..], x)
  }

  lemma {:induction false} SoundReaches(s: Snap, strict: bool, h: Hash, path: seq<Hash>, x: Hash)
    requires Sound(s, strict) && (h in s.dirties || h in s.stored) && Leads(s.dirties, s.stored, h, path, x)
    ensures x in s.dirties || x in s.stored
    decreases |path|
  {
    if path != [] {
      if h in s.dirties {
        assert Keeps(s.dirties[h], path[0]);
      }
      SoundReaches(s, strict, path[0], path[1..], x);
    }
  }

  /** When all counts are right, a count is zero exactly when no cached node and no explicit
      reference needs the node: it may leave. */
  lemma CountZero(s: Snap, h: Hash)
    requires Sound(s, true) && h in s.list && ZERO_HASH in s.dirties
    requires forall g | g in s.dirties :: g == ZERO_HASH || g in s.list
    ensures s.dirties[h].parents == 0 <==> forall g | g in s.dirties :: !Keeps(s.dirties[g], h)
  {
    var d, list := s.dirties, s.list;
    assert d[h].parents == Refs(d, list, h) + multiset{}[h];
    if Refs(d, list, h) > 0 {
      var g := Referrer(d, list, h);
      CountRefers(d[g], h);
    }
    forall g | g in d && Keeps(d[g], h) ensures Refs(d, list, h) > 0 {
      CountRefers(d[g], h);
      if g in list && RefSum(d, list, h) == 0 {
        RefSumZero(d, list, h, g);
      }
    }
  }

  /** A node that comes back from disk does no harm: where the counts of nodes on disk are not
      minded, an insertion suits whenever what the node refers to is there and nothing
      overflows. */
  lemma ComebackSuits(s: Snap, h: Hash, node: Raw)
    requires Sound(s, false) && ZERO_HASH in s.dirties && forall g | g in s.list :: g in s.dirties
    ensures Suits(s, Insertion(h, node), [], s, false) <==>
      h in s.dirties || (
        && (forall c | c in Gather(node) :: c in s.dirties || c in s.stored)
        && forall c | c in s.list && c !in s.stored :: Refs(s.dirties, s.list, c) + multiset(Gather(node))[c] < 0x1_0000_0000)
  {
    hide Refs, Gather, Closed, Conserved;
    if h !in s.dirties && h !in s.stored {
      UnknownUnreferenced(s.dirties, s.list, s.stored, h);
    }
  }

  // ---------------------------------------------------------------- a node that comes back

  const LEAF: Node := Short([2, TERM], Value(EMPTY_ROOT), NEW)

  const BRANCH: Node :=
    Full([Nil, LEAF, Nil, Nil, Nil, Nil, Nil, Nil, Nil, Nil, Nil, Nil, Nil, Nil, Nil, Nil, Value([1])], NEW)

  lemma Branching(k: Keccak)
    ensures Canon(LEAF) && Nodes.Sized(LEAF) && Canon(BRANCH) && Nodes.Sized(BRANCH)
    ensures Gather(RawOf(k, LEAF)) == [] && Gather(RawOf(k, BRANCH)) == [k(Blob(k, LEAF))]
    ensures |RawBlob(RawOf(k, LEAF))| < TWO_64 && |RawBlob(RawOf(k, BRANCH))| < TWO_64
  {
    hide *;
    LeafCanon();
    BranchCanon();
    LeafGather(k);
    BranchGather(k);
    RawSize(k, LEAF);
    RawSize(k, BRANCH);
  }

  lemma RawSize(k: Keccak, t: Node)
    requires Canon(t) && Nodes.Sized(t)
    ensures |RawBlob(RawOf(k, t))| < TWO_64
  {
    CanonHasShape(t);
    BlobSize(k, t);
    RawOfItem(k, t);
  }

  lemma LeafGather(k: Keccak)
    ensures Gather(RawOf(k, LEAF)) == []
  {
    hide Enc, NodeItem;
    assert RawRef(k, LEAF.val) == RawOf(k, LEAF.val);
  }

  lemma BranchGather(k: Keccak)
    ensures Gather(RawOf(k, BRANCH)) == [k(Blob(k, LEAF))]
  {
    hide Enc, NodeItem, Blob;
    LeafBig(k, [2, TERM], LEAF.val.data);
    var r := RawOf(k, BRANCH);
    assert RawRef(k, Nil) == RawNil;
    hide RawOf, RawRef;
    RawChildren(k, BRANCH);
    forall j | 0 <= j < 16 && j != 1 ensures Gather(r.children[j]) == [] {
      assert BRANCH.children[j] == Nil;
    }
    GatherOnly(r, 1, 16);
    RawRefBig(k, LEAF);
  }

  lemma RawChildren(k: Keccak, t: Node)
    requires t.Full?
    ensures RawOf(k, t).RawFull? && |RawOf(k, t).children| == |t.children|
    ensures forall j | 0 <= j < |t.children| :: RawOf(k, t).children[j] == RawRef(k, t.children[j])
  {
  }

  lemma RawRefBig(k: Keccak, t: Node)
    requires Big(k, t)
    ensures RawRef(k, t) == RawHash(k(Blob(k, t)))
  {
  }

  lemma LeafCanon()
    ensures Canon(LEAF) && Nodes.Sized(LEAF)
  {
    assert [2, TERM][..1] == [2];
  }

  lemma BranchCanon()
    ensures Canon(BRANCH) && Nodes.Sized(BRANCH)
  {
    LeafCanon();
    assert BRANCH.children[1] != Nil && BRANCH.children[16] != Nil;
  }

  /** A leaf with a value of 32 bytes and more is not embedded. */
  lemma LeafBig(k: Keccak, key: seq<byte>, v: seq<byte>)
    requires |v| >= 32
    ensures Big(k, Short(key, Value(v), NEW))
  {
    ValueRef(k, Value(v));
    EncPair(Str(StoredKey(key)), Str(v));
  }

  lemma {:induction false} GatherOnly(r: Raw, i: nat, n: nat)
    requires r.RawFull? && i < 16 && n <= 16 <= |r.children|
    requires forall j | 0 <= j < 16 && j != i :: Gather(r.children[j]) == []
    ensures GatherFirst(r, n) == if i < n then Gather(r.children[i]) else []
  {
    if n > 0 {
      GatherOnly(r, i, n - 1);
    }
  }

  function LeafHash(k: Keccak): Hash {
    k(Blob(k, LEAF))
  }

  function BranchHash(k: Keccak): Hash {
    k(Blob(k, BRANCH))
  }

  predicate Apart(k: Keccak) {
    LeafHash(k) != BranchHash(k) && LeafHash(k) != ZERO_HASH && BranchHash(k) != ZERO_HASH
  }

  /** The branch is cached, and the leaf if `leaf`; there are no explicit references. */
  ghost predicate Holding(k: Keccak, d: Dirties, leaf: bool) {
    && d.Keys == (if leaf then {ZERO_HASH, BranchHash(k), LeafHash(k)} else {ZERO_HASH, BranchHash(k)})
    && d[BranchHash(k)].node == RawOf(k, BRANCH) && d[BranchHash(k)].children.None?
    && d[ZERO_HASH].node == RawNil && d[ZERO_HASH].children == Some(map[])
    && (leaf ==> d[LeafHash(k)].node == RawOf(k, LEAF) && d[LeafHash(k)].children.None?)
  }

  /** Insertions of the leaf and the branch into a new database. */
  method CacheBoth(k: Keccak) returns (db: TrieDB)
    requires Apart(k)
    ensures fresh(db) && fresh(db.diskdb) && db.Valid() && Holding(k, db.dirties, true)
    ensures db.rank(LeafHash(k)) < db.rank(BranchHash(k))
  {
    hide RawOf, Gather, RawBlob, Blob, Linked, LEAF, BRANCH, InsertFits, Right, Ranked, MetaOk, Writable, Single, DiskIs;
    Branching(k);
    DiskIsEmpty();
    var disk := new MemDB();
    var h, p := LeafHash(k), BranchHash(k);
    db := new TrieDB(disk, map[], (x: Hash) => if x == p then 1 else 0);
    var s := db.State();
    IsLinked(db);
    InsertedIs(s, db.list, h, RawOf(k, LEAF));
    db.Insert(h, RawOf(k, LEAF));
    var s1 := db.State();
    IsLinked(db);
    InsertedIs(s1, db.list, p, RawOf(k, BRANCH));
    db.Insert(p, RawOf(k, BRANCH));
  }

  lemma DiskIsEmpty()
    ensures DiskIs(map[], map[])
  {
  }

  lemma IsLinked(db: TrieDB)
    requires db.Valid()
    ensures Linked(db.State(), db.list, {}) && Ranked(db.dirties, db.rank)
  {
  }

  /** The leaf goes to disk. */
  method FlushLeaf(k: Keccak, db: TrieDB)
    requires Apart(k) && db.Valid() && Holding(k, db.dirties, true)
    modifies db, db.diskdb
    ensures db.Valid() && Holding(k, db.dirties, false) && LeafHash(k) in db.stored
  {
    hide RawOf, Blob, LEAF, BRANCH, Linked, Right, TrieDB.Valid, Under, Closed, View;
    IsLinked(db);
    OnlyLeafUnder(k, db.dirties, db.rank);
    db.Commit(LeafHash(k));
  }

  lemma OnlyLeafUnder(k: Keccak, d: Dirties, rank: Hash -> nat)
    requires Apart(k) && Holding(k, d, true) && Ranked(d, rank)
    ensures Under(d, rank, LeafHash(k)) == {LeafHash(k)}
  {
    hide RawOf, Blob, LEAF, BRANCH;
    LeafGather(k);
    assert forall c :: !Refers(d[LeafHash(k)], c);
    assert Below(d, rank, LeafHash(k), LeafHash(k));
  }

  /** And comes back. */
  method Return(k: Keccak, db: TrieDB)
    requires Apart(k) && db.Valid() && Holding(k, db.dirties, false)
    modifies db
    ensures db.Valid() && Holding(k, db.dirties, true) && db.stored == old(db.stored)
    ensures db.dirties[LeafHash(k)].parents == 0 && Refs(db.dirties, db.list, LeafHash(k)) > 0
    ensures !Sound(Now(db), true)
  {
    hide RawOf, Gather, RawBlob, Blob, Linked, LEAF, BRANCH, InsertFits, Right, Ranked, MetaOk, Writable, Single, DiskIs, Refs;
    Branching(k);
    IsLinked(db);
    InsertedIs(db.State(), db.list, LeafHash(k), RawOf(k, LEAF));
    db.Insert(LeafHash(k), RawOf(k, LEAF));
    IsLinked(db);
    Uncounted(k, db.State(), db.list, db.stored);
  }

  lemma Uncounted(k: Keccak, s: Db, list: seq<Hash>, st: Disk)
    requires Apart(k) && Linked(s, list, {}) && Holding(k, s.dirties, true) && s.dirties[LeafHash(k)].parents == 0
    ensures Refs(s.dirties, list, LeafHash(k)) > 0 && !Right(s.dirties, list, st, Loose(true, st))
  {
    hide RawOf, Gather, Blob, LEAF, BRANCH, Linked;
    var d, h, p := s.dirties, LeafHash(k), BranchHash(k);
    LinkedKeys(s, list);
    BranchGather(k);
    assert Keeps(d[p], h);
    CountRefers(d[p], h);
    if RefSum(d, list, h) == 0 {
      RefSumZero(d, list, h, p);
    }
    assert Conserved(d, list, multiset{}, iset{}) ==> d[h].parents == Refs(d, list, h) + multiset{}[h];
  }

  /** An explicit reference to the leaf comes and goes. */
  method ReferAndDrop(k: Keccak, db: TrieDB)
    requires Apart(k) && db.Valid() && Holding(k, db.dirties, true) && db.dirties[LeafHash(k)].parents == 0
    requires db.rank(LeafHash(k)) < db.rank(BranchHash(k))
    modifies db
    ensures db.Valid() && db.stored == old(db.stored)
    ensures LeafHash(k) !in db.dirties && BranchHash(k) in db.dirties && Keeps(db.dirties[BranchHash(k)], LeafHash(k))
  {
    hide RawOf, Gather, RawBlob, Blob, Linked, LEAF, BRANCH, Right, Ranked, MetaOk, Writable, Single, DiskIs, ReferenceFits,
         DereferenceFits, Count, Unreferenced;
    var h := LeafHash(k);
    db.Reference(h, ZERO_HASH);
    db.Dereference(h, ZERO_HASH, iset{});
    IsLinked(db);
    LinkedKeys(db.State(), db.list);
    BranchGather(k);
  }

  /** Counts can be off: a branch and its leaf are inserted, the leaf is committed and leaves
      the cache, and comes back.  It is counted as if nothing referred to it, and when an
      explicit reference to it comes and goes, it is taken away although the branch refers to
      it.  It is on disk, though. */
  method Comeback(k: Keccak) returns (db: TrieDB, ghost back: Snap)
    requires Apart(k)
    ensures fresh(db) && db.Valid()
    ensures TrieDB.IsTreeNode(k, RawOf(k, LEAF)) && TrieDB.IsTreeNode(k, RawOf(k, BRANCH))
    ensures Holding(k, back.dirties, true) && !Sound(back, true)
    ensures back.dirties[LeafHash(k)].parents == 0 && Refs(back.dirties, back.list, LeafHash(k)) > 0
    ensures LeafHash(k) !in db.dirties && BranchHash(k) in db.dirties && Keeps(db.dirties[BranchHash(k)], LeafHash(k))
    ensures LeafHash(k) in db.stored
  {
    hide RawOf, Gather, RawBlob, Blob, LEAF, BRANCH, TrieDB.Valid, Holding, Sound, Keeps, Refs;
    Branching(k);
    db := CacheBoth(k);
    FlushLeaf(k, db);
    Return(k, db);
    back := Now(db);
    ReferAndDrop(k, db);
  }
}
