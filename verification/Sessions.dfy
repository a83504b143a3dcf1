/** Whole sessions with a trie: series of calls, a commit into the node database, and opening
    the trie again from there, or from disk alone. */
module Sessions {
  import opened Bytes
  import opened HexKeys
  import opened Nodes
  import opened TrieOps
  import opened TreeFacts
  import opened History
  import opened TreePaths
  import opened Refine
  import opened Capture
  import opened Reads
  import opened Failures
  import opened Locality
  import opened Tracking
  import opened Committing
  import opened Committers
  import opened MemoryDb
  import opened Flushing
  import FlushList
  import RefCounts
  import opened Updating
  import opened Reopening
  import opened TrieDatabase
  import opened Tries
  import DatabaseRuns

  // ---------------------------------------------------------------- series of calls

  datatype Call = UpdateCall(op: Op) | GetCall(key: seq<byte>) | HashCall

  /** What the calls make of the map; the failed ones leave it alone. */
  function Result(m: map<seq<byte>, seq<byte>>, calls: seq<Call>, failed: seq<bool>): map<seq<byte>, seq<byte>>
    requires |failed| == |calls|
  {
    if calls == [] then m
    else
      var n := |calls| - 1;
      Effect(Result(m, calls[..n], failed[..n]), calls[n], failed[n])
  }

  function Effect(m: map<seq<byte>, seq<byte>>, c: Call, failed: bool): map<seq<byte>, seq<byte>> {
    match c
    case UpdateCall(op) => if failed then m else if op.value != [] then m[op.key := op.value] else m - {op.key}
    case _ => m
  }

  predicate Fitting(calls: seq<Call>) {
    forall c | c in calls && c.UpdateCall? :: 2 * |c.op.key| + 1 < MAX_LEN && |c.op.value| < MAX_LEN
  }

  /** Any series of calls on any trie, however much of it is loaded: the calls that do not fail
      take effect on the map, in order; the tree is the one tree of the map, and the root hash
      the one of that tree, however often nodes were hashed on the way.  Over a complete
      database no call fails, and a tracer is exact.  Only nodes near a key that changed become
      dirty. */
  method Replay(trie: Trie, calls: seq<Call>, ghost complete: bool) returns (h: Hash, failed: seq<bool>)
    requires trie.Stands(complete) && Fitting(calls)
    modifies trie`root, trie`tree, trie`contents, trie.Hooks()
    ensures trie.Stands(complete) && |failed| == |calls|
    ensures complete ==> forall i | 0 <= i < |calls| :: !failed[i]
    ensures trie.contents == Result(old(trie.contents), calls, failed)
    ensures forall t | Holds(t, trie.contents) :: trie.tree == t && h == RootHash(trie.k, t)
    ensures complete && old(trie.Traced()) ==> trie.Traced()
    ensures old(trie.Sourced(complete)) ==> trie.Sourced(complete)
    ensures old(trie.Sourced(complete) && trie.Remembers()) ==> trie.Remembers()
    ensures forall p :: DirtyAt(trie.root, p) ==> old(DirtyAt(trie.root, p)) || Touched(old(trie.contents), calls, failed, p)
    ensures old(trie.Clean()) && Idle(old(trie.contents), calls, failed) ==> trie.Clean()
  {
    hide TrieDB.Valid, TrieDB.Store, StoreOk, Holds, Fits, World.Rep, Result, NodePaths, Exact, RootHash, World.Hashed, NetAll,
         Original, AllOriginal, Known, Trie.Blocked, DirtyAt, Trie.Clean, Touched, Idle, Alters, Trie.Names, Near, KeyToHex, Sub, Blob,
         Trie.Again;
    failed := [];
    ResultNone(trie.contents);
    ghost var root0 := trie.root;
    for i := 0 to |calls|
      invariant trie.Stands(complete) && |failed| == i
      invariant complete ==> forall j | 0 <= j < i :: !failed[j]
      invariant trie.contents == Result(old(trie.contents), calls[..i], failed)
      invariant complete && old(trie.Traced()) ==> trie.Traced()
      invariant old(trie.Sourced(complete)) ==> trie.Sourced(complete)
      invariant old(trie.Sourced(complete) && trie.Remembers()) ==> trie.Remembers()
      invariant forall p :: DirtyAt(trie.root, p) ==> DirtyAt(root0, p) || Touched(old(trie.contents), calls[..i], failed, p)
      invariant old(trie.Clean()) && Idle(old(trie.contents), calls[..i], failed) ==> trie.Clean()
    {
      assert calls[i] in calls;
      ghost var m := trie.contents;
      var fail: Option<Failure> := None;
      match calls[i] {
        case UpdateCall(op) =>
          fail := trie.Update(op.key, op.value, complete);
        case GetCall(key) =>
          var value;
          value, fail := trie.TryGet(key, complete);
        case HashCall =>
          var h' := trie.Hash(complete);
      }
      ResultNext(old(trie.contents), calls, i, failed, fail.Some?);
      TouchedNext(old(trie.contents), calls, i, failed, fail.Some?);
      failed := failed + [fail.Some?];
    }
    assert calls[..|calls|] == calls;
    h := trie.Hash(complete);
    forall t | Holds(t, trie.contents) ensures trie.tree == t {
      HoldsUnique(trie.tree, t, trie.contents);
    }
  }

  /** This call, an update, changes the map. */
  predicate Alters(m: map<seq<byte>, seq<byte>>, calls: seq<Call>, failed: seq<bool>, i: nat)
    requires |failed| == |calls| && i < |calls|
  {
    calls[i].UpdateCall? && Result(m, calls[..i + 1], failed[..i + 1]) != Result(m, calls[..i], failed[..i])
  }

  /** One that does has its key near this path. */
  ghost predicate Touched(m: map<seq<byte>, seq<byte>>, calls: seq<Call>, failed: seq<bool>, p: seq<byte>)
    requires |failed| == |calls|
  {
    exists i | 0 <= i < |calls| && calls[i].UpdateCall? :: Alters(m, calls, failed, i) && Near(p, KeyToHex(calls[i].op.key))
  }

  ghost predicate Idle(m: map<seq<byte>, seq<byte>>, calls: seq<Call>, failed: seq<bool>)
    requires |failed| == |calls|
  {
    forall i | 0 <= i < |calls| :: !Alters(m, calls, failed, i)
  }

  lemma AltersNext(m: map<seq<byte>, seq<byte>>, calls: seq<Call>, i: nat, failed: seq<bool>, b: bool, j: nat)
    requires j <= i < |calls| && |failed| == i
    ensures j < i ==> (Alters(m, calls[..i + 1], failed + [b], j) <==> Alters(m, calls[..i], failed, j))
    ensures j == i ==> (Alters(m, calls[..i + 1], failed + [b], j) <==>
      calls[i].UpdateCall? && Effect(Result(m, calls[..i], failed), calls[i], b) != Result(m, calls[..i], failed))
  {
    hide Effect, Result;
    var cs, fs := calls[..i + 1], failed + [b];
    if j < i {
      assert cs[..j + 1] == calls[..i][..j + 1] && cs[..j] == calls[..i][..j];
      assert fs[..j + 1] == failed[..j + 1] && fs[..j] == failed[..j];
    } else {
      assert cs[..i + 1] == cs && cs[..i] == calls[..i] && fs[..i + 1] == fs && fs[..i] == failed;
      ResultNext(m, calls, i, failed, b);
    }
  }

  lemma TouchedNext(m: map<seq<byte>, seq<byte>>, calls: seq<Call>, i: nat, failed: seq<bool>, b: bool)
    requires i < |calls| && |failed| == i
    ensures var cs, fs, m' := calls[..i + 1], failed + [b], Result(m, calls[..i], failed);
      var alters := calls[i].UpdateCall? && Effect(m', calls[i], b) != m';
      && (forall p | Touched(m, calls[..i], failed, p) :: Touched(m, cs, fs, p))
      && (alters ==> forall p | Near(p, KeyToHex(calls[i].op.key)) :: Touched(m, cs, fs, p))
      && (Idle(m, cs, fs) <==> Idle(m, calls[..i], failed) && !alters)
  {
    hide Alters, Effect, Result, Near, KeyToHex;
    var cs, fs := calls[..i + 1], failed + [b];
    AltersNext(m, calls, i, failed, b, i);
    forall j: nat | j < i ensures Alters(m, cs, fs, j) <==> Alters(m, calls[..i], failed, j) {
      AltersNext(m, calls, i, failed, b, j);
    }
    forall p | Touched(m, calls[..i], failed, p) ensures Touched(m, cs, fs, p) {
      var j :| 0 <= j < i && calls[..i][j].UpdateCall? && Alters(m, calls[..i], failed, j)
        && Near(p, KeyToHex(calls[..i][j].op.key));
      assert Alters(m, cs, fs, j) && cs[j] == calls[..i][j];
    }
  }

  lemma ResultNone(m: map<seq<byte>, seq<byte>>)
    ensures Result(m, [], []) == m
  {
  }

  lemma ResultNext(m: map<seq<byte>, seq<byte>>, calls: seq<Call>, i: nat, failed: seq<bool>, b: bool)
    requires i < |calls| && |failed| == i
    ensures Result(m, calls[..i + 1], failed + [b]) == Effect(Result(m, calls[..i], failed), calls[i], b)
  {
    assert calls[..i + 1][..i] == calls[..i] && (failed + [b])[..i] == failed;
  }

  function OpsOf(calls: seq<Call>): seq<Op> {
    if calls == [] then []
    else
      var c := calls[|calls| - 1];
      OpsOf(calls[..|calls| - 1]) + if c.UpdateCall? then [c.op] else []
  }

  /** From an empty trie, when nothing fails: the updates alone, in order. */
  lemma {:induction false} ResultFromEmpty(calls: seq<Call>, failed: seq<bool>)
    requires |failed| == |calls| && forall i | 0 <= i < |calls| :: !failed[i]
    ensures Result(map[], calls, failed) == Contents(OpsOf(calls))
  {
    if calls != [] {
      var n := |calls| - 1;
      ResultFromEmpty(calls[..n], failed[..n]);
      var ops := OpsOf(calls[..n]);
      assert ops + [] == ops;
      if calls[n].UpdateCall? {
        assert (ops + [calls[n].op])[..|ops|] == ops;
      }
    }
  }

  /** A new trie with a tracer. */
  method NewTraced(k: Keccak, db: TrieDB) returns (trie: Trie)
    requires db.Valid() && StoreOk(db.Store())
    ensures fresh(trie) && trie.k == k && trie.reader == db && trie.capture != null && fresh(trie.Hooks())
    ensures trie.Stands(true) && trie.Stands(false) && trie.Traced() && trie.Sourced(true) && trie.Sourced(false)
    ensures trie.Remembers()
    ensures trie.tree == Nil && trie.contents == map[]
  {
    hide TrieDB.Valid, TrieDB.Store, StoreOk, Holds, Fits, World.Rep, NodePaths, Exact;
    var capture := new TrieCapture();
    trie := new Trie(k, db, capture, Nil, Nil, map[]);
    BeginsKnown(k, Nil, Nil, map[]);
    StartsEmpty(trie.W(true));
    StartsEmpty(trie.W(false));
  }

  lemma StartsEmpty(w: World)
    ensures w.Rep(Nil, Nil, true) && Holds(Nil, map[]) && Fits(map[])
    ensures Exact({}, {}, NodePaths(Nil), NodePaths(Nil))
  {
  }

  /** From an empty trie over a database that lacks nothing: tree and root hash are those of the
      updates alone, however often nodes were looked up or hashed on the way. */
  method ReplayFromEmpty(k: Keccak, db: TrieDB, calls: seq<Call>) returns (trie: Trie, h: Hash)
    requires db.Valid() && StoreOk(db.Store()) && Fitting(calls)
    ensures fresh(trie) && trie.Stands(true) && trie.capture != null && trie.Traced() && trie.Sourced(true) && trie.Remembers()
    ensures trie.contents == Contents(OpsOf(calls)) && trie.tree == Run(OpsOf(calls))
    ensures h == RootHash(k, Run(OpsOf(calls)))
  {
    hide TrieDB.Valid, TrieDB.Store, StoreOk, Holds, Fits, World.Rep, NodePaths, Exact, Original, AllOriginal, Known, RootHash, Result, Run,
         Contents, OpsOf, Fitting;
    trie := NewTraced(k, db);
    var failed;
    h, failed := Replay(trie, calls, true);
    ResultFromEmpty(calls, failed);
    assert Holds(Run(OpsOf(calls)), trie.contents);
  }

  /** A trie just opened has nothing but originals to load. */
  lemma OpenedSourced(trie: Trie, complete: bool)
    requires trie.Stands(complete) && trie.began == trie.tree
    requires trie.capture != null ==> trie.capture.State() == Marks({}, {}, map[])
    ensures trie.Sourced(complete) && trie.Traced()
  {
    hide TrieDB.Valid, TrieDB.Store, StoreOk, Fits, World.Rep, Original, Blob, Sub;
    HoldsSized(trie.tree, trie.contents);
    assert Sub(trie.tree, []) == trie.tree by {
      SubRoot(trie.tree);
    }
    RepOriginal(trie.W(complete), trie.root, trie.tree, true, [], trie.tree);
  }

  lemma SubRoot(t: Node)
    ensures Sub(t, []) == t
  {
  }

  /** A trie that is opened, used and committed hands over nodes near the keys that changed, and
      none at all if no call changed the map. */
  method OpenAndCommit(k: Keccak, id: Hash, db: TrieDB, calls: seq<Call>, collectLeaf: bool,
                       ghost t: Node, ghost m: map<seq<byte>, seq<byte>>, ghost complete: bool)
    returns (h: Hash, nodes: NodeSet?, failed: seq<bool>, fail: Option<Failure>)
    requires db.Valid() && StoreOk(db.Store()) && Holds(t, m) && Fits(m) && Fitting(calls)
    requires Trie.Opens(World(k, db.Store(), complete), id, t)
    ensures fail.Some? <==> id != ZERO_HASH && id != EMPTY_ROOT && (id !in db.Store() || db.Store()[id] == [])
    ensures fail.None? ==> |failed| == |calls| && forall t' | Holds(t', Result(m, calls, failed)) :: h == RootHash(k, t')
    ensures fail.None? && Idle(m, calls, failed) ==> nodes == null
    ensures fail.None? && nodes != null ==> forall p | p in nodes.nodes :: Touched(m, calls, failed, p)
  {
    hide TrieDB.Valid, TrieDB.Store, StoreOk, Holds, Fits, World.Rep, Result, NodePaths, Exact, RootHash, World.Hashed, NetAll,
         Original, AllOriginal, DirtyAt, Trie.Clean, Touched, Idle, Alters, Trie.Opens, Fitting, MarkAll, Emit;
    h, failed, nodes := ZERO_HASH, [], null;
    var trie;
    trie, fail := Trie.New(k, id, db, t, m, complete);
    if trie == null {
      return;
    }
    var h';
    h', failed := Replay(trie, calls, complete);
    ghost var seen, es, hashed := trie.Seen(), [], Nil;
    h, nodes, es, hashed := trie.Commit(collectLeaf, complete);
    if nodes != null {
      MarkedEntries(es, seen.origin, collectLeaf);
      assert nodes.View().nodes == nodes.nodes;
    }
  }

  // ---------------------------------------------------------------- losing track

  /** What two updates make of an empty trie: a small leaf and a big one. */
  const SMALL: Node := Short([0, TERM], Value([1]), NEW)

  const BIG: Node := Short([0, TERM], Value(EMPTY_ROOT), NEW)

  const PAIR: Node := Full([SMALL, BIG, Nil, Nil, Nil, Nil, Nil, Nil, Nil, Nil, Nil, Nil, Nil, Nil, Nil, Nil, Nil], NEW)

  const PAIR_OPS: seq<Op> := [Op([0], [1]), Op([0x10], EMPTY_ROOT)]

  lemma PairIs()
    ensures Run(PAIR_OPS) == PAIR && Contents(PAIR_OPS) == map[[0] := [1], [0x10] := EMPTY_ROOT]
  {
    hide Insert, Delete;
    var a, b: Op := PAIR_OPS[0], PAIR_OPS[1];
    assert PAIR_OPS[..1] == [a] && [a][..0] == [] && PAIR_OPS[..0] == [];
    FirstOfPair();
    SecondOfPair();
    assert Run([a]) == History.Update(Nil, [0], [1]);
    assert Run(PAIR_OPS) == History.Update(Run([a]), [0x10], EMPTY_ROOT);
    assert Contents([a]) == map[[0] := [1]];
  }

  lemma FirstOfPair()
    ensures History.Update(Nil, [0], [1]) == Short([0, 0, TERM], Value([1]), NEW)
  {
    KeyToHexIsKey([0]);
    assert KeyToHex([0]) == [0, 0, TERM];
  }

  lemma SecondOfPair()
    ensures var t := Short([0, 0, TERM], Value([1]), NEW); CanonOrNil(t) && History.Update(t, [0x10], EMPTY_ROOT) == PAIR
  {
    var t, key := Short([0, 0, TERM], Value([1]), NEW), KeyToHex([0x10]);
    KeyToHexIsKey([0x10]);
    assert key == [1, 0, TERM];
    assert [0, 0, TERM][..2] == [0, 0];
    TreeIsAt(t, key);
    InsertIsSplit(NOWHERE, t, [], key, EMPTY_ROOT);
    assert PrefixLen(key, t.key) == 0;
    assert [0, 0, TERM][1..] == [0, TERM] && key[1..] == [0, TERM];
  }

  function PairRoot(k: Keccak): Node {
    Full([SMALL, HashNode(k(Blob(k, BIG))), Nil, Nil, Nil, Nil, Nil, Nil, Nil, Nil, Nil, Nil, Nil, Nil, Nil, Nil, Nil], NEW)
  }

  lemma PairHeld(w: World)
    requires w.db == map[] && !w.complete
    ensures StoreOk(w.db) && w.Rep(PairRoot(w.k), PAIR, true)
  {
    hide Blob, World.Rep;
    var n := PairRoot(w.k);
    forall i | 0 <= i < 17 ensures w.Rep(n.children[i], PAIR.children[i], false) {
      if i == 0 {
        w.RepValue([1]);
        w.RepNewShort([0, TERM], Value([1]), Value([1]), false);
      } else if i == 1 {
        BigHeld(w);
      } else {
        assert n.children[i] == Nil && PAIR.children[i] == Nil;
        w.RepNil(false);
      }
    }
    w.RepNewFull(n.children, PAIR.children, true);
  }

  lemma BigHeld(w: World)
    requires w.db == map[] && !w.complete
    ensures w.Rep(HashNode(w.k(Blob(w.k, BIG))), BIG, false)
  {
    hide Blob;
    DatabaseRuns.LeafBig(w.k, [0, TERM], EMPTY_ROOT);
    assert w.HeldHere(BIG);
    assert w.Held(BIG.val);
    assert w.HeldAt(BIG, true);
  }

  lemma PairStuck(k: Keccak)
    ensures StoreOk(map[]) && KeyToHex([0]) == [0, 0, TERM] && Stuck(map[], PairRoot(k), [0, 0, TERM])
  {
    hide Blob;
    var ch := PairRoot(k).children;
    assert [0, 0, TERM][1..] == [0, TERM];
    assert forall j | 0 <= j < 17 && j != 0 && j != 1 :: ch[j] == Nil;
    assert ch[1].HashNode? && Resolve(map[], ch[1].hash).None?;
    assert LastMissing(map[], ch, 0);
  }

  /** The tracer can lose track: the big leaf is neither loaded nor in the database, and the
      deletion of the small one, its only sibling, reports it gone before it fails. */
  method LosesTrack(k: Keccak) returns (trie: Trie, fail: Option<Failure>)
    ensures fresh(trie) && trie.capture != null && trie.Stands(false) && trie.began == trie.tree == PAIR
    ensures [0] in trie.contents && fail.Some? && !trie.Traced()
  {
    hide TrieDB.Valid, World.Rep, Holds, Exact, NodePaths, Stuck, Blob, PairRoot, Contents, Run, Original, AllOriginal, StoreOk, PAIR,
         View, KeyToHex;
    PairIs();
    PairStuck(k);
    var disk := new MemDB();
    DatabaseRuns.DiskIsEmpty();
    var db := new TrieDB(disk, map[], _ => 0);
    EmptyView(db.dirties, map[]);
    assert View(map[], map[]) == map[] by {
      NoView();
    }
    var capture := new TrieCapture();
    trie := new Trie(k, db, capture, PairRoot(k), PAIR, map[[0] := [1], [0x10] := EMPTY_ROOT]);
    PairHeld(trie.W(false));
    PairFits();
    assert trie.Traced() by {
      StartsTraced(PAIR);
    }
    fail := trie.Update([0], [], false);
  }

  lemma NoView()
    ensures View(map[], map[]) == map[]
  {
  }

  lemma PairFits()
    ensures Fits(map[[0] := [1], [0x10] := EMPTY_ROOT])
  {
  }

  lemma StartsTraced(t: Node)
    ensures Exact({}, {}, NodePaths(t), NodePaths(t))
  {
  }

  // ---------------------------------------------------------------- commit and reopen

  /** Every collected leaf can be decoded. */
  predicate Decodable(collectLeaf: bool, account: seq<byte> -> Option<Hash>, es: seq<Entry>) {
    collectLeaf ==> forall e | e in es && e.node.RawShort? && e.node.val.RawValue? :: account(e.node.val.data).Some?
  }

  /** One set: `NewMergedNodeSet`, `Merge` and `Update`.  The error is a leaf that cannot be
      decoded; the nodes are in the cache all the same. */
  method Adopt(db: TrieDB, nodes: NodeSet, collectLeaf: bool, account: seq<byte> -> Option<Hash>,
               ghost k: Keccak, ghost t: Node, ghost es: seq<Entry>, ghost origin: map<seq<byte>, seq<byte>>)
    returns (ok: bool, ghost leaves: seq<Leaf>)
    requires db.Valid() && Canon(t) && Nodes.Sized(t) && RanksTree(k, db.rank, t) && (collectLeaf ==> RanksStorage(k, db.rank, account, t))
    requires Everywhere(k, t, true, s => k(Blob(k, s)) != ZERO_HASH)
    requires nodes.owner == ZERO_HASH && nodes.View() == MarkAll(NO_UPDATES, es, origin, collectLeaf)
    requires FromTree(k, t, es) && DistinctPaths(es)
    modifies db
    ensures db.Valid() && db.stored == old(db.stored)
    ensures db.State() == Updated(old(db.State()), es, leaves, account)
    ensures TrieDB.Settled(old(db.State()), old(db.list), db.stored, es, leaves, db.State(), db.list)
    ensures forall leaf | leaf in leaves :: leaf.parent != ZERO_HASH
    ensures ok <==> Decodable(collectLeaf, account, es)
    ensures ok ==> leaves == MarkAll(NO_UPDATES, es, origin, collectLeaf).leaves
  {
    hide TrieDB.Valid, TrieDB.SetOk, TrieDB.LeafOk, TrieDB.Settled, MarkAll, Entries, Complete, Describes, Everywhere, Updated, Canon,
         Nodes.Sized, TrieDB.State, TrieDB.Concat, MergedNodeSet.Views, MergedNodeSet.AccountLeaves, MergedNodeSet.AllComplete;
    MarkedSetOk(k, t, es, origin, collectLeaf, db.rank);
    MarkedLeavesOk(k, t, es, origin, collectLeaf, db.rank, account);
    MarkedDecodable(es, origin, collectLeaf, account);
    var merged := new MergedNodeSet();
    var fine := merged.Merge(nodes);
    OneSet(merged, nodes);
    ghost var views, all := merged.Views(), nodes.leaves;
    ghost var order, linked;
    ok, order, linked := db.Update(merged, account);
    OneSet(merged, nodes);
    OnlyOwner(order, views, nodes.View());
    leaves := all[..linked];
  }

  lemma OneSet(merged: MergedNodeSet, nodes: NodeSet)
    requires merged.sets == map[ZERO_HASH := nodes]
    ensures merged.Views() == map[ZERO_HASH := nodes.View()] && merged.AccountLeaves() == nodes.leaves
    ensures merged.AllComplete() <==> Complete(nodes.View())
  {
  }

  lemma MarkedDecodable(es: seq<Entry>, origin: map<seq<byte>, seq<byte>>, collectLeaf: bool, account: seq<byte> -> Option<Hash>)
    ensures Decodable(collectLeaf, account, es) <==>
      forall leaf | leaf in MarkAll(NO_UPDATES, es, origin, collectLeaf).leaves :: account(leaf.blob).Some?
  {
    hide MarkAll;
    var leaves := MarkAll(NO_UPDATES, es, origin, collectLeaf).leaves;
    forall leaf | leaf in leaves ensures collectLeaf && exists e :: e in es && LeafEntry(e, leaf) {
      MarkedLeaves(es, origin, collectLeaf, leaf);
    }
    if collectLeaf {
      forall e | e in es && e.node.RawShort? && e.node.val.RawValue? ensures Leaf(e.node.val.data, e.hash) in leaves {
        var leaf := Leaf(e.node.val.data, e.hash);
        assert LeafEntry(e, leaf);
        MarkedLeaves(es, origin, collectLeaf, leaf);
      }
    }
  }

  lemma {:induction false} SameThenOne(order: seq<Hash>, h: Hash)
    requires FlushList.Distinct(order) && forall o | o in order :: o == h
    ensures |order| <= 1
  {
    RefCounts.DistinctCount(order, h);
    assert multiset(order)[h] == |order| by {
      forall i | 0 <= i < |order| ensures order[i] == h {
        assert order[i] in order;
      }
      AllSame(order, h);
    }
  }

  lemma {:induction false} AllSame(order: seq<Hash>, h: Hash)
    requires forall i | 0 <= i < |order| :: order[i] == h
    ensures multiset(order)[h] == |order|
  {
    if order != [] {
      AllSame(order[1..], h);
      assert order == [order[0]] + order[1..];
    }
  }

  lemma OnlyOwner(order: seq<Hash>, views: map<Hash, Updates>, u: Updates)
    requires FlushList.Distinct(order) && (forall o :: o in order <==> o == ZERO_HASH)
    requires views == map[ZERO_HASH := u] && Complete(u)
    ensures TrieDB.Concat(order, views) == Entries(u)
  {
    assert ZERO_HASH in order;
    SameThenOne(order, ZERO_HASH);
    assert order[..0] == [];
  }

  /** No entry's node comes back from disk into the cache, but for `loose` ones. */
  ghost predicate Fresh(d: FlushList.Dirties, st: Disk, loose: iset<Hash>, es: seq<Entry>) {
    forall e | e in es && e.hash !in loose && e.hash !in d :: e.hash !in st
  }

  /** Every account leaf that was committed is linked to its storage trie, if that is cached. */
  ghost predicate StorageLinked(d: FlushList.Dirties, es: seq<Entry>, account: seq<byte> -> Option<Hash>) {
    forall e | e in es && e.node.RawShort? && e.node.val.RawValue? && e.hash in d ::
      match account(e.node.val.data)
      case None => true
      case Some(c) => c != EMPTY_ROOT && c != e.hash && c in d ==> Refers(d[e.hash], c)
  }

  /** `Commit`, and `Update` with the node set: the whole tree is in the database, account leaves
      are linked to their storage tries, and what was right stays right, if no node comes back
      from disk and no count overflows. */
  method CommitTo(trie: Trie, collectLeaf: bool, account: seq<byte> -> Option<Hash>)
    returns (h: Hash, ok: bool, ghost es: seq<Entry>)
    requires trie.Stands(true) && Apart(trie.k, trie.reader.Store(), trie.tree)
    requires RanksTree(trie.k, trie.reader.rank, trie.tree) && (collectLeaf ==> RanksStorage(trie.k, trie.reader.rank, account, trie.tree))
    modifies trie`root, trie`began, trie.Hooks(), trie.reader
    ensures trie.tree == old(trie.tree) && trie.contents == old(trie.contents)
    ensures Holds(trie.tree, trie.contents) && Fits(trie.contents)
    ensures h == RootHash(trie.k, trie.tree)
    ensures trie.Stands(true) && trie.reader.stored == old(trie.reader.stored)
    ensures !trie.tree.Nil? ==> trie.Traced() && trie.Sourced(true) && trie.Remembers()
    ensures forall e | e in es :: old(DirtyAt(trie.root, e.path))
    ensures old(trie.Clean()) ==> es == [] && trie.reader.dirties == old(trie.reader.dirties)
    ensures ok <==> Decodable(collectLeaf, account, es)
    ensures ok && collectLeaf ==> StorageLinked(trie.reader.dirties, es, account)
    ensures old(Closed(trie.reader.dirties, trie.reader.stored)) ==> Closed(trie.reader.dirties, trie.reader.stored)
    ensures forall loose | old(trie.reader.Right(loose)) && old(Fresh(trie.reader.dirties, trie.reader.stored, loose, es)) ::
      trie.reader.Right(loose) <==> NoOverflow(trie.reader.dirties, trie.reader.list, loose)
    ensures Authentic(trie.k, old(trie.reader.dirties), trie.reader.stored) ==>
      Authentic(trie.k, trie.reader.dirties, trie.reader.stored)
    ensures trie.tree.Nil? || trie.W(true).HeldAt(trie.tree, true)
    ensures Trie.Opens(trie.W(true), h, trie.tree) && h != ZERO_HASH && (h == EMPTY_ROOT <==> trie.tree.Nil?)
    ensures !trie.tree.Nil? ==> h in trie.reader.Store()
    ensures forall x | x in old(trie.reader.Store()) ::
      x in trie.reader.Store() && trie.reader.Store()[x] == old(trie.reader.Store())[x]
  {
    hide TrieDB.Valid, StoreOk, Holds, Fits, World.Rep, World.IsRef, World.HeldAt, Apart, RanksTree, RanksStorage, Closed, Adopted,
         Canon, Nodes.Sized, View, ChildrenFirst, Covered, FromTree, DistinctPaths, MarkAll, RootHash, Trie.Opens, Authentic, Updated,
         TrieDB.Settled, RefCounts.Right, NoOverflow, Fresh, StorageLinked, Decodable, TrieDB.State, Trie.Commits, Trie.Traced,
         Trie.Sourced, Trie.Remembers, Everywhere, DirtyAt, Trie.Clean;
    var db := trie.reader;
    ghost var k, t, store := trie.k, trie.tree, db.Store();
    HoldsSized(t, trie.contents);
    Trie.HoldsCanon(t, trie.contents);
    ghost var s, l, st := db.State(), db.list, db.stored;
    var nodes;
    ghost var hashed;
    h, nodes, es, hashed := trie.Commit(collectLeaf, true);
    if nodes == null {
      ok, es := true, [];
      NothingAdopted(db, collectLeaf, account);
    } else {
      ghost var leaves;
      ok, leaves := AdoptCommit(db, nodes, collectLeaf, account, k, t, es, hashed, old(trie.Seen()));
    }
    RootOpens(k, store, db.Store(), t, h);
    RootStands(trie.W(true), trie.root, t, h);
    if !t.Nil? {
      OpenedSourced(trie, true);
    }
  }

  lemma RootStands(w: World, n: Node, t: Node, h: Hash)
    requires Trie.Opens(w, h, t) && h != ZERO_HASH && (h == EMPTY_ROOT <==> t.Nil?)
    requires n == if t.Nil? then Nil else HashNode(h)
    ensures w.Rep(n, t, true)
  {
  }

  /** What there is to say when nothing is committed. */
  lemma NothingAdopted(db: TrieDB, collectLeaf: bool, account: seq<byte> -> Option<Hash>)
    ensures Decodable(collectLeaf, account, []) && StorageLinked(db.dirties, [], account)
    ensures forall loose | db.Right(loose) :: NoOverflow(db.dirties, db.list, loose)
  {
    hide Closed;
    forall loose | db.Right(loose) ensures NoOverflow(db.dirties, db.list, loose) {
      RightFits(db.dirties, db.list, db.stored, loose);
    }
  }

  lemma RightFits(d: FlushList.Dirties, list: seq<Hash>, st: Disk, loose: iset<Hash>)
    requires RefCounts.Right(d, list, st, loose)
    ensures NoOverflow(d, list, loose)
  {
    hide RefCounts.Refs, Closed;
    forall h | h in list && h !in loose ensures RefCounts.Refs(d, list, h) < 0x1_0000_0000 {
      assert d[h].parents == RefCounts.Refs(d, list, h) + multiset{}[h];
    }
  }

  /** The second half of `CommitTo`. */
  method AdoptCommit(db: TrieDB, nodes: NodeSet, collectLeaf: bool, account: seq<byte> -> Option<Hash>,
                     ghost k: Keccak, ghost t: Node, ghost es: seq<Entry>, ghost hashed: Node, ghost seen: Marks)
    returns (ok: bool, ghost leaves: seq<Leaf>)
    requires db.Valid() && StoreOk(db.Store()) && Canon(t) && Nodes.Sized(t) && nodes.owner == ZERO_HASH
    requires Trie.Commits(World(k, db.Store(), true), t, hashed, nodes.View(), nodes.deletes, collectLeaf, seen, es)
    requires Apart(k, db.Store(), t) && RanksTree(k, db.rank, t) && (collectLeaf ==> RanksStorage(k, db.rank, account, t))
    modifies db
    ensures db.Valid() && StoreOk(db.Store()) && db.stored == old(db.stored)
    ensures World(k, db.Store(), true).HeldAt(t, true)
    ensures forall x | x in old(db.Store()) :: x in db.Store() && db.Store()[x] == old(db.Store())[x]
    ensures ok <==> Decodable(collectLeaf, account, es)
    ensures ok && collectLeaf ==> StorageLinked(db.dirties, es, account)
    ensures old(Closed(db.dirties, db.stored)) ==> Closed(db.dirties, db.stored)
    ensures forall loose | old(db.Right(loose)) && old(Fresh(db.dirties, db.stored, loose, es)) ::
      db.Right(loose) <==> NoOverflow(db.dirties, db.list, loose)
    ensures Authentic(k, old(db.dirties), db.stored) ==> Authentic(k, db.dirties, db.stored)
  {
    hide TrieDB.Valid, StoreOk, World.Rep, World.HeldAt, Apart, RanksTree, RanksStorage, Closed, Adopted, Canon, Nodes.Sized, View,
         ChildrenFirst, Covered, FromTree, DistinctPaths, MarkAll, Authentic, Updated, TrieDB.Settled, RefCounts.Right, NoOverflow, Fresh,
         StorageLinked, Decodable, TrieDB.State, Everywhere, Emit, Gone, Dropped;
    ghost var s, l, d, store := db.State(), db.list, db.dirties, db.Store();
    IsLinked(db);
    ApartNotZero(k, store, t);
    ok, leaves := Adopt(db, nodes, collectLeaf, account, k, t, es, seen.origin);
    IsLinked(db);
    UpdateAdopts(s, l, db.stored, es, leaves, db.State(), db.list);
    AdoptedView(k, t, es, d, db.stored, db.dirties);
    AdoptedHolds(k, t, es, store, db.Store());
    AdoptedStoreOk(k, t, es, store, db.Store());
    if Authentic(k, d, db.stored) {
      AdoptedAuthentic(k, t, es, d, db.stored, db.dirties);
    }
    UpdateSafe(s, l, db.stored, es, leaves, account, db.State(), db.list);
    if ok && collectLeaf {
      AllLinked(s, l, es, seen.origin, account);
    }
  }

  lemma IsLinked(db: TrieDB)
    requires db.Valid()
    ensures FlushList.Linked(db.State(), db.list, {}) && db.State().dirties == db.dirties
  {
  }

  lemma ApartNotZero(k: Keccak, db: Store, t: Node)
    requires Apart(k, db, t)
    ensures Everywhere(k, t, true, s => k(Blob(k, s)) != ZERO_HASH)
  {
  }

  lemma UpdateAdopts(s: FlushList.Db, l: seq<Hash>, st: Disk, es: seq<Entry>, leaves: seq<Leaf>, s': FlushList.Db, l': seq<Hash>)
    requires TrieDB.Settled(s, l, st, es, leaves, s', l')
    ensures Adopted(s.dirties, es, s'.dirties)
  {
  }

  /** A commit's entries come children first, so they fit unless a node comes back from disk. */
  lemma UpdateSafe(s: FlushList.Db, l: seq<Hash>, st: Disk, es: seq<Entry>, leaves: seq<Leaf>, account: seq<byte> -> Option<Hash>,
                   s': FlushList.Db, l': seq<Hash>)
    requires FlushList.Linked(s, l, {}) && s' == Updated(s, es, leaves, account) && ChildrenFirst(View(s.dirties, st), es)
    requires TrieDB.Settled(s, l, st, es, leaves, s', l') && forall leaf | leaf in leaves :: leaf.parent != ZERO_HASH
    ensures Closed(s.dirties, st) ==> Closed(s'.dirties, st)
    ensures forall loose | RefCounts.Right(s.dirties, l, st, loose) && Fresh(s.dirties, st, loose, es) ::
      RefCounts.Right(s'.dirties, l', st, loose) <==> NoOverflow(s'.dirties, l', loose)
  {
    hide FlushList.Linked, Updated, ChildrenFirst, View, Closed, ChildrenBefore, ChildrenThere, NoOverflow, EntriesFit, Adopted,
         RefCounts.Conserved, Fresh;
    ChildrenFirstBefore(s.dirties, st, es);
    if Closed(s.dirties, st) {
      BeforeThere(s.dirties, st, es);
      UpdateClosed(s, l, st, es, leaves, account);
      forall loose | RefCounts.Right(s.dirties, l, st, loose) && Fresh(s.dirties, st, loose, es)
        ensures EntriesFit(s.dirties, l, st, loose, es)
      {
        FreshNew(s.dirties, st, loose, es);
        RefCounts.LinkedKeys(s, l);
        FreshFit(s.dirties, l, st, loose, es);
      }
    }
  }

  lemma FreshNew(d: FlushList.Dirties, st: Disk, loose: iset<Hash>, es: seq<Entry>)
    requires Fresh(d, st, loose, es)
    ensures forall i: nat | i < |es| && IsNew(d, es, i) && es[i].hash !in loose :: es[i].hash !in st
  {
  }

  lemma AllLinked(s: FlushList.Db, l: seq<Hash>, es: seq<Entry>, origin: map<seq<byte>, seq<byte>>, account: seq<byte> -> Option<Hash>)
    requires FlushList.Linked(s, l, {})
    ensures StorageLinked(Updated(s, es, MarkAll(NO_UPDATES, es, origin, true).leaves, account).dirties, es, account)
  {
    hide FlushList.Linked, MarkAll, InsertAll, LinkAll;
    var leaves := MarkAll(NO_UPDATES, es, origin, true).leaves;
    var d := InsertAll(s, es).dirties;
    LinkAllNodes(d, leaves, account);
    forall e | e in es && e.node.RawShort? && e.node.val.RawValue? && e.hash in d
      ensures match account(e.node.val.data)
        case None => true
        case Some(c) => c != EMPTY_ROOT && c != e.hash && c in d ==> Refers(LinkAll(d, leaves, account)[e.hash], c)
    {
      var leaf := Leaf(e.node.val.data, e.hash);
      assert LeafEntry(e, leaf);
      MarkedLeaves(es, origin, true, leaf);
      if account(leaf.blob).Some? && account(leaf.blob).value != e.hash {
        LinkAllLinks(d, leaves, account, e.hash, account(leaf.blob).value);
      }
    }
  }

  /** Committing a trie, putting its nodes into the database, writing them to disk or not, and
      opening a new trie at the root loses nothing. */
  method CommitAndReopen(trie: Trie, collectLeaf: bool, account: seq<byte> -> Option<Hash>, flush: bool)
    returns (h: Hash, ok: bool, reopened: Trie?)
    requires trie.Stands(true) && Apart(trie.k, trie.reader.Store(), trie.tree)
    requires RanksTree(trie.k, trie.reader.rank, trie.tree) && (collectLeaf ==> RanksStorage(trie.k, trie.reader.rank, account, trie.tree))
    modifies trie, trie.Hooks(), trie.reader, trie.reader.diskdb
    ensures h == old(RootHash(trie.k, trie.tree))
    ensures reopened != null && reopened.Stands(true) && reopened.reader == trie.reader
    ensures reopened.contents == old(trie.contents) && reopened.tree == old(trie.tree)
    ensures flush && !reopened.tree.Nil? ==> h in trie.reader.stored
    ensures old(Closed(trie.reader.dirties, trie.reader.stored)) ==> Closed(trie.reader.dirties, trie.reader.stored)
    ensures old(Authentic(trie.k, trie.reader.dirties, trie.reader.stored)) ==>
      Authentic(trie.k, trie.reader.dirties, trie.reader.stored)
    ensures forall x | x in old(trie.reader.Store()) ::
      x in trie.reader.Store() && trie.reader.Store()[x] == old(trie.reader.Store())[x]
  {
    hide TrieDB.Valid, StoreOk, Holds, Fits, World.Rep, World.IsRef, World.HeldAt, Apart, RanksTree, RanksStorage, Closed, View, RootHash,
         Trie.Opens, Authentic, RefCounts.Right, NoOverflow, Fresh, StorageLinked, Decodable, Under;
    var db := trie.reader;
    ghost var es;
    h, ok, es := CommitTo(trie, collectLeaf, account);
    if flush && h != EMPTY_ROOT {
      ghost var d, st := db.dirties, db.stored;
      db.Commit(h);
      if Authentic(trie.k, d, st) {
        FlushedAuthentic(trie.k, d, st, db.dirties, db.stored);
      }
    }
    var fail;
    reopened, fail := Trie.New(trie.k, h, db, trie.tree, trie.contents, true);
  }

  /** After the flush the disk alone is enough: a new database on the same disk, with nothing
      in its cache, opens the trie with the same map. */
  method FlushAndRestart(trie: Trie, collectLeaf: bool, account: seq<byte> -> Option<Hash>) returns (h: Hash, ok: bool, reopened: Trie?)
    requires trie.Stands(true) && Closed(trie.reader.dirties, trie.reader.stored)
    requires Apart(trie.k, trie.reader.Store(), trie.tree)
    requires RanksTree(trie.k, trie.reader.rank, trie.tree) && (collectLeaf ==> RanksStorage(trie.k, trie.reader.rank, account, trie.tree))
    requires Authentic(trie.k, trie.reader.dirties, trie.reader.stored)
    requires DiskApart(trie.k, trie.reader.stored, trie.tree)
    modifies trie, trie.Hooks(), trie.reader, trie.reader.diskdb
    ensures h == old(RootHash(trie.k, trie.tree))
    ensures reopened != null && reopened.Stands(true)
    ensures reopened.contents == old(trie.contents) && reopened.tree == old(trie.tree)
    ensures reopened.reader != trie.reader && reopened.reader.diskdb == trie.reader.diskdb
    ensures reopened.reader.dirties.Keys == {ZERO_HASH} && forall loose :: reopened.reader.Right(loose)
  {
    hide TrieDB.Valid, StoreOk, Holds, Fits, World.Rep, World.IsRef, World.HeldAt, Apart, RanksTree, RanksStorage, View, RootHash,
         Trie.Opens, Authentic, DiskApart, Closed, RefCounts.Right, NoOverflow, Fresh, StorageLinked, Decodable;
    var db := trie.reader;
    ghost var t, m := trie.tree, trie.contents;
    ghost var es;
    h, ok, es := CommitTo(trie, collectLeaf, account);
    reopened := Restart(trie.k, db, h, t, m);
  }

  /** The flush, and the new database. */
  method Restart(k: Keccak, db: TrieDB, h: Hash, ghost t: Node, ghost m: map<seq<byte>, seq<byte>>) returns (reopened: Trie?)
    requires db.Valid() && Holds(t, m) && Fits(m) && Closed(db.dirties, db.stored)
    requires Authentic(k, db.dirties, db.stored) && DiskApart(k, db.stored, t)
    requires h == RootHash(k, t) && h != ZERO_HASH && (h == EMPTY_ROOT <==> t.Nil?)
    requires t.Nil? || (World(k, db.Store(), true).HeldAt(t, true) && h in db.Store())
    modifies db, db.diskdb
    ensures reopened != null && reopened.Stands(true) && reopened.contents == m && reopened.tree == t
    ensures fresh(reopened.reader) && reopened.reader.diskdb == db.diskdb
    ensures reopened.reader.dirties.Keys == {ZERO_HASH} && forall loose :: reopened.reader.Right(loose)
  {
    hide TrieDB.Valid, StoreOk, Holds, Fits, World.Rep, World.IsRef, World.HeldAt, View, RootHash, Trie.Opens, Authentic, DiskApart,
         DiskClosed, MetaOk, DiskIs, RefCounts.Right, Under;
    ghost var d, st := db.dirties, db.stored;
    if h != EMPTY_ROOT {
      db.Commit(h);
    }
    DiskOf(db);
    var restarted := new TrieDB(db.diskdb, db.stored, db.rank);
    Restarts(k, t, m, d, st, db.stored, h, restarted.dirties);
    var fail;
    reopened, fail := Trie.New(k, h, restarted, t, m, true);
  }

  lemma DiskOf(db: TrieDB)
    requires db.Valid()
    ensures DiskIs(db.diskdb.kv, db.stored) && ZERO_HASH !in db.stored
  {
  }

  lemma Restarts(k: Keccak, t: Node, m: map<seq<byte>, seq<byte>>, d: FlushList.Dirties, st: Disk, st': Disk, h: Hash,
                 empty: FlushList.Dirties)
    requires Holds(t, m) && Fits(m) && Authentic(k, d, st) && DiskClosed(st') && ZERO_HASH !in st'
    requires Flushed(d, st, st') && empty.Keys == {ZERO_HASH}
    requires DiskApart(k, st, t)
    requires h == RootHash(k, t) && h != ZERO_HASH && (h == EMPTY_ROOT <==> t.Nil?)
    requires t.Nil? || (World(k, View(d, st), true).HeldAt(t, true) && h in st')
    ensures StoreOk(View(empty, st'))
    ensures Trie.Opens(World(k, View(empty, st'), true), h, t)
  {
    hide Holds, Fits, Authentic, DiskClosed, Flushed, View, DiskApart, World.HeldAt, Sized, Canon, StoreOk, World.IsRef;
    EmptyView(empty, st');
    HoldsSized(t, m);
    Trie.HoldsCanon(t, m);
    if t.Nil? {
      FlushedAuthentic(k, d, st, map[], st');
    } else {
      FlushedHolds(k, t, d, st, st');
    }
    AuthenticStoreOk(k, st');
    OpensAt(World(k, View(empty, st'), true), t, h);
  }

  lemma EmptyView(d: FlushList.Dirties, st: Disk)
    requires d.Keys == {ZERO_HASH} && ZERO_HASH !in st
    ensures View(d, st) == View(map[], st)
  {
  }

  lemma RootOpens(k: Keccak, store: Store, db: Store, t: Node, h: Hash)
    requires CanonOrNil(t) && Apart(k, store, t) && h == RootHash(k, t)
    requires t.Nil? || World(k, db, true).HeldAt(t, true)
    ensures Trie.Opens(World(k, db, true), h, t)
    ensures h != ZERO_HASH && (h == EMPTY_ROOT <==> t.Nil?)
    ensures !t.Nil? ==> h in db
  {
    if !t.Nil? {
      EverywhereAt(k, t, true, s => k(Blob(k, s)) != ZERO_HASH, []);
    }
  }
}
