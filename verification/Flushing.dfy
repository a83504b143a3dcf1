/** trie/trie_db.go, trie/trie_db_cleaner.go: what a two-phase flush keeps at every point, as
    relations between the cached nodes `d`, the nodes on disk `st` and the batch. */
module Flushing {
  import opened Bytes
  import opened Nodes
  import opened NodeEncode
  import opened TrieOps
  import opened MemoryDb
  import opened FlushList

  type Disk = map<Hash, Raw>

  /** `forChilds` reaches this node, as an explicit child or inside the node. */
  predicate Refers(e: Cached, c: Hash) {
    (e.children.Some? && c in e.children.value) || c in Gather(e.node)
  }

  /** It holds a reference that counts: an explicit one may have wrapped to none. */
  predicate Keeps(e: Cached, c: Hash) {
    (e.children.Some? && c in e.children.value && e.children.value[c] > 0) || c in Gather(e.node)
  }

  /** References lead to nodes of lower rank: the graph of nodes has no cycle. */
  ghost predicate Ranked(d: Dirties, rank: Hash -> nat) {
    forall h, c | h in d && h != ZERO_HASH && Refers(d[h], c) :: Lower(rank, c, h)
  }

  ghost predicate Lower(rank: Hash -> nat, c: Hash, h: Hash) {
    c != ZERO_HASH && rank(c) < rank(h)
  }

  ghost predicate Writable(d: Dirties) {
    forall h | h in d && h != ZERO_HASH :: |RawBlob(d[h].node)| < TWO_64
  }

  /** The metaroot holds references only. */
  ghost predicate MetaOk(d: Dirties) {
    ZERO_HASH in d && d[ZERO_HASH].node == RawNil && d[ZERO_HASH].children.Some?
  }

  /** The disk holds the encodings of these nodes. */
  ghost predicate DiskIs(kv: Kv, st: Disk) {
    && ZERO_HASH !in st
    && (forall key :: key in kv <==> key in st)
    && forall h | h in st :: kv[h] == RawBlob(st[h])
  }

  /** Every node that a stored node refers to is stored. */
  ghost predicate DiskClosed(st: Disk) {
    forall h, c | h in st && c in Gather(st[h]) :: c in st
  }

  /** And every node that a cached node or the metaroot refers to is cached or stored. */
  ghost predicate Closed(d: Dirties, st: Disk) {
    && DiskClosed(st)
    && forall h, c | h in d && Keeps(d[h], c) :: c in d || c in st
  }

  /** The nodes a reader sees: the cache over the disk. */
  ghost function View(d: Dirties, st: Disk): Store {
    map h | h in d.Keys + st.Keys && h != ZERO_HASH :: if h in d then RawBlob(d[h].node) else RawBlob(st[h])
  }

  // ---------------------------------------------------------------- a flush under way

  /** How far a flush that began with `d0` and `st0` has come: what left the cache is on disk,
      and the rest is as it was. */
  ghost predicate Progress(d0: Dirties, st0: Disk, d: Dirties, st: Disk) {
    && ZERO_HASH in d && d.Keys <= d0.Keys
    && (forall h | h in d :: SameEntry(d0[h], d[h]))
    && (forall h | h in d0 && h !in d :: h in st && st[h] == d0[h].node)
    && (forall h | h in st0 :: h in st)
    && (forall h | h in st :: (h in st0 && st[h] == st0[h]) || (h in d0 && h != ZERO_HASH && st[h] == d0[h].node))
  }

  predicate SameEntry(a: Cached, b: Cached) {
    b == a.(prev := b.prev, next := b.next)
  }

  /** At every point of a flush readers see the same nodes. */
  lemma ProgressKeepsView(d0: Dirties, st0: Disk, d: Dirties, st: Disk)
    requires Progress(d0, st0, d, st)
    ensures View(d, st) == View(d0, st0)
  {
  }

  predicate InBatch(b: seq<KeyValue>, h: Hash) {
    exists kv :: kv in b && kv.key == h
  }

  /** An entry of the batch is a node of the cache, and no cached node that it refers to is left
      that is not earlier in the batch. */
  ghost predicate PutAt(d0: Dirties, d: Dirties, st: Disk, b: seq<KeyValue>, i: nat)
    requires i < |b|
  {
    && !b[i].delete && b[i].key in d0 && b[i].key != ZERO_HASH
    && b[i].value == RawBlob(d0[b[i].key].node)
    && (forall c | Refers(d0[b[i].key], c) && c in d0 :: c !in d || InBatch(b[..i], c))
  }

  ghost predicate BatchOk(d0: Dirties, d: Dirties, st: Disk, b: seq<KeyValue>) {
    forall i: nat | i < |b| :: PutAt(d0, d, st, b, i)
  }

  /** What the node of an entry refers to is on disk or earlier in the batch. */
  ghost predicate ClosedAt(d0: Dirties, st: Disk, b: seq<KeyValue>, i: nat)
    requires i < |b|
  {
    b[i].key in d0 && forall c | c in Gather(d0[b[i].key].node) :: c in st || InBatch(b[..i], c)
  }

  ghost predicate BatchClosed(d0: Dirties, st: Disk, b: seq<KeyValue>) {
    forall i: nat | i < |b| :: ClosedAt(d0, st, b, i)
  }

  /** The nodes a flush has dealt with: written, or about to be. */
  ghost function Done(d0: Dirties, d: Dirties, b: seq<KeyValue>): set<Hash> {
    set h | h in d0 && (h !in d || InBatch(b, h))
  }

  /** Whatever is dealt with, so are the nodes it refers to. */
  ghost predicate DoneClosed(d0: Dirties, d: Dirties, b: seq<KeyValue>) {
    forall h, c | h in Done(d0, d, b) && Refers(d0[h], c) && c in d0 :: c in Done(d0, d, b)
  }

  lemma BatchSnoc(d0: Dirties, d: Dirties, st: Disk, b: seq<KeyValue>, h: Hash)
    requires BatchOk(d0, d, st, b) && h in d0 && h != ZERO_HASH
    requires forall c | Refers(d0[h], c) && c in d0 :: c !in d || InBatch(b, c)
    ensures BatchOk(d0, d, st, b + [KeyValue(h, RawBlob(d0[h].node), false)])
  {
    var b' := b + [KeyValue(h, RawBlob(d0[h].node), false)];
    forall i: nat | i < |b'| ensures PutAt(d0, d, st, b', i) {
      if i < |b| {
        assert PutAt(d0, d, st, b, i) && b'[..i] == b[..i];
      } else {
        assert b'[..i] == b;
      }
    }
  }

  lemma BatchClosedSnoc(d0: Dirties, st: Disk, b: seq<KeyValue>, kv: KeyValue)
    requires BatchClosed(d0, st, b) && kv.key in d0
    requires forall c | c in Gather(d0[kv.key].node) :: c in st || InBatch(b, c)
    ensures BatchClosed(d0, st, b + [kv])
  {
    var b' := b + [kv];
    forall i: nat | i < |b'| ensures ClosedAt(d0, st, b', i) {
      if i < |b| {
        assert ClosedAt(d0, st, b, i) && b'[..i] == b[..i];
      } else {
        assert b'[..i] == b;
      }
    }
  }

  lemma InBatchSnoc(b: seq<KeyValue>, kv: KeyValue, c: Hash)
    ensures InBatch(b + [kv], c) <==> InBatch(b, c) || kv.key == c
  {
    if kv.key == c {
      assert kv in b + [kv];
    }
    if InBatch(b, c) {
      var e :| e in b && e.key == c;
      assert e in b + [kv];
    }
  }

  /** The disk after the batch is written. */
  function Landed(st: Disk, d0: Dirties, b: seq<KeyValue>): Disk
    requires forall kv | kv in b :: kv.key in d0
  {
    if b == [] then st
    else Landed(st, d0, b[..|b| - 1])[b[|b| - 1].key := d0[b[|b| - 1].key].node]
  }

  lemma {:induction false} LandedIs(kv: Kv, st: Disk, d0: Dirties, d: Dirties, b: seq<KeyValue>)
    requires DiskIs(kv, st) && BatchOk(d0, d, st, b)
    ensures forall e | e in b :: e.key in d0
    ensures DiskIs(Applied(kv, b), Landed(st, d0, b))
    ensures forall h :: h in Landed(st, d0, b) <==> h in st || InBatch(b, h)
    ensures forall h | InBatch(b, h) :: h in d0 && Landed(st, d0, b)[h] == d0[h].node
    ensures forall h | h in st && !InBatch(b, h) :: Landed(st, d0, b)[h] == st[h]
  {
    hide BatchOk, RawBlob, DiskIs, Applied, InBatch;
    if b == [] {
      AppliedNone(kv, b);
    } else {
      var n := |b| - 1;
      BatchPrefix(d0, d, st, b, n);
      LandedIs(kv, st, d0, d, b[..n]);
      BatchAt(d0, d, st, b, n);
      var kv', st' := Applied(kv, b[..n]), Landed(st, d0, b[..n]);
      DiskPut(kv', st', b[n].key, d0[b[n].key].node);
      AppliedPut(kv, b);
      assert b == b[..n] + [b[n]];
      forall h: Hash ensures InBatch(b, h) <==> InBatch(b[..n], h) || b[n].key == h {
        InBatchSnoc(b[..n], b[n], h);
      }
    }
  }

  lemma AppliedNone(kv: Kv, b: seq<KeyValue>)
    requires b == []
    ensures Applied(kv, b) == kv && forall h: Hash :: !InBatch(b, h)
  {
  }

  lemma AppliedPut(kv: Kv, b: seq<KeyValue>)
    requires b != [] && !b[|b| - 1].delete
    ensures Applied(kv, b) == Applied(kv, b[..|b| - 1])[b[|b| - 1].key := b[|b| - 1].value]
  {
  }

  lemma DiskPut(kv: Kv, st: Disk, h: Hash, r: Raw)
    requires DiskIs(kv, st) && h != ZERO_HASH
    ensures DiskIs(kv[h := RawBlob(r)], st[h := r])
  {
  }

  lemma BatchAt(d0: Dirties, d: Dirties, st: Disk, b: seq<KeyValue>, n: nat)
    requires BatchOk(d0, d, st, b) && n < |b|
    ensures !b[n].delete && b[n].key in d0 && b[n].key != ZERO_HASH && b[n].value == RawBlob(d0[b[n].key].node)
  {
    assert PutAt(d0, d, st, b, n);
  }

  lemma BatchPrefix(d0: Dirties, d: Dirties, st: Disk, b: seq<KeyValue>, n: nat)
    requires BatchOk(d0, d, st, b) && n <= |b|
    ensures BatchOk(d0, d, st, b[..n])
  {
    forall i: nat | i < n ensures PutAt(d0, d, st, b[..n], i) {
      assert PutAt(d0, d, st, b, i) && b[..n][..i] == b[..i];
    }
  }

  /** A batch leaves the disk closed, and with everything in it. */
  lemma LandedClosed(kv: Kv, st: Disk, d0: Dirties, d: Dirties, b: seq<KeyValue>)
    requires DiskIs(kv, st) && BatchOk(d0, d, st, b) && BatchClosed(d0, st, b) && DiskClosed(st)
    ensures forall e | e in b :: e.key in d0
    ensures DiskClosed(Landed(st, d0, b))
  {
    LandedIs(kv, st, d0, d, b);
    var st' := Landed(st, d0, b);
    forall h, c | h in st' && c in Gather(st'[h]) ensures c in st' {
      if InBatch(b, h) {
        var e :| e in b && e.key == h;
        var i :| 0 <= i < |b| && b[i] == e;
        assert ClosedAt(d0, st, b, i);
        assert InBatch(b[..i], c) ==> InBatch(b, c);
      }
    }
  }

  lemma ProgressLands(d0: Dirties, st0: Disk, d: Dirties, kv: Kv, st: Disk, b: seq<KeyValue>)
    requires Progress(d0, st0, d, st) && BatchOk(d0, d, st, b) && DiskIs(kv, st)
    ensures forall e | e in b :: e.key in d0
    ensures Progress(d0, st0, d, Landed(st, d0, b))
  {
    LandedIs(kv, st, d0, d, b);
    forall i | 0 <= i < |b| ensures b[i].key != ZERO_HASH {
      assert PutAt(d0, d, st, b, i);
    }
  }

  /** A node on disk may leave the cache. */
  lemma ProgressUncaches(d0: Dirties, st0: Disk, d: Dirties, st: Disk, d': Dirties, h: Hash)
    requires Progress(d0, st0, d, st) && h != ZERO_HASH
    requires h in st && h in d0 && st[h] == d0[h].node
    requires d'.Keys == d.Keys - {h} && forall g | g in d' :: SameEntry(d[g], d'[g])
    ensures Progress(d0, st0, d', st)
  {
  }

  lemma UncacheAll(d0: Dirties, st0: Disk, d: Dirties, st: Disk, b: seq<KeyValue>, d': Dirties)
    requires DoneClosed(d0, d, b) && d'.Keys <= d.Keys <= d0.Keys
    requires forall h | h in d :: h in d' <==> !InBatch(b, h)
    ensures Done(d0, d', []) == Done(d0, d, b) && DoneClosed(d0, d', []) && BatchOk(d0, d', st, [])
    ensures BatchClosed(d0, st, [])
  {
    assert forall h: Hash :: !InBatch([], h);
  }

  lemma ReadyClosed(d0: Dirties, st0: Disk, d: Dirties, st: Disk, b: seq<KeyValue>, h: Hash)
    requires Progress(d0, st0, d, st) && Closed(d0, st0) && h in d0
    requires forall c | Refers(d0[h], c) && c in d0 :: c in Done(d0, d, b)
    ensures forall c | c in Gather(d0[h].node) :: c in st || InBatch(b, c)
  {
    forall c | c in Gather(d0[h].node) ensures c in st || InBatch(b, c) {
      assert Keeps(d0[h], c) && Refers(d0[h], c);
    }
  }

  /** The next entry of the batch. */
  lemma PutDone(d0: Dirties, st0: Disk, d: Dirties, st: Disk, b: seq<KeyValue>, h: Hash)
    requires Progress(d0, st0, d, st) && BatchOk(d0, d, st, b) && DoneClosed(d0, d, b)
    requires h in d0 && h != ZERO_HASH
    requires forall c | Refers(d0[h], c) && c in d0 :: c in Done(d0, d, b)
    ensures var b' := b + [KeyValue(h, RawBlob(d0[h].node), false)];
      && BatchOk(d0, d, st, b') && Done(d0, d, b') == Done(d0, d, b) + {h} && DoneClosed(d0, d, b')
      && (Closed(d0, st0) && BatchClosed(d0, st, b) ==> BatchClosed(d0, st, b'))
  {
    var kv := KeyValue(h, RawBlob(d0[h].node), false);
    BatchSnoc(d0, d, st, b, h);
    if Closed(d0, st0) && BatchClosed(d0, st, b) {
      ReadyClosed(d0, st0, d, st, b, h);
      BatchClosedSnoc(d0, st, b, kv);
    }
    forall x: Hash ensures InBatch(b + [kv], x) <==> InBatch(b, x) || x == h {
      InBatchSnoc(b, kv, x);
    }
  }

  // ---------------------------------------------------------------- the extent of a flush

  /** `x` is cached and reached from `h` through cached nodes. */
  ghost predicate Below(d: Dirties, rank: Hash -> nat, h: Hash, x: Hash)
    requires Ranked(d, rank)
    decreases rank(h)
  {
    h in d && h != ZERO_HASH && (x == h || exists c :: Refers(d[h], c) && Below(d, rank, c, x))
  }

  ghost function Under(d: Dirties, rank: Hash -> nat, h: Hash): set<Hash>
    requires Ranked(d, rank)
  {
    set x | x in d && Below(d, rank, h, x)
  }

  lemma {:induction false} BelowDone(d0: Dirties, rank: Hash -> nat, d: Dirties, b: seq<KeyValue>, h: Hash, x: Hash)
    requires Ranked(d0, rank) && DoneClosed(d0, d, b)
    requires h in d0 ==> h in Done(d0, d, b)
    requires Below(d0, rank, h, x)
    ensures x in Done(d0, d, b)
    decreases rank(h)
  {
    if x != h {
      var c :| Refers(d0[h], c) && Below(d0, rank, c, x);
      BelowDone(d0, rank, d, b, c, x);
    }
  }

  /** Whatever is dealt with, everything below it is. */
  lemma UnderDone(d0: Dirties, rank: Hash -> nat, d: Dirties, b: seq<KeyValue>, h: Hash)
    requires Ranked(d0, rank) && DoneClosed(d0, d, b)
    requires h in d0 ==> h in Done(d0, d, b)
    ensures Under(d0, rank, h) <= Done(d0, d, b)
  {
    forall x | x in Under(d0, rank, h) ensures x in Done(d0, d, b) {
      BelowDone(d0, rank, d, b, h, x);
    }
  }

  /** What is below a child is below the node, and is not the node. */
  lemma UnderChild(d: Dirties, rank: Hash -> nat, h: Hash, c: Hash)
    requires Ranked(d, rank) && h in d && h != ZERO_HASH && Refers(d[h], c)
    ensures c != ZERO_HASH && rank(c) < rank(h)
    ensures Under(d, rank, c) <= Under(d, rank, h) - {h}
    ensures h in Under(d, rank, h)
  {
    assert Lower(rank, c, h);
    forall x | x in Under(d, rank, c) ensures x != h && x in Under(d, rank, h) {
      BelowRank(d, rank, c, x);
    }
  }

  lemma {:induction false} BelowRank(d: Dirties, rank: Hash -> nat, h: Hash, x: Hash)
    requires Ranked(d, rank) && Below(d, rank, h, x)
    ensures x in d && x != ZERO_HASH && rank(x) <= rank(h)
    decreases rank(h)
  {
    if x != h {
      var c :| Refers(d[h], c) && Below(d, rank, c, x);
      BelowRank(d, rank, c, x);
    }
  }

  // ---------------------------------------------------------------- reachability

  /** What is on disk stays readable to any depth: following references from a stored node
      never leaves the disk. */
  ghost predicate Reaches(st: Disk, h: Hash, path: seq<Hash>, x: Hash)
    decreases |path|
  {
    if path == [] then h == x
    else h in st && path[0] in Gather(st[h]) && Reaches(st, path[0], path[1..], x)
  }

  lemma {:induction false} DiskHasAllReachable(st: Disk, h: Hash, path: seq<Hash>, x: Hash)
    requires DiskClosed(st) && h in st && Reaches(st, h, path, x)
    ensures x in st
    decreases |path|
  {
    if path != [] {
      DiskHasAllReachable(st, path[0], path[1..], x);
    }
  }
}
