/** trie/trie.go: the trie as its users see it, a map with a Merkle root, over the node
    database. */
module Tries {
  import opened Bytes
  import opened HexKeys
  import opened Nodes
  import opened NodeCodec
  import opened NodeEncode
  import opened TrieOps
  import opened TreeFacts
  import opened History
  import opened TreePaths
  import opened Refine
  import opened Capture
  import opened Reads
  import opened Failures
  import opened Locality
  import opened Tracking
  import opened Hashing
  import opened Committing
  import opened Committers
  import opened Reopening
  import opened TrieDatabase

  class Trie {
    const k: Keccak
    const reader: TrieDB
    /** Absent in a trie opened by `New`. */
    const capture: TrieCapture?
    var root: Node
    /** The loaded tree that the root stands for, and the map that the tree holds. */
    ghost var tree: Node
    ghost var contents: map<seq<byte>, seq<byte>>
    /** The tree when tracking began. */
    ghost var began: Node

    constructor (k: Keccak, reader: TrieDB, capture: TrieCapture?, root: Node,
                 ghost tree: Node, ghost contents: map<seq<byte>, seq<byte>>)
      ensures this.k == k && this.reader == reader && this.capture == capture && this.root == root
      ensures this.tree == tree && this.contents == contents && began == tree
    {
      this.k, this.reader, this.capture, this.root := k, reader, capture, root;
      this.tree, this.contents, began := tree, contents, tree;
    }

    ghost function W(complete: bool): World
      reads reader
    {
      World(k, reader.Store(), complete)
    }

    /** The trie stands for its map.  A database that is not `complete` may lack nodes. */
    ghost predicate Stands(complete: bool)
      reads this, reader, reader.diskdb
    {
      Ready() && W(complete).Rep(root, tree, true) && Holds(tree, contents) && Fits(contents)
    }

    /** The tracer holds the exact difference between the paths of then and now. */
    ghost predicate Traced()
      reads this, capture
    {
      capture != null ==> Tracks(capture, began, tree)
    }

    /** Every blob the tracer holds is the encoding of the node that was at its path when tracking
        began, and so is every node that is still to be loaded. */
    ghost predicate Sourced(complete: bool)
      reads this, capture, reader
    {
      capture != null ==> Original(W(complete), root, [], began) && AllOriginal(k, capture.origin, began)
    }

    /** The blob of every node that was stored when tracking began is kept, or the node is still
        where it was, not loaded. */
    ghost predicate Remembers()
      reads this, capture
    {
      capture != null ==> Known(k, root, tree, began, capture.origin)
    }

    /** Nothing to commit. */
    predicate Clean()
      reads this
    {
      root.Nil? || !Cache(root).dirty
    }

    /** The node that a failed call names: one of the tree, by its path and hash, that is not in
        the database. */
    ghost predicate Names(f: Failure)
      reads this, reader
    {
      var s := Sub(tree, f.path);
      && (s.Short? || s.Full?) && f.hash == k(Blob(k, s))
      && (f.hash !in reader.Store() || reader.Store()[f.hash] == [])
    }

    ghost function Hooks(): set<object>
    {
      if capture == null then {} else {capture}
    }

    ghost function Seen(): Marks
      reads capture
    {
      if capture == null then Marks({}, {}, map[]) else capture.State()
    }

    /** The tracer, if there is one, has been told of these events. */
    ghost predicate Told(before: Marks, events: seq<Event>)
      reads capture
    {
      capture != null ==> Seen() == Recorded(before, events)
    }

    ghost predicate Ready()
      reads reader, reader.diskdb
    {
      reader.Valid() && StoreOk(reader.Store())
    }

    method Fire(e: Event)
      modifies Hooks()
      ensures Told(old(Seen()), [e])
    {
      if capture != null {
        capture.Fire(e);
      }
    }

    lemma TellMore(before: Marks, a: seq<Event>, middle: Marks, b: seq<Event>)
      requires capture != null ==> middle == Recorded(before, a)
      requires Told(middle, b)
      ensures Told(before, a + b)
    {
      RecordedSum(before, a, b);
    }

    // -------------------------------------------------------------- lookups

    /** `resolveAndTrack` */
    method ResolveAndTrack(h: Hash, prefix: seq<byte>) returns (r: Option<Node>)
      requires Ready()
      modifies Hooks()
      ensures r == Resolve(reader.Store(), h) && (r.Some? ==> h in reader.Store())
      ensures Told(old(Seen()), if r.Some? then [OnRead(prefix, reader.Store()[h])] else [])
    {
      hide DecodeNode, TrieDB.Valid, TrieDB.Store, Recorded;
      var blob := reader.NodeBlob(h);
      if blob.None? || |blob.value| == 0 {
        TellNothing();
        return None;
      }
      Fire(OnRead(prefix, blob.value));
      return DecodeNode(Some(h), blob.value);
    }

    lemma TellNothing()
      ensures Told(Seen(), [])
    {
    }

    /** `tryGet` */
    method GetNode(n: Node, key: seq<byte>, pos: nat)
      returns (value: Option<seq<byte>>, newnode: Node, didResolve: bool, fail: Option<Failure>)
      requires Ready() && pos <= |key| && At(n, key[pos..])
      modifies Hooks()
      ensures var r := TrieOps.TryGet(reader.Store(), n, key, pos);
        && value == r.value && newnode == r.node && didResolve == r.didResolve && fail == r.fail
        && Told(old(Seen()), r.events)
      decreases |key| - pos, if n.HashNode? then 1 else 0
    {
      hide DecodeNode, Recorded, TrieDB.Valid, TrieDB.Store, StoreOk, Resolve;
      TellNothing();
      match n {
        case Nil => return None, Nil, false, None;
        case Value(d) => return Some(d), n, false, None;
        case Short(nk, nv, flags) =>
          GetBelowShort(reader.Store(), n, key, pos);
          if |key| - pos < |nk| || nk != key[pos..pos + |nk|] {
            assert !IsPrefix(nk, key[pos..]);
            return None, n, false, None;
          }
          assert IsPrefix(nk, key[pos..]);
          value, newnode, didResolve, fail := GetNode(nv, key, pos + |nk|);
          newnode := if fail.None? && didResolve then Short(nk, newnode, flags) else n;
        case Full(ch, flags) =>
          var i := NextSlot(n, key[pos..]);
          GetBelowFull(reader.Store(), n, key, pos);
          value, newnode, didResolve, fail := GetNode(ch[i], key, pos + 1);
          newnode := if fail.None? && didResolve then Full(ch[i := newnode], flags) else n;
        case HashNode(h) =>
          ghost var before := Seen();
          var child := ResolveAndTrack(h, key[..pos]);
          if child.None? {
            return None, n, true, Some(Missing(h, key[..pos]));
          }
          ghost var middle := Seen();
          ResolvedAt(reader.Store(), h, key[pos..]);
          value, newnode, didResolve, fail := GetNode(child.value, key, pos);
          TellMore(before, [OnRead(key[..pos], reader.Store()[h])], middle, TrieOps.TryGet(reader.Store(), child.value, key, pos).events);
          didResolve := true;
      }
    }

    static method NextSlot(n: Node, key: seq<byte>) returns (i: byte)
      requires n.Full? && key != [] && At(n, key)
      ensures i == key[0] && i <= 16 && |n.children| == 17 && At(n.children[i], key[1..])
    {
      StepAt(n.children, key);
      i := key[0];
    }

    static lemma ResolvedAt(db: Store, h: Hash, key: seq<byte>)
      requires StoreOk(db) && key != [] && HexKey(key)
      ensures Resolve(db, h).Some? ==> At(Resolve(db, h).value, key) && !Resolve(db, h).value.HashNode?
    {
    }

    // -------------------------------------------------------------- updates

    /** `insert` where there is no node: `value` may be any node, as when a short node splits. */
    method AttachNode(prefix: seq<byte>, key: seq<byte>, value: Node) returns (nn: Node)
      modifies Hooks()
      ensures nn == Attach(prefix, key, value).node
      ensures Told(old(Seen()), Attach(prefix, key, value).events)
    {
      TellNothing();
      if |key| == 0 {
        return value;
      }
      Fire(OnInsert(prefix));
      return Short(key, value, NEW);
    }

    /** `insert` into a short node whose key parts from the new one. */
    method SplitNode(prefix: seq<byte>, nk: seq<byte>, nv: Node, key: seq<byte>, v: seq<byte>, m: nat) returns (nn: Node)
      requires m < |nk| && m < |key| && nk[m] <= 16 && key[m] <= 16
      modifies Hooks()
      ensures var r := Split(prefix, nk, nv, key, v, m);
        r.dirty && r.fail.None? && nn == r.node && Told(old(Seen()), r.events)
    {
      hide Recorded, Attach;
      var children: seq<Node> := [Nil, Nil, Nil, Nil, Nil, Nil, Nil, Nil, Nil, Nil, Nil, Nil, Nil, Nil, Nil, Nil, Nil];
      ghost var s0 := Seen();
      var a := AttachNode(prefix + nk[..m + 1], nk[m + 1..], nv);
      ghost var s1, ea := Seen(), Attach(prefix + nk[..m + 1], nk[m + 1..], nv).events;
      children := children[nk[m] := a];
      var b := AttachNode(prefix + key[..m + 1], key[m + 1..], Value(v));
      ghost var s2, eb := Seen(), Attach(prefix + key[..m + 1], key[m + 1..], Value(v)).events;
      TellMore(s0, ea, s1, eb);
      children := children[key[m] := b];
      var branch := Full(children, NEW);
      if m == 0 {
        return branch;
      }
      Fire(OnInsert(prefix + key[..m]));
      TellMore(s0, ea + eb, s2, [OnInsert(prefix + key[..m])]);
      return Short(key[..m], branch, NEW);
    }

    /** `insert` */
    method InsertNode(n: Node, prefix: seq<byte>, key: seq<byte>, v: seq<byte>)
      returns (dirty: bool, nn: Node, fail: Option<Failure>)
      requires Ready() && At(n, key)
      modifies Hooks()
      ensures var r := Insert(reader.Store(), n, prefix, key, v);
        && dirty == r.dirty && nn == r.node && fail == r.fail && Told(old(Seen()), r.events)
      decreases |key|, if n.HashNode? then 1 else 0
    {
      hide DecodeNode, Recorded, TrieDB.Valid, TrieDB.Store, StoreOk, Resolve;
      TellNothing();
      if |key| == 0 {
        dirty := !n.Value? || n.data != v;
        return dirty, Value(v), None;
      }
      match n {
        case Short(nk, nv, _) =>
          var matchlen := CommonPrefix(key, nk);
          if matchlen == |nk| {
            ShapeStep(n, key);
            InsertBelowShort(reader.Store(), n, prefix, key, v);
            dirty, nn, fail := InsertNode(nv, prefix + key[..matchlen], key[matchlen..], v);
            if !dirty || fail.Some? {
              return false, n, fail;
            }
            return true, Short(nk, nn, NEW), None;
          }
          InsertIsSplit(reader.Store(), n, prefix, key, v);
          nn := SplitNode(prefix, nk, nv, key, v, matchlen);
          return true, nn, None;
        case Full(ch, _) =>
          var i := NextSlot(n, key);
          InsertBelowFull(reader.Store(), n, prefix, key, v);
          dirty, nn, fail := InsertNode(ch[i], prefix + [i], key[1..], v);
          if !dirty || fail.Some? {
            return false, n, fail;
          }
          return true, Full(ch[i := nn], NEW), None;
        case Nil =>
          nn := AttachNode(prefix, key, Value(v));
          return true, nn, None;
        case HashNode(h) =>
          ghost var before := Seen();
          var rn := ResolveAndTrack(h, prefix);
          if rn.None? {
            return false, Nil, Some(Missing(h, prefix));
          }
          ghost var middle := Seen();
          ResolvedAt(reader.Store(), h, key);
          dirty, nn, fail := InsertNode(rn.value, prefix, key, v);
          TellMore(before, [OnRead(prefix, reader.Store()[h])], middle,
                   Insert(reader.Store(), rn.value, prefix, key, v).events);
          if !dirty || fail.Some? {
            return false, rn.value, fail;
          }
          return true, nn, None;
      }
    }

    /** `delete` */
    method DeleteNode(n: Node, prefix: seq<byte>, key: seq<byte>)
      returns (dirty: bool, nn: Node, fail: Option<Failure>)
      requires Ready() && At(n, key)
      modifies Hooks()
      ensures var r := Delete(reader.Store(), n, prefix, key);
        && dirty == r.dirty && nn == r.node && fail == r.fail && Told(old(Seen()), r.events)
      decreases |key|, if n.HashNode? then 1 else 0
    {
      hide DecodeNode, Recorded, TrieDB.Valid, TrieDB.Store, StoreOk, Resolve, Reduce;
      TellNothing();
      ghost var before := Seen();
      match n {
        case Short(nk, nv, _) =>
          var matchlen := CommonPrefix(key, nk);
          if matchlen < |nk| {
            return false, n, None;
          }
          if matchlen == |key| {
            Fire(OnDelete(prefix));
            return true, Nil, None;
          }
          ShapeStep(n, key);
          DeleteBelowShort(reader.Store(), n, prefix, key);
          dirty, nn, fail := DeleteNode(nv, prefix + key[..|nk|], key[|nk|..]);
          if !dirty || fail.Some? {
            return false, n, fail;
          }
          match nn {
            case Short(ck, cv, _) =>
              ghost var middle := Seen();
              Fire(OnDelete(prefix + nk));
              TellMore(before, Delete(reader.Store(), nv, prefix + key[..|nk|], key[|nk|..]).events, middle, [OnDelete(prefix + nk)]);
              return true, Short(nk + ck, cv, NEW), None;
            case _ =>
              return true, Short(nk, nn, NEW), None;
          }
        case Full(ch, _) =>
          var i := NextSlot(n, key);
          DeleteBelowFull(reader.Store(), n, prefix, key);
          dirty, nn, fail := DeleteNode(ch[i], prefix + [i], key[1..]);
          if !dirty || fail.Some? {
            return false, n, fail;
          }
          var ch' := ch[i := nn];
          if nn != Nil {
            return true, Full(ch', NEW), None;
          }
          ghost var middle, events := Seen(), Delete(reader.Store(), ch[i], prefix + [i], key[1..]).events;
          dirty, nn, fail := ReduceNode(prefix, ch');
          ReduceSplits(reader.Store(), prefix, ch', events);
          TellMore(before, events, middle, Reduce(reader.Store(), prefix, ch', []).events);
          return;
        case Value(_) =>
          return true, Nil, None;
        case Nil =>
          return false, Nil, None;
        case HashNode(h) =>
          var rn := ResolveAndTrack(h, prefix);
          if rn.None? {
            return false, Nil, Some(Missing(h, prefix));
          }
          ghost var middle := Seen();
          ResolvedAt(reader.Store(), h, key);
          dirty, nn, fail := DeleteNode(rn.value, prefix, key);
          TellMore(before, [OnRead(prefix, reader.Store()[h])], middle,
                   Delete(reader.Store(), rn.value, prefix, key).events);
          if !dirty || fail.Some? {
            return false, rn.value, fail;
          }
          return true, nn, None;
      }
    }

    static lemma ReduceSplits(db: Store, prefix: seq<byte>, ch: seq<Node>, events: seq<Event>)
      requires StoreOk(db) && |ch| == 17
      ensures var r, s := Reduce(db, prefix, ch, events), Reduce(db, prefix, ch, []);
        r.dirty == s.dirty && r.node == s.node && r.fail == s.fail && r.events == events + s.events
    {
    }

    /** The reduction in `delete`, where the last child may have to be loaded to be looked at. */
    method ReduceNode(prefix: seq<byte>, ch: seq<Node>) returns (dirty: bool, nn: Node, fail: Option<Failure>)
      requires Ready() && |ch| == 17
      modifies Hooks()
      ensures var r := Reduce(reader.Store(), prefix, ch, []);
        && dirty == r.dirty && nn == r.node && fail == r.fail && Told(old(Seen()), r.events)
    {
      hide DecodeNode, Recorded, TrieDB.Valid, TrieDB.Store, StoreOk, Resolve, Sole;
      TellNothing();
      assert forall e: Event :: [] + [e] == [e];
      var pos := ScanChildren(ch);
      SoleIs(ch, 0, -1);
      if pos >= 0 {
        if pos != 16 {
          var cnode := ch[pos];
          ghost var before, events := Seen(), [];
          if ch[pos].HashNode? {
            var rn := ResolveAndTrack(ch[pos].hash, prefix + [pos]);
            if rn.None? {
              return false, Nil, Some(Missing(ch[pos].hash, prefix + [pos]));
            }
            cnode := rn.value;
            events := [OnRead(prefix + [pos], reader.Store()[ch[pos].hash])];
          }
          match cnode {
            case Short(ck, cv, _) =>
              ghost var middle := Seen();
              assert [] + events == events;
              Fire(OnDelete(prefix + [pos]));
              TellMore(before, events, middle, [OnDelete(prefix + [pos])]);
              return true, Short([pos] + ck, cv, NEW), None;
            case _ =>
          }
        }
        return true, Short([pos], ch[pos], NEW), None;
      }
      return true, Full(ch, NEW), None;
    }

    // -------------------------------------------------------------- the trie as a map

    /** What `New` may be asked to open: a root hash and the tree it is the hash of. */
    static ghost predicate Opens(w: World, id: Hash, t: Node) {
      if id == ZERO_HASH || id == EMPTY_ROOT then t.Nil? else Canon(t) && w.IsRef(HashNode(id), t, true)
    }

    /** `New`: loads the root, and fails exactly when it is missing. */
    static method New(k: Keccak, id: Hash, db: TrieDB, ghost t: Node, ghost m: map<seq<byte>, seq<byte>>, ghost complete: bool)
      returns (trie: Trie?, fail: Option<Failure>)
      requires db.Valid() && StoreOk(db.Store()) && Holds(t, m) && Fits(m)
      requires Opens(World(k, db.Store(), complete), id, t)
      ensures trie != null <==> fail.None?
      ensures complete ==> fail.None?
      ensures fail.Some? <==>
        id != ZERO_HASH && id != EMPTY_ROOT && (id !in db.Store() || db.Store()[id] == [])
      ensures fail.Some? ==> fail == Some(Missing(id, []))
      ensures trie != null ==> trie.Clean() && !trie.root.HashNode? && forall p :: !DirtyAt(trie.root, p)
      ensures trie != null ==>
        && fresh(trie) && trie.k == k && trie.reader == db && trie.capture == null
        && trie.Stands(complete) && trie.tree == t && trie.contents == m
    {
      hide TrieDB.Valid, TrieDB.Store, StoreOk, Holds, Fits, World.Rep, Canon, Sized, Resolve, World.IsRef, DirtyAt;
      ghost var w := World(k, db.Store(), complete);
      w.RepNil(true);
      LoadedRoot(w.db, id);
      trie := new Trie(k, db, null, Nil, t, m);
      if id != ZERO_HASH && id != EMPTY_ROOT {
        HoldsSized(t, m);
        w.ResolveRep(id, t, true);
        var rootnode := trie.ResolveAndTrack(id, []);
        if rootnode.None? {
          return null, Some(Missing(id, []));
        }
        trie.root := rootnode.value;
      }
      return trie, None;
    }

    static lemma LoadedRoot(db: Store, id: Hash)
      requires StoreOk(db)
      ensures Resolve(db, id).None? <==> id !in db || db[id] == []
      ensures Resolve(db, id).Some? ==>
        var n := Resolve(db, id).value;
        (n.Short? || n.Full?) && !Cache(n).dirty && forall p :: !DirtyAt(n, p)
      ensures forall p :: !DirtyAt(Nil, p)
    {
      hide DecodeNode, Sub;
      if Resolve(db, id).Some? {
        forall p ensures !DirtyAt(Resolve(db, id).value, p) {
          ResolvedClean(db, id, p);
        }
        SubEnd(Resolve(db, id).value, []);
        assert !DirtyAt(Resolve(db, id).value, []);
      }
      forall p ensures !DirtyAt(Nil, p) {
        SubEnd(Nil, p);
      }
    }

    /** `TryGet`: the value in the map, unless a node is missing; the map stays the same. */
    method TryGet(key: seq<byte>, ghost complete: bool) returns (value: Option<seq<byte>>, fail: Option<Failure>)
      requires Stands(complete)
      modifies this`root, Hooks()
      ensures Stands(complete)
      ensures complete ==> fail.None?
      ensures fail.None? ==> value == if key in contents then Some(contents[key]) else None
      ensures fail.None? ==> Again(key, value)
      ensures fail.Some? ==> root == old(root) && Names(fail.value) && IsPrefix(fail.value.path, KeyToHex(key))
      ensures forall p :: DirtyAt(root, p) <==> old(DirtyAt(root, p))
      ensures old(Clean()) ==> Clean()
      ensures old(Traced()) ==> Traced()
      ensures old(Sourced(complete)) ==> Sourced(complete)
      ensures old(Sourced(complete) && Remembers()) ==> Remembers()
    {
      hide Known, TrieDB.Valid, TrieDB.Store, StoreOk, Fits, World.Rep, World.Hashed, TrieOps.TryGet, Recorded, Exact, NodePaths, Original,
           Reported, AllOriginal, At, Origins, NetAll, DirtyAt, Sub, Blob, Cache;
      KeyToHexIsKey(key);
      HoldsSized(tree, contents);
      GetParts(key, complete);
      ghost var w, before, hex := W(complete), Seen(), KeyToHex(key);
      assert hex[0..] == hex;
      w.GetRefines(root, tree, true, hex, 0);
      GetReads(reader.Store(), root, hex, 0);
      var k := KeyBytesToHex(key);
      var newroot, didResolve;
      value, newroot, didResolve, fail := GetNode(root, k[..], 0);
      if fail.None? && didResolve {
        root := newroot;
      }
      if capture != null {
        NetOfWrites(before.insert, before.delete, TrieOps.TryGet(reader.Store(), old(root), hex, 0).events);
        RecordedNothing(before, TrieOps.TryGet(reader.Store(), old(root), hex, 0).events);
        if old(Sourced(complete)) {
          assert hex[..0] == [];
          GetOriginal(w, old(root), hex, 0, began);
          OriginsReport(this.k, before.origin, TrieOps.TryGet(reader.Store(), old(root), hex, 0).events, began);
          RecordedOrigin(before, TrieOps.TryGet(reader.Store(), old(root), hex, 0).events);
          if old(Remembers()) {
            GetKnown(w, old(root), tree, hex, began, before.origin);
            KnownStays(this.k, old(root), tree, TrieOps.TryGet(reader.Store(), old(root), hex, 0).events, began, before.origin);
          }
        }
      }
    }

    /** The same lookup again loads nothing. */
    ghost predicate Again(key: seq<byte>, value: Option<seq<byte>>)
      requires Ready()
      reads this, reader, reader.diskdb
    {
      At(root, KeyToHex(key)[0..]) && TrieOps.TryGet(reader.Store(), root, KeyToHex(key), 0) == Found(value, root, false, None, [])
    }

    /** What a lookup is about to leave alone, or to miss. */
    lemma GetParts(key: seq<byte>, complete: bool)
      requires Stands(complete)
      ensures At(root, KeyToHex(key)[0..])
      ensures var r := TrieOps.TryGet(reader.Store(), root, KeyToHex(key), 0);
        && (r.fail.Some? ==> Names(r.fail.value) && IsPrefix(r.fail.value.path, KeyToHex(key)))
        && (r.fail.None? ==>
              && At(r.node, KeyToHex(key)[0..])
              && TrieOps.TryGet(reader.Store(), r.node, KeyToHex(key), 0) == Found(r.value, r.node, false, None, [])
              && (forall p :: DirtyAt(r.node, p) <==> DirtyAt(root, p))
              && (root.Nil? ==> r.node.Nil?)
              && (!root.Nil? && !Cache(root).dirty ==> !r.node.Nil? && !Cache(r.node).dirty)
              && (!r.didResolve ==> r.node == root))
    {
      hide TrieDB.Valid, TrieDB.Store, StoreOk, Fits, World.Rep, TrieOps.TryGet, At, Lacks, Loads, Sub, DirtyAt, Blob, World.Writes;
      var w, hex := W(complete), KeyToHex(key);
      KeyToHexIsKey(key);
      HoldsSized(tree, contents);
      HoldsCanon(tree, contents);
      assert hex[0..] == hex && hex[..0] == [];
      GetLacks(w, root, tree, true, hex, 0);
      GetAgain(w, root, tree, true, hex, 0);
      NoLoads(w.db, root, hex, 0);
      GetEnds(w.db, root, hex, 0);
      var r := TrieOps.TryGet(w.db, root, hex, 0);
      if r.fail.Some? {
        LacksNames(w, r.fail.value, root, tree);
      } else {
        forall p ensures Loads(root, r.node, hex, p) {
          GetLoads(w.db, root, hex, 0, p);
        }
        LoadsFlags(root, r.node, hex);
      }
    }

    static lemma LacksNames(w: World, f: Failure, n: Node, t: Node)
      requires Lacks(w, f, n, t, [])
      ensures var s := Sub(t, f.path);
        (s.Short? || s.Full?) && f.hash == w.k(Blob(w.k, s)) && (f.hash !in w.db || w.db[f.hash] == [])
    {
      assert f.path[0..] == f.path;
    }

    static lemma LoadsFlags(n: Node, r: Node, key: seq<byte>)
      requires forall p :: Loads(n, r, key, p)
      ensures forall p :: DirtyAt(r, p) <==> DirtyAt(n, p)
      ensures (n.Short? || n.Full?) && !Cache(n).dirty ==> !r.Nil? && !Cache(r).dirty
    {
      SubEnd(n, []);
      SubEnd(r, []);
      assert Loads(n, r, key, []);
      forall p ensures DirtyAt(r, p) <==> DirtyAt(n, p) {
        assert Loads(n, r, key, p);
      }
    }

    static lemma RecordedOrigin(m: Marks, events: seq<Event>)
      ensures Recorded(m, events).origin == Origins(m.origin, events)
    {
    }

    static lemma RecordedNothing(m: Marks, events: seq<Event>)
      requires NetAll(m.insert, m.delete, events) == NetAll(m.insert, m.delete, [])
      ensures Recorded(m, events).insert == m.insert && Recorded(m, events).delete == m.delete
    {
    }

    /** `tryUpdate`: one entry of the map changes, or nothing when a node is missing.  The tracer
        stays exact unless a deletion gets stuck: then it has reported a leaf that is still
        there. */
    method Update(key: seq<byte>, value: seq<byte>, ghost complete: bool) returns (fail: Option<Failure>)
      requires Stands(complete) && 2 * |key| + 1 < MAX_LEN && |value| < MAX_LEN
      modifies this`root, this`tree, this`contents, Hooks()
      ensures Stands(complete)
      ensures complete ==> fail.None?
      ensures contents == (
        if fail.Some? then old(contents)
        else if value != [] then old(contents)[key := value]
        else old(contents) - {key})
      ensures fail.Some? ==> root == old(root) && tree == old(tree) && Names(fail.value)
      ensures fail.Some? ==> Near(fail.value.path, KeyToHex(key)) && (value != [] ==> IsPrefix(fail.value.path, KeyToHex(key)))
      ensures forall p :: DirtyAt(root, p) ==> old(DirtyAt(root, p)) || (contents != old(contents) && Near(p, KeyToHex(key)))
      ensures contents == old(contents) && !old(root).HashNode? ==> root == old(root)
      ensures contents == old(contents) && old(Clean()) ==> Clean()
      ensures old(Traced()) && capture != null ==>
        (Traced() <==> value != [] || !old(Blocked(key)))
      ensures value == [] && old(Blocked(key)) ==> fail.Some?
      ensures old(Sourced(complete)) ==> Sourced(complete)
      ensures old(Sourced(complete) && Remembers()) ==> Remembers()
    {
      hide Known, TrieDB.Valid, TrieDB.Store, StoreOk, World.Rep, Changed, Recorded, Exact, NodePaths, Holds, Fits, At, KeyToHex, Stuck,
           Original, AllOriginal, Blocked, DirtyAt, Sub, Blob, Near;
      UpdateLeaves(key, value, complete);
      ghost var t := UpdateParts(key, value, complete);
      var n;
      n, fail := ChangeNode(key, value);
      if fail.Some? {
        return;
      }
      root := n;
      tree := t;
      contents := if value != [] then contents[key := value] else contents - {key};
    }

    /** What an update is about to do. */
    lemma UpdateParts(key: seq<byte>, value: seq<byte>, complete: bool) returns (t: Node)
      requires Stands(complete) && 2 * |key| + 1 < MAX_LEN && |value| < MAX_LEN
      ensures At(root, KeyToHex(key))
      ensures var r, m := Changed(reader.Store(), root, KeyToHex(key), value),
                          if value != [] then contents[key := value] else contents - {key};
        && (complete ==> r.fail.None?)
        && (r.fail.None? ==> W(complete).Rep(r.node, t, true) && Holds(t, m) && Fits(m))
        && (value == [] && Blocked(key) ==> r.fail.Some?)
      ensures var r := Changed(reader.Store(), root, KeyToHex(key), value);
        var after := Recorded(Seen(), r.events);
        capture != null ==>
          && (Sourced(complete) ==> Original(W(complete), r.node, [], began) && AllOriginal(k, after.origin, began))
          && (Sourced(complete) && Remembers() ==>
                Known(k, if r.fail.Some? then root else r.node, if r.fail.Some? then tree else t, began, after.origin))
          && (Traced() ==>
                (Exact(after.insert, after.delete, NodePaths(began), NodePaths(if r.fail.Some? then tree else t)) <==>
                  value != [] || !Blocked(key)))
    {
      hide TrieDB.Valid, TrieDB.Store, StoreOk, World.Rep, Changed, Recorded, Exact, NodePaths, Legal, After, World.Writes,
           Holds, Fits, At, KeyToHex, Stuck, Original, AllOriginal, Origins, NetAll, Known;
      var w, hex := W(complete), KeyToHex(key);
      UpdateSteps(w, root, tree, contents, key, value);
      var r := Changed(w.db, root, hex, value);
      t := Changed(NOWHERE, tree, hex, value).node;
      if capture != null {
        if Sourced(complete) {
          ChangeOriginal(w, root, hex, value, capture.origin, began);
          if Remembers() {
            ChangeKnown(w, root, tree, contents, key, value, began, capture.origin);
          }
        }
        if Traced() {
          ChangeTraced(w, root, tree, contents, key, value, Seen(), began);
        }
      }
      NeverStuckAndDone(w, root, tree, contents, key, value);
      RecordedMarks(Seen(), r.events);
      RecordedOrigin(Seen(), r.events);
    }

    /** What an update is about to leave alone, or to miss. */
    lemma UpdateLeaves(key: seq<byte>, value: seq<byte>, complete: bool)
      requires Stands(complete) && 2 * |key| + 1 < MAX_LEN && |value| < MAX_LEN
      ensures At(root, KeyToHex(key))
      ensures var r := Changed(reader.Store(), root, KeyToHex(key), value);
        var changed := (if value != [] then contents[key := value] else contents - {key}) != contents;
        && (r.fail.Some? ==>
              && Names(r.fail.value) && Near(r.fail.value.path, KeyToHex(key))
              && (value != [] ==> IsPrefix(r.fail.value.path, KeyToHex(key))))
        && (r.fail.None? ==>
              && (forall p :: DirtyAt(r.node, p) ==> DirtyAt(root, p) || (changed && Near(p, KeyToHex(key))))
              && (!changed && !root.HashNode? ==> r.node == root))
    {
      hide TrieDB.Valid, TrieDB.Store, StoreOk, Fits, World.Rep, Changed, At, Lacks, Keeps, Sub, DirtyAt, Blob, Holds, KeyToHex, Near,
           World.Writes;
      var w, hex := W(complete), KeyToHex(key);
      KeyToHexIsKey(key);
      HoldsSized(tree, contents);
      HoldsCanon(tree, contents);
      UpdateSteps(w, root, tree, contents, key, value);
      ChangedIs(w.db, root, hex, value);
      var r := Changed(w.db, root, hex, value);
      if r.fail.Some? {
        ChangeLacks(w, root, tree, hex, value);
        LacksNames(w, r.fail.value, root, tree);
      } else {
        ChangeIsDirty(w, root, tree, contents, key, value);
        forall p ensures DirtyAt(r.node, p) ==> DirtyAt(root, p) || (r.dirty && Near(p, hex)) {
          ChangeKeeps(w.db, root, hex, value, p);
        }
        ChangeKeeps(w.db, root, hex, value, []);
      }
    }

    static lemma ChangeKeeps(db: Store, n: Node, hex: seq<byte>, value: seq<byte>, p: seq<byte>)
      requires StoreOk(db) && At(n, hex)
      ensures var r := Changed(db, n, hex, value);
        r.fail.None? ==>
          && (DirtyAt(r.node, p) ==> DirtyAt(n, p) || (r.dirty && Near(p, hex)))
          && (!r.dirty ==> Stays(db, n, r.node))
    {
      hide StoreOk, At, Insert, Delete, Sub, DirtyAt, Near, Removed;
      if value != [] {
        InsertKeeps(db, n, [], hex, value, p);
      } else {
        DeleteKeeps(db, n, [], hex, p);
      }
    }

    static lemma ChangeLacks(w: World, n: Node, t: Node, hex: seq<byte>, value: seq<byte>)
      requires StoreOk(w.db) && w.Rep(n, t, true) && Nodes.Sized(t) && TreeAt(t, hex)
      ensures At(n, hex)
      ensures var f := Changed(w.db, n, hex, value).fail;
        f.Some? ==>
          Lacks(w, f.value, n, t, []) && Near(f.value.path, hex) && (value != [] ==> IsPrefix(f.value.path, hex))
    {
      hide StoreOk, At, Insert, Delete, Lacks, World.Rep;
      assert [] + hex == hex;
      if value != [] {
        InsertLacks(w, n, t, true, [], hex, value);
        PrefixIsNear(hex);
      } else {
        DeleteLacks(w, n, t, true, [], hex);
      }
    }

    static lemma PrefixIsNear(key: seq<byte>)
      ensures forall p | IsPrefix(p, key) :: Near(p, key)
    {
      forall p | IsPrefix(p, key) ensures Near(p, key) {
        if p != [] {
          assert p[..|p| - 1] == key[..|p|][..|p| - 1] == key[..|p| - 1];
        }
      }
    }

    /** The update reports a change exactly when the map changes. */
    static lemma ChangeIsDirty(w: World, n: Node, t: Node, m: map<seq<byte>, seq<byte>>, key: seq<byte>, value: seq<byte>)
      requires StoreOk(w.db) && w.Rep(n, t, true) && Holds(t, m) && Fits(m)
      requires 2 * |key| + 1 < MAX_LEN && |value| < MAX_LEN
      ensures At(n, KeyToHex(key))
      ensures var r, m' := Changed(w.db, n, KeyToHex(key), value), if value != [] then m[key := value] else m - {key};
        r.fail.None? ==> (r.dirty <==> m' != m)
    {
      hide World.Rep, Insert, Delete, World.Writes, Sized, Lookup, At, StoreOk, Fits;
      var hex := KeyToHex(key);
      KeyToHexIsKey(key);
      HoldsSized(t, m);
      HoldsCanon(t, m);
      assert Lookup(t, hex) == if key in m then Some(m[key]) else None;
      if value != [] {
        w.InsertRefines(n, t, true, [], hex, value);
        InsertLookup(t, [], hex, value, hex);
        assert m[key := value] == m <==> key in m && m[key] == value;
      } else {
        w.DeleteRefines(n, t, true, [], hex);
        DeleteLookup(t, [], hex, hex);
        assert m - {key} == m <==> key !in m;
      }
    }

    /** A deletion of this key, which is there, would fail to find its leaf's last sibling. */
    ghost predicate Blocked(key: seq<byte>)
      requires Ready()
      reads this, reader, reader.diskdb
    {
      Stuck(reader.Store(), root, KeyToHex(key))
    }

    /** The insertion or the deletion. */
    method ChangeNode(key: seq<byte>, value: seq<byte>) returns (n: Node, fail: Option<Failure>)
      requires Ready() && At(root, KeyToHex(key))
      modifies Hooks()
      ensures var r := Changed(reader.Store(), root, KeyToHex(key), value);
        n == r.node && fail == r.fail && Told(old(Seen()), r.events)
    {
      hide TrieDB.Valid, TrieDB.Store, StoreOk, Changed, Recorded, At, KeyToHex, Insert, Delete;
      ChangedIs(reader.Store(), root, KeyToHex(key), value);
      var nibbles := KeyBytesToHex(key);
      var dirty;
      if |value| != 0 {
        dirty, n, fail := InsertNode(root, [], nibbles[..], value);
      } else {
        dirty, n, fail := DeleteNode(root, [], nibbles[..]);
      }
    }

    /** What an update leaves unloaded, and what it reports read, is original. */
    static lemma ChangeOriginal(w: World, n: Node, hex: seq<byte>, value: seq<byte>, origin: map<seq<byte>, seq<byte>>, began: Node)
      requires StoreOk(w.db) && At(n, hex) && Original(w, n, [], began) && AllOriginal(w.k, origin, began)
      ensures var r := Changed(w.db, n, hex, value);
        Original(w, r.node, [], began) && AllOriginal(w.k, Origins(origin, r.events), began)
    {
      hide Original, AllOriginal, Origins, Insert, Delete, At, StoreOk, Reported;
      if value != [] {
        InsertOriginal(w, n, [], hex, value, began);
      } else {
        DeleteOriginal(w, n, [], hex, began);
      }
      OriginsReport(w.k, origin, Changed(w.db, n, hex, value).events, began);
    }

    static lemma ChangeKnown(w: World, n: Node, t: Node, m: map<seq<byte>, seq<byte>>, key: seq<byte>, value: seq<byte>,
                             began: Node, origin: map<seq<byte>, seq<byte>>)
      requires StoreOk(w.db) && w.Rep(n, t, true) && Holds(t, m) && Fits(m)
      requires Original(w, n, [], began) && Known(w.k, n, t, began, origin)
      ensures var hex := KeyToHex(key); StoreOk(NOWHERE) && At(n, hex) && At(t, hex)
      ensures var hex := KeyToHex(key);
        var r, s := Changed(w.db, n, hex, value), Changed(NOWHERE, t, hex, value);
        Known(w.k, if r.fail.Some? then n else r.node, if r.fail.Some? then t else s.node, began, Origins(origin, r.events))
    {
      hide Known, Original, Insert, Delete, At, StoreOk, World.Rep, Holds, Fits, KeyToHex, Sized, Origins;
      var hex := KeyToHex(key);
      KeyToHexIsKey(key);
      HoldsSized(t, m);
      HoldsCanon(t, m);
      w.RepIsAt(n, t, true, hex);
      if value != [] {
        InsertKnown(w, n, t, hex, value, began, origin);
      } else {
        DeleteKnown(w, n, t, hex, began, origin);
      }
      KnownStays(w.k, n, t, Changed(w.db, n, hex, value).events, began, origin);
    }

    /** The tracer stays exact, for the new tree or, after a failure, for the old one, unless the
        deletion is stuck. */
    static lemma ChangeTraced(w: World, n: Node, t: Node, m: map<seq<byte>, seq<byte>>, key: seq<byte>, value: seq<byte>,
                              before: Marks, began: Node)
      requires StoreOk(w.db) && w.Rep(n, t, true) && Holds(t, m) && Fits(m)
      requires 2 * |key| + 1 < MAX_LEN && |value| < MAX_LEN
      requires Exact(before.insert, before.delete, NodePaths(began), NodePaths(t))
      ensures var hex := KeyToHex(key);
        StoreOk(NOWHERE) && At(n, hex) && At(t, hex)
        && var r, s := Changed(w.db, n, hex, value), Changed(NOWHERE, t, hex, value);
           var (i, d) := NetAll(before.insert, before.delete, r.events);
           Exact(i, d, NodePaths(began), NodePaths(if r.fail.Some? then t else s.node)) <==>
             value != [] || !Stuck(w.db, n, hex)
    {
      hide Exact, NodePaths, Legal, After, World.Rep, World.Writes, Holds, Fits, Changed, Stuck, NetAll, At, StoreOk, KeyToHex;
      var hex := KeyToHex(key);
      UpdateSteps(w, n, t, m, key, value);
      NeverStuckAndDone(w, n, t, m, key, value);
      var r, s := Changed(w.db, n, hex, value), Changed(NOWHERE, t, hex, value);
      if r.fail.None? {
        UpdateTracks(before.insert, before.delete, began, t, s.node, r.events, s.events);
      } else {
        FailureTells(w, n, t, m, key, value, before, began);
      }
    }

    static lemma NeverStuckAndDone(w: World, n: Node, t: Node, m: map<seq<byte>, seq<byte>>, key: seq<byte>, value: seq<byte>)
      requires StoreOk(w.db) && w.Rep(n, t, true) && Holds(t, m)
      ensures At(n, KeyToHex(key))
      ensures value == [] && Stuck(w.db, n, KeyToHex(key)) ==> Changed(w.db, n, KeyToHex(key), value).fail.Some?
    {
      hide World.Rep, Holds, Stuck, Delete, Insert, World.Writes, Leaves;
      KeyToHexIsKey(key);
      HoldsCanon(t, m);
      w.RepIsAt(n, t, true, KeyToHex(key));
      DeleteStuck(w.db, n, [], KeyToHex(key));
    }

    static lemma FailureTells(w: World, n: Node, t: Node, m: map<seq<byte>, seq<byte>>, key: seq<byte>, value: seq<byte>,
                              before: Marks, began: Node)
      requires StoreOk(w.db) && w.Rep(n, t, true) && Holds(t, m) && Fits(m) && At(n, KeyToHex(key))
      requires Exact(before.insert, before.delete, NodePaths(began), NodePaths(t))
      requires Changed(w.db, n, KeyToHex(key), value).fail.Some?
      ensures var (i, d) := NetAll(before.insert, before.delete, Changed(w.db, n, KeyToHex(key), value).events);
        Exact(i, d, NodePaths(began), NodePaths(t)) <==> value != [] || !Stuck(w.db, n, KeyToHex(key))
    {
      hide World.Rep, Holds, Fits, Stuck, StuckAt, Delete, Insert, World.Writes, Exact, At, StoreOk;
      var hex := KeyToHex(key);
      var events := Changed(w.db, n, hex, value).events;
      KeyToHexIsKey(key);
      HoldsCanon(t, m);
      HoldsSized(t, m);
      NetOfWrites(before.insert, before.delete, events);
      if value != [] {
        InsertFails(w.db, n, [], hex, value);
      } else {
        DeleteStuck(w.db, n, [], hex);
        if Stuck(w.db, n, hex) {
          StuckNode(w, n, t, true, hex);
          assert [] + StuckAt(w.db, n, hex) == StuckAt(w.db, n, hex);
          Spoils(before.insert, before.delete, NodePaths(began), NodePaths(t), StuckAt(w.db, n, hex));
        }
      }
    }

    /** The update of a node, by insertion or deletion. */
    static function Changed(db: Store, n: Node, hex: seq<byte>, value: seq<byte>): Outcome
      requires StoreOk(db) && At(n, hex)
    {
      if value != [] then Insert(db, n, [], hex, value) else Delete(db, n, [], hex)
    }

    static lemma ChangedIs(db: Store, n: Node, hex: seq<byte>, value: seq<byte>)
      requires StoreOk(db) && At(n, hex)
      ensures Changed(db, n, hex, value) == if value != [] then Insert(db, n, [], hex, value) else Delete(db, n, [], hex)
    {
    }

    /** On the lazy node and on its tree the update does the same; on the tree it is the update
        of the map, and its events lead from the old tree's paths to the new one's. */
    static lemma UpdateSteps(w: World, n: Node, t: Node, m: map<seq<byte>, seq<byte>>, key: seq<byte>, value: seq<byte>)
      requires StoreOk(w.db) && w.Rep(n, t, true) && Holds(t, m) && Fits(m)
      requires 2 * |key| + 1 < MAX_LEN && |value| < MAX_LEN
      ensures var hex := KeyToHex(key); StoreOk(NOWHERE) && At(n, hex) && At(t, hex)
      ensures var hex := KeyToHex(key);
        var r, s := Changed(w.db, n, hex, value), Changed(NOWHERE, t, hex, value);
        && (w.complete ==> r.fail.None?)
        && (r.fail.None? ==> w.Rep(r.node, s.node, true) && World.Writes(r.events) == s.events)
        && Legal(NodePaths(t), s.events) && After(NodePaths(t), s.events) == NodePaths(s.node)
        && var m' := if value != [] then m[key := value] else m - {key};
           Holds(s.node, m') && Fits(m')
    {
      hide World.Rep, Holds, Insert, Delete, NodePaths, Legal, After, World.Writes, Sized;
      KeyToHexIsKey(key);
      HoldsSized(t, m);
      HoldsCanon(t, m);
      UpdateHolds(t, m, key, value);
      UpdateIs(t, key, value);
      var hex := KeyToHex(key);
      if value != [] {
        w.InsertRefines(n, t, true, [], hex, value);
        InsertTracks(t, hex, value);
      } else {
        w.DeleteRefines(n, t, true, [], hex);
        DeleteTracks(t, hex);
      }
    }

    static lemma RecordedMarks(m: Marks, events: seq<Event>)
      ensures (Recorded(m, events).insert, Recorded(m, events).delete) == NetAll(m.insert, m.delete, events)
    {
    }

    static lemma HoldsCanon(t: Node, m: map<seq<byte>, seq<byte>>)
      requires Holds(t, m)
      ensures CanonOrNil(t)
    {
    }

    static lemma UpdateIs(t: Node, key: seq<byte>, value: seq<byte>)
      requires CanonOrNil(t)
      ensures StoreOk(NOWHERE) && TreeAt(t, KeyToHex(key)) && At(t, KeyToHex(key))
      ensures History.Update(t, key, value)
           == if value != [] then Insert(NOWHERE, t, [], KeyToHex(key), value).node else Delete(NOWHERE, t, [], KeyToHex(key)).node
    {
      KeyToHexIsKey(key);
      TreeIsAt(t, KeyToHex(key));
    }

    /** `Hash`: the Merkle root of the map's one tree, whatever hashes were cached; the map
        stays the same, and all hashes are cached afterwards. */
    method Hash(ghost complete: bool) returns (h: Nodes.Hash)
      requires Stands(complete)
      modifies this`root
      ensures Stands(complete)
      ensures h == RootHash(k, tree)
      ensures root.Nil? <==> tree.Nil?
      ensures W(complete).Hashed(root, tree, true)
      ensures forall p :: DirtyAt(root, p) <==> old(DirtyAt(root, p))
      ensures Clean() <==> old(Clean())
      ensures old(Sourced(complete)) ==> Sourced(complete)
      ensures old(Remembers()) ==> Remembers()
    {
      hide Known, DirtyAt, TrieDB.Valid, TrieDB.Store, StoreOk, World.Rep, World.Hashed, Holds, Fits, Sized, Original, Unhashed,
           World.FlagOk, World.IsRef, AllOriginal, Blob, Canon, Big, RefItem;
      HoldsSized(tree, contents);
      HoldsCanon(tree, contents);
      ghost var w := W(complete);
      w.RepCases(root, tree, true);
      if root.Nil? {
        NilHashed(w);
        return EMPTY_ROOT;
      }
      var hashed, cached := HashRoot(root, tree, w);
      SameDirt(root, cached);
      if old(Remembers()) && capture != null {
        UnhashedKnown(k, root, cached, tree, began, capture.origin);
      }
      if old(Sourced(complete)) && capture != null {
        OriginalUnhashed(w, root, cached, [], began);
      }
      root := cached;
      h := hashed.hash;
    }

    /** `hashRoot` */
    method HashRoot(n: Node, ghost t: Node, ghost w: World) returns (hashed: Node, cached: Node)
      requires w.k == k && w.Rep(n, t, true) && Canon(t) && Sized(t)
      ensures hashed == HashNode(RootHash(k, t))
      ensures w.Rep(cached, t, true) && w.Hashed(cached, t, true) && Unhashed(cached) == Unhashed(n)
      ensures !cached.Nil?
    {
      hide World.Rep, World.Hashed, Sized, Unhashed, Canon;
      var hasher := new Hasher(k);
      hashed, cached := hasher.Hash(n, true, t, w);
      w.RepCases(cached, t, true);
      w.RepCases(n, t, true);
      RootIs(k, t);
    }

    static lemma RootIs(k: Keccak, t: Node)
      requires Canon(t)
      ensures RootHash(k, t) == k(Blob(k, t)) && !t.Nil?
    {
    }

    static lemma SameDirt(m: Node, n: Node)
      requires Unhashed(m) == Unhashed(n)
      ensures forall p :: DirtyAt(m, p) <==> DirtyAt(n, p)
      ensures Cache(m).dirty == Cache(n).dirty && (m.Nil? <==> n.Nil?)
    {
      hide DirtyAt;
      forall p ensures DirtyAt(m, p) <==> DirtyAt(n, p) {
        UnhashedDirty(m, n, p);
      }
    }

    static lemma NilHashed(w: World)
      ensures w.Hashed(Nil, Nil, true)
    {
    }

    /** What a commit hands over: entries for nodes of the tree, each path once, children first,
        that together with the store cover the tree; and as deletions, with what was read there,
        the paths that the tracer knows to be gone and those of dirty nodes too small to be
        stored. */
    static ghost predicate Commits(w: World, t: Node, hashed: Node, u: Updates, deletes: map<seq<byte>, seq<byte>>,
                                   collectLeaf: bool, seen: Marks, es: seq<Entry>) {
      && u == MarkAll(NO_UPDATES, es, seen.origin, collectLeaf)
      && DistinctPaths(es) && FromTree(w.k, t, es)
      && (w.complete ==> ChildrenFirst(w.db, es) && Covered(w, es, t, true))
      && w.Rep(hashed, t, true) && w.Hashed(hashed, t, true) && es == Emit(w.k, hashed, t, [])
      && deletes == Gone(Dropped(hashed, []) + seen.delete, seen.origin)
    }

    /** `Commit`; `null` stands for nothing to commit.  Afterwards only the root hash is left, and
        a tracer starts afresh, unless the trie is empty: then it is not reset.  An exact tracer
        keeps deletions and updates apart, and a deletion carries the encoding of the node that
        was there when tracking began. */
    method Commit(collectLeaf: bool, ghost complete: bool)
      returns (h: Nodes.Hash, nodes: NodeSet?, ghost es: seq<Entry>, ghost hashed: Node)
      requires Stands(complete)
      modifies this`root, this`began, Hooks()
      ensures h == RootHash(k, tree)
      ensures nodes == null <==> old(Clean())
      ensures nodes == null ==> tree.Nil? || W(complete).HeldAt(tree, true)
      ensures nodes != null ==> forall e | e in es :: old(DirtyAt(root, e.path))
      ensures nodes != null ==>
        && fresh(nodes) && nodes.owner == ZERO_HASH && !tree.Nil?
        && Commits(W(complete), tree, hashed, nodes.View(), nodes.deletes, collectLeaf, old(Seen()), es)
      ensures nodes != null && old(Traced()) ==> forall e | e in es :: e.path !in nodes.deletes
      ensures nodes != null && old(Sourced(complete)) ==>
        forall p | p in nodes.deletes :: nodes.deletes[p] == Blob(k, Sub(old(began), p))
      ensures nodes != null && old(Traced() && Sourced(complete) && Remembers()) ==>
        forall p | StoredAt(k, old(began), p) && !NodeAt(tree, p) && capture != null :: p in nodes.deletes
      ensures nodes != null ==> forall p | p in nodes.nodes ::
        nodes.nodes[p].oldv == if p in old(Seen()).origin then old(Seen()).origin[p] else []
      ensures nodes != null ==> forall p | p in old(Seen()).delete && p in old(Seen()).origin && old(Seen()).origin[p] != [] ::
        p in nodes.deletes && nodes.deletes[p] == old(Seen()).origin[p]
      ensures root == if tree.Nil? then Nil else HashNode(h)
      ensures began == if tree.Nil? then old(began) else tree
      ensures if tree.Nil? then old(Traced()) ==> Traced() else Traced() && Seen() == Marks({}, {}, map[])
      ensures if tree.Nil? then old(Remembers()) ==> Remembers() else Remembers()
    {
      hide Known, StoredAt, TrieDB.Valid, TrieDB.Store, StoreOk, World.Rep, World.Hashed, World.HeldAt, Holds, Fits, Canon, MarkAll, Emit, Blob,
           Gone, Dropped, DistinctPaths, FromTree, ChildrenFirst, Covered, Exact, NodePaths, Original, AllOriginal, Sub, DirtyAt;
      es, nodes, hashed := [], null, Nil;
      HoldsCanon(tree, contents);
      ghost var w := W(complete);
      w.RepCases(root, tree, true);
      if root.Nil? {
        return EMPTY_ROOT, null, [], Nil;
      }
      h := Hash(complete);
      CleanHeld(w, root, tree);
      if !Cache(root).dirty {
        root := HashNode(h);
        ResetCapture();
        began := tree;
        BeginsKnown(k, root, tree, Seen().origin);
        return;
      }
      hashed := root;
      var newRoot;
      newRoot, nodes, es := Collect(collectLeaf, complete);
      root := HashNode(newRoot);
      ResetCapture();
      began := tree;
      BeginsKnown(k, root, tree, Seen().origin);
    }

    /** The committer's run on a hashed trie. */
    method Collect(collectLeaf: bool, ghost complete: bool)
      returns (newRoot: Nodes.Hash, nodes: NodeSet, ghost es: seq<Entry>)
      requires Stands(complete) && W(complete).Hashed(root, tree, true) && !tree.Nil?
      ensures newRoot == RootHash(k, tree)
      ensures fresh(nodes) && nodes.owner == ZERO_HASH
      ensures Commits(W(complete), tree, root, nodes.View(), nodes.deletes, collectLeaf, Seen(), es)
      ensures Traced() ==> forall e | e in es :: e.path !in nodes.deletes
      ensures forall e | e in es :: DirtyAt(root, e.path)
      ensures Sourced(complete) ==> forall p | p in nodes.deletes :: nodes.deletes[p] == Blob(k, Sub(began, p))
      ensures Traced() && Sourced(complete) && Remembers() ==>
        forall p | StoredAt(k, began, p) && !NodeAt(tree, p) && capture != null :: p in nodes.deletes
      ensures forall p | p in nodes.nodes :: nodes.nodes[p].oldv == if p in Seen().origin then Seen().origin[p] else []
      ensures forall p | p in Seen().delete && p in Seen().origin && Seen().origin[p] != [] ::
        p in nodes.deletes && nodes.deletes[p] == Seen().origin[p]
    {
      hide Known, StoredAt, TrieDB.Valid, TrieDB.Store, StoreOk, World.Rep, World.Hashed, Holds, Fits, Canon, MarkAll, Emit, Blob,
           Gone, Dropped, DistinctPaths, FromTree, ChildrenFirst, Covered, Exact, NodePaths, Original, AllOriginal, Sub, DirtyAt;
      HoldsCanon(tree, contents);
      nodes := new NodeSet(ZERO_HASH);
      var c := new Committer(nodes, capture, collectLeaf);
      es := Emit(k, root, tree, []);
      Emitting(W(complete), root, tree);
      newRoot := c.Commit(root, tree, W(complete));
      KeptApart(W(complete), root, tree, Seen(), began, capture != null, es);
      GoneOriginal(k, Dropped(root, []) + Seen().delete, Seen().origin, began, capture != null);
      AllGone(k, root, tree, Dropped(root, []), Seen(), began);
      MarkedEntries(es, Seen().origin, collectLeaf);
      OldValues(es, Seen().origin, collectLeaf);
      assert nodes.View().nodes == nodes.nodes;
    }

    /** Every deletion that was tracked of a node that was read; and over a whole run, every node
        that was stored and is gone. */
    static lemma AllGone(k: Keccak, n: Node, t: Node, dropped: set<seq<byte>>, seen: Marks, began: Node)
      ensures forall p | p in seen.delete && p in seen.origin && seen.origin[p] != [] ::
        p in Gone(dropped + seen.delete, seen.origin) && Gone(dropped + seen.delete, seen.origin)[p] == seen.origin[p]
      ensures (Exact(seen.insert, seen.delete, NodePaths(began), NodePaths(t)) && AllOriginal(k, seen.origin, began)
               && Known(k, n, t, began, seen.origin)) ==>
        forall p | StoredAt(k, began, p) && !NodeAt(t, p) :: p in Gone(dropped + seen.delete, seen.origin)
    {
      hide Sub, Blob, Big, Unloaded;
      if Exact(seen.insert, seen.delete, NodePaths(began), NodePaths(t)) && AllOriginal(k, seen.origin, began)
        && Known(k, n, t, began, seen.origin)
      {
        forall p | StoredAt(k, began, p) && !NodeAt(t, p) ensures p in Gone(dropped + seen.delete, seen.origin) {
          SubIsNode(began, p);
          BlobNotEmpty(k, Sub(began, p));
          if Sub(t, p) == Sub(began, p) {
            SubIsNode(t, p);
          }
        }
      }
    }

    static lemma BlobNotEmpty(k: Keccak, t: Node)
      ensures Blob(k, t) != []
    {
    }

    static lemma OldValues(es: seq<Entry>, origin: map<seq<byte>, seq<byte>>, collectLeaf: bool)
      requires DistinctPaths(es)
      ensures var u := MarkAll(NO_UPDATES, es, origin, collectLeaf);
        forall p | p in u.nodes :: u.nodes[p].oldv == if p in origin then origin[p] else []
    {
      hide MarkAll, DistinctPaths;
      MarkedInOrder(es, origin, collectLeaf);
    }

    static lemma KeptApart(w: World, n: Node, t: Node, seen: Marks, began: Node, tracing: bool, es: seq<Entry>)
      requires w.Rep(n, t, true) && w.Hashed(n, t, true) && Canon(t) && es == Emit(w.k, n, t, [])
      requires !tracing ==> seen.origin == map[]
      ensures !tracing || Exact(seen.insert, seen.delete, NodePaths(began), NodePaths(t)) ==>
        forall e | e in es :: e.path !in Gone(Dropped(n, []) + seen.delete, seen.origin)
    {
      hide Exact, Dropped, NodePaths, World.Rep, World.Hashed, Canon, Emit;
      if tracing && Exact(seen.insert, seen.delete, NodePaths(began), NodePaths(t)) {
        forall e | e in es ensures e.path !in Dropped(n, []) + seen.delete {
          DeletesApart(w, n, t, seen.insert, seen.delete, began, e);
        }
      }
    }

    static lemma GoneOriginal(k: Keccak, paths: set<seq<byte>>, origin: map<seq<byte>, seq<byte>>, began: Node, tracing: bool)
      requires !tracing ==> origin == map[]
      ensures !tracing || AllOriginal(k, origin, began) ==>
        forall p | p in Gone(paths, origin) :: Gone(paths, origin)[p] == Blob(k, Sub(began, p))
    {
      hide Blob, Sub;
    }

    static lemma CleanHeld(w: World, n: Node, t: Node)
      requires w.Rep(n, t, true) && w.Hashed(n, t, true)
      ensures !Cache(n).dirty ==> w.HeldAt(t, true)
    {
    }

    static lemma Emitting(w: World, n: Node, t: Node)
      requires w.Rep(n, t, true) && w.Hashed(n, t, true) && Canon(t)
      ensures var es := Emit(w.k, n, t, []);
        && DistinctPaths(es) && FromTree(w.k, t, es)
        && (w.complete ==> ChildrenFirst(w.db, es) && Covered(w, es, t, true))
        && forall e | e in es :: DirtyAt(n, e.path)
    {
      hide DirtyAt, World.Rep, World.Hashed, Emit;
      forall e | e in Emit(w.k, n, t, []) ensures DirtyAt(n, e.path) {
        EmitDirty(w, n, t, true, [], e);
        assert e.path[0..] == e.path;
      }
      EmitDistinct(w, n, t, true, []);
      forall e | e in Emit(w.k, n, t, []) ensures Describes(w.k, e, t, true, []) {
        EmitDescribes(w, n, t, true, [], e);
      }
      if w.complete {
        EmitChildrenFirst(w, n, t, true, []);
        EmitCovers(w, n, t, true, []);
      }
    }

    method ResetCapture()
      modifies Hooks()
      ensures capture != null ==> capture.State() == Marks({}, {}, map[])
      ensures forall t :: capture != null ==> Tracks(capture, t, t)
    {
      if capture != null {
        capture.Reset();
      }
    }
  }
}
