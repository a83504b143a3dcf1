/** trie/trie.go, trie/trie_capture.go: what a call that fails for want of a node has told the
    tracer.  `delete` fires its hook for a leaf before it looks at the leaf's last sibling, so a
    call that fails there leaves a report behind. */
module Failures {
  import opened Bytes
  import opened HexKeys
  import opened Nodes
  import opened TrieOps
  import opened TreeFacts
  import opened TreePaths
  import opened Refine
  import opened Committing
  import Capture

  /** The node is the leaf of this key, loaded or in the store. */
  ghost predicate IsLeaf(db: Store, n: Node, key: seq<byte>)
    requires StoreOk(db)
  {
    key != [] &&
    match n
    case Short(nk, _, _) => nk == key
    case HashNode(h) => Resolve(db, h).Some? && Resolve(db, h).value.Short? && Resolve(db, h).value.key == key
    case _ => false
  }

  /** Beside slot `i` the branch has one child, below it, that is neither loaded nor in the
      store. */
  ghost predicate LastMissing(db: Store, ch: seq<Node>, i: nat)
    requires StoreOk(db)
  {
    |ch| == 17 && exists pos | 0 <= pos < 16 && pos != i ::
      && ch[pos].HashNode? && Resolve(db, ch[pos].hash).None?
      && forall j | 0 <= j < 17 && j != i && j != pos :: ch[j] == Nil
  }

  /** The path to the key leads to a branch of two: the key's leaf, and a node that is missing. */
  ghost predicate Stuck(db: Store, n: Node, key: seq<byte>)
    requires StoreOk(db)
    decreases |key|, if n.HashNode? then 1 else 0
  {
    match n
    case Short(nk, nv, _) => nk != [] && IsPrefix(nk, key) && Stuck(db, nv, key[|nk|..])
    case Full(ch, _) =>
      key != [] && key[0] < |ch| &&
      ((IsLeaf(db, ch[key[0]], key[1..]) && LastMissing(db, ch, key[0])) || Stuck(db, ch[key[0]], key[1..]))
    case HashNode(h) => Resolve(db, h).Some? && Stuck(db, Resolve(db, h).value, key)
    case _ => false
  }

  /** Where that leaf is. */
  ghost function StuckAt(db: Store, n: Node, key: seq<byte>): seq<byte>
    requires StoreOk(db) && Stuck(db, n, key)
    decreases |key|, if n.HashNode? then 1 else 0
  {
    match n
    case Short(nk, nv, _) => nk + StuckAt(db, nv, key[|nk|..])
    case Full(ch, _) => [key[0]] + if Stuck(db, ch[key[0]], key[1..]) then StuckAt(db, ch[key[0]], key[1..]) else []
    case HashNode(h) => StuckAt(db, Resolve(db, h).value, key)
  }

  lemma WritesNone()
    ensures World.Writes([]) == []
  {
  }

  lemma WritesOne(path: seq<byte>)
    ensures World.Writes([OnDelete(path)]) == [OnDelete(path)]
  {
    World.WritesOfWrites([OnDelete(path)]);
  }

  /** What a deletion leaves no node of is a value or the key's leaf. */
  lemma DeletedWhole(db: Store, n: Node, prefix: seq<byte>, key: seq<byte>)
    requires StoreOk(db) && At(n, key)
    ensures var r := Delete(db, n, prefix, key);
      && (r.fail.Some? ==> !r.dirty)
      && (r.dirty && r.node.Nil? <==> n.Value? || IsLeaf(db, n, key))
      && (n.Value? ==> r.events == [])
      && (IsLeaf(db, n, key) ==> World.Writes(r.events) == [OnDelete(prefix)])
    decreases |key|, if n.HashNode? then 1 else 0
  {
    WritesOne(prefix);
    match n {
      case Short(nk, nv, _) =>
        PrefixLenIs(key, nk);
        if PrefixLen(key, nk) == |nk| < |key| {
          KeyAhead(nk, key);
          DeleteBelowShort(db, n, prefix, key);
        }
      case Full(ch, _) =>
        StepAt(ch, key);
        DeleteBelowFull(db, n, prefix, key);
        NotReducedAway(db, n, prefix, key[0], Delete(db, ch[key[0]], prefix + [key[0]], key[1..]));
      case HashNode(h) =>
        if Resolve(db, h).Some? {
          var c := Resolve(db, h).value;
          DeletedWhole(db, c, prefix, key);
          World.WritesOfRead(prefix, db[h], Delete(db, c, prefix, key).events);
        }
      case _ =>
    }
  }

  lemma PrefixLenIs(key: seq<byte>, nk: seq<byte>)
    ensures PrefixLen(key, nk) == |nk| <==> IsPrefix(nk, key)
    ensures PrefixLen(key, nk) == |nk| == |key| <==> nk == key
  {
    PrefixLenExact(key, nk, PrefixLen(key, nk));
  }

  lemma NotReducedAway(db: Store, n: Node, prefix: seq<byte>, i: byte, r: Outcome)
    requires StoreOk(db) && n.Full? && |n.children| == 17 && i <= 16 && (r.fail.Some? ==> !r.dirty)
    ensures var s := FullAfter(db, n, prefix, i, r); (s.dirty ==> !s.node.Nil?) && (s.fail.Some? ==> !s.dirty)
  {
  }

  /** What a failed deletion has reported: nothing, or the leaf's path when it is stuck there;
      then it misses a node off the path to the key. */
  ghost predicate Leaves(r: Outcome, stuck: bool, leaf: seq<byte>, path: seq<byte>) {
    && (stuck ==> r.fail.Some? && World.Writes(r.events) == [OnDelete(leaf)] && !IsPrefix(r.fail.value.path, path))
    && (r.fail.Some? && !stuck ==> World.Writes(r.events) == [])
  }

  /** A deletion that fails leaves a report behind exactly when it is stuck behind its leaf. */
  lemma {:induction false} DeleteStuck(db: Store, n: Node, prefix: seq<byte>, key: seq<byte>)
    requires StoreOk(db) && At(n, key)
    ensures var r := Delete(db, n, prefix, key);
      && (Stuck(db, n, key) <==> r.fail.Some? && World.Writes(r.events) != [])
      && Leaves(r, Stuck(db, n, key), if Stuck(db, n, key) then prefix + StuckAt(db, n, key) else [], prefix + key)
    decreases |key|, if n.HashNode? then 1 else 0
  {
    hide Delete, StoreOk, Resolve, Stuck, StuckAt, At, IsLeaf, LastMissing, ShortAfter, FullAfter, World.Writes;
    WritesNone();
    StuckIs(db, n, key);
    match n {
      case Short(nk, nv, _) =>
        PrefixLenIs(key, nk);
        if PrefixLen(key, nk) == |nk| < |key| {
          ShapeStep(n, key);
          KeyNotEmpty(n, key);
          DeleteBelowShort(db, n, prefix, key);
          DeleteStuck(db, nv, prefix + nk, key[|nk|..]);
          DeletedWhole(db, nv, prefix + nk, key[|nk|..]);
          ShortStuck(db, n, prefix, key, Delete(db, nv, prefix + nk, key[|nk|..]));
        } else {
          DeleteSimply(db, n, prefix, key);
        }
      case Full(ch, _) =>
        FullAt(n, key);
        var i := key[0];
        DeleteBelowFull(db, n, prefix, key);
        DeleteStuck(db, ch[i], prefix + [i], key[1..]);
        DeletedWhole(db, ch[i], prefix + [i], key[1..]);
        FullStuck(db, n, prefix, key, Delete(db, ch[i], prefix + [i], key[1..]));
      case HashNode(h) =>
        DeleteLoads(db, n, prefix, key);
        if Resolve(db, h).Some? {
          DeleteStuck(db, Resolve(db, h).value, prefix, key);
        }
      case _ =>
        DeleteSimply(db, n, prefix, key);
    }
  }

  lemma FullAt(n: Node, key: seq<byte>)
    requires n.Full? && At(n, key)
    ensures key != [] && key[0] <= 16 && |n.children| == 17 && At(n.children[key[0]], key[1..]) && HexKey(key)
  {
    StepAt(n.children, key);
  }

  lemma StuckIs(db: Store, n: Node, key: seq<byte>)
    requires StoreOk(db)
    ensures n.Nil? || n.Value? ==> !Stuck(db, n, key)
    ensures n.Short? && !IsPrefix(n.key, key) ==> !Stuck(db, n, key)
    ensures n.Short? && n.key == key ==> !Stuck(db, n, key)
    ensures n.HashNode? ==> (Stuck(db, n, key) <==> Resolve(db, n.hash).Some? && Stuck(db, Resolve(db, n.hash).value, key))
    ensures n.HashNode? && Stuck(db, n, key) ==> StuckAt(db, n, key) == StuckAt(db, Resolve(db, n.hash).value, key)
  {
    if n.Short? && n.key == key {
      NotStuckAtEnd(db, n.val);
      assert key[|n.key|..] == [];
    }
  }

  lemma {:induction false} NotStuckAtEnd(db: Store, n: Node)
    requires StoreOk(db)
    ensures !Stuck(db, n, [])
    decreases if n.HashNode? then 1 else 0
  {
    if n.HashNode? && Resolve(db, n.hash).Some? {
      NotStuckAtEnd(db, Resolve(db, n.hash).value);
    }
  }

  lemma DeleteSimply(db: Store, n: Node, prefix: seq<byte>, key: seq<byte>)
    requires StoreOk(db) && At(n, key)
    requires n.Nil? || n.Value? || (n.Short? && (PrefixLen(key, n.key) < |n.key| || PrefixLen(key, n.key) == |key|))
    ensures Delete(db, n, prefix, key).fail.None?
  {
  }

  lemma DeleteLoads(db: Store, n: Node, prefix: seq<byte>, key: seq<byte>)
    requires StoreOk(db) && At(n, key) && n.HashNode?
    ensures Resolve(db, n.hash).None? ==> World.Writes(Delete(db, n, prefix, key).events) == []
    ensures Resolve(db, n.hash).Some? ==>
      var c := Resolve(db, n.hash).value;
      && !c.HashNode? && At(c, key)
      && Delete(db, n, prefix, key).fail == Delete(db, c, prefix, key).fail
      && World.Writes(Delete(db, n, prefix, key).events) == World.Writes(Delete(db, c, prefix, key).events)
  {
    if Resolve(db, n.hash).Some? {
      World.WritesOfRead(prefix, db[n.hash], Delete(db, Resolve(db, n.hash).value, prefix, key).events);
    }
  }

  /** Above a child the same failure, and the same report. */
  lemma ShortStuck(db: Store, n: Node, prefix: seq<byte>, key: seq<byte>, r: Outcome)
    requires StoreOk(db) && n.Short? && IsPrefix(n.key, key) && n.key != []
    requires r.fail.Some? ==> !r.dirty
    requires var stuck := Stuck(db, n.val, key[|n.key|..]);
      && (stuck <==> r.fail.Some? && World.Writes(r.events) != [])
      && Leaves(r, stuck, if stuck then prefix + n.key + StuckAt(db, n.val, key[|n.key|..]) else [], prefix + n.key + key[|n.key|..])
    ensures var s, stuck := ShortAfter(n, prefix, r), Stuck(db, n, key);
      && (stuck <==> s.fail.Some? && World.Writes(s.events) != [])
      && Leaves(s, stuck, if stuck then prefix + StuckAt(db, n, key) else [], prefix + key)
  {
    hide World.Writes, Stuck, StuckAt;
    var rest := key[|n.key|..];
    StuckBelow(db, n, key);
    assert prefix + n.key + rest == prefix + key;
    assert r.fail.Some? ==> ShortAfter(n, prefix, r).fail == r.fail && ShortAfter(n, prefix, r).events == r.events;
    assert r.fail.None? ==> ShortAfter(n, prefix, r).fail.None?;
    hide ShortAfter;
    if Stuck(db, n.val, rest) {
      assert prefix + n.key + StuckAt(db, n.val, rest) == prefix + StuckAt(db, n, key);
    }
  }

  lemma StuckBelow(db: Store, n: Node, key: seq<byte>)
    requires StoreOk(db) && n.Short? && IsPrefix(n.key, key) && n.key != []
    ensures Stuck(db, n, key) <==> Stuck(db, n.val, key[|n.key|..])
    ensures Stuck(db, n, key) ==> StuckAt(db, n, key) == n.key + StuckAt(db, n.val, key[|n.key|..])
  {
  }

  lemma FullStuck(db: Store, n: Node, prefix: seq<byte>, key: seq<byte>, r: Outcome)
    requires StoreOk(db) && n.Full? && |n.children| == 17 && HexKey(key) && key[0] <= 16
    requires var i, c := key[0], n.children[key[0]];
      && (r.fail.Some? ==> !r.dirty)
      && (r.dirty && r.node.Nil? <==> c.Value? || IsLeaf(db, c, key[1..])) && (c.Value? ==> r.events == [])
      && (IsLeaf(db, c, key[1..]) ==> World.Writes(r.events) == [OnDelete(prefix + [i])])
    requires var i, stuck := key[0], Stuck(db, n.children[key[0]], key[1..]);
      && (stuck <==> r.fail.Some? && World.Writes(r.events) != [])
      && Leaves(r, stuck, if stuck then prefix + [i] + StuckAt(db, n.children[i], key[1..]) else [], prefix + [i] + key[1..])
    ensures var s, stuck := FullAfter(db, n, prefix, key[0], r), Stuck(db, n, key);
      && (stuck <==> s.fail.Some? && World.Writes(s.events) != [])
      && Leaves(s, stuck, if stuck then prefix + StuckAt(db, n, key) else [], prefix + key)
  {
    hide World.Writes, Resolve, IsLeaf, LastMissing, Reduce, StoreOk;
    var i, c, rest := key[0], n.children[key[0]], key[1..];
    assert prefix + [i] + rest == prefix + key;
    if r.dirty && r.node.Nil? {
      assert !Stuck(db, c, rest);
      ReduceStuck(db, prefix, n.children, i, r.events);
      NotValueAndLeaf(db, c, rest);
      WritesNone();
      assert FullAfter(db, n, prefix, i, r) == Reduce(db, prefix, n.children[i := Nil], r.events);
      assert Stuck(db, n, key) <==> IsLeaf(db, c, rest) && LastMissing(db, n.children, i);
      if LastMissing(db, n.children, i) {
        OffPath(prefix, key, Reduce(db, prefix, n.children[i := Nil], r.events));
        assert [i] + [] == [i];
      }
    } else if Stuck(db, c, rest) {
      assert prefix + [i] + StuckAt(db, c, rest) == prefix + StuckAt(db, n, key);
    }
  }

  lemma NotValueAndLeaf(db: Store, n: Node, key: seq<byte>)
    requires StoreOk(db)
    ensures n.Value? ==> !IsLeaf(db, n, key)
  {
  }

  /** The reduction fails exactly for a last child that is missing, and reports nothing then. */
  lemma ReduceStuck(db: Store, prefix: seq<byte>, ch: seq<Node>, i: byte, events: seq<Event>)
    requires StoreOk(db) && |ch| == 17 && i <= 16
    ensures var r := Reduce(db, prefix, ch[i := Nil], events);
      && (r.fail.Some? <==> LastMissing(db, ch, i))
      && (r.fail.Some? ==> r.events == events && exists pos: byte :: pos < 16 && pos != i && r.fail.value.path == prefix + [pos])
  {
    hide Resolve;
    var ch' := ch[i := Nil];
    SoleIs(ch', 0, -1);
    var pos := Sole(ch', 0, -1);
    if 0 <= pos < 16 && ch'[pos].HashNode? && Resolve(db, ch'[pos].hash).None? {
      assert forall j | 0 <= j < 17 && j != i && j != pos :: ch[j] == ch'[j] == Nil;
      assert LastMissing(db, ch, i);
    }
    if LastMissing(db, ch, i) {
      var q :| 0 <= q < 16 && q != i && ch[q].HashNode? && Resolve(db, ch[q].hash).None?
        && forall j | 0 <= j < 17 && j != i && j != q :: ch[j] == Nil;
      assert ch'[q] != Nil && forall j | 0 <= j < 17 && j != q :: ch'[j] == Nil;
      assert pos == q;
    }
  }

  lemma OffPath(prefix: seq<byte>, key: seq<byte>, r: Outcome)
    requires key != [] && r.fail.Some? && exists pos: byte :: pos != key[0] && r.fail.value.path == prefix + [pos]
    ensures !IsPrefix(r.fail.value.path, prefix + key)
  {
    var pos: byte :| pos != key[0] && r.fail.value.path == prefix + [pos];
    assert (prefix + key)[..|prefix| + 1][|prefix|] == key[0];
    assert (prefix + [pos])[|prefix|] == pos;
  }

  // ---------------------------------------------------------------- insertions

  /** An insertion that fails has reported nothing. */
  lemma {:induction false} InsertFails(db: Store, n: Node, prefix: seq<byte>, key: seq<byte>, v: seq<byte>)
    requires StoreOk(db) && At(n, key)
    ensures var r := Insert(db, n, prefix, key, v); r.fail.Some? ==> World.Writes(r.events) == []
    decreases |key|, if n.HashNode? then 1 else 0
  {
    hide StoreOk, Resolve, World.Writes, At, Insert, Split;
    WritesNone();
    InsertLoads(db, n, prefix, key, v);
    if key != [] {
      match n {
        case Short(nk, nv, _) =>
          if PrefixLen(key, nk) == |nk| {
            ShapeStep(n, key);
            InsertBelowShort(db, n, prefix, key, v);
            KeyNotEmpty(n, key);
            InsertFails(db, nv, prefix + nk, key[|nk|..], v);
          } else {
            InsertIsSplit(db, n, prefix, key, v);
            SplitNeverFails(prefix, nk, nv, key, v, PrefixLen(key, nk));
          }
        case Full(ch, _) =>
          FullAt(n, key);
          InsertBelowFull(db, n, prefix, key, v);
          InsertFails(db, ch[key[0]], prefix + [key[0]], key[1..], v);
        case HashNode(h) =>
          if Resolve(db, h).Some? {
            InsertFails(db, Resolve(db, h).value, prefix, key, v);
          }
        case Value(_) => NoValueInside(n, key);
        case Nil =>
      }
    }
  }

  lemma NoValueInside(n: Node, key: seq<byte>)
    requires At(n, key) && key != []
    ensures !n.Value?
  {
  }

  lemma SplitNeverFails(prefix: seq<byte>, nk: seq<byte>, nv: Node, key: seq<byte>, v: seq<byte>, m: nat)
    requires m < |nk| && m < |key| && nk[m] <= 16 && key[m] <= 16
    ensures Split(prefix, nk, nv, key, v, m).fail.None?
  {
  }

  lemma InsertLoads(db: Store, n: Node, prefix: seq<byte>, key: seq<byte>, v: seq<byte>)
    requires StoreOk(db) && At(n, key)
    ensures key == [] || n.Nil? ==> Insert(db, n, prefix, key, v).fail.None?
    ensures n.HashNode? && key != [] && Resolve(db, n.hash).None? ==> World.Writes(Insert(db, n, prefix, key, v).events) == []
    ensures n.HashNode? && key != [] && Resolve(db, n.hash).Some? ==>
      var c := Resolve(db, n.hash).value;
      && !c.HashNode? && At(c, key)
      && Insert(db, n, prefix, key, v).fail == Insert(db, c, prefix, key, v).fail
      && World.Writes(Insert(db, n, prefix, key, v).events) == World.Writes(Insert(db, c, prefix, key, v).events)
  {
    if n.HashNode? && key != [] && Resolve(db, n.hash).Some? {
      World.WritesOfRead(prefix, db[n.hash], Insert(db, Resolve(db, n.hash).value, prefix, key, v).events);
    }
  }

  // ---------------------------------------------------------------- which node is missing

  /** The failure names a node of the tree by its path and its hash, one that is neither loaded
      nor in the store. */
  ghost predicate Lacks(w: World, f: Failure, n: Node, t: Node, prefix: seq<byte>) {
    && IsPrefix(prefix, f.path)
    && (f.hash !in w.db || w.db[f.hash] == [])
    && var p := f.path[|prefix|..];
       var s := Sub(t, p);
       && (s.Short? || s.Full?) && f.hash == w.k(Blob(w.k, s))
       && !Sub(n, p).Short? && !Sub(n, p).Full?
  }

  lemma LacksHere(w: World, n: Node, t: Node, root: bool, prefix: seq<byte>)
    requires StoreOk(w.db) && w.Rep(n, t, root) && n.HashNode? && Resolve(w.db, n.hash).None?
    ensures Lacks(w, Missing(n.hash, prefix), n, t, prefix)
  {
    w.RepCases(n, t, root);
    assert prefix[|prefix|..] == [];
  }

  lemma LacksLoaded(w: World, f: Failure, n: Node, c: Node, t: Node, prefix: seq<byte>)
    requires n.HashNode? && Lacks(w, f, c, t, prefix)
    ensures Lacks(w, f, n, t, prefix)
  {
  }

  lemma LacksBelow(w: World, f: Failure, n: Node, t: Node, prefix: seq<byte>, step: seq<byte>, c: Node, tc: Node)
    requires step != [] && Lacks(w, f, c, tc, prefix + step)
    requires || (n.Short? && t.Short? && n.key == t.key == step && n.val == c && t.val == tc)
             || (n.Full? && t.Full? && |step| == 1 && step[0] < |n.children| == |t.children|
                 && n.children[step[0]] == c && t.children[step[0]] == tc)
    ensures Lacks(w, f, n, t, prefix)
  {
    PrefixOfSum(prefix, step, f.path);
    var p := f.path[|prefix|..];
    DropDrop(f.path, |prefix|, |step|);
    assert p[|step|..] == f.path[|prefix + step|..];
    assert n.Full? ==> p[..1][0] == p[0];
    assert Sub(t, p) == Sub(tc, p[|step|..]) && Sub(n, p) == Sub(c, p[|step|..]);
  }

  lemma GetFails(db: Store, n: Node, key: seq<byte>, pos: nat)
    requires StoreOk(db) && pos <= |key| && At(n, key[pos..])
    ensures n.Nil? || n.Value? ==> TryGet(db, n, key, pos).fail.None?
    ensures n.HashNode? && Resolve(db, n.hash).None? ==> TryGet(db, n, key, pos).fail == Some(Missing(n.hash, key[..pos]))
    ensures n.HashNode? && Resolve(db, n.hash).Some? ==>
      At(Resolve(db, n.hash).value, key[pos..])
      && TryGet(db, n, key, pos).fail == TryGet(db, Resolve(db, n.hash).value, key, pos).fail
  {
  }

  lemma Further(key: seq<byte>, pos: nat, step: seq<byte>)
    requires pos <= |key| && (IsPrefix(step, key[pos..]) || (pos < |key| && step == [key[pos]]))
    ensures pos + |step| <= |key|
    ensures key[pos..][|step|..] == key[pos + |step|..] && key[..pos + |step|] == key[..pos] + step
  {
  }

  lemma GetAfterFails(n: Node, copy: Node, r: Found)
    ensures GetAfter(n, copy, r).fail == r.fail
  {
  }

  /** A lookup fails for a node on the path to its key. */
  lemma {:induction false} GetLacks(w: World, n: Node, t: Node, root: bool, key: seq<byte>, pos: nat)
    requires StoreOk(w.db) && w.Rep(n, t, root) && Nodes.Sized(t)
    requires pos <= |key| && TreeAt(t, key[pos..])
    ensures At(n, key[pos..])
    ensures var f := TryGet(w.db, n, key, pos).fail;
      f.Some? ==> Lacks(w, f.value, n, t, key[..pos]) && IsPrefix(f.value.path, key)
    decreases |key| - pos, if n.HashNode? then 1 else 0
  {
    hide StoreOk, Resolve, At, TryGet, GetAfter, World.Rep, World.Hashed, World.IsRef, World.FlagOk, Lacks, Blob;
    w.RepIsAt(n, t, root, key[pos..]);
    w.RepCases(n, t, root);
    GetFails(w.db, n, key, pos);
    match n {
      case HashNode(h) =>
        w.ResolveRep(h, t, root);
        if Resolve(w.db, h).Some? {
          GetLacks(w, Resolve(w.db, h).value, t, root, key, pos);
          if TryGet(w.db, n, key, pos).fail.Some? {
            LacksLoaded(w, TryGet(w.db, n, key, pos).fail.value, n, Resolve(w.db, h).value, t, key[..pos]);
          }
        } else {
          LacksHere(w, n, t, root, key[..pos]);
        }
      case Short(nk, nv, f) =>
        GetBelowShort(w.db, n, key, pos);
        if IsPrefix(nk, key[pos..]) {
          KeyNotEmpty(n, key[pos..]);
          Further(key, pos, nk);
          EdgeStep(nk, t.val, key[pos..]);
          GetLacks(w, nv, t.val, false, key, pos + |nk|);
          var r := TryGet(w.db, nv, key, pos + |nk|);
          GetAfterFails(n, Short(nk, r.node, f), r);
          if r.fail.Some? {
            LacksBelow(w, r.fail.value, n, t, key[..pos], nk, nv, t.val);
          }
        }
      case Full(ch, f) =>
        BranchStep(t.children, key[pos..]);
        GetBelowFull(w.db, n, key, pos);
        Further(key, pos, [key[pos]]);
        GetLacks(w, ch[key[pos]], t.children[key[pos]], false, key, pos + 1);
        var r := TryGet(w.db, ch[key[pos]], key, pos + 1);
        GetAfterFails(n, Full(ch[key[pos] := r.node], f), r);
        if r.fail.Some? {
          LacksBelow(w, r.fail.value, n, t, key[..pos], [key[pos]], ch[key[pos]], t.children[key[pos]]);
        }
      case _ =>
    }
  }

  lemma InsertFailsAt(db: Store, n: Node, prefix: seq<byte>, key: seq<byte>, v: seq<byte>)
    requires StoreOk(db) && At(n, key)
    ensures key == [] || n.Nil? ==> Insert(db, n, prefix, key, v).fail.None?
    ensures n.HashNode? && key != [] && Resolve(db, n.hash).None? ==> Insert(db, n, prefix, key, v).fail == Some(Missing(n.hash, prefix))
  {
  }

  lemma InsertAfterFails(n: Node, copy: Node, r: Outcome)
    ensures InsertAfter(n, copy, r).fail == r.fail
  {
  }

  lemma Onwards(prefix: seq<byte>, step: seq<byte>, key: seq<byte>)
    requires IsPrefix(step, key) || (key != [] && step == [key[0]])
    ensures prefix + step + key[|step|..] == prefix + key && IsPrefix(prefix, prefix + key)
  {
  }

  /** And so does an insertion. */
  lemma {:induction false} InsertLacks(w: World, n: Node, t: Node, root: bool, prefix: seq<byte>, key: seq<byte>, v: seq<byte>)
    requires StoreOk(w.db) && w.Rep(n, t, root) && Nodes.Sized(t) && TreeAt(t, key)
    ensures At(n, key)
    ensures var f := Insert(w.db, n, prefix, key, v).fail;
      f.Some? ==> Lacks(w, f.value, n, t, prefix) && IsPrefix(f.value.path, prefix + key)
    decreases |key|, if n.HashNode? then 1 else 0
  {
    hide StoreOk, Resolve, At, Insert, World.Rep, World.Hashed, World.IsRef, World.FlagOk, Lacks, World.Writes, Split, Blob, InsertAfter;
    w.RepIsAt(n, t, root, key);
    w.RepCases(n, t, root);
    InsertLoads(w.db, n, prefix, key, v);
    InsertFailsAt(w.db, n, prefix, key, v);
    if key != [] {
      match n {
        case HashNode(h) =>
          w.ResolveRep(h, t, root);
          if Resolve(w.db, h).Some? {
            InsertLacks(w, Resolve(w.db, h).value, t, root, prefix, key, v);
            if Insert(w.db, n, prefix, key, v).fail.Some? {
              LacksLoaded(w, Insert(w.db, n, prefix, key, v).fail.value, n, Resolve(w.db, h).value, t, prefix);
            }
          } else {
            LacksHere(w, n, t, root, prefix);
            Onwards(prefix, [], key);
          }
        case Short(nk, nv, _) =>
          if PrefixLen(key, nk) == |nk| {
            KeyNotEmpty(n, key);
            EdgeStep(nk, t.val, key);
            ShapeStep(n, key);
            InsertBelowShort(w.db, n, prefix, key, v);
            InsertLacks(w, nv, t.val, false, prefix + nk, key[|nk|..], v);
            Onwards(prefix, nk, key);
            var r := Insert(w.db, nv, prefix + nk, key[|nk|..], v);
            InsertAfterFails(n, Short(nk, r.node, NEW), r);
            if r.fail.Some? {
              LacksBelow(w, r.fail.value, n, t, prefix, nk, nv, t.val);
            }
          } else {
            InsertIsSplit(w.db, n, prefix, key, v);
            SplitNeverFails(prefix, nk, nv, key, v, PrefixLen(key, nk));
          }
        case Full(ch, _) =>
          BranchStep(t.children, key);
          FullAt(n, key);
          var i := key[0];
          InsertBelowFull(w.db, n, prefix, key, v);
          InsertLacks(w, ch[i], t.children[i], false, prefix + [i], key[1..], v);
          Onwards(prefix, [i], key);
          var r := Insert(w.db, ch[i], prefix + [i], key[1..], v);
          InsertAfterFails(n, Full(ch[i := r.node], NEW), r);
          if r.fail.Some? {
            LacksBelow(w, r.fail.value, n, t, prefix, [i], ch[i], t.children[i]);
          }
        case Value(_) => NoValueInside(n, key);
        case Nil =>
      }
    }
  }

  lemma DeleteFailsAt(db: Store, n: Node, prefix: seq<byte>, key: seq<byte>)
    requires StoreOk(db) && At(n, key) && n.HashNode?
    ensures Resolve(db, n.hash).None? ==> Delete(db, n, prefix, key).fail == Some(Missing(n.hash, prefix))
  {
  }

  /** What the reduction fails for is the branch's last child. */
  lemma ReduceLacks(w: World, n: Node, t: Node, root: bool, prefix: seq<byte>, i: byte, r: Outcome)
    requires StoreOk(w.db) && n.Full? && w.Rep(n, t, root) && |n.children| == 17 && i <= 16 && r.fail.None?
    ensures var s := FullAfter(w.db, n, prefix, i, r);
      s.fail.Some? ==> Lacks(w, s.fail.value, n, t, prefix) && IsPrefix(prefix, s.fail.value.path) && |s.fail.value.path| == |prefix| + 1
  {
    hide StoreOk, Resolve, World.Rep, Lacks, Reduce, Sole;
    if r.dirty && r.node == Nil {
      var ch := n.children[i := Nil];
      SoleIs(ch, 0, -1);
      var pos := Sole(ch, 0, -1);
      ReduceLoads(w.db, prefix, ch, r.events, pos);
      w.RepCases(n, t, root);
      if Reduce(w.db, prefix, ch, r.events).fail.Some? {
        assert ch[pos] == n.children[pos];
        LacksHere(w, ch[pos], t.children[pos], false, prefix + [pos]);
        LacksBelow(w, Missing(ch[pos].hash, prefix + [pos]), n, t, prefix, [pos], ch[pos], t.children[pos]);
      }
    }
  }

  /** A deletion fails for a node on the path to its key, or for one beside it. */
  lemma {:induction false} DeleteLacks(w: World, n: Node, t: Node, root: bool, prefix: seq<byte>, key: seq<byte>)
    requires StoreOk(w.db) && w.Rep(n, t, root) && Nodes.Sized(t) && TreeAt(t, key)
    ensures At(n, key)
    ensures var f := Delete(w.db, n, prefix, key).fail;
      f.Some? ==> Lacks(w, f.value, n, t, prefix) && Near(f.value.path, prefix + key)
    decreases |key|, if n.HashNode? then 1 else 0
  {
    hide StoreOk, Resolve, At, Delete, World.Rep, Lacks, World.Writes, ShortAfter, FullAfter, Near;
    w.RepIsAt(n, t, root, key);
    w.RepCases(n, t, root);
    match n {
      case HashNode(h) =>
        DeleteLoads(w.db, n, prefix, key);
        DeleteFailsAt(w.db, n, prefix, key);
        w.ResolveRep(h, t, root);
        if Resolve(w.db, h).Some? {
          DeleteLacks(w, Resolve(w.db, h).value, t, root, prefix, key);
          if Delete(w.db, n, prefix, key).fail.Some? {
            LacksLoaded(w, Delete(w.db, n, prefix, key).fail.value, n, Resolve(w.db, h).value, t, prefix);
          }
        } else {
          LacksHere(w, n, t, root, prefix);
          OnPath(prefix, key);
        }
      case Short(nk, nv, _) =>
        if PrefixLen(key, nk) == |nk| < |key| {
          KeyNotEmpty(n, key);
          EdgeStep(nk, t.val, key);
          ShapeStep(n, key);
          DeleteBelowShort(w.db, n, prefix, key);
          DeleteLacks(w, nv, t.val, false, prefix + nk, key[|nk|..]);
          Onwards(prefix, nk, key);
          var r := Delete(w.db, nv, prefix + nk, key[|nk|..]);
          ShortAfterFails(n, prefix, r);
          if r.fail.Some? {
            LacksBelow(w, r.fail.value, n, t, prefix, nk, nv, t.val);
          }
        } else {
          DeleteSimply(w.db, n, prefix, key);
        }
      case Full(ch, _) =>
        BranchStep(t.children, key);
        FullAt(n, key);
        var i := key[0];
        DeleteBelowFull(w.db, n, prefix, key);
        DeleteLacks(w, ch[i], t.children[i], false, prefix + [i], key[1..]);
        Onwards(prefix, [i], key);
        var r := Delete(w.db, ch[i], prefix + [i], key[1..]);
        if r.fail.Some? {
          FullAfterFails(w.db, n, prefix, i, r);
          LacksBelow(w, r.fail.value, n, t, prefix, [i], ch[i], t.children[i]);
        } else {
          ReduceLacks(w, n, t, root, prefix, i, r);
          NearBranch(prefix, key, FullAfter(w.db, n, prefix, i, r));
        }
      case _ =>
        DeleteSimply(w.db, n, prefix, key);
    }
  }

  lemma OnPath(prefix: seq<byte>, key: seq<byte>)
    ensures Near(prefix, prefix + key)
  {
    if prefix != [] {
      assert (prefix + key)[..|prefix| - 1] == prefix[..|prefix| - 1];
    }
  }

  lemma NearBranch(prefix: seq<byte>, key: seq<byte>, r: Outcome)
    requires r.fail.Some? ==> IsPrefix(prefix, r.fail.value.path) && |r.fail.value.path| == |prefix| + 1
    ensures r.fail.Some? ==> Near(r.fail.value.path, prefix + key)
  {
    assert (prefix + key)[..|prefix|] == prefix;
  }

  lemma ShortAfterFails(n: Node, prefix: seq<byte>, r: Outcome)
    requires n.Short?
    ensures ShortAfter(n, prefix, r).fail == r.fail
  {
  }

  lemma FullAfterFails(db: Store, n: Node, prefix: seq<byte>, i: byte, r: Outcome)
    requires StoreOk(db) && n.Full? && |n.children| == 17 && i <= 16 && r.fail.Some?
    ensures FullAfter(db, n, prefix, i, r).fail == r.fail
  {
  }

  // ---------------------------------------------------------------- what the tracer makes of it

  /** The leaf is still in the tree. */
  lemma {:induction false} StuckNode(w: World, n: Node, t: Node, root: bool, key: seq<byte>)
    requires StoreOk(w.db) && w.Rep(n, t, root) && Nodes.Sized(t) && TreeAt(t, key) && Stuck(w.db, n, key)
    ensures NodeAt(t, StuckAt(w.db, n, key))
    decreases |key|, if n.HashNode? then 1 else 0
  {
    hide World.Rep, World.IsRef, World.FlagOk, StoreOk, Resolve, LastMissing;
    w.RepIsAt(n, t, root, key);
    w.RepCases(n, t, root);
    match n {
      case Short(nk, nv, _) =>
        EdgeStep(nk, t.val, key);
        StuckNode(w, nv, t.val, false, key[|nk|..]);
        var q := StuckAt(w.db, nv, key[|nk|..]);
        assert (nk + q)[..|nk|] == nk && (nk + q)[|nk|..] == q;
      case Full(ch, _) =>
        BranchStep(t.children, key);
        var i := key[0];
        var q := if Stuck(w.db, ch[i], key[1..]) then StuckAt(w.db, ch[i], key[1..]) else [];
        assert ([i] + q)[1..] == q;
        if Stuck(w.db, ch[i], key[1..]) {
          StuckNode(w, ch[i], t.children[i], false, key[1..]);
        } else {
          LeafNode(w, ch[i], t.children[i], key[1..]);
        }
      case HashNode(h) =>
        w.ResolveRep(h, t, root);
        StuckNode(w, Resolve(w.db, h).value, t, root, key);
    }
  }

  lemma LeafNode(w: World, n: Node, t: Node, key: seq<byte>)
    requires StoreOk(w.db) && w.Rep(n, t, false) && IsLeaf(w.db, n, key)
    ensures NodeAt(t, [])
  {
    w.RepCases(n, t, false);
  }

  /** A report that a node which is there has gone spoils an exact tracer. */
  lemma Spoils(insert: set<seq<byte>>, delete: set<seq<byte>>, began: iset<seq<byte>>, now: iset<seq<byte>>, p: seq<byte>)
    requires Exact(insert, delete, began, now) && p in now
    ensures var (i, d) := Capture.NetAll(insert, delete, [OnDelete(p)]); !Exact(i, d, began, now)
  {
    assert [OnDelete(p)][1..] == [];
    var (i, d) := Capture.Net(insert, delete, OnDelete(p));
    assert Capture.NetAll(i, d, [OnDelete(p)][1..]) == (i, d);
  }
}
