/** What the tracer is told of reads, over a whole run: every blob reported for a path is the
    encoding of the node that was there when tracking began, "the node's original value",
    whatever insertions and deletions have done to the trie since. */
module Reads {
  import opened Bytes
  import opened HexKeys
  import opened Nodes
  import opened NodeEncode
  import opened TrieOps
  import opened Refine
  import opened Committing
  import Capture

  /** Every node of `n` that is not loaded is the one of the tree `b` at its path: updates move
      such nodes between parents, but never to another path. */
  ghost predicate Original(w: World, n: Node, prefix: seq<byte>, b: Node)
    decreases n
  {
    match n
    case HashNode(_) => w.IsRef(n, Sub(b, prefix), true) && Canon(Sub(b, prefix)) && Nodes.Sized(Sub(b, prefix))
    case Short(key, v, _) => Original(w, v, prefix + key, b)
    case Full(ch, _) => forall i | 0 <= i < |ch| && i < 17 :: Original(w, ch[i], prefix + [i], b)
    case _ => true
  }

  ghost predicate Reported(k: Keccak, events: seq<Event>, b: Node) {
    forall e | e in events && e.OnRead? :: e.blob == Blob(k, Sub(b, e.path))
  }

  lemma ReportedSum(k: Keccak, x: seq<Event>, y: seq<Event>, b: Node)
    requires Reported(k, x, b) && Reported(k, y, b)
    ensures Reported(k, x + y, b)
  {
  }

  lemma ReportedNone(k: Keccak, path: seq<byte>, b: Node)
    ensures Reported(k, [], b) && Reported(k, [OnDelete(path)], b) && Reported(k, [OnInsert(path)], b)
  {
  }

  lemma {:induction false} SubSum(t: Node, p: seq<byte>, q: seq<byte>)
    requires Sub(t, p) != Nil
    ensures Sub(Sub(t, p), q) == Sub(t, p + q)
    decreases t
  {
    if p == [] {
      assert p + q == q;
    } else {
      match t {
        case Short(key, v, _) =>
          assert (p + q)[|key|..] == p[|key|..] + q;
          assert (p + q)[..|key|] == p[..|key|];
          SubSum(v, p[|key|..], q);
        case Full(ch, _) =>
          assert (p + q)[1..] == p[1..] + q;
          SubSum(ch[p[0]], p[1..], q);
        case _ =>
      }
    }
  }

  lemma SubStep(t: Node, prefix: seq<byte>, b: Node)
    requires Sub(b, prefix) == t
    ensures t.Short? && t.key != [] ==> Sub(b, prefix + t.key) == t.val
    ensures t.Full? ==> forall i | 0 <= i < |t.children| && i < 17 :: Sub(b, prefix + [i]) == t.children[i]
  {
    if t.Short? && t.key != [] {
      SubSum(b, prefix, t.key);
      assert t.key[|t.key|..] == [];
    } else if t.Full? {
      forall i | 0 <= i < |t.children| && i < 17 ensures Sub(b, prefix + [i]) == t.children[i] {
        SubSum(b, prefix, [i]);
        assert [i][1..] == [];
      }
    }
  }

  /** A node just loaded, or just opened, is where it was. */
  lemma {:induction false} RepOriginal(w: World, n: Node, t: Node, root: bool, prefix: seq<byte>, b: Node)
    requires w.Rep(n, t, root) && (CanonOrNil(t) || GoodValue(t)) && Nodes.Sized(t) && Sub(b, prefix) == t
    ensures Original(w, n, prefix, b)
    decreases t
  {
    hide World.Hashed, World.FlagOk, World.HeldAt, Sub, Blob;
    SubStep(t, prefix, b);
    if n.Short? && t.Short? {
      RepOriginal(w, n.val, t.val, false, prefix + n.key, b);
    } else if n.Full? && t.Full? {
      forall i | 0 <= i < |n.children| && i < 17 ensures Original(w, n.children[i], prefix + [i], b) {
        RepOriginal(w, n.children[i], t.children[i], false, prefix + [i], b);
      }
    }
  }

  /** Loading a node reports its original value. */
  lemma LoadOriginal(w: World, h: Hash, prefix: seq<byte>, b: Node)
    requires StoreOk(w.db) && Original(w, HashNode(h), prefix, b) && Resolve(w.db, h).Some?
    ensures h in w.db && Original(w, Resolve(w.db, h).value, prefix, b)
    ensures Reported(w.k, [OnRead(prefix, w.db[h])], b)
  {
    var t := Sub(b, prefix);
    w.ResolveRep(h, t, true);
    hide World.Rep, World.IsRef, Resolve, Original;
    RepOriginal(w, Resolve(w.db, h).value, t, true, prefix, b);
  }

  // ---------------------------------------------------------------- tryGet

  lemma OriginalShort(w: World, key: seq<byte>, v: Node, f: Flag, prefix: seq<byte>, b: Node)
    ensures Original(w, Short(key, v, f), prefix, b) <==> Original(w, v, prefix + key, b)
  {
  }

  lemma OriginalChild(w: World, ch: seq<Node>, f: Flag, prefix: seq<byte>, b: Node, i: byte)
    requires Original(w, Full(ch, f), prefix, b) && i < 17 && i < |ch|
    ensures Original(w, ch[i], prefix + [i], b)
  {
  }

  lemma OriginalSlot(w: World, ch: seq<Node>, f: Flag, g: Flag, prefix: seq<byte>, b: Node, i: byte, c: Node)
    requires Original(w, Full(ch, f), prefix, b) && i < 17 && i < |ch| && Original(w, c, prefix + [i], b)
    ensures Original(w, Full(ch[i := c], g), prefix, b)
  {
  }

  lemma OriginalEnd(w: World, n: Node, prefix: seq<byte>, b: Node)
    requires n.Nil? || n.Value?
    ensures Original(w, n, prefix, b)
  {
  }

  lemma GetEvents(db: Store, n: Node, key: seq<byte>, pos: nat)
    requires StoreOk(db) && pos <= |key| && At(n, key[pos..])
    ensures n.Nil? || n.Value? ==> TryGet(db, n, key, pos).events == [] && TryGet(db, n, key, pos).node == n
    ensures n.HashNode? && Resolve(db, n.hash).None? ==> TryGet(db, n, key, pos).events == [] && TryGet(db, n, key, pos).node == n
    ensures n.HashNode? && Resolve(db, n.hash).Some? ==>
      var c := Resolve(db, n.hash).value;
      n.hash in db && At(c, key[pos..]) && !c.HashNode?
      && TryGet(db, n, key, pos).node == TryGet(db, c, key, pos).node
      && TryGet(db, n, key, pos).events == [OnRead(key[..pos], db[n.hash])] + TryGet(db, c, key, pos).events
  {
  }

  lemma GetAfterIs(n: Node, copy: Node, r: Found)
    ensures GetAfter(n, copy, r).events == r.events && GetAfter(n, copy, r).node in {n, copy}
  {
  }

  /** `tryGet` */
  lemma {:induction false} GetOriginal(w: World, n: Node, key: seq<byte>, pos: nat, b: Node)
    requires StoreOk(w.db) && pos <= |key| && At(n, key[pos..]) && Original(w, n, key[..pos], b)
    ensures var r := TryGet(w.db, n, key, pos); Reported(w.k, r.events, b) && Original(w, r.node, key[..pos], b)
    decreases |key| - pos, if n.HashNode? then 1 else 0
  {
    hide Original, Reported, StoreOk, Resolve, TryGet, At, GetAfter;
    GetEvents(w.db, n, key, pos);
    ReportedNone(w.k, [], b);
    match n {
      case HashNode(h) =>
        if Resolve(w.db, h).Some? {
          var c := Resolve(w.db, h).value;
          LoadOriginal(w, h, key[..pos], b);
          GetOriginal(w, c, key, pos, b);
          ReportedSum(w.k, [OnRead(key[..pos], w.db[h])], TryGet(w.db, c, key, pos).events, b);
        }
      case Short(nk, nv, f) =>
        GetBelowShort(w.db, n, key, pos);
        KeyNotEmpty(n, key[pos..]);
        if IsPrefix(nk, key[pos..]) {
          assert key[..pos + |nk|] == key[..pos] + nk;
          OriginalShort(w, nk, nv, f, key[..pos], b);
          GetOriginal(w, nv, key, pos + |nk|, b);
          var r := TryGet(w.db, nv, key, pos + |nk|);
          OriginalShort(w, nk, r.node, f, key[..pos], b);
          GetAfterIs(n, Short(nk, r.node, f), r);
        }
      case Full(ch, f) =>
        FullNotLast(n, key, pos);
        GetBelowFull(w.db, n, key, pos);
        var i := key[pos];
        assert key[..pos + 1] == key[..pos] + [i];
        OriginalChild(w, ch, f, key[..pos], b, i);
        GetOriginal(w, ch[i], key, pos + 1, b);
        var r := TryGet(w.db, ch[i], key, pos + 1);
        OriginalSlot(w, ch, f, f, key[..pos], b, i, r.node);
        GetAfterIs(n, Full(ch[i := r.node], f), r);
      case _ =>
    }
  }

  lemma FullNotLast(n: Node, key: seq<byte>, pos: nat)
    requires n.Full? && pos <= |key| && At(n, key[pos..])
    ensures pos < |key|
  {
  }

  // ---------------------------------------------------------------- insert

  lemma InsertEnds(db: Store, n: Node, prefix: seq<byte>, key: seq<byte>, v: seq<byte>)
    requires StoreOk(db) && At(n, key)
    ensures key == [] ==> Insert(db, n, prefix, key, v).events == [] && Insert(db, n, prefix, key, v).node == Value(v)
    ensures n.Nil? && key != [] ==>
      Insert(db, n, prefix, key, v).events == [OnInsert(prefix)] && Insert(db, n, prefix, key, v).node == Short(key, Value(v), NEW)
    ensures n.HashNode? && key != [] && Resolve(db, n.hash).None? ==>
      Insert(db, n, prefix, key, v).events == [] && Insert(db, n, prefix, key, v).node == Nil
    ensures n.HashNode? && key != [] && Resolve(db, n.hash).Some? ==>
      var c := Resolve(db, n.hash).value;
      n.hash in db && At(c, key) && !c.HashNode?
      && Insert(db, n, prefix, key, v).node in {c, Insert(db, c, prefix, key, v).node}
      && Insert(db, n, prefix, key, v).events == [OnRead(prefix, db[n.hash])] + Insert(db, c, prefix, key, v).events
  {
  }

  lemma InsertAfterIs(n: Node, copy: Node, r: Outcome)
    ensures InsertAfter(n, copy, r).events == r.events && InsertAfter(n, copy, r).node in {n, copy}
  {
  }

  lemma AttachOriginal(w: World, prefix: seq<byte>, key: seq<byte>, v: Node, b: Node)
    requires Original(w, v, prefix + key, b)
    ensures var r := Attach(prefix, key, v); Original(w, r.node, prefix, b) && Reported(w.k, r.events, b)
  {
    assert prefix + [] == prefix;
  }

  lemma SplitOriginal(w: World, prefix: seq<byte>, nk: seq<byte>, nv: Node, key: seq<byte>, v: seq<byte>, m: nat, b: Node)
    requires m < |nk| && m < |key| && nk[m] <= 16 && key[m] <= 16 && nk[..m] == key[..m]
    requires Original(w, nv, prefix + nk, b)
    ensures var r := Split(prefix, nk, nv, key, v, m); Original(w, r.node, prefix, b) && Reported(w.k, r.events, b)
  {
    hide Original, Reported, Attach;
    var p, q := prefix + nk[..m + 1], prefix + key[..m + 1];
    assert p + nk[m + 1..] == prefix + nk && q + key[m + 1..] == prefix + key;
    AttachOriginal(w, p, nk[m + 1..], nv, b);
    OriginalEnd(w, Value(v), prefix + key, b);
    AttachOriginal(w, q, key[m + 1..], Value(v), b);
    var x, y := Attach(p, nk[m + 1..], nv), Attach(q, key[m + 1..], Value(v));
    assert p == prefix + key[..m] + [nk[m]] && q == prefix + key[..m] + [key[m]];
    BranchOriginal(w, nk[m], x.node, key[m], y.node, prefix + key[..m], b);
    OriginalShort(w, key[..m], Full(EMPTY_CHILDREN[nk[m] := x.node][key[m] := y.node], NEW), NEW, prefix, b);
    ReportedSum(w.k, x.events, y.events, b);
    ReportedNone(w.k, prefix + key[..m], b);
    ReportedSum(w.k, x.events + y.events, [OnInsert(prefix + key[..m])], b);
    assert m == 0 ==> prefix + key[..m] == prefix;
  }

  lemma BranchOriginal(w: World, i: byte, x: Node, j: byte, y: Node, prefix: seq<byte>, b: Node)
    requires i <= 16 && j <= 16 && Original(w, x, prefix + [i], b) && Original(w, y, prefix + [j], b)
    ensures Original(w, Full(EMPTY_CHILDREN[i := x][j := y], NEW), prefix, b)
  {
    var ch := EMPTY_CHILDREN[i := x][j := y];
    forall l | 0 <= l < 17 ensures Original(w, ch[l], prefix + [l], b) {
      if l != i && l != j {
        assert ch[l] == Nil;
      }
    }
  }

  /** `insert` */
  lemma {:induction false} InsertOriginal(w: World, n: Node, prefix: seq<byte>, key: seq<byte>, v: seq<byte>, b: Node)
    requires StoreOk(w.db) && At(n, key) && Original(w, n, prefix, b)
    ensures var r := Insert(w.db, n, prefix, key, v); Reported(w.k, r.events, b) && Original(w, r.node, prefix, b)
    decreases |key|, if n.HashNode? then 1 else 0
  {
    hide Original, Reported, StoreOk, Resolve, Insert, InsertAfter, Split;
    InsertEnds(w.db, n, prefix, key, v);
    ReportedNone(w.k, prefix, b);
    if key == [] {
      OriginalEnd(w, Value(v), prefix, b);
      return;
    }
    match n {
      case HashNode(h) =>
        OriginalEnd(w, Nil, prefix, b);
        if Resolve(w.db, h).Some? {
          var c := Resolve(w.db, h).value;
          LoadOriginal(w, h, prefix, b);
          InsertOriginal(w, c, prefix, key, v, b);
          ReportedSum(w.k, [OnRead(prefix, w.db[h])], Insert(w.db, c, prefix, key, v).events, b);
        }
      case Short(nk, nv, f) =>
        OriginalShort(w, nk, nv, f, prefix, b);
        if PrefixLen(key, nk) == |nk| {
          ShapeStep(n, key);
          InsertBelowShort(w.db, n, prefix, key, v);
          InsertOriginal(w, nv, prefix + nk, key[|nk|..], v, b);
          var r := Insert(w.db, nv, prefix + nk, key[|nk|..], v);
          OriginalShort(w, nk, r.node, NEW, prefix, b);
          InsertAfterIs(n, Short(nk, r.node, NEW), r);
        } else {
          InsertIsSplit(w.db, n, prefix, key, v);
          SplitOriginal(w, prefix, nk, nv, key, v, PrefixLen(key, nk), b);
        }
      case Full(ch, f) =>
        StepAt(ch, key);
        var i := key[0];
        InsertBelowFull(w.db, n, prefix, key, v);
        OriginalChild(w, ch, f, prefix, b, i);
        InsertOriginal(w, ch[i], prefix + [i], key[1..], v, b);
        var r := Insert(w.db, ch[i], prefix + [i], key[1..], v);
        OriginalSlot(w, ch, f, NEW, prefix, b, i, r.node);
        InsertAfterIs(n, Full(ch[i := r.node], NEW), r);
      case Nil =>
        OriginalEnd(w, Value(v), prefix + key, b);
        OriginalShort(w, key, Value(v), NEW, prefix, b);
      case _ =>
    }
  }

  // ---------------------------------------------------------------- delete

  lemma DeleteEnds(db: Store, n: Node, prefix: seq<byte>, key: seq<byte>)
    requires StoreOk(db) && At(n, key)
    ensures n.Nil? || n.Value? ==> Delete(db, n, prefix, key).events == [] && Delete(db, n, prefix, key).node == Nil
    ensures n.HashNode? && Resolve(db, n.hash).None? ==>
      Delete(db, n, prefix, key).events == [] && Delete(db, n, prefix, key).node == Nil
    ensures n.HashNode? && Resolve(db, n.hash).Some? ==>
      var c := Resolve(db, n.hash).value;
      n.hash in db && At(c, key) && !c.HashNode?
      && Delete(db, n, prefix, key).node in {c, Delete(db, c, prefix, key).node}
      && Delete(db, n, prefix, key).events == [OnRead(prefix, db[n.hash])] + Delete(db, c, prefix, key).events
    ensures n.Short? && PrefixLen(key, n.key) < |n.key| ==>
      Delete(db, n, prefix, key).events == [] && Delete(db, n, prefix, key).node == n
    ensures n.Short? && PrefixLen(key, n.key) == |n.key| == |key| ==>
      Delete(db, n, prefix, key).events == [OnDelete(prefix)] && Delete(db, n, prefix, key).node == Nil
  {
  }

  lemma ShortAfterOriginal(w: World, n: Node, prefix: seq<byte>, r: Outcome, b: Node)
    requires n.Short? && Original(w, n, prefix, b) && Original(w, r.node, prefix + n.key, b) && Reported(w.k, r.events, b)
    ensures var s := ShortAfter(n, prefix, r); Original(w, s.node, prefix, b) && Reported(w.k, s.events, b)
  {
    if r.node.Short? {
      assert prefix + n.key + r.node.key == prefix + (n.key + r.node.key);
    }
  }

  lemma MergeOriginal(w: World, i: byte, c: Node, prefix: seq<byte>, b: Node)
    requires Original(w, c, prefix + [i], b)
    ensures Original(w, Short([i], c, NEW), prefix, b)
    ensures c.Short? ==> Original(w, Short([i] + c.key, c.val, NEW), prefix, b)
  {
    if c.Short? {
      assert prefix + [i] + c.key == prefix + ([i] + c.key);
    }
  }

  lemma ReduceOriginal(w: World, prefix: seq<byte>, ch: seq<Node>, events: seq<Event>, b: Node)
    requires StoreOk(w.db) && |ch| == 17 && Original(w, Full(ch, NEW), prefix, b) && Reported(w.k, events, b)
    ensures var r := Reduce(w.db, prefix, ch, events); Original(w, r.node, prefix, b) && Reported(w.k, r.events, b)
  {
    hide Original, Reported, StoreOk, Resolve, Sole;
    SoleIs(ch, 0, -1);
    var pos := Sole(ch, 0, -1);
    if pos >= 0 {
      var path := prefix + [pos];
      OriginalChild(w, ch, NEW, prefix, b, pos);
      MergeOriginal(w, pos, ch[pos], prefix, b);
      ReportedNone(w.k, path, b);
      ReportedSum(w.k, events, [OnDelete(path)], b);
      OriginalEnd(w, Nil, prefix, b);
      if ch[pos].HashNode? && Resolve(w.db, ch[pos].hash).Some? {
        var h := ch[pos].hash;
        LoadOriginal(w, h, path, b);
        MergeOriginal(w, pos, Resolve(w.db, h).value, prefix, b);
        ReportedSum(w.k, events, [OnRead(path, w.db[h])], b);
        ReportedSum(w.k, events + [OnRead(path, w.db[h])], [OnDelete(path)], b);
      }
    }
  }

  lemma FullAfterOriginal(w: World, n: Node, prefix: seq<byte>, i: byte, r: Outcome, b: Node)
    requires StoreOk(w.db) && n.Full? && |n.children| == 17 && i <= 16
    requires Original(w, n, prefix, b) && Original(w, r.node, prefix + [i], b) && Reported(w.k, r.events, b)
    ensures var s := FullAfter(w.db, n, prefix, i, r); Original(w, s.node, prefix, b) && Reported(w.k, s.events, b)
  {
    hide Original, Reported, StoreOk, Reduce;
    OriginalSlot(w, n.children, n.flags, NEW, prefix, b, i, r.node);
    ReduceOriginal(w, prefix, n.children[i := r.node], r.events, b);
  }

  /** `delete`, with the reduction's look at the last sibling. */
  lemma {:induction false} DeleteOriginal(w: World, n: Node, prefix: seq<byte>, key: seq<byte>, b: Node)
    requires StoreOk(w.db) && At(n, key) && Original(w, n, prefix, b)
    ensures var r := Delete(w.db, n, prefix, key); Reported(w.k, r.events, b) && Original(w, r.node, prefix, b)
    decreases |key|, if n.HashNode? then 1 else 0
  {
    hide Original, Reported, StoreOk, Resolve, Delete, ShortAfter, FullAfter;
    DeleteEnds(w.db, n, prefix, key);
    ReportedNone(w.k, prefix, b);
    OriginalEnd(w, Nil, prefix, b);
    match n {
      case HashNode(h) =>
        if Resolve(w.db, h).Some? {
          var c := Resolve(w.db, h).value;
          LoadOriginal(w, h, prefix, b);
          DeleteOriginal(w, c, prefix, key, b);
          ReportedSum(w.k, [OnRead(prefix, w.db[h])], Delete(w.db, c, prefix, key).events, b);
        }
      case Short(nk, nv, f) =>
        if PrefixLen(key, nk) == |nk| && |nk| < |key| {
          ShapeStep(n, key);
          DeleteBelowShort(w.db, n, prefix, key);
          OriginalShort(w, nk, nv, f, prefix, b);
          DeleteOriginal(w, nv, prefix + nk, key[|nk|..], b);
          ShortAfterOriginal(w, n, prefix, Delete(w.db, nv, prefix + nk, key[|nk|..]), b);
        }
      case Full(ch, f) =>
        FullStep(n, key);
        var i := key[0];
        DeleteBelowFull(w.db, n, prefix, key);
        OriginalChild(w, ch, f, prefix, b, i);
        DeleteOriginal(w, ch[i], prefix + [i], key[1..], b);
        FullAfterOriginal(w, n, prefix, i, Delete(w.db, ch[i], prefix + [i], key[1..]), b);
      case _ =>
    }
  }

  lemma FullStep(n: Node, key: seq<byte>)
    requires n.Full? && At(n, key)
    ensures key != [] && key[0] <= 16 && |n.children| == 17 && At(n.children[key[0]], key[1..])
  {
    StepAt(n.children, key);
  }

  // ---------------------------------------------------------------- the tracer's blobs

  /** All blobs the tracer holds are original. */
  ghost predicate AllOriginal(k: Keccak, origin: map<seq<byte>, seq<byte>>, b: Node) {
    forall p | p in origin :: origin[p] == Blob(k, Sub(b, p))
  }

  lemma {:induction false} OriginsReport(k: Keccak, origin: map<seq<byte>, seq<byte>>, events: seq<Event>, b: Node)
    requires AllOriginal(k, origin, b) && Reported(k, events, b)
    ensures AllOriginal(k, Capture.Origins(origin, events), b)
    decreases |events|
  {
    hide Blob, Sub;
    if events != [] {
      var e, rest := events[0], events[1..];
      assert Reported(k, rest, b) && (e.OnRead? ==> e.blob == Blob(k, Sub(b, e.path)));
      OriginsReport(k, if e.OnRead? then origin[e.path := e.blob] else origin, rest, b);
    }
  }

  /** Cached hashes make no difference. */
  lemma {:induction false} OriginalUnhashed(w: World, m: Node, n: Node, prefix: seq<byte>, b: Node)
    requires Unhashed(m) == Unhashed(n) && Original(w, m, prefix, b)
    ensures Original(w, n, prefix, b)
    decreases n
  {
    match n {
      case Short(key, v, _) => OriginalUnhashed(w, m.val, v, prefix + key, b);
      case Full(ch, _) =>
        assert |m.children| == |Unhashed(m).children| == |ch|;
        forall i | 0 <= i < |ch| && i < 17 ensures Original(w, ch[i], prefix + [i], b) {
          assert Unhashed(m).children[i] == Unhashed(m.children[i]);
          OriginalUnhashed(w, m.children[i], ch[i], prefix + [i], b);
        }
      case _ =>
    }
  }
}
