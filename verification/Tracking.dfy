/** trie/trie_capture.go: nothing is forgotten.  A node that was stored when tracking began has
    been read, and its blob kept, or is still where it was, not loaded. */
module Tracking {
  import opened Bytes
  import opened HexKeys
  import opened Nodes
  import opened NodeCodec
  import opened TrieOps
  import opened TreeFacts
  import opened TreePaths
  import opened Refine
  import opened Committing
  import opened Reads
  import opened Locality
  import Capture

  /** The path leads to, or through, a node that is not loaded. */
  predicate Unloaded(n: Node, p: seq<byte>)
    decreases n
  {
    match n
    case HashNode(_) => true
    case Short(key, v, _) => key != [] && IsPrefix(key, p) && Unloaded(v, p[|key|..])
    case Full(ch, _) => p != [] && p[0] < |ch| && Unloaded(ch[p[0]], p[1..])
    case _ => false
  }

  /** The tree has a node at this path that is stored by itself. */
  ghost predicate StoredAt(k: Keccak, b: Node, p: seq<byte>) {
    var s := Sub(b, p);
    (s.Short? || s.Full?) && (p == [] || Big(k, s))
  }

  predicate ReadAt(events: seq<Event>, p: seq<byte>) {
    exists e | e in events :: e.OnRead? && e.path == p
  }

  // ---------------------------------------------------------------- nothing is loaded unread

  /** What is stored by itself is not loaded with its parent. */
  lemma {:induction false} LoadUnloaded(k: Keccak, t: Node, hash: Option<Hash>, p: seq<byte>)
    requires p != [] && Big(k, Sub(t, p))
    ensures Unloaded(Load(k, t, hash), p)
    decreases t, 0
  {
    hide Big, Blob;
    match t {
      case Short(key, v, _) =>
        if key != [] && IsPrefix(key, p) && !Big(k, v) {
          LoadRefUnloaded(k, v, p[|key|..]);
        } else {
          NilIsSmall(k);
        }
      case Full(ch, _) =>
        if p[0] < |ch| && !Big(k, ch[p[0]]) {
          LoadRefUnloaded(k, ch[p[0]], p[1..]);
        } else {
          NilIsSmall(k);
        }
      case _ => NilIsSmall(k);
    }
  }

  lemma {:induction false} LoadRefUnloaded(k: Keccak, t: Node, p: seq<byte>)
    requires Big(k, Sub(t, p)) && !Big(k, t)
    ensures Unloaded(LoadRef(k, t), p)
    decreases t, 1
  {
    hide Big, Blob;
    LoadUnloaded(k, t, None, p);
  }

  lemma NilIsSmall(k: Keccak)
    ensures !Big(k, Nil)
  {
  }

  /** After loading a node: its own path is read, and what is stored below is still unloaded. */
  lemma ResolveUnloads(w: World, h: Hash, prefix: seq<byte>, b: Node, p: seq<byte>)
    requires StoreOk(w.db) && Original(w, HashNode(h), prefix, b) && Resolve(w.db, h).Some?
    requires StoredAt(w.k, b, prefix + p)
    ensures p == [] || Unloaded(Resolve(w.db, h).value, p)
  {
    hide StoreOk, Blob, Big;
    var t := Sub(b, prefix);
    if p != [] {
      OriginalIs(w, h, prefix, b);
      DecodeBlob(w.k, t, Some(h), []);
      assert Blob(w.k, t) + [] == Blob(w.k, t);
      SubSum(b, prefix, p);
      LoadUnloaded(w.k, t, Some(h), p);
    }
  }

  lemma OriginalIs(w: World, h: Hash, prefix: seq<byte>, b: Node)
    requires Original(w, HashNode(h), prefix, b)
    ensures var t := Sub(b, prefix); Canon(t) && Nodes.Sized(t) && (h in w.db ==> w.db[h] == Blob(w.k, t))
  {
  }

  /** At this path the call keeps what is unloaded, or reads it. */
  ghost predicate Recalls(k: Keccak, n: Node, r: Node, events: seq<Event>, prefix: seq<byte>, b: Node, p: seq<byte>) {
    Unloaded(n, p) && StoredAt(k, b, prefix + p) ==> Unloaded(r, p) || ReadAt(events, prefix + p)
  }

  lemma RecallsSame(k: Keccak, n: Node, events: seq<Event>, prefix: seq<byte>, b: Node, p: seq<byte>)
    ensures Recalls(k, n, n, events, prefix, b, p)
  {
  }

  lemma RecallsHash(w: World, h: Hash, r: Node, events: seq<Event>, prefix: seq<byte>, b: Node, p: seq<byte>)
    requires StoreOk(w.db) && Original(w, HashNode(h), prefix, b) && Resolve(w.db, h).Some?
    requires Recalls(w.k, Resolve(w.db, h).value, r, events, prefix, b, p)
    ensures h in w.db && Recalls(w.k, HashNode(h), r, [OnRead(prefix, w.db[h])] + events, prefix, b, p)
  {
    hide StoreOk, Original, Unloaded, StoredAt;
    if StoredAt(w.k, b, prefix + p) {
      ResolveUnloads(w, h, prefix, b, p);
      var e := OnRead(prefix, w.db[h]);
      assert e in [e] + events;
      assert p == [] ==> prefix + p == prefix;
    }
  }

  lemma RecallsShort(k: Keccak, nk: seq<byte>, v: Node, c: Node, f: Flag, g: Flag, events: seq<Event>, prefix: seq<byte>,
                     b: Node, p: seq<byte>)
    requires nk != []
    requires Recalls(k, v, c, events, prefix + nk, b, if IsPrefix(nk, p) then p[|nk|..] else [])
    ensures Recalls(k, Short(nk, v, f), Short(nk, c, g), events, prefix, b, p)
  {
    if IsPrefix(nk, p) {
      assert prefix + nk + p[|nk|..] == prefix + p;
    }
  }

  lemma RecallsFull(k: Keccak, ch: seq<Node>, i: byte, c: Node, f: Flag, g: Flag, events: seq<Event>, prefix: seq<byte>,
                    b: Node, p: seq<byte>)
    requires i < |ch|
    requires Recalls(k, ch[i], c, events, prefix + [i], b, if p != [] then p[1..] else [])
    ensures Recalls(k, Full(ch, f), Full(ch[i := c], g), events, prefix, b, p)
  {
    if p != [] && p[0] == i {
      assert prefix + [i] + p[1..] == prefix + p;
    }
  }

  /** `tryGet` */
  lemma {:induction false} GetRecalls(w: World, n: Node, key: seq<byte>, pos: nat, b: Node, p: seq<byte>)
    requires StoreOk(w.db) && pos <= |key| && At(n, key[pos..]) && Original(w, n, key[..pos], b)
    ensures var r := TryGet(w.db, n, key, pos); Recalls(w.k, n, r.node, r.events, key[..pos], b, p)
    decreases |key| - pos, if n.HashNode? then 1 else 0
  {
    hide Original, StoreOk, Resolve, TryGet, At, GetAfter, Recalls;
    GetEvents(w.db, n, key, pos);
    var r := TryGet(w.db, n, key, pos);
    RecallsSame(w.k, n, r.events, key[..pos], b, p);
    match n {
      case HashNode(h) =>
        if Resolve(w.db, h).Some? {
          var c := Resolve(w.db, h).value;
          LoadOriginal(w, h, key[..pos], b);
          GetRecalls(w, c, key, pos, b, p);
          RecallsHash(w, h, TryGet(w.db, c, key, pos).node, TryGet(w.db, c, key, pos).events, key[..pos], b, p);
        }
      case Short(nk, nv, f) =>
        GetBelowShort(w.db, n, key, pos);
        KeyNotEmpty(n, key[pos..]);
        if IsPrefix(nk, key[pos..]) {
          assert key[..pos + |nk|] == key[..pos] + nk;
          OriginalShort(w, nk, nv, f, key[..pos], b);
          GetRecalls(w, nv, key, pos + |nk|, b, if IsPrefix(nk, p) then p[|nk|..] else []);
          var s := TryGet(w.db, nv, key, pos + |nk|);
          RecallsShort(w.k, nk, nv, s.node, f, f, s.events, key[..pos], b, p);
          GetAfterIs(n, Short(nk, s.node, f), s);
        }
      case Full(ch, f) =>
        Reads.FullNotLast(n, key, pos);
        GetBelowFull(w.db, n, key, pos);
        var i := key[pos];
        assert key[..pos + 1] == key[..pos] + [i];
        OriginalChild(w, ch, f, key[..pos], b, i);
        GetRecalls(w, ch[i], key, pos + 1, b, if p != [] then p[1..] else []);
        var s := TryGet(w.db, ch[i], key, pos + 1);
        RecallsFull(w.k, ch, i, s.node, f, f, s.events, key[..pos], b, p);
        GetAfterIs(n, Full(ch[i := s.node], f), s);
      case _ =>
    }
  }

  lemma InsertNodeIs(db: Store, n: Node, prefix: seq<byte>, key: seq<byte>, v: seq<byte>)
    requires StoreOk(db) && At(n, key) && n.HashNode? && key != [] && Resolve(db, n.hash).Some?
    ensures var c := Resolve(db, n.hash).value;
      && At(c, key)
      && var r, s := Insert(db, n, prefix, key, v), Insert(db, c, prefix, key, v);
         r.fail == s.fail && (r.fail.None? ==> r.dirty == s.dirty && r.node == if s.dirty then s.node else c)
  {
  }

  /** What hangs below a split stays unloaded, off the path to the new key. */
  lemma SplitUnloaded(prefix: seq<byte>, nk: seq<byte>, nv: Node, key: seq<byte>, v: seq<byte>, m: nat, p: seq<byte>)
    requires m < |nk| && m < |key| && nk[m] != key[m] && nk[m] <= 16 && key[m] <= 16 && nk[..m] == key[..m]
    ensures Unloaded(Split(prefix, nk, nv, key, v, m).node, p) <==> IsPrefix(nk, p) && Unloaded(nv, p[|nk|..])
    ensures IsPrefix(nk, p) ==> !IsPrefix(p, key)
  {
    var a := Attach(prefix + nk[..m + 1], nk[m + 1..], nv).node;
    var b := Attach(prefix + key[..m + 1], key[m + 1..], Value(v)).node;
    var branch := Full(EMPTY_CHILDREN[nk[m] := a][key[m] := b], NEW);
    var r := Split(prefix, nk, nv, key, v, m).node;
    assert Unloaded(r, p) <==> IsPrefix(key[..m], p) && Unloaded(branch, p[m..]) by {
      assert m == 0 ==> p[m..] == p && key[..m] == [];
    }
    assert IsPrefix(nk, p) ==> p[m] == p[..|nk|][m];
    assert IsPrefix(p, key) && m < |p| ==> p[m] == key[..|p|][m];
    hide Unloaded, Split, Attach;
    PrefixSplit(nk, m, p);
    if IsPrefix(key[..m], p) {
      BranchUnloaded(nk[m], a, key[m], b, p[m..]);
      if |p| > m {
        var q := p[m + 1..];
        assert p[m..][0] == p[m] && p[m..][1..] == q;
        AttachUnloaded(prefix + nk[..m + 1], nk[m + 1..], nv, q);
        AttachUnloaded(prefix + key[..m + 1], key[m + 1..], Value(v), q);
        ValueLoaded(v, if IsPrefix(key[m + 1..], q) then q[|key[m + 1..]|..] else []);
      }
    }
  }

  lemma ValueLoaded(v: seq<byte>, p: seq<byte>)
    ensures !Unloaded(Value(v), p) && !Unloaded(Nil, p)
  {
  }

  lemma AttachUnloaded(prefix: seq<byte>, k: seq<byte>, v: Node, p: seq<byte>)
    ensures Unloaded(Attach(prefix, k, v).node, p) <==> IsPrefix(k, p) && Unloaded(v, p[|k|..])
  {
    if k == [] {
      assert p[0..] == p;
    }
  }

  lemma BranchUnloaded(i: byte, a: Node, j: byte, b: Node, p: seq<byte>)
    requires i <= 16 && j <= 16 && i != j
    ensures Unloaded(Full(EMPTY_CHILDREN[i := a][j := b], NEW), p) <==>
      p != [] && if p[0] == j then Unloaded(b, p[1..]) else p[0] == i && Unloaded(a, p[1..])
  {
    var ch := EMPTY_CHILDREN[i := a][j := b];
    if p != [] && p[0] <= 16 && p[0] != i && p[0] != j {
      assert ch[p[0]] == Nil;
    }
  }

  lemma RecallsSplit(k: Keccak, prefix: seq<byte>, nk: seq<byte>, nv: Node, f: Flag, key: seq<byte>, v: seq<byte>, m: nat,
                     events: seq<Event>, b: Node, p: seq<byte>)
    requires m < |nk| && m < |key| && nk[m] != key[m] && nk[m] <= 16 && key[m] <= 16 && nk[..m] == key[..m]
    ensures Recalls(k, Short(nk, nv, f), Split(prefix, nk, nv, key, v, m).node, events, prefix, b, p)
  {
    hide Split;
    SplitUnloaded(prefix, nk, nv, key, v, m, p);
  }

  /** `insert` */
  lemma {:induction false} InsertRecalls(w: World, n: Node, prefix: seq<byte>, key: seq<byte>, v: seq<byte>, b: Node, p: seq<byte>)
    requires StoreOk(w.db) && At(n, key) && Original(w, n, prefix, b)
    ensures var r := Insert(w.db, n, prefix, key, v);
      r.fail.None? ==> Recalls(w.k, n, r.node, r.events, prefix, b, p)
    decreases |key|, if n.HashNode? then 1 else 0
  {
    hide Original, StoreOk, Resolve, Insert, InsertAfter, At, Recalls, Split;
    InsertEnds(w.db, n, prefix, key, v);
    InsertEndsWith(w.db, n, prefix, key, v);
    var r := Insert(w.db, n, prefix, key, v);
    RecallsSame(w.k, n, r.events, prefix, b, p);
    if key == [] || n.Nil? {
      RecallsNothing(w.k, n, r.node, r.events, prefix, b, p);
      return;
    }
    match n {
      case HashNode(h) =>
        if Resolve(w.db, h).Some? {
          var c := Resolve(w.db, h).value;
          InsertNodeIs(w.db, n, prefix, key, v);
          LoadOriginal(w, h, prefix, b);
          InsertRecalls(w, c, prefix, key, v, b, p);
          var s := Insert(w.db, c, prefix, key, v);
          RecallsSame(w.k, c, s.events, prefix, b, p);
          if r.fail.None? {
            RecallsHash(w, h, r.node, s.events, prefix, b, p);
          }
        }
      case Short(nk, nv, f) =>
        KeyNotEmpty(n, key);
        OriginalShort(w, nk, nv, f, prefix, b);
        if PrefixLen(key, nk) == |nk| {
          ShapeStep(n, key);
          InsertBelowShort(w.db, n, prefix, key, v);
          InsertRecalls(w, nv, prefix + nk, key[|nk|..], v, b, if IsPrefix(nk, p) then p[|nk|..] else []);
          var s := Insert(w.db, nv, prefix + nk, key[|nk|..], v);
          InsertAfterKeeps(n, Short(nk, s.node, NEW), s);
          if s.fail.None? {
            RecallsShort(w.k, nk, nv, s.node, f, NEW, s.events, prefix, b, p);
          }
        } else {
          InsertIsSplit(w.db, n, prefix, key, v);
          RecallsSplit(w.k, prefix, nk, nv, f, key, v, PrefixLen(key, nk), r.events, b, p);
        }
      case Full(ch, f) =>
        Locality.FullStep(n, key);
        var i := key[0];
        InsertBelowFull(w.db, n, prefix, key, v);
        OriginalChild(w, ch, f, prefix, b, i);
        InsertRecalls(w, ch[i], prefix + [i], key[1..], v, b, if p != [] then p[1..] else []);
        var s := Insert(w.db, ch[i], prefix + [i], key[1..], v);
        InsertAfterKeeps(n, Full(ch[i := s.node], NEW), s);
        if s.fail.None? {
          RecallsFull(w.k, ch, i, s.node, f, NEW, s.events, prefix, b, p);
        }
    }
  }

  lemma RecallsNothing(k: Keccak, n: Node, r: Node, events: seq<Event>, prefix: seq<byte>, b: Node, p: seq<byte>)
    requires n.Nil? || n.Value? || (n.Short? && n.val.Value?)
    ensures Recalls(k, n, r, events, prefix, b, p)
  {
    if n.Short? && IsPrefix(n.key, p) {
      ValueLoaded(n.val.data, p[|n.key|..]);
    }
  }

  lemma InsertAfterKeeps(n: Node, copy: Node, r: Outcome)
    ensures InsertAfter(n, copy, r).events == r.events && InsertAfter(n, copy, r).fail == r.fail
    ensures InsertAfter(n, copy, r).node in {n, copy}
  {
  }

  // ---------------------------------------------------------------- delete

  /** A merged node has the same below it. */
  lemma MergedUnloaded(nk: seq<byte>, c: Node, p: seq<byte>)
    requires nk != [] && c.Short? && c.key != []
    ensures Unloaded(Short(nk + c.key, c.val, NEW), p) <==> IsPrefix(nk, p) && Unloaded(c, p[|nk|..])
    ensures !Unloaded(c, [])
  {
    if IsPrefix(nk + c.key, p) {
      PrefixOfSum(nk, c.key, p);
      DropDrop(p, |nk|, |c.key|);
    }
    if IsPrefix(nk, p) && IsPrefix(c.key, p[|nk|..]) {
      assert p[..|nk| + |c.key|] == p[..|nk|] + p[|nk|..][..|c.key|];
      DropDrop(p, |nk|, |c.key|);
    }
  }

  lemma RecallsMore(k: Keccak, n: Node, r: Node, events: seq<Event>, more: seq<Event>, prefix: seq<byte>, b: Node, p: seq<byte>)
    requires Recalls(k, n, r, events, prefix, b, p) && forall e | e in events :: e in more
    ensures Recalls(k, n, r, more, prefix, b, p)
  {
  }

  lemma ShortAfterRecalls(k: Keccak, n: Node, prefix: seq<byte>, r: Outcome, b: Node, p: seq<byte>)
    requires n.Short? && n.key != [] && r.fail.None? && (r.node.Short? ==> r.node.key != [])
    requires Recalls(k, n.val, r.node, r.events, prefix + n.key, b, if IsPrefix(n.key, p) then p[|n.key|..] else [])
    ensures var s := ShortAfter(n, prefix, r); Recalls(k, n, s.node, s.events, prefix, b, p)
  {
    hide Recalls;
    var s := ShortAfter(n, prefix, r);
    RecallsSame(k, n, s.events, prefix, b, p);
    RecallsShort(k, n.key, n.val, r.node, n.flags, NEW, r.events, prefix, b, p);
    if r.dirty {
      RecallsMore(k, n, Short(n.key, r.node, NEW), r.events, s.events, prefix, b, p);
      if r.node.Short? {
        RecallsMerged(k, n, r.node, s.events, prefix, b, p);
      }
    }
  }

  lemma RecallsMerged(k: Keccak, n: Node, c: Node, events: seq<Event>, prefix: seq<byte>, b: Node, p: seq<byte>)
    requires n.Short? && n.key != [] && c.Short? && c.key != []
    requires Recalls(k, n, Short(n.key, c, NEW), events, prefix, b, p)
    ensures Recalls(k, n, Short(n.key + c.key, c.val, NEW), events, prefix, b, p)
  {
    MergedUnloaded(n.key, c, p);
  }

  lemma LastUnloaded(pos: byte, ch: seq<Node>, p: seq<byte>)
    requires |ch| == 17 && pos <= 16 && forall j | 0 <= j < 17 && j != pos :: ch[j] == Nil
    ensures Unloaded(Full(ch, NEW), p) <==> Unloaded(Short([pos], ch[pos], NEW), p)
    ensures Unloaded(Full(ch, NEW), p) ==> p != [] && p[0] == pos && IsPrefix([pos], p) && Unloaded(ch[pos], p[1..])
  {
    if p != [] {
      assert p[..1] == [p[0]];
    }
  }

  /** The reduction: a sibling that it loads is read. */
  lemma ReduceRecalls(w: World, prefix: seq<byte>, ch: seq<Node>, events: seq<Event>, b: Node, p: seq<byte>)
    requires StoreOk(w.db) && |ch| == 17 && Original(w, Full(ch, NEW), prefix, b) && forall i | 0 <= i < 16 :: Shape(ch[i])
    ensures var r := Reduce(w.db, prefix, ch, events);
      r.fail.None? ==> Recalls(w.k, Full(ch, NEW), r.node, r.events, prefix, b, p)
  {
    hide Original, StoreOk, Resolve, Reduce, Shape, Sole, Unloaded, StoredAt;
    SoleIs(ch, 0, -1);
    var pos := Sole(ch, 0, -1);
    ReduceLoads(w.db, prefix, ch, events, pos);
    if pos >= 0 {
      LastUnloaded(pos, ch, p);
      OriginalChild(w, ch, NEW, prefix, b, pos);
      if ch[pos].Short? && pos < 16 {
        KeyOfShape(ch[pos]);
        MergedUnloaded([pos], ch[pos], p);
      } else if ch[pos].HashNode? && pos < 16 && Resolve(w.db, ch[pos].hash).Some? {
        var c := Resolve(w.db, ch[pos].hash).value;
        if c.Short? && Unloaded(Full(ch, NEW), p) && StoredAt(w.k, b, prefix + p) {
          KeyOfShape(c);
          MergedUnloaded([pos], c, p);
          assert prefix + [pos] + p[1..] == prefix + p;
          ResolveUnloads(w, ch[pos].hash, prefix + [pos], b, p[1..]);
          if p[1..] == [] {
            assert p == [pos];
            assert OnRead(prefix + p, w.db[ch[pos].hash]) in Reduce(w.db, prefix, ch, events).events;
          }
        }
      }
    }
  }

  lemma FullAfterRecalls(w: World, n: Node, prefix: seq<byte>, i: byte, r: Outcome, b: Node, p: seq<byte>)
    requires StoreOk(w.db) && n.Full? && Shape(n) && |n.children| == 17 && i <= 16 && r.fail.None?
    requires Original(w, n, prefix, b) && Original(w, r.node, prefix + [i], b)
    requires Recalls(w.k, n.children[i], r.node, r.events, prefix + [i], b, if p != [] then p[1..] else [])
    ensures var s := FullAfter(w.db, n, prefix, i, r);
      s.fail.None? ==> Recalls(w.k, n, s.node, s.events, prefix, b, p)
  {
    hide Recalls, StoreOk, Original, Reduce;
    var s := FullAfter(w.db, n, prefix, i, r);
    RecallsSame(w.k, n, s.events, prefix, b, p);
    if r.dirty {
      var ch := n.children[i := r.node];
      RecallsFull(w.k, n.children, i, r.node, n.flags, NEW, r.events, prefix, b, p);
      if r.node == Nil {
        OriginalSlot(w, n.children, n.flags, NEW, prefix, b, i, r.node);
        ReduceRecalls(w, prefix, ch, r.events, b, p);
        ReduceKeeps(w.db, prefix, ch, r.events, p);
        if s.fail.None? {
          RecallsMore(w.k, n, Full(ch, NEW), r.events, s.events, prefix, b, p);
          RecallsChain(w.k, n, Full(ch, NEW), s.node, s.events, prefix, b, p);
        }
      }
    }
  }

  lemma RecallsChain(k: Keccak, n: Node, c: Node, r: Node, events: seq<Event>, prefix: seq<byte>, b: Node, p: seq<byte>)
    requires Recalls(k, n, c, events, prefix, b, p) && Recalls(k, c, r, events, prefix, b, p)
    ensures Recalls(k, n, r, events, prefix, b, p)
  {
  }

  /** `delete` */
  lemma {:induction false} DeleteRecalls(w: World, n: Node, prefix: seq<byte>, key: seq<byte>, b: Node, p: seq<byte>)
    requires StoreOk(w.db) && At(n, key) && Original(w, n, prefix, b)
    ensures var r := Delete(w.db, n, prefix, key);
      r.fail.None? ==> Recalls(w.k, n, r.node, r.events, prefix, b, p)
    decreases |key|, if n.HashNode? then 1 else 0
  {
    hide Original, StoreOk, Resolve, Delete, ShortAfter, FullAfter, At, Recalls, Shape, Reported, Keeps, Removed;
    DeleteEndsWith(w.db, n, prefix, key);
    var r := Delete(w.db, n, prefix, key);
    RecallsSame(w.k, n, r.events, prefix, b, p);
    match n {
      case HashNode(h) =>
        if Resolve(w.db, h).Some? {
          var c := Resolve(w.db, h).value;
          LoadOriginal(w, h, prefix, b);
          DeleteRecalls(w, c, prefix, key, b, p);
          var s := Delete(w.db, c, prefix, key);
          RecallsSame(w.k, c, s.events, prefix, b, p);
          if r.fail.None? {
            RecallsHash(w, h, r.node, s.events, prefix, b, p);
          }
        }
      case Short(nk, nv, f) =>
        KeyNotEmpty(n, key);
        if PrefixLen(key, nk) == |nk| < |key| {
          ShapeStep(n, key);
          DeleteBelowShort(w.db, n, prefix, key);
          OriginalShort(w, nk, nv, f, prefix, b);
          var q := if IsPrefix(nk, p) then p[|nk|..] else [];
          DeleteRecalls(w, nv, prefix + nk, key[|nk|..], b, q);
          DeleteKeeps(w.db, nv, prefix + nk, key[|nk|..], q);
          var s := Delete(w.db, nv, prefix + nk, key[|nk|..]);
          if s.fail.None? {
            ShortAfterRecalls(w.k, n, prefix, s, b, p);
          } else {
            AfterFailure(w.db, n, prefix, 0, s);
          }
        } else if PrefixLen(key, nk) == |nk| {
          RecallsNothing(w.k, n, r.node, r.events, prefix, b, p);
        }
      case Full(ch, f) =>
        Locality.FullStep(n, key);
        AtShape(n, key);
        var i := key[0];
        DeleteBelowFull(w.db, n, prefix, key);
        OriginalChild(w, ch, f, prefix, b, i);
        DeleteRecalls(w, ch[i], prefix + [i], key[1..], b, if p != [] then p[1..] else []);
        DeleteOriginal(w, ch[i], prefix + [i], key[1..], b);
        var s := Delete(w.db, ch[i], prefix + [i], key[1..]);
        if s.fail.None? {
          FullAfterRecalls(w, n, prefix, i, s, b, p);
        } else {
          AfterFailure(w.db, n, prefix, i, s);
        }
      case _ =>
        RecallsNothing(w.k, n, r.node, r.events, prefix, b, p);
    }
  }

  // ---------------------------------------------------------------- the path to the key is loaded

  lemma UnloadedShort(nk: seq<byte>, c: Node, f: Flag, p: seq<byte>)
    ensures Unloaded(Short(nk, c, f), p) <==> nk != [] && IsPrefix(nk, p) && Unloaded(c, p[|nk|..])
  {
  }

  lemma UnloadedFull(ch: seq<Node>, f: Flag, p: seq<byte>)
    ensures Unloaded(Full(ch, f), p) <==> p != [] && p[0] < |ch| && Unloaded(ch[p[0]], p[1..])
  {
  }

  /** After an insertion that changed something, what is unloaded is off the path to its key. */
  lemma {:induction false} InsertClears(db: Store, n: Node, prefix: seq<byte>, key: seq<byte>, v: seq<byte>, p: seq<byte>)
    requires StoreOk(db) && At(n, key)
    ensures var r := Insert(db, n, prefix, key, v);
      r.fail.None? && r.dirty && Unloaded(r.node, p) ==> !IsPrefix(p, key)
    decreases |key|, if n.HashNode? then 1 else 0
  {
    hide StoreOk, Resolve, Insert, At, Unloaded, Split, Attach;
    InsertEndsWith(db, n, prefix, key, v);
    var r := Insert(db, n, prefix, key, v);
    if key == [] {
      ValueLoaded(v, p);
    } else if r.fail.None? && r.dirty {
      match n {
        case HashNode(h) =>
          InsertNodeIs(db, n, prefix, key, v);
          InsertClears(db, Resolve(db, h).value, prefix, key, v, p);
        case Short(nk, nv, f) =>
          KeyNotEmpty(n, key);
          if PrefixLen(key, nk) == |nk| {
            ShapeStep(n, key);
            InsertBelowShort(db, n, prefix, key, v);
            var s := Insert(db, nv, prefix + nk, key[|nk|..], v);
            InsertClears(db, nv, prefix + nk, key[|nk|..], v, if IsPrefix(nk, p) then p[|nk|..] else []);
            UnloadedShort(nk, s.node, NEW, p);
            if IsPrefix(nk, p) {
              NearBelow(nk, p, key);
            }
          } else {
            InsertIsSplit(db, n, prefix, key, v);
            SplitUnloaded(prefix, nk, nv, key, v, PrefixLen(key, nk), p);
          }
        case Full(ch, f) =>
          Locality.FullStep(n, key);
          var i := key[0];
          InsertBelowFull(db, n, prefix, key, v);
          InsertClears(db, ch[i], prefix + [i], key[1..], v, if p != [] then p[1..] else []);
          var s := Insert(db, ch[i], prefix + [i], key[1..], v);
          UnloadedFull(ch[i := s.node], NEW, p);
          OffSlot(p, key);
        case Nil =>
          AttachUnloaded(prefix, key, Value(v), p);
          ValueLoaded(v, if IsPrefix(key, p) then p[|key|..] else []);
      }
    }
  }

  lemma OffSlot(p: seq<byte>, key: seq<byte>)
    requires key != []
    ensures p != [] && p[0] == key[0] ==> (IsPrefix(p, key) <==> IsPrefix(p[1..], key[1..]))
    ensures p != [] && p[0] != key[0] ==> !IsPrefix(p, key)
  {
    if p != [] && p[0] == key[0] {
      assert p[..1] == [key[0]] == key[..1];
      NearBelow([key[0]], p, key);
    }
    if p != [] && IsPrefix(p, key) {
      assert key[0] == key[..|p|][0];
    }
  }

  /** A deletion reports nodes below the one it deletes from. */
  lemma {:induction false} DeletedBelow(db: Store, n: Node, prefix: seq<byte>, key: seq<byte>, e: Event)
    requires StoreOk(db) && At(n, key) && e in Delete(db, n, prefix, key).events
    ensures IsPrefix(prefix, e.path)
    decreases |key|, if n.HashNode? then 1 else 0
  {
    hide StoreOk, Resolve, Delete, At, Reduce;
    DeleteEndsWith(db, n, prefix, key);
    DeleteEnds(db, n, prefix, key);
    match n {
      case HashNode(h) =>
        if Resolve(db, h).Some? && e in Delete(db, Resolve(db, h).value, prefix, key).events {
          DeletedBelow(db, Resolve(db, h).value, prefix, key, e);
        }
      case Short(nk, nv, f) =>
        KeyNotEmpty(n, key);
        if PrefixLen(key, nk) == |nk| < |key| {
          ShapeStep(n, key);
          DeleteBelowShort(db, n, prefix, key);
          if e in Delete(db, nv, prefix + nk, key[|nk|..]).events {
            DeletedBelow(db, nv, prefix + nk, key[|nk|..], e);
            PrefixOfSum(prefix, nk, e.path);
          }
        }
      case Full(ch, f) =>
        Locality.FullStep(n, key);
        var i := key[0];
        DeleteBelowFull(db, n, prefix, key);
        var s := Delete(db, ch[i], prefix + [i], key[1..]);
        if e in s.events {
          DeletedBelow(db, ch[i], prefix + [i], key[1..], e);
          PrefixOfSum(prefix, [i], e.path);
        } else {
          ReduceLoads(db, prefix, ch[i := Nil], s.events, Sole(ch[i := Nil], 0, -1));
        }
      case _ =>
    }
  }

  lemma NotBelow(db: Store, n: Node, prefix: seq<byte>, i: byte, key: seq<byte>, p: seq<byte>)
    requires StoreOk(db) && At(n, key) && p != [] && p[0] != i
    ensures !Removed(Delete(db, n, prefix + [i], key), prefix, p)
  {
    hide StoreOk, At, Delete;
    if OnDelete(prefix + p) in Delete(db, n, prefix + [i], key).events {
      assert (prefix + p)[..|prefix| + 1][|prefix|] == p[0] && (prefix + [i])[|prefix|] == i;
      DeletedBelow(db, n, prefix + [i], key, OnDelete(prefix + p));
    }
  }

  lemma DropAll(prefix: seq<byte>, p: seq<byte>, k: seq<byte>)
    ensures prefix + p == prefix + k ==> |p| == |k| && p[|k|..] == []
  {
    if prefix + p == prefix + k {
      assert |prefix + p| == |prefix + k|;
    }
  }

  lemma ShortAfterClears(n: Node, prefix: seq<byte>, key: seq<byte>, r: Outcome, p: seq<byte>)
    requires n.Short? && n.key != [] && IsPrefix(n.key, key) && r.fail.None? && r.dirty && (r.node.Short? ==> r.node.key != [])
    requires IsPrefix(n.key, p) && Unloaded(r.node, p[|n.key|..]) ==>
      !IsPrefix(p[|n.key|..], key[|n.key|..]) && !Removed(r, prefix + n.key, p[|n.key|..])
    ensures var s := ShortAfter(n, prefix, r);
      Unloaded(s.node, p) ==> !IsPrefix(p, key) && !Removed(s, prefix, p)
  {
    hide Unloaded;
    var s, nk := ShortAfter(n, prefix, r), n.key;
    DropAll(prefix, p, nk);
    UnloadedShort(nk, r.node, NEW, p);
    if r.node.Short? {
      MergedUnloaded(nk, r.node, p);
    }
    if Unloaded(s.node, p) {
      NearBelow(nk, p, key);
      assert prefix + nk + p[|nk|..] == prefix + p;
    }
  }

  lemma FullAfterClears(db: Store, n: Node, prefix: seq<byte>, key: seq<byte>, r: Outcome, p: seq<byte>)
    requires StoreOk(db) && n.Full? && Shape(n) && |n.children| == 17 && key != [] && key[0] <= 16 && r.fail.None? && r.dirty
    requires p != [] && p[0] == key[0] && Unloaded(r.node, p[1..]) ==>
      !IsPrefix(p[1..], key[1..]) && !Removed(r, prefix + [key[0]], p[1..])
    requires p != [] && p[0] != key[0] ==> !Removed(r, prefix, p)
    ensures var s := FullAfter(db, n, prefix, key[0], r);
      s.fail.None? && Unloaded(s.node, p) ==> !IsPrefix(p, key) && !Removed(s, prefix, p)
  {
    hide Unloaded, StoreOk, Reduce, Resolve, Sole, Shape;
    var i := key[0];
    var s, ch := FullAfter(db, n, prefix, i, r), n.children[i := r.node];
    UnloadedFull(ch, NEW, p);
    OffSlot(p, key);
    if p != [] && p[0] == i {
      assert prefix + [i] + p[1..] == prefix + p;
    }
    if r.node == Nil {
      SoleIs(ch, 0, -1);
      var pos := Sole(ch, 0, -1);
      ReduceLoads(db, prefix, ch, r.events, pos);
      ValueLoaded([], if p != [] then p[1..] else []);
      if pos >= 0 {
        LastUnloaded(pos, ch, p);
        if ch[pos].Short? && pos < 16 {
          ChildShape(n, pos);
          KeyOfShape(ch[pos]);
          LastMerged(ch[pos], prefix, pos, p);
        } else if ch[pos].HashNode? && Resolve(db, ch[pos].hash).Some? && Resolve(db, ch[pos].hash).value.Short? {
          KeyOfShape(Resolve(db, ch[pos].hash).value);
          LastMerged(Resolve(db, ch[pos].hash).value, prefix, pos, p);
        }
      }
    }
  }

  lemma ChildShape(n: Node, i: nat)
    requires n.Full? && Shape(n) && i < 16
    ensures |n.children| == 17 && Shape(n.children[i])
  {
  }

  /** The last sibling, merged, is not unloaded at its own path. */
  lemma LastMerged(c: Node, prefix: seq<byte>, pos: byte, p: seq<byte>)
    requires c.Short? && c.key != []
    ensures Unloaded(Short([pos] + c.key, c.val, NEW), p) ==> p != [] && p[0] == pos && prefix + p != prefix + [pos]
  {
    hide Unloaded;
    DropAll(prefix, p, [pos]);
    MergedUnloaded([pos], c, p);
    if Unloaded(Short([pos] + c.key, c.val, NEW), p) {
      assert p[0] == p[..1][0];
    }
  }

  /** After a deletion that changed something, what is unloaded is off the path to its key, and
      still there. */
  lemma {:induction false} DeleteClears(db: Store, n: Node, prefix: seq<byte>, key: seq<byte>, p: seq<byte>)
    requires StoreOk(db) && At(n, key)
    ensures var r := Delete(db, n, prefix, key);
      r.fail.None? && r.dirty && Unloaded(r.node, p) ==> !IsPrefix(p, key) && !Removed(r, prefix, p)
    decreases |key|, if n.HashNode? then 1 else 0
  {
    hide StoreOk, Resolve, Delete, At, Unloaded, ShortAfter, FullAfter, Shape, Keeps, Removed;
    DeleteEndsWith(db, n, prefix, key);
    var r := Delete(db, n, prefix, key);
    ValueLoaded([], p);
    if r.fail.None? && r.dirty {
      match n {
        case HashNode(h) =>
          var c := Resolve(db, h).value;
          DeleteClears(db, c, prefix, key, p);
          RemovedAfterRead(Delete(db, c, prefix, key), r, OnRead(prefix, db[h]), prefix, p);
        case Short(nk, nv, f) =>
          KeyNotEmpty(n, key);
          if PrefixLen(key, nk) == |nk| < |key| {
            ShapeStep(n, key);
            DeleteBelowShort(db, n, prefix, key);
            var q := if IsPrefix(nk, p) then p[|nk|..] else [];
            DeleteClears(db, nv, prefix + nk, key[|nk|..], q);
            DeleteKeeps(db, nv, prefix + nk, key[|nk|..], q);
            var s := Delete(db, nv, prefix + nk, key[|nk|..]);
            AfterClean(db, n, prefix, 0, s);
            ShortAfterClears(n, prefix, key, s, p);
          }
        case Full(ch, f) =>
          Locality.FullStep(n, key);
          AtShape(n, key);
          var i := key[0];
          DeleteBelowFull(db, n, prefix, key);
          DeleteClears(db, ch[i], prefix + [i], key[1..], if p != [] then p[1..] else []);
          var s := Delete(db, ch[i], prefix + [i], key[1..]);
          AfterClean(db, n, prefix, i, s);
          if p != [] && p[0] != i {
            NotBelow(db, ch[i], prefix, i, key[1..], p);
          }
          FullAfterClears(db, n, prefix, key, s, p);
        case _ =>
      }
    }
  }

  lemma AfterClean(db: Store, n: Node, prefix: seq<byte>, i: byte, r: Outcome)
    requires StoreOk(db) && i <= 16
    ensures n.Short? && (!r.dirty || r.fail.Some?) ==> !ShortAfter(n, prefix, r).dirty
    ensures n.Full? && |n.children| == 17 && (!r.dirty || r.fail.Some?) ==> !FullAfter(db, n, prefix, i, r).dirty
  {
  }

  // ---------------------------------------------------------------- nothing is forgotten

  /** Every node that was stored by itself when tracking began has its blob kept, or is still in
      the tree, where it was, and not loaded. */
  ghost predicate Known(k: Keccak, n: Node, t: Node, b: Node, origin: map<seq<byte>, seq<byte>>) {
    forall p | StoredAt(k, b, p) :: p in origin || (Unloaded(n, p) && Sub(t, p) == Sub(b, p))
  }

  lemma {:induction false} OriginsKeep(origin: map<seq<byte>, seq<byte>>, events: seq<Event>, p: seq<byte>)
    requires p in origin || ReadAt(events, p)
    ensures p in Capture.Origins(origin, events)
    decreases |events|
  {
    if events != [] {
      var e := events[0];
      if !(e.OnRead? && e.path == p) && p !in origin {
        var e' :| e' in events && e'.OnRead? && e'.path == p;
        assert e' in events[1..];
      }
      OriginsKeep(if e.OnRead? then origin[e.path := e.blob] else origin, events[1..], p);
    }
  }

  lemma {:induction false} WritesAmong(events: seq<Event>, e: Event)
    requires e in World.Writes(events)
    ensures e in events
    decreases |events|
  {
    if events != [] && !(e == events[0] && !e.OnRead?) {
      WritesAmong(events[1..], e);
    }
  }

  /** A step that keeps or reads what is unloaded, and moves nothing that is. */
  lemma KnownStep(k: Keccak, n: Node, r: Node, t: Node, t': Node, events: seq<Event>, b: Node, origin: map<seq<byte>, seq<byte>>)
    requires Known(k, n, t, b, origin)
    requires forall p :: Recalls(k, n, r, events, [], b, p)
    requires forall p | Unloaded(r, p) && Sub(t, p) != Nil :: Sub(t', p) == Sub(t, p)
    ensures Known(k, r, t', b, Capture.Origins(origin, events))
  {
    hide Unloaded, Sub, Blob, Big;
    forall p | StoredAt(k, b, p) ensures p in Capture.Origins(origin, events) || (Unloaded(r, p) && Sub(t', p) == Sub(b, p)) {
      assert Recalls(k, n, r, events, [], b, p);
      assert [] + p == p;
      if p in origin || ReadAt(events, p) {
        OriginsKeep(origin, events, p);
      }
    }
  }

  lemma KnownStays(k: Keccak, n: Node, t: Node, events: seq<Event>, b: Node, origin: map<seq<byte>, seq<byte>>)
    requires Known(k, n, t, b, origin)
    ensures Known(k, n, t, b, Capture.Origins(origin, events))
  {
    hide Unloaded, Sub, StoredAt;
    forall p | p in origin ensures p in Capture.Origins(origin, events) {
      OriginsKeep(origin, events, p);
    }
  }

  /** `tryGet` */
  lemma GetKnown(w: World, n: Node, t: Node, key: seq<byte>, b: Node, origin: map<seq<byte>, seq<byte>>)
    requires StoreOk(w.db) && At(n, key[0..]) && Original(w, n, [], b) && Known(w.k, n, t, b, origin)
    ensures var r := TryGet(w.db, n, key, 0);
      Known(w.k, r.node, t, b, Capture.Origins(origin, r.events))
  {
    hide StoreOk, At, Original, Known, TryGet, Recalls, Unloaded, Sub;
    var r := TryGet(w.db, n, key, 0);
    assert key[..0] == [];
    forall p ensures Recalls(w.k, n, r.node, r.events, [], b, p) {
      GetRecalls(w, n, key, 0, b, p);
    }
    KnownStep(w.k, n, r.node, t, t, r.events, b, origin);
  }

  /** `insert` */
  lemma InsertKnown(w: World, n: Node, t: Node, key: seq<byte>, v: seq<byte>, b: Node, origin: map<seq<byte>, seq<byte>>)
    requires StoreOk(w.db) && w.Rep(n, t, true) && Nodes.Sized(t) && TreeAt(t, key) && v != []
    requires At(n, key) && Original(w, n, [], b) && Known(w.k, n, t, b, origin)
    ensures StoreOk(NOWHERE) && At(t, key)
    ensures var r, s := Insert(w.db, n, [], key, v), Insert(NOWHERE, t, [], key, v);
      r.fail.None? ==> Known(w.k, r.node, s.node, b, Capture.Origins(origin, r.events))
  {
    hide StoreOk, At, Original, Known, Insert, Recalls, Unloaded, Sub, World.Rep, World.Writes;
    NoStore();
    w.InsertRefines(n, t, true, [], key, v);
    InsertCanon(t, [], key, v);
    var r, s := Insert(w.db, n, [], key, v), Insert(NOWHERE, t, [], key, v);
    if r.fail.None? {
      forall p ensures Recalls(w.k, n, r.node, r.events, [], b, p) {
        InsertRecalls(w, n, [], key, v, b, p);
      }
      forall p | Unloaded(r.node, p) && Sub(t, p) != Nil ensures Sub(s.node, p) == Sub(t, p) {
        InsertClears(w.db, n, [], key, v, p);
        InsertKeeps(NOWHERE, t, [], key, v, p);
      }
      KnownStep(w.k, n, r.node, t, s.node, r.events, b, origin);
    }
  }

  /** `delete` */
  lemma DeleteKnown(w: World, n: Node, t: Node, key: seq<byte>, b: Node, origin: map<seq<byte>, seq<byte>>)
    requires StoreOk(w.db) && w.Rep(n, t, true) && Nodes.Sized(t) && TreeAt(t, key)
    requires At(n, key) && Original(w, n, [], b) && Known(w.k, n, t, b, origin)
    ensures StoreOk(NOWHERE) && At(t, key)
    ensures var r, s := Delete(w.db, n, [], key), Delete(NOWHERE, t, [], key);
      r.fail.None? ==> Known(w.k, r.node, s.node, b, Capture.Origins(origin, r.events))
  {
    hide StoreOk, At, Original, Known, Delete, Recalls, Unloaded, Sub, World.Rep, World.Writes;
    NoStore();
    w.DeleteRefines(n, t, true, [], key);
    DeleteCanon(t, [], key);
    var r, s := Delete(w.db, n, [], key), Delete(NOWHERE, t, [], key);
    if r.fail.None? {
      forall p ensures Recalls(w.k, n, r.node, r.events, [], b, p) {
        DeleteRecalls(w, n, [], key, b, p);
      }
      forall p | Unloaded(r.node, p) && Sub(t, p) != Nil ensures Sub(s.node, p) == Sub(t, p) {
        DeleteClears(w.db, n, [], key, p);
        DeleteKeeps(NOWHERE, t, [], key, p);
        if Removed(s, [], p) {
          WritesAmong(r.events, OnDelete([] + p));
        }
      }
      KnownStep(w.k, n, r.node, t, s.node, r.events, b, origin);
    }
  }

  /** `hash` */
  lemma {:induction false} UnhashedUnloaded(m: Node, n: Node, p: seq<byte>)
    requires Unhashed(m) == Unhashed(n)
    ensures Unloaded(m, p) <==> Unloaded(n, p)
    decreases n
  {
    match n {
      case Short(key, v, _) =>
        if key != [] && IsPrefix(key, p) {
          UnhashedUnloaded(m.val, v, p[|key|..]);
        }
      case Full(ch, _) =>
        assert |m.children| == |Unhashed(m).children| == |ch|;
        if p != [] && p[0] < |ch| {
          assert Unhashed(m).children[p[0]] == Unhashed(m.children[p[0]]);
          UnhashedUnloaded(m.children[p[0]], ch[p[0]], p[1..]);
        }
      case _ =>
    }
  }

  lemma UnhashedKnown(k: Keccak, m: Node, n: Node, t: Node, b: Node, origin: map<seq<byte>, seq<byte>>)
    requires Unhashed(m) == Unhashed(n) && Known(k, m, t, b, origin)
    ensures Known(k, n, t, b, origin)
  {
    hide StoredAt, Sub, Unloaded;
    forall p ensures Unloaded(m, p) <==> Unloaded(n, p) {
      UnhashedUnloaded(m, n, p);
    }
  }

  /** When tracking begins at a root that is not loaded, or at none, everything is still there. */
  lemma BeginsKnown(k: Keccak, n: Node, t: Node, origin: map<seq<byte>, seq<byte>>)
    requires n.HashNode? || t.Nil?
    ensures Known(k, n, t, t, origin)
  {
    forall p | t.Nil? ensures !StoredAt(k, t, p) {
      SubEnd(Nil, p);
    }
  }

  lemma {:induction false} SubIsNode(t: Node, p: seq<byte>)
    requires Sub(t, p).Short? || Sub(t, p).Full?
    ensures NodeAt(t, p)
    decreases t
  {
    if p != [] {
      match t {
        case Short(key, v, _) => SubIsNode(v, p[|key|..]);
        case Full(ch, _) => SubIsNode(ch[p[0]], p[1..]);
      }
    }
  }
}
