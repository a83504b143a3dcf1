/** trie/trie.go: what a call leaves alone.  Updates rebuild the path to their key and nothing
    else, and not even that when the value is there already; lookups only load.  So a node that
    is dirty was so before, or lies on the path to a key that changed, or hangs from it. */
module Locality {
  import opened Bytes
  import RlpRaw
  import opened HexKeys
  import opened Nodes
  import opened NodeCodec
  import opened TrieOps
  import opened TreeFacts
  import opened Refine
  import opened Committing

  /** The flags of the loaded node at a path. */
  function FlagAt(n: Node, p: seq<byte>): Option<Flag> {
    var s := Sub(n, p);
    if s.Short? || s.Full? then Some(s.flags) else None
  }

  predicate DirtyAt(n: Node, p: seq<byte>) {
    FlagAt(n, p).Some? && FlagAt(n, p).value.dirty
  }

  lemma SubShort(key: seq<byte>, v: Node, f: Flag, p: seq<byte>)
    ensures Sub(Short(key, v, f), p) ==
      if p == [] then Short(key, v, f) else if key != [] && IsPrefix(key, p) then Sub(v, p[|key|..]) else Nil
  {
  }

  lemma SubFull(ch: seq<Node>, f: Flag, p: seq<byte>)
    ensures Sub(Full(ch, f), p) == if p == [] then Full(ch, f) else if p[0] < |ch| then Sub(ch[p[0]], p[1..]) else Nil
  {
  }

  lemma SubEnd(n: Node, p: seq<byte>)
    ensures p == [] ==> Sub(n, p) == n
    ensures !n.Short? && !n.Full? && p != [] ==> Sub(n, p) == Nil
  {
  }

  /** A path below a short node, and how it lies to a key below it. */
  lemma NearBelow(step: seq<byte>, p: seq<byte>, key: seq<byte>)
    requires IsPrefix(step, p) && IsPrefix(step, key) && step != []
    ensures IsPrefix(p, key) <==> IsPrefix(p[|step|..], key[|step|..])
    ensures Near(p[|step|..], key[|step|..]) ==> Near(p, key)
  {
    var q, k := p[|step|..], key[|step|..];
    assert p == step + q && key == step + k;
    if q == [] {
      assert p[..|p| - 1] == step[..|step| - 1];
      assert key[..|p| - 1] == key[..|step|][..|p| - 1];
    } else {
      assert p[..|p| - 1] == step + q[..|q| - 1];
    }
  }

  // ---------------------------------------------------------------- loading

  lemma DecodedIs(hash: Option<Hash>, buf: seq<byte>)
    requires DecodeNode(hash, buf).Some?
    ensures RlpRaw.SplitList(buf).Ok?
    ensures var n, elems := DecodeNode(hash, buf).value, RlpRaw.SplitList(buf).value.content;
      match n
      case Short(_, v, f) =>
        && f == Flag(hash, false) && RlpRaw.SplitString(elems).Ok?
        && var r := DecodeRef(RlpRaw.SplitString(elems).value.rest);
           v.Value? || (r.Some? && v == r.value.0)
      case Full(ch, f) =>
        && f == Flag(hash, false) && |ch| == 17 && (ch[16].Nil? || ch[16].Value?)
        && DecodeRefs(elems, 16).Some? && ch[..16] == DecodeRefs(elems, 16).value.0
      case _ => false
  {
    hide DecodeRef, DecodeRefs, RlpRaw.SplitString, RlpRaw.SplitList, RlpRaw.Count, CompactToHex;
  }

  /** Nodes from the database are clean, with all that is embedded in them. */
  lemma {:induction false} DecodedClean(hash: Option<Hash>, buf: seq<byte>, p: seq<byte>)
    ensures DecodeNode(hash, buf).Some? ==> !DirtyAt(DecodeNode(hash, buf).value, p)
    decreases |p|, 0
  {
    hide DecodeNode, DecodeRef, DecodeRefs, Sub;
    if DecodeNode(hash, buf).Some? {
      DecodedIs(hash, buf);
      var n, elems := DecodeNode(hash, buf).value, RlpRaw.SplitList(buf).value.content;
      SubEnd(n, p);
      if p != [] {
        if n.Short? {
          SubShort(n.key, n.val, n.flags, p);
          if n.key != [] && IsPrefix(n.key, p) {
            SubEnd(n.val, p[|n.key|..]);
            RefClean(RlpRaw.SplitString(elems).value.rest, p[|n.key|..]);
          }
        } else {
          SubFull(n.children, n.flags, p);
          if p[0] < 16 {
            RefsClean(elems, 16, p[0], p[1..]);
          } else if p[0] == 16 {
            SubEnd(n.children[16], p[1..]);
          }
        }
      }
    }
  }

  lemma {:induction false} RefClean(buf: seq<byte>, p: seq<byte>)
    ensures DecodeRef(buf).Some? ==> !DirtyAt(DecodeRef(buf).value.0, p)
    decreases |p|, 1
  {
    hide Sub, DecodeNode, RlpRaw.Split;
    if DecodeRef(buf).Some? {
      var n := DecodeRef(buf).value.0;
      SubEnd(n, p);
      if n.Short? || n.Full? {
        DecodedClean(None, buf, p);
      }
    }
  }

  lemma {:induction false} RefsClean(elems: seq<byte>, n: nat, i: nat, p: seq<byte>)
    requires i < n
    ensures DecodeRefs(elems, n).Some? ==> !DirtyAt(DecodeRefs(elems, n).value.0[i], p)
    decreases |p|, 2, n
  {
    hide DecodeRef, DirtyAt;
    if DecodeRefs(elems, n).Some? {
      RefClean(elems, p);
      if i > 0 {
        RefsClean(DecodeRef(elems).value.1, n - 1, i - 1, p);
      }
    }
  }

  lemma ResolvedClean(db: Store, h: Hash, p: seq<byte>)
    requires StoreOk(db)
    ensures Resolve(db, h).Some? ==> !DirtyAt(Resolve(db, h).value, p)
  {
    hide DecodeNode, DirtyAt, StoreOk;
    if h in db {
      DecodedClean(Some(h), db[h], p);
    }
  }

  // ---------------------------------------------------------------- tryGet

  /** The same node but for what is loaded below it. */
  predicate SameHead(a: Node, b: Node) {
    || a == b
    || (a.Short? && b.Short? && a.key == b.key && a.flags == b.flags)
    || (a.Full? && b.Full? && |a.children| == |b.children| && a.flags == b.flags)
  }

  /** At this path nodes are at most loaded, and off the path to the key not even that. */
  ghost predicate Loads(n: Node, r: Node, key: seq<byte>, p: seq<byte>) {
    && (Sub(n, p) != Nil && !Sub(n, p).HashNode? ==> SameHead(Sub(n, p), Sub(r, p)))
    && (Sub(n, p) != Nil && !IsPrefix(p, key) ==> Sub(r, p) == Sub(n, p))
    && (DirtyAt(r, p) <==> DirtyAt(n, p))
  }

  lemma LoadsShort(nk: seq<byte>, v: Node, c: Node, f: Flag, key: seq<byte>, p: seq<byte>)
    requires nk != [] && IsPrefix(nk, key)
    requires Loads(v, c, key[|nk|..], if IsPrefix(nk, p) then p[|nk|..] else [])
    ensures Loads(Short(nk, v, f), Short(nk, c, f), key, p)
  {
    hide Sub;
    SubShort(nk, v, f, p);
    SubShort(nk, c, f, p);
    if IsPrefix(nk, p) {
      NearBelow(nk, p, key);
    }
  }

  lemma LoadsFull(ch: seq<Node>, c: Node, f: Flag, key: seq<byte>, p: seq<byte>)
    requires key != [] && key[0] < |ch|
    requires Loads(ch[key[0]], c, key[1..], if p != [] then p[1..] else [])
    ensures Loads(Full(ch, f), Full(ch[key[0] := c], f), key, p)
  {
    hide Sub;
    SubFull(ch, f, p);
    SubFull(ch[key[0] := c], f, p);
    if p != [] && p[0] == key[0] {
      assert p[..1] == [key[0]] == key[..1];
      NearBelow([key[0]], p, key);
    }
  }

  lemma LoadsSame(n: Node, key: seq<byte>, p: seq<byte>)
    ensures Loads(n, n, key, p)
  {
  }

  lemma LoadsHash(n: Node, c: Node, r: Node, key: seq<byte>, p: seq<byte>)
    requires n.HashNode? && !DirtyAt(c, p) && Loads(c, r, key, p)
    ensures Loads(n, r, key, p)
  {
    hide Sub;
    SubEnd(n, p);
  }

  lemma GetEnds(db: Store, n: Node, key: seq<byte>, pos: nat)
    requires StoreOk(db) && pos <= |key| && At(n, key[pos..])
    ensures var r := TryGet(db, n, key, pos);
      && (n.Nil? || n.Value? ==> r.node == n && !r.didResolve && r.events == [] && r.fail.None?)
      && (n.HashNode? ==> r.didResolve && (Resolve(db, n.hash).None? ==> r.fail == Some(Missing(n.hash, key[..pos]))))
      && (n.HashNode? && Resolve(db, n.hash).Some? ==>
            var c := Resolve(db, n.hash).value;
            && At(c, key[pos..]) && !c.HashNode?
            && r.value == TryGet(db, c, key, pos).value && r.node == TryGet(db, c, key, pos).node
            && r.fail == TryGet(db, c, key, pos).fail)
  {
  }

  /** A lookup only loads, and keeps all flags. */
  lemma {:induction false} GetLoads(db: Store, n: Node, key: seq<byte>, pos: nat, p: seq<byte>)
    requires StoreOk(db) && pos <= |key| && At(n, key[pos..])
    ensures TryGet(db, n, key, pos).fail.None? ==> Loads(n, TryGet(db, n, key, pos).node, key[pos..], p)
    decreases |key| - pos, if n.HashNode? then 1 else 0
  {
    hide TryGet, StoreOk, Resolve, At, Loads, DirtyAt, Sub;
    GetEnds(db, n, key, pos);
    LoadsSame(n, key[pos..], p);
    match n {
      case HashNode(h) =>
        if Resolve(db, h).Some? {
          var c := Resolve(db, h).value;
          GetLoads(db, c, key, pos, p);
          ResolvedClean(db, h, p);
          if TryGet(db, c, key, pos).fail.None? {
            LoadsHash(n, c, TryGet(db, c, key, pos).node, key[pos..], p);
          }
        }
      case Short(nk, nv, f) =>
        GetBelowShort(db, n, key, pos);
        KeyNotEmpty(n, key[pos..]);
        if IsPrefix(nk, key[pos..]) {
          var q := if IsPrefix(nk, p) then p[|nk|..] else [];
          DropDrop(key, pos, |nk|);
          GetLoads(db, nv, key, pos + |nk|, q);
          var r := TryGet(db, nv, key, pos + |nk|);
          if r.fail.None? {
            LoadsShort(nk, nv, r.node, f, key[pos..], p);
          }
        }
      case Full(ch, f) =>
        GetAtFull(n, key, pos);
        GetBelowFull(db, n, key, pos);
        var q := if p != [] then p[1..] else [];
        DropDrop(key, pos, 1);
        GetLoads(db, ch[key[pos]], key, pos + 1, q);
        var r := TryGet(db, ch[key[pos]], key, pos + 1);
        if r.fail.None? {
          LoadsFull(ch, r.node, f, key[pos..], p);
        }
      case _ =>
    }
  }

  lemma GetAtFull(n: Node, key: seq<byte>, pos: nat)
    requires n.Full? && pos <= |key| && At(n, key[pos..])
    ensures pos < |key|
  {
  }

  lemma NoLoads(db: Store, n: Node, key: seq<byte>, pos: nat)
    requires StoreOk(db) && pos <= |key| && At(n, key[pos..])
    ensures !TryGet(db, n, key, pos).didResolve ==>
      TryGet(db, n, key, pos) == Found(TryGet(db, n, key, pos).value, n, false, None, [])
    decreases |key| - pos, if n.HashNode? then 1 else 0
  {
    hide StoreOk, Resolve, At, TryGet;
    GetEnds(db, n, key, pos);
    if n.Short? {
      GetBelowShort(db, n, key, pos);
      KeyNotEmpty(n, key[pos..]);
      if IsPrefix(n.key, key[pos..]) {
        NoLoads(db, n.val, key, pos + |n.key|);
      }
    } else if n.Full? {
      GetAtFull(n, key, pos);
      GetBelowFull(db, n, key, pos);
      NoLoads(db, n.children[key[pos]], key, pos + 1);
    }
  }

  /** And what it has loaded stays: the same lookup again loads nothing. */
  lemma {:induction false} GetAgain(w: World, n: Node, t: Node, root: bool, key: seq<byte>, pos: nat)
    requires StoreOk(w.db) && w.Rep(n, t, root) && Nodes.Sized(t)
    requires pos <= |key| && TreeAt(t, key[pos..])
    ensures At(n, key[pos..])
    ensures var r := TryGet(w.db, n, key, pos);
      r.fail.None? ==> At(r.node, key[pos..]) && TryGet(w.db, r.node, key, pos) == Found(r.value, r.node, false, None, [])
    decreases |key| - pos, if n.HashNode? then 1 else 0
  {
    hide StoreOk, Resolve, At, TryGet, World.Rep, World.Hashed, World.IsRef, World.FlagOk;
    w.GetRefines(n, t, root, key, pos);
    var r := TryGet(w.db, n, key, pos);
    if r.fail.None? {
      w.RepIsAt(r.node, t, root, key[pos..]);
    }
    w.RepCases(n, t, root);
    NoLoads(w.db, n, key, pos);
    match n {
      case HashNode(h) =>
        GetEnds(w.db, n, key, pos);
        w.ResolveRep(h, t, root);
        if Resolve(w.db, h).Some? {
          GetAgain(w, Resolve(w.db, h).value, t, root, key, pos);
        }
      case Short(nk, nv, f) =>
        GetBelowShort(w.db, n, key, pos);
        if IsPrefix(nk, key[pos..]) {
          KeyNotEmpty(n, key[pos..]);
          DropDrop(key, pos, |nk|);
          EdgeStep(nk, t.val, key[pos..]);
          GetAgain(w, nv, t.val, false, key, pos + |nk|);
          if r.fail.None? && r.didResolve {
            GetBelowShort(w.db, r.node, key, pos);
          }
        }
      case Full(ch, f) =>
        GetAtFull(n, key, pos);
        GetBelowFull(w.db, n, key, pos);
        DropDrop(key, pos, 1);
        BranchStep(t.children, key[pos..]);
        GetAgain(w, ch[key[pos]], t.children[key[pos]], false, key, pos + 1);
        if r.fail.None? && r.didResolve {
          GetBelowFull(w.db, r.node, key, pos);
        }
      case _ =>
        GetEnds(w.db, n, key, pos);
    }
  }

  // ---------------------------------------------------------------- insert and delete

  /** At this path an update keeps what there is off the path to its key, unless it reports the
      node gone; and it makes dirty nodes only near the key, and only if it changes anything. */
  ghost predicate Keeps(n: Node, r: Node, changed: bool, key: seq<byte>, p: seq<byte>, gone: bool) {
    && (Sub(n, p) != Nil && !IsPrefix(p, key) ==> Sub(r, p) == Sub(n, p) || gone)
    && (DirtyAt(r, p) ==> DirtyAt(n, p) || (changed && Near(p, key)))
  }

  /** An update that changes nothing gives back the node, or loads it. */
  ghost predicate Stays(db: Store, n: Node, r: Node)
    requires StoreOk(db)
  {
    if n.HashNode? then Resolve(db, n.hash) == Some(r) else r == n
  }

  lemma KeepsSame(n: Node, changed: bool, key: seq<byte>, p: seq<byte>, gone: bool)
    ensures Keeps(n, n, changed, key, p, gone)
  {
  }

  lemma KeepsHash(n: Node, c: Node, r: Node, changed: bool, key: seq<byte>, p: seq<byte>, gone: bool)
    requires n.HashNode? && !DirtyAt(c, p) && Keeps(c, r, changed, key, p, gone)
    ensures Keeps(n, r, changed, key, p, gone)
  {
    hide Sub;
    SubEnd(n, p);
  }

  lemma KeepsShort(nk: seq<byte>, v: Node, c: Node, f: Flag, key: seq<byte>, p: seq<byte>, gone: bool)
    requires nk != [] && IsPrefix(nk, key)
    requires Keeps(v, c, true, key[|nk|..], if IsPrefix(nk, p) then p[|nk|..] else [], IsPrefix(nk, p) && gone)
    ensures Keeps(Short(nk, v, f), Short(nk, c, NEW), true, key, p, gone)
  {
    hide Sub;
    SubShort(nk, v, f, p);
    SubShort(nk, c, NEW, p);
    if IsPrefix(nk, p) {
      NearBelow(nk, p, key);
    }
  }

  lemma KeepsFull(ch: seq<Node>, c: Node, f: Flag, key: seq<byte>, p: seq<byte>, gone: bool)
    requires key != [] && key[0] < |ch|
    requires Keeps(ch[key[0]], c, true, key[1..], if p != [] then p[1..] else [], p != [] && p[0] == key[0] && gone)
    ensures Keeps(Full(ch, f), Full(ch[key[0] := c], NEW), true, key, p, gone)
  {
    hide Sub;
    SubFull(ch, f, p);
    SubFull(ch[key[0] := c], NEW, p);
    if p != [] && p[0] == key[0] {
      assert p[..1] == [key[0]] == key[..1];
      NearBelow([key[0]], p, key);
    }
  }

  /** New nodes where there were none. */
  lemma KeepsNew(n: Node, prefix: seq<byte>, key: seq<byte>, v: seq<byte>, p: seq<byte>)
    requires n.Nil? || key == []
    requires n.Nil? || n.Value?
    ensures Keeps(n, Attach(prefix, key, Value(v)).node, true, key, p, false)
  {
    SubEnd(n, p);
    SubEnd(Value(v), p);
    SubEnd(Value(v), if IsPrefix(key, p) then p[|key|..] else []);
  }

  lemma AttachSub(prefix: seq<byte>, k: seq<byte>, v: Node, p: seq<byte>)
    ensures var a := Attach(prefix, k, v).node;
      Sub(a, p) == if k != [] && p == [] then a else if IsPrefix(k, p) then Sub(v, p[|k|..]) else Nil
  {
    if k == [] {
      assert p[0..] == p;
    }
  }

  lemma BranchSub(i: byte, a: Node, j: byte, b: Node, p: seq<byte>)
    requires i <= 16 && j <= 16 && i != j && p != []
    ensures Sub(Full(EMPTY_CHILDREN[i := a][j := b], NEW), p)
         == if p[0] == j then Sub(b, p[1..]) else if p[0] == i then Sub(a, p[1..]) else Nil
  {
    var ch := EMPTY_CHILDREN[i := a][j := b];
    if p[0] <= 16 && p[0] != i && p[0] != j {
      assert ch[p[0]] == Nil;
      SubEnd(Nil, p[1..]);
    }
  }

  /** What is where after a split: `m` nibbles further down the branch, then the two ends. */
  lemma SplitSub(prefix: seq<byte>, nk: seq<byte>, nv: Node, key: seq<byte>, v: seq<byte>, m: nat, p: seq<byte>)
    requires m < |nk| && m < |key| && nk[m] != key[m] && nk[m] <= 16 && key[m] <= 16 && nk[..m] == key[..m]
    ensures var r := Split(prefix, nk, nv, key, v, m).node;
      && (IsPrefix(nk, p) ==> Sub(r, p) == if |nk| == |p| && m + 1 < |nk| then nv else Sub(nv, p[|nk|..]))
      && (IsPrefix(nk, p) && |nk| == |p| ==> Sub(nv, p[|nk|..]) == nv)
      && (DirtyAt(r, p) ==> Near(p, key) || (IsPrefix(nk, p) && Sub(r, p) == Sub(nv, p[|nk|..])))
  {
    var a := Attach(prefix + nk[..m + 1], nk[m + 1..], nv).node;
    var b := Attach(prefix + key[..m + 1], key[m + 1..], Value(v)).node;
    var branch := Full(EMPTY_CHILDREN[nk[m] := a][key[m] := b], NEW);
    var r := Split(prefix, nk, nv, key, v, m).node;
    assert Sub(r, p) == if m > 0 && p == [] then r else if IsPrefix(key[..m], p) then Sub(branch, p[m..]) else Nil by {
      assert m == 0 ==> p[m..] == p && key[..m] == [];
    }
    hide Sub, Split, Attach;
    PrefixSplit(nk, m, p);
    SubEnd(nv, []);
    if IsPrefix(key[..m], p) && p != [] {
      assert p[..m] == key[..m];
      if |p| == m {
        assert p[..|p| - 1] == key[..m][..m - 1] == key[..m - 1];
      } else {
        var q := p[m + 1..];
        assert p[m..][0] == p[m] && p[m..][1..] == q;
        BranchSub(nk[m], a, key[m], b, p[m..]);
        AttachSub(prefix + nk[..m + 1], nk[m + 1..], nv, q);
        AttachSub(prefix + key[..m + 1], key[m + 1..], Value(v), q);
        SubEnd(Value(v), if IsPrefix(key[m + 1..], q) then q[|key[m + 1..]|..] else []);
        if q == [] {
          assert p[..|p| - 1] == key[..m];
        }
      }
    }
  }

  lemma KeepsSplit(prefix: seq<byte>, nk: seq<byte>, nv: Node, f: Flag, key: seq<byte>, v: seq<byte>, m: nat, p: seq<byte>)
    requires m < |nk| && m < |key| && nk[m] != key[m] && nk[m] <= 16 && key[m] <= 16 && nk[..m] == key[..m]
    ensures Keeps(Short(nk, nv, f), Split(prefix, nk, nv, key, v, m).node, true, key, p, false)
  {
    hide Sub, Split;
    SplitSub(prefix, nk, nv, key, v, m, p);
    SubShort(nk, nv, f, p);
  }

  lemma InsertEndsWith(db: Store, n: Node, prefix: seq<byte>, key: seq<byte>, v: seq<byte>)
    requires StoreOk(db) && At(n, key)
    ensures key == [] ==>
      && (n.Nil? || n.Value?)
      && Insert(db, n, prefix, key, v) == Outcome(n != Value(v), Value(v), None, [])
      && Attach(prefix, key, Value(v)).node == Value(v)
    ensures key != [] ==> !n.Value?
    ensures n.Nil? && key != [] ==> Insert(db, n, prefix, key, v) == Attach(prefix, key, Value(v))
    ensures n.HashNode? && key != [] && Resolve(db, n.hash).None? ==>
      Insert(db, n, prefix, key, v).fail == Some(Missing(n.hash, prefix))
    ensures n.HashNode? && key != [] && Resolve(db, n.hash).Some? ==>
      var c := Resolve(db, n.hash).value;
      && At(c, key) && !c.HashNode?
      && var r, s := Insert(db, n, prefix, key, v), Insert(db, c, prefix, key, v);
         r.fail == s.fail && (r.fail.None? ==> r.dirty == s.dirty && r.node == if s.dirty then s.node else c)
  {
  }

  /** `insert` rebuilds the path to its key, and nothing if the value is there already. */
  lemma {:induction false} InsertKeeps(db: Store, n: Node, prefix: seq<byte>, key: seq<byte>, v: seq<byte>, p: seq<byte>)
    requires StoreOk(db) && At(n, key)
    ensures var r := Insert(db, n, prefix, key, v);
      r.fail.None? ==> Keeps(n, r.node, r.dirty, key, p, false) && (!r.dirty ==> Stays(db, n, r.node))
    decreases |key|, if n.HashNode? then 1 else 0
  {
    hide Insert, StoreOk, Resolve, At, Keeps, DirtyAt, Sub, Split, Attach;
    InsertEndsWith(db, n, prefix, key, v);
    KeepsSame(n, false, key, p, false);
    if key == [] {
      KeepsNew(n, prefix, key, v, p);
      return;
    }
    match n {
      case HashNode(h) =>
        if Resolve(db, h).Some? {
          var c := Resolve(db, h).value;
          InsertKeeps(db, c, prefix, key, v, p);
          ResolvedClean(db, h, p);
          KeepsSame(c, false, key, p, false);
          var r := Insert(db, n, prefix, key, v);
          if r.fail.None? {
            KeepsHash(n, c, r.node, r.dirty, key, p, false);
          }
        }
      case Short(nk, nv, f) =>
        var m := PrefixLen(key, nk);
        KeyNotEmpty(n, key);
        if m == |nk| {
          ShapeStep(n, key);
          InsertBelowShort(db, n, prefix, key, v);
          InsertKeeps(db, nv, prefix + nk, key[m..], v, if IsPrefix(nk, p) then p[m..] else []);
          var r := Insert(db, nv, prefix + nk, key[m..], v);
          if r.fail.None? && r.dirty {
            KeepsShort(nk, nv, r.node, f, key, p, false);
          }
        } else {
          InsertIsSplit(db, n, prefix, key, v);
          KeepsSplit(prefix, nk, nv, f, key, v, m, p);
          SplitIsDirty(prefix, nk, nv, key, v, m);
        }
      case Full(ch, f) =>
        FullStep(n, key);
        InsertBelowFull(db, n, prefix, key, v);
        InsertKeeps(db, ch[key[0]], prefix + [key[0]], key[1..], v, if p != [] then p[1..] else []);
        var r := Insert(db, ch[key[0]], prefix + [key[0]], key[1..], v);
        if r.fail.None? && r.dirty {
          KeepsFull(ch, r.node, f, key, p, false);
        }
      case Nil =>
        KeepsNew(n, prefix, key, v, p);
        AttachIsDirty(prefix, key, v);
    }
  }

  lemma FullStep(n: Node, key: seq<byte>)
    requires n.Full? && At(n, key)
    ensures key != [] && key[0] <= 16 && |n.children| == 17 && At(n.children[key[0]], key[1..])
  {
    StepAt(n.children, key);
  }

  lemma SplitIsDirty(prefix: seq<byte>, nk: seq<byte>, nv: Node, key: seq<byte>, v: seq<byte>, m: nat)
    requires m < |nk| && m < |key| && nk[m] <= 16 && key[m] <= 16
    ensures Split(prefix, nk, nv, key, v, m).dirty && Split(prefix, nk, nv, key, v, m).fail.None?
  {
  }

  lemma AttachIsDirty(prefix: seq<byte>, key: seq<byte>, v: seq<byte>)
    ensures Attach(prefix, key, Value(v)).dirty
  {
  }

  /** A short node merged into the one above it. */
  lemma MergedSub(nk: seq<byte>, ck: seq<byte>, cv: Node, f: Flag, p: seq<byte>)
    requires nk != [] && ck != []
    ensures Sub(Short(nk + ck, cv, NEW), p) ==
      if p == [] then Short(nk + ck, cv, NEW)
      else if IsPrefix(nk, p) && |p| > |nk| then Sub(Short(ck, cv, f), p[|nk|..])
      else Nil
  {
    hide Sub;
    SubShort(nk + ck, cv, NEW, p);
    if IsPrefix(nk + ck, p) {
      PrefixOfSum(nk, ck, p);
      DropDrop(p, |nk|, |ck|);
    }
    if IsPrefix(nk, p) {
      SubShort(ck, cv, f, p[|nk|..]);
      if IsPrefix(ck, p[|nk|..]) {
        assert p[..|nk| + |ck|] == p[..|nk|] + p[|nk|..][..|ck|];
      }
    }
  }

  lemma KeepsMerged(nk: seq<byte>, v: Node, c: Node, f: Flag, key: seq<byte>, p: seq<byte>, gone: bool)
    requires nk != [] && IsPrefix(nk, key) && c.Short? && c.key != []
    requires Keeps(v, c, true, key[|nk|..], if IsPrefix(nk, p) then p[|nk|..] else [], IsPrefix(nk, p) && gone)
    ensures Keeps(Short(nk, v, f), Short(nk + c.key, c.val, NEW), true, key, p, gone)
  {
    hide Sub;
    SubShort(nk, v, f, p);
    MergedSub(nk, c.key, c.val, c.flags, p);
    if IsPrefix(nk, p) {
      NearBelow(nk, p, key);
      SubEnd(c, p[|nk|..]);
      if |p| == |nk| {
        assert p == nk;
      }
    }
  }

  /** The node reported gone. */
  predicate Removed(r: Outcome, prefix: seq<byte>, p: seq<byte>) {
    OnDelete(prefix + p) in r.events
  }

  /** What a reduction keeps of the branch. */
  ghost predicate Reduced(r: Outcome, ch: seq<Node>, prefix: seq<byte>, p: seq<byte>) {
    && r.dirty && (r.node.Short? ==> r.node.key != [])
    && (p != [] && Sub(Full(ch, NEW), p) != Nil ==> Sub(r.node, p) == Sub(Full(ch, NEW), p) || Removed(r, prefix, p))
    && (DirtyAt(r.node, p) ==> p == [] || DirtyAt(Full(ch, NEW), p))
  }

  lemma ReduceKeeps(db: Store, prefix: seq<byte>, ch: seq<Node>, events: seq<Event>, p: seq<byte>)
    requires StoreOk(db) && |ch| == 17 && forall i | 0 <= i < 16 :: Shape(ch[i])
    ensures var r := Reduce(db, prefix, ch, events);
      && (r.fail.None? ==> Reduced(r, ch, prefix, p))
      && forall e | e in events :: e in r.events
  {
    hide Reduce, StoreOk, Resolve, Shape, Sub, Sole;
    SoleIs(ch, 0, -1);
    var pos := Sole(ch, 0, -1);
    ReduceLoads(db, prefix, ch, events, pos);
    SubFull(ch, NEW, p);
    if pos >= 0 {
      if p != [] && p[0] != pos && p[0] <= 16 {
        assert ch[p[0]] == Nil;
        SubEnd(Nil, p[1..]);
      }
      LastSub(pos, ch[pos], p);
      if p != [] {
        SubEnd(ch[pos], p[1..]);
        assert p[0] == pos && |p| == 1 ==> p == [pos];
      }
      if ch[pos].Short? && pos < 16 {
        KeyOfShape(ch[pos]);
        LastMergedSub(pos, ch[pos], p);
      } else if ch[pos].HashNode? && pos < 16 && Resolve(db, ch[pos].hash).Some? {
        var c := Resolve(db, ch[pos].hash).value;
        if c.Short? {
          KeyOfShape(c);
          LastMergedSub(pos, c, p);
          ResolvedClean(db, ch[pos].hash, if p != [] then p[1..] else []);
        }
      }
    }
  }

  lemma KeyOfShape(n: Node)
    requires n.Short? && Shape(n)
    ensures n.key != []
  {
  }

  lemma LastSub(pos: byte, c: Node, p: seq<byte>)
    ensures Sub(Short([pos], c, NEW), p) ==
      if p == [] then Short([pos], c, NEW) else if p[0] == pos then Sub(c, p[1..]) else Nil
  {
    if p != [] {
      assert p[..1] == [p[0]];
    }
  }

  lemma LastMergedSub(pos: byte, c: Node, p: seq<byte>)
    requires c.Short? && c.key != []
    ensures Sub(Short([pos] + c.key, c.val, NEW), p) ==
      if p == [] then Short([pos] + c.key, c.val, NEW) else if p[0] == pos && |p| > 1 then Sub(c, p[1..]) else Nil
  {
    hide Sub;
    MergedSub([pos], c.key, c.val, c.flags, p);
    if p != [] {
      assert p[..1] == [p[0]];
    }
  }

  lemma ShortAfterKeeps(n: Node, prefix: seq<byte>, key: seq<byte>, r: Outcome, p: seq<byte>)
    requires n.Short? && n.key != [] && IsPrefix(n.key, key)
    requires r.fail.None? && (!r.dirty ==> true) && (r.node.Short? ==> r.node.key != [])
    requires r.dirty ==>
      var q := if IsPrefix(n.key, p) then p[|n.key|..] else [];
      Keeps(n.val, r.node, true, key[|n.key|..], q, Removed(r, prefix + n.key, q))
    ensures var s := ShortAfter(n, prefix, r);
      s.fail.None? && Keeps(n, s.node, s.dirty, key, p, Removed(s, prefix, p)) && (s.node.Short? ==> s.node.key != [])
      && (!s.dirty ==> s.node == n)
  {
    hide Keeps;
    var s := ShortAfter(n, prefix, r);
    KeepsSame(n, false, key, p, Removed(s, prefix, p));
    if r.dirty {
      var q := if IsPrefix(n.key, p) then p[|n.key|..] else [];
      assert IsPrefix(n.key, p) ==> prefix + n.key + q == prefix + p;
      KeepsMore(n.val, r.node, key[|n.key|..], q, Removed(r, prefix + n.key, q), Removed(s, prefix, p), key, n.key, p);
      if r.node.Short? {
        KeepsMerged(n.key, n.val, r.node, n.flags, key, p, Removed(s, prefix, p));
      } else {
        KeepsShort(n.key, n.val, r.node, n.flags, key, p, Removed(s, prefix, p));
      }
    }
  }

  lemma KeepsMore(n: Node, r: Node, rest: seq<byte>, q: seq<byte>, gone: bool, more: bool, key: seq<byte>, step: seq<byte>, p: seq<byte>)
    requires Keeps(n, r, true, rest, q, gone) && (IsPrefix(step, p) && gone ==> more) && (!IsPrefix(step, p) ==> q == [])
    ensures Keeps(n, r, true, rest, q, IsPrefix(step, p) && more)
  {
  }

  lemma FullAfterKeeps(db: Store, n: Node, prefix: seq<byte>, key: seq<byte>, r: Outcome, p: seq<byte>)
    requires StoreOk(db) && n.Full? && Shape(n) && key != [] && key[0] <= 16
    requires r.fail.None?
    requires r.dirty ==>
      var q := if p != [] then p[1..] else [];
      Keeps(n.children[key[0]], r.node, true, key[1..], q, Removed(r, prefix + [key[0]], q))
    ensures var s := FullAfter(db, n, prefix, key[0], r);
      s.fail.None? ==>
        && Keeps(n, s.node, s.dirty, key, p, Removed(s, prefix, p)) && (s.node.Short? ==> s.node.key != [])
        && (!s.dirty ==> s.node == n)
  {
    hide Keeps, StoreOk, Reduced;
    var i, ch := key[0], n.children;
    var s := FullAfter(db, n, prefix, i, r);
    KeepsSame(n, false, key, p, Removed(s, prefix, p));
    if r.dirty {
      var q := if p != [] then p[1..] else [];
      var ch' := ch[i := r.node];
      if r.node == Nil {
        ReduceKeeps(db, prefix, ch', r.events, p);
      }
      if p != [] && p[0] == i {
        assert p[..1] == [i];
        assert prefix + [i] + q == prefix + p;
      } else {
        assert IsPrefix([i], p) ==> p[0] == p[..1][0];
      }
      if s.fail.None? {
        assert IsPrefix([i], p) && Removed(r, prefix + [i], q) ==> Removed(s, prefix, p);
        if !IsPrefix([i], p) && p != [] {
          KeepsAside(ch, r.node, n.flags, key, p, Removed(s, prefix, p));
        } else {
          KeepsMore(ch[i], r.node, key[1..], q, Removed(r, prefix + [i], q), Removed(s, prefix, p), key, [i], p);
          KeepsFull(ch, r.node, n.flags, key, p, Removed(s, prefix, p));
        }
        if r.node == Nil {
          ReducedKeeps(n, ch', s, prefix, key, p);
        }
      }
    }
  }

  /** Off the slot. */
  lemma KeepsAside(ch: seq<Node>, c: Node, f: Flag, key: seq<byte>, p: seq<byte>, gone: bool)
    requires key != [] && key[0] < |ch| && p != [] && p[0] != key[0]
    ensures Keeps(Full(ch, f), Full(ch[key[0] := c], NEW), true, key, p, gone)
  {
    hide Sub;
    SubFull(ch, f, p);
    SubFull(ch[key[0] := c], NEW, p);
  }

  lemma ReducedKeeps(n: Node, ch: seq<Node>, s: Outcome, prefix: seq<byte>, key: seq<byte>, p: seq<byte>)
    requires Reduced(s, ch, prefix, p) && Keeps(n, Full(ch, NEW), true, key, p, Removed(s, prefix, p))
    ensures Keeps(n, s.node, s.dirty, key, p, Removed(s, prefix, p)) && (s.node.Short? ==> s.node.key != [])
  {
    hide Sub;
  }

  lemma DeleteEndsWith(db: Store, n: Node, prefix: seq<byte>, key: seq<byte>)
    requires StoreOk(db) && At(n, key)
    ensures n.Nil? ==> Delete(db, n, prefix, key) == Outcome(false, Nil, None, [])
    ensures n.Value? ==> key == [] && Delete(db, n, prefix, key) == Outcome(true, Nil, None, [])
    ensures n.Short? && PrefixLen(key, n.key) < |n.key| ==> Delete(db, n, prefix, key) == Outcome(false, n, None, [])
    ensures n.Short? && PrefixLen(key, n.key) == |n.key| == |key| ==>
      n.key == key && n.val.Value? && Delete(db, n, prefix, key) == Outcome(true, Nil, None, [OnDelete(prefix)])
    ensures n.HashNode? && Resolve(db, n.hash).None? ==> Delete(db, n, prefix, key).fail == Some(Missing(n.hash, prefix))
    ensures n.HashNode? && Resolve(db, n.hash).Some? ==>
      var c := Resolve(db, n.hash).value;
      && n.hash in db && At(c, key) && !c.HashNode? && Shape(c)
      && var r, s := Delete(db, n, prefix, key), Delete(db, c, prefix, key);
         && r.fail == s.fail && r.events == [OnRead(prefix, db[n.hash])] + s.events
         && (r.fail.None? ==> r.dirty == s.dirty && r.node == if s.dirty then s.node else c)
  {
    if n.Short? && PrefixLen(key, n.key) == |n.key| == |key| {
      KeyAhead(n.key, key);
    }
  }

  lemma KeepsNothing(n: Node, key: seq<byte>, p: seq<byte>, gone: bool)
    requires (n.Value? && key == []) || (n.Short? && n.key == key != [] && n.val.Value?)
    ensures Keeps(n, Nil, true, key, p, gone)
  {
    hide Sub;
    SubEnd(n, p);
    SubEnd(Nil, p);
    if n.Short? {
      SubShort(n.key, n.val, n.flags, p);
      if IsPrefix(key, p) {
        SubEnd(n.val, p[|key|..]);
        assert |p| == |key| ==> p == key;
      }
    }
  }

  /** `delete` rebuilds the path to its key, up to a branch that goes with the node that is left
      of it, and nothing if the key is not there. */
  lemma {:induction false} DeleteKeeps(db: Store, n: Node, prefix: seq<byte>, key: seq<byte>, p: seq<byte>)
    requires StoreOk(db) && At(n, key)
    ensures var r := Delete(db, n, prefix, key);
      r.fail.None? ==>
        && Keeps(n, r.node, r.dirty, key, p, Removed(r, prefix, p)) && (r.node.Short? ==> r.node.key != [])
        && (!r.dirty ==> Stays(db, n, r.node))
    decreases |key|, if n.HashNode? then 1 else 0
  {
    hide Delete, StoreOk, Resolve, At, Keeps, DirtyAt, Sub, ShortAfter, FullAfter, Shape, Removed;
    DeleteEndsWith(db, n, prefix, key);
    var r := Delete(db, n, prefix, key);
    KeepsSame(n, false, key, p, Removed(r, prefix, p));
    match n {
      case HashNode(h) =>
        if Resolve(db, h).Some? {
          var c := Resolve(db, h).value;
          DeleteKeeps(db, c, prefix, key, p);
          ResolvedClean(db, h, p);
          RemovedAfterRead(Delete(db, c, prefix, key), r, OnRead(prefix, db[h]), prefix, p);
          KeepsSame(c, false, key, p, Removed(r, prefix, p));
          if c.Short? {
            KeyOfShape(c);
          }
          if r.fail.None? {
            KeepsHash(n, c, r.node, r.dirty, key, p, Removed(r, prefix, p));
          }
        }
      case Short(nk, nv, f) =>
        KeyNotEmpty(n, key);
        if PrefixLen(key, nk) == |nk| < |key| {
          ShapeStep(n, key);
          DeleteBelowShort(db, n, prefix, key);
          var q := if IsPrefix(nk, p) then p[|nk|..] else [];
          DeleteKeeps(db, nv, prefix + nk, key[|nk|..], q);
          var s := Delete(db, nv, prefix + nk, key[|nk|..]);
          if s.fail.None? {
            KeepsChanged(nv, s.node, s.dirty, key[|nk|..], q, Removed(s, prefix + nk, q));
            ShortAfterKeeps(n, prefix, key, s, p);
          } else {
            AfterFailure(db, n, prefix, 0, s);
          }
        } else if PrefixLen(key, nk) == |nk| {
          KeepsNothing(n, key, p, Removed(r, prefix, p));
        }
      case Full(ch, f) =>
        FullStep(n, key);
        AtShape(n, key);
        DeleteBelowFull(db, n, prefix, key);
        var q := if p != [] then p[1..] else [];
        DeleteKeeps(db, ch[key[0]], prefix + [key[0]], key[1..], q);
        var s := Delete(db, ch[key[0]], prefix + [key[0]], key[1..]);
        if s.fail.None? {
          KeepsChanged(ch[key[0]], s.node, s.dirty, key[1..], q, Removed(s, prefix + [key[0]], q));
          FullAfterKeeps(db, n, prefix, key, s, p);
        } else {
          AfterFailure(db, n, prefix, key[0], s);
        }
      case Value(_) =>
        KeepsNothing(n, key, p, Removed(r, prefix, p));
      case Nil =>
    }
  }

  lemma AtShape(n: Node, key: seq<byte>)
    requires n.Full? && At(n, key)
    ensures Shape(n)
  {
  }

  lemma AfterFailure(db: Store, n: Node, prefix: seq<byte>, i: byte, r: Outcome)
    requires StoreOk(db) && r.fail.Some? && i <= 16
    ensures n.Short? ==> ShortAfter(n, prefix, r).fail == r.fail
    ensures n.Full? && |n.children| == 17 ==> FullAfter(db, n, prefix, i, r).fail == r.fail
  {
  }

  lemma RemovedAfterRead(s: Outcome, r: Outcome, e: Event, prefix: seq<byte>, p: seq<byte>)
    requires e.OnRead? && r.events == [e] + s.events
    ensures Removed(s, prefix, p) <==> Removed(r, prefix, p)
  {
  }

  lemma KeepsChanged(n: Node, r: Node, changed: bool, key: seq<byte>, p: seq<byte>, gone: bool)
    requires Keeps(n, r, changed, key, p, gone)
    ensures Keeps(n, r, true, key, p, gone)
  {
  }

  // ---------------------------------------------------------------- hash

  /** Nor does hashing make anything dirty, or clean. */
  lemma {:induction false} UnhashedDirty(m: Node, n: Node, p: seq<byte>)
    requires Unhashed(m) == Unhashed(n)
    ensures DirtyAt(m, p) <==> DirtyAt(n, p)
    decreases n
  {
    if p != [] {
      match n {
        case Short(key, v, _) =>
          if key != [] && IsPrefix(key, p) {
            UnhashedDirty(m.val, v, p[|key|..]);
          }
        case Full(ch, _) =>
          assert |m.children| == |Unhashed(m).children| == |ch|;
          if p[0] < |ch| {
            assert Unhashed(m).children[p[0]] == Unhashed(m.children[p[0]]);
            UnhashedDirty(m.children[p[0]], ch[p[0]], p[1..]);
          }
        case _ =>
      }
    }
  }

  // ---------------------------------------------------------------- commit

  lemma DirtyBelow(n: Node, path: seq<byte>, step: seq<byte>, c: Node, at: seq<byte>)
    requires step != [] && IsPrefix(path + step, at) && DirtyAt(c, at[|path + step|..])
    requires (n.Short? && n.key == step && n.val == c)
          || (n.Full? && |step| == 1 && step[0] < |n.children| && n.children[step[0]] == c)
    ensures IsPrefix(path, at) && DirtyAt(n, at[|path|..])
  {
    PrefixOfSum(path, step, at);
    var p := at[|path|..];
    DropDrop(at, |path|, |step|);
    assert n.Full? ==> p[..1][0] == p[0];
    assert Sub(n, p) == Sub(c, p[|step|..]);
  }

  /** A commit hands over dirty nodes only. */
  lemma {:induction false} EmitDirty(w: World, n: Node, t: Node, root: bool, path: seq<byte>, e: Entry)
    requires (w.Rep(n, t, root) && CanonOrNil(t)) || (n == t && n.Value?)
    requires e in Emit(w.k, n, t, path)
    ensures IsPrefix(path, e.path) && DirtyAt(n, e.path[|path|..])
    decreases n, 17
  {
    hide World.Rep, World.Hashed, DirtyAt;
    w.RepCases(n, t, root);
    if n.Short? {
      if e in Emit(w.k, n.val, t.val, path + n.key) {
        EmitDirty(w, n.val, t.val, false, path + n.key, e);
        DirtyBelow(n, path, n.key, n.val, e.path);
      } else {
        OwnDirty(w.k, n, t, path, e);
      }
    } else if n.Full? {
      if e in EmitKids(w.k, n, t, path, 16) {
        EmitDirtyKid(w, n, t, root, path, 16, e);
      } else {
        OwnDirty(w.k, n, t, path, e);
      }
    }
  }

  lemma OwnDirty(k: Keccak, n: Node, t: Node, path: seq<byte>, e: Entry)
    requires (n.Short? || n.Full?) && !(n.flags.hash.Some? && !n.flags.dirty) && e in Own(k, n.flags, t, path)
    ensures IsPrefix(path, e.path) && DirtyAt(n, e.path[|path|..])
  {
    assert path[|path|..] == [];
  }

  lemma {:induction false} EmitDirtyKid(w: World, n: Node, t: Node, root: bool, path: seq<byte>, m: nat, e: Entry)
    requires n.Full? && w.Rep(n, t, root) && Canon(t) && m <= 16
    requires t.Full? && |t.children| == |n.children| ==> e in EmitKids(w.k, n, t, path, m)
    ensures IsPrefix(path, e.path) && DirtyAt(n, e.path[|path|..])
    decreases n, m
  {
    hide World.Rep, World.Hashed, DirtyAt;
    w.RepCases(n, t, root);
    if e in EmitKids(w.k, n, t, path, m - 1) {
      EmitDirtyKid(w, n, t, root, path, m - 1, e);
    } else {
      EmitDirty(w, n.children[m - 1], t.children[m - 1], false, path + [m - 1], e);
      DirtyBelow(n, path, [m - 1], n.children[m - 1], e.path);
    }
  }
}
