/** trie/trie.go: `tryGet`, `insert` and `delete`, which rebuild the nodes on a path.
    The capture hooks they call are returned as the list of events, in order. */
module TrieOps {
  import opened Bytes
  import opened HexKeys
  import opened Nodes
  import opened NodeCodec

  /** What a trie reads nodes from. */
  type Store = map<Hash, seq<byte>>

  /** `MissingNodeError` */
  datatype Failure = Missing(hash: Hash, path: seq<byte>)

  datatype Event =
    | OnInsert(path: seq<byte>)
    | OnDelete(path: seq<byte>)
    | OnRead(path: seq<byte>, blob: seq<byte>)

  datatype Outcome = Outcome(dirty: bool, node: Node, fail: Option<Failure>, events: seq<Event>)

  datatype Found = Found(value: Option<seq<byte>>, node: Node, didResolve: bool, fail: Option<Failure>, events: seq<Event>)

  /** Every blob of the store parses, and as a node of the expected shape; on others
      `mustDecodeNode` panics. */
  ghost predicate StoreOk(db: Store) {
    forall h | h in db && db[h] != [] ::
      match DecodeNode(Some(h), db[h])
      case None => false
      case Some(n) => Shape(n) && (n.Short? || n.Full?)
  }

  /** `resolveAndTrack` */
  function Resolve(db: Store, h: Hash): (r: Option<Node>)
    requires StoreOk(db)
    ensures r.Some? ==> Shape(r.value) && (r.value.Short? || r.value.Full?)
  {
    if h in db && db[h] != [] then DecodeNode(Some(h), db[h]) else None
  }

  /** The node at the end of a path is a value; before the end it is not. */
  predicate At(n: Node, key: seq<byte>) {
    if key == [] then n.Nil? || n.Value? else HexKey(key) && !n.Value? && Shape(n)
  }

  /** A short key that starts the rest of a key is all of it exactly when it ends in the
      terminator. */
  lemma KeyAhead(k: seq<byte>, key: seq<byte>)
    requires HexKey(key) && IsPrefix(k, key)
    ensures HasTerm(k) <==> k == key
    ensures |k| < |key| ==> HexKey(key[|k|..])
  {
    if HasTerm(k) {
      assert key[|k| - 1] == k[|k| - 1];
    }
    if |k| < |key| {
      var rest := key[|k|..];
      assert rest[..|rest| - 1] == key[..|key| - 1][|k|..];
    }
  }

  /** Where a node's key and a longer one part, both go on. */
  lemma KeysPart(k: seq<byte>, key: seq<byte>)
    requires HexKey(key) && NodeKey(k) && PrefixLen(key, k) < |k|
    ensures PrefixLen(key, k) < |key|
  {
    var m := PrefixLen(key, k);
    forall i | 0 <= i < m ensures key[i] < 16 {
      assert key[i] == key[..m][i] == k[..m][i];
      assert HexKey(k) ==> k[i] == k[..|k| - 1][i];
    }
  }

  lemma StepAt(ch: seq<Node>, key: seq<byte>)
    requires HexKey(key) && |ch| == 17
    requires forall i | 0 <= i < 16 :: Shape(ch[i])
    requires ch[16].Nil? || ch[16].Value?
    ensures key[0] <= 16 && At(ch[key[0]], key[1..])
  {
    if |key| > 1 {
      assert key[0] == key[..|key| - 1][0];
      assert key[1..][..|key| - 2] == key[..|key| - 1][1..];
    }
  }

  // ---------------------------------------------------------------- tryGet

  function TryGet(db: Store, n: Node, key: seq<byte>, pos: nat): Found
    requires StoreOk(db) && pos <= |key| && At(n, key[pos..])
    decreases |key| - pos, if n.HashNode? then 1 else 0
  {
    match n
    case Nil => Found(None, Nil, false, None, [])
    case Value(d) => Found(Some(d), n, false, None, [])
    case Short(nk, nv, fl) =>
      if |key| - pos < |nk| || nk != key[pos..pos + |nk|] then Found(None, n, false, None, [])
      else
        KeyAhead(nk, key[pos..]);
        DropDrop(key, pos, |nk|);
        var r := TryGet(db, nv, key, pos + |nk|);
        GetAfter(n, Short(nk, r.node, fl), r)
    case Full(ch, fl) =>
      StepAt(ch, key[pos..]);
      DropDrop(key, pos, 1);
      var r := TryGet(db, ch[key[pos]], key, pos + 1);
      GetAfter(n, Full(ch[key[pos] := r.node], fl), r)
    case HashNode(h) =>
      match Resolve(db, h)
      case None => Found(None, n, true, Some(Missing(h, key[..pos])), [])
      case Some(child) =>
        var r := TryGet(db, child, key, pos);
        Found(r.value, r.node, true, r.fail, [OnRead(key[..pos], db[h])] + r.events)
  }

  /** `tryGet` above a child: a node resolved below is kept in a copy of this one. */
  function GetAfter(n: Node, copy: Node, r: Found): Found {
    Found(r.value, if r.fail.None? && r.didResolve then copy else n, r.didResolve, r.fail, r.events)
  }

  // ---------------------------------------------------------------- insert

  /** `insert` where there is no node yet. */
  function Attach(prefix: seq<byte>, key: seq<byte>, value: Node): Outcome {
    if key == [] then Outcome(true, value, None, [])
    else Outcome(true, Short(key, value, NEW), None, [OnInsert(prefix)])
  }

  const EMPTY_CHILDREN: seq<Node> :=
    [Nil, Nil, Nil, Nil, Nil, Nil, Nil, Nil, Nil, Nil, Nil, Nil, Nil, Nil, Nil, Nil, Nil]

  function Insert(db: Store, n: Node, prefix: seq<byte>, key: seq<byte>, v: seq<byte>): Outcome
    requires StoreOk(db) && At(n, key)
    decreases |key|, if n.HashNode? then 1 else 0
  {
    if key == [] then
      Outcome(!n.Value? || n.data != v, Value(v), None, [])
    else
      match n
      case Short(nk, nv, _) =>
        var m := PrefixLen(key, nk);
        if m == |nk| then
          KeyAhead(nk, key);
          var r := Insert(db, nv, prefix + key[..m], key[m..], v);
          InsertAfter(n, Short(nk, r.node, NEW), r)
        else
          KeysPart(nk, key);
          Split(prefix, nk, nv, key, v, m)
      case Full(ch, _) =>
        StepAt(ch, key);
        var r := Insert(db, ch[key[0]], prefix + [key[0]], key[1..], v);
        InsertAfter(n, Full(ch[key[0] := r.node], NEW), r)
      case Nil => Attach(prefix, key, Value(v))
      case HashNode(h) =>
        match Resolve(db, h)
        case None => Outcome(false, Nil, Some(Missing(h, prefix)), [])
        case Some(rn) =>
          var r := Insert(db, rn, prefix, key, v);
          var events := [OnRead(prefix, db[h])] + r.events;
          if !r.dirty || r.fail.Some? then Outcome(false, rn, r.fail, events)
          else Outcome(true, r.node, None, events)
  }

  /** `insert` above a child: the node is replaced only if the child changed. */
  function InsertAfter(n: Node, copy: Node, r: Outcome): Outcome {
    if !r.dirty || r.fail.Some? then Outcome(false, n, r.fail, r.events) else Outcome(true, copy, None, r.events)
  }

  /** `insert` into a short node whose key parts from the new one after `m` nibbles. */
  function Split(prefix: seq<byte>, nk: seq<byte>, nv: Node, key: seq<byte>, v: seq<byte>, m: nat): Outcome
    requires m < |nk| && m < |key| && nk[m] <= 16 && key[m] <= 16
  {
    var a := Attach(prefix + nk[..m + 1], nk[m + 1..], nv);
    var b := Attach(prefix + key[..m + 1], key[m + 1..], Value(v));
    var branch := Full(EMPTY_CHILDREN[nk[m] := a.node][key[m] := b.node], NEW);
    if m == 0 then Outcome(true, branch, None, a.events + b.events)
    else
      Outcome(true, Short(key[..m], branch, NEW), None, a.events + b.events + [OnInsert(prefix + key[..m])])
  }

  // ---------------------------------------------------------------- delete

  /** The scan in `delete`: the index of the only child, -1 for none, -2 for several. */
  function Sole(ch: seq<Node>, i: nat, pos: int): int
    requires i <= |ch|
    decreases |ch| - i
  {
    if i == |ch| then pos
    else if ch[i] == Nil then Sole(ch, i + 1, pos)
    else if pos == -1 then Sole(ch, i + 1, i)
    else -2
  }

  lemma {:induction false} SoleIs(ch: seq<Node>, i: nat, pos: int)
    requires i <= |ch| && -1 <= pos < i
    ensures var r := Sole(ch, i, pos);
      && (r == -1 <==> pos == -1 && forall j | i <= j < |ch| :: ch[j] == Nil)
      && (r >= 0 && pos >= 0 ==> r == pos && forall j | i <= j < |ch| :: ch[j] == Nil)
      && (r >= 0 && pos == -1 ==> i <= r < |ch| && ch[r] != Nil && forall j | i <= j < |ch| && j != r :: ch[j] == Nil)
      && (r < -1 ==> r == -2)
      && (r == -2 && pos >= 0 ==> exists j | i <= j < |ch| :: ch[j] != Nil)
      && (r == -2 && pos == -1 ==> exists j, j' | i <= j < j' < |ch| :: ch[j] != Nil && ch[j'] != Nil)
    decreases |ch| - i
  {
    if i < |ch| {
      if ch[i] == Nil {
        SoleIs(ch, i + 1, pos);
      } else if pos == -1 {
        SoleIs(ch, i + 1, i);
      }
    }
  }

  method ScanChildren(ch: seq<Node>) returns (pos: int)
    ensures pos == Sole(ch, 0, -1)
  {
    pos := -1;
    for i := 0 to |ch|
      invariant Sole(ch, 0, -1) == Sole(ch, i, pos)
    {
      if ch[i] != Nil {
        if pos == -1 {
          pos := i;
        } else {
          return -2;
        }
      }
    }
  }

  function Delete(db: Store, n: Node, prefix: seq<byte>, key: seq<byte>): Outcome
    requires StoreOk(db) && At(n, key)
    decreases |key|, if n.HashNode? then 1 else 0
  {
    match n
    case Short(nk, nv, _) =>
      var m := PrefixLen(key, nk);
      if m < |nk| then Outcome(false, n, None, [])
      else if m == |key| then Outcome(true, Nil, None, [OnDelete(prefix)])
      else
        KeyAhead(nk, key);
        ShortAfter(n, prefix, Delete(db, nv, prefix + key[..|nk|], key[|nk|..]))
    case Full(ch, _) =>
      StepAt(ch, key);
      FullAfter(db, n, prefix, key[0], Delete(db, ch[key[0]], prefix + [key[0]], key[1..]))
    case Value(_) => Outcome(true, Nil, None, [])
    case Nil => Outcome(false, Nil, None, [])
    case HashNode(h) =>
      match Resolve(db, h)
      case None => Outcome(false, Nil, Some(Missing(h, prefix)), [])
      case Some(rn) =>
        var r := Delete(db, rn, prefix, key);
        var events := [OnRead(prefix, db[h])] + r.events;
        if !r.dirty || r.fail.Some? then Outcome(false, rn, r.fail, events)
        else Outcome(true, r.node, None, events)
  }

  /** `delete` in a short node, once its child is dealt with: a child reduced to a short node
      merges into its parent. */
  function ShortAfter(n: Node, prefix: seq<byte>, r: Outcome): Outcome
    requires n.Short?
  {
    if !r.dirty || r.fail.Some? then Outcome(false, n, r.fail, r.events)
    else
      match r.node
      case Short(ck, cv, _) =>
        Outcome(true, Short(n.key + ck, cv, NEW), None, r.events + [OnDelete(prefix + n.key)])
      case _ => Outcome(true, Short(n.key, r.node, NEW), None, r.events)
  }

  /** `delete` in a branch, once the child is dealt with. */
  function FullAfter(db: Store, n: Node, prefix: seq<byte>, i: byte, r: Outcome): Outcome
    requires StoreOk(db) && n.Full? && |n.children| == 17 && i <= 16
  {
    if !r.dirty || r.fail.Some? then Outcome(false, n, r.fail, r.events)
    else
      var ch := n.children[i := r.node];
      if r.node != Nil then Outcome(true, Full(ch, NEW), None, r.events)
      else Reduce(db, prefix, ch, r.events)
  }

  /** A branch that lost a child: with one left it becomes a short node, merged with that
      child if it is a short node itself, for which it may have to be loaded. */
  function Reduce(db: Store, prefix: seq<byte>, ch: seq<Node>, events: seq<Event>): Outcome
    requires StoreOk(db) && |ch| == 17
  {
    var pos := Sole(ch, 0, -1);
    SoleIs(ch, 0, -1);
    if pos < 0 then Outcome(true, Full(ch, NEW), None, events)
    else
      var one := Outcome(true, Short([pos], ch[pos], NEW), None, events);
      if pos == 16 then one
      else
        var path := prefix + [pos];
        match ch[pos]
        case Short(ck, cv, _) => Outcome(true, Short([pos] + ck, cv, NEW), None, events + [OnDelete(path)])
        case HashNode(h) =>
          (match Resolve(db, h)
           case None => Outcome(false, Nil, Some(Missing(h, path)), events)
           case Some(c) =>
             var events' := events + [OnRead(path, db[h])];
             match c
             case Short(ck, cv, _) => Outcome(true, Short([pos] + ck, cv, NEW), None, events' + [OnDelete(path)])
             case _ => one.(events := events'))
        case _ => one
  }

  // ---------------------------------------------------------------- one level at a time

  // What the three do at a node, in terms of what they do at its child.

  lemma KeyNotEmpty(n: Node, key: seq<byte>)
    requires n.Short? && At(n, key)
    ensures n.key != []
  {
  }

  lemma ShapeStep(n: Node, key: seq<byte>)
    requires n.Short? && At(n, key) && IsPrefix(n.key, key)
    ensures At(n.val, key[|n.key|..])
  {
    KeyAhead(n.key, key);
  }

  lemma GetBelowShort(db: Store, n: Node, key: seq<byte>, pos: nat)
    requires StoreOk(db) && pos <= |key| && At(n, key[pos..]) && n.Short?
    ensures if IsPrefix(n.key, key[pos..]) then
        && pos + |n.key| <= |key| && At(n.val, key[pos + |n.key|..])
        && var r := TryGet(db, n.val, key, pos + |n.key|);
           TryGet(db, n, key, pos) == GetAfter(n, Short(n.key, r.node, n.flags), r)
      else TryGet(db, n, key, pos) == Found(None, n, false, None, [])
  {
    hide At, Shape, StoreOk, Resolve, GetAfter;
    var rest := key[pos..];
    assert |n.key| <= |key| - pos ==> rest[..|n.key|] == key[pos..pos + |n.key|];
    if IsPrefix(n.key, rest) {
      ShapeStep(n, rest);
      DropDrop(key, pos, |n.key|);
    }
  }

  lemma GetBelowFull(db: Store, n: Node, key: seq<byte>, pos: nat)
    requires StoreOk(db) && pos < |key| && At(n, key[pos..]) && n.Full?
    ensures key[pos] <= 16 && |n.children| == 17 && At(n.children[key[pos]], key[pos + 1..])
    ensures var r := TryGet(db, n.children[key[pos]], key, pos + 1);
      TryGet(db, n, key, pos) == GetAfter(n, Full(n.children[key[pos] := r.node], n.flags), r)
  {
    StepAt(n.children, key[pos..]);
    DropDrop(key, pos, 1);
  }

  lemma InsertBelowShort(db: Store, n: Node, prefix: seq<byte>, key: seq<byte>, v: seq<byte>)
    requires StoreOk(db) && At(n, key) && key != [] && n.Short? && PrefixLen(key, n.key) == |n.key|
    requires At(n.val, key[|n.key|..])
    ensures var r := Insert(db, n.val, prefix + key[..|n.key|], key[|n.key|..], v);
      Insert(db, n, prefix, key, v) == InsertAfter(n, Short(n.key, r.node, NEW), r)
  {
  }

  lemma InsertBelowFull(db: Store, n: Node, prefix: seq<byte>, key: seq<byte>, v: seq<byte>)
    requires StoreOk(db) && At(n, key) && key != [] && n.Full? && |n.children| == 17 && key[0] <= 16
    requires At(n.children[key[0]], key[1..])
    ensures var r := Insert(db, n.children[key[0]], prefix + [key[0]], key[1..], v);
      Insert(db, n, prefix, key, v) == InsertAfter(n, Full(n.children[key[0] := r.node], NEW), r)
  {
  }

  lemma InsertIsSplit(db: Store, n: Node, prefix: seq<byte>, key: seq<byte>, v: seq<byte>)
    requires StoreOk(db) && At(n, key) && key != [] && n.Short? && PrefixLen(key, n.key) < |n.key|
    ensures PrefixLen(key, n.key) < |key| && n.key[PrefixLen(key, n.key)] <= 16 && key[PrefixLen(key, n.key)] <= 16
    ensures Insert(db, n, prefix, key, v) == Split(prefix, n.key, n.val, key, v, PrefixLen(key, n.key))
  {
    KeysPart(n.key, key);
  }

  lemma DeleteBelowShort(db: Store, n: Node, prefix: seq<byte>, key: seq<byte>)
    requires StoreOk(db) && At(n, key) && n.Short? && PrefixLen(key, n.key) == |n.key| < |key|
    requires At(n.val, key[|n.key|..])
    ensures Delete(db, n, prefix, key)
         == ShortAfter(n, prefix, Delete(db, n.val, prefix + key[..|n.key|], key[|n.key|..]))
  {
  }

  lemma DeleteBelowFull(db: Store, n: Node, prefix: seq<byte>, key: seq<byte>)
    requires StoreOk(db) && At(n, key) && n.Full? && key != [] && |n.children| == 17 && key[0] <= 16
    requires At(n.children[key[0]], key[1..])
    ensures Delete(db, n, prefix, key)
         == FullAfter(db, n, prefix, key[0], Delete(db, n.children[key[0]], prefix + [key[0]], key[1..]))
  {
  }

  /** The reduction of a branch whose last child may have to be loaded. */
  lemma ReduceLoads(db: Store, prefix: seq<byte>, ch: seq<Node>, events: seq<Event>, pos: int)
    requires StoreOk(db) && |ch| == 17 && pos == Sole(ch, 0, -1)
    ensures -2 <= pos < 17
    ensures var r := Reduce(db, prefix, ch, events);
      if pos < 0 then r == Outcome(true, Full(ch, NEW), None, events)
      else if pos == 16 || !(ch[pos].Short? || ch[pos].HashNode?) then r == Outcome(true, Short([pos], ch[pos], NEW), None, events)
      else if ch[pos].Short? then
        r == Outcome(true, Short([pos] + ch[pos].key, ch[pos].val, NEW), None, events + [OnDelete(prefix + [pos])])
      else if Resolve(db, ch[pos].hash).None? then r == Outcome(false, Nil, Some(Missing(ch[pos].hash, prefix + [pos])), events)
      else
        ch[pos].hash in db
        && var c, events' := Resolve(db, ch[pos].hash).value, events + [OnRead(prefix + [pos], db[ch[pos].hash])];
           if c.Short? then
             r == Outcome(true, Short([pos] + c.key, c.val, NEW), None, events' + [OnDelete(prefix + [pos])])
           else r == Outcome(true, Short([pos], ch[pos], NEW), None, events')
  {
    SoleIs(ch, 0, -1);
  }
}
