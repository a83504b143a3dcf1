/** The lazy trie: nodes that are partly loaded, carry cached hashes and dirty flags, and
    stand for a loaded tree over a content-addressed store.  `tryGet`, `insert` and `delete`
    on them do what they do on the tree. */
module Refine {
  import opened Bytes
  import opened HexKeys
  import opened Nodes
  import opened NodeCodec
  import opened TrieOps
  import opened TreeFacts

  /** A hash function and a store.  A store that is `complete` has every node it should; one
      that is not may lack nodes, but has no wrong ones. */
  datatype World = World(k: Keccak, db: Store, complete: bool) {

    /** The store and the tree agree on this node. */
    ghost predicate HeldHere(t: Node) {
      var h := k(Blob(k, t));
      (h in db ==> db[h] == Blob(k, t)) && (complete ==> h in db)
    }

    /** And on every node of this tree that is stored by itself. */
    ghost predicate Held(t: Node) {
      match t
      case Short(_, v, _) => (Big(k, t) ==> HeldHere(t)) && Held(v)
      case Full(ch, _) => (Big(k, t) ==> HeldHere(t)) && forall i | 0 <= i < |ch| :: Held(ch[i])
      case _ => true
    }

    /** The root is stored by itself whatever its size. */
    ghost predicate HeldAt(t: Node, root: bool) {
      Held(t) && (root ==> HeldHere(t))
    }

    /** A cached hash is the hash of the node's collapsed encoding, and only roots below 32
        bytes have one; a node that is not dirty is in the store, with everything below. */
    ghost predicate FlagOk(f: Flag, t: Node, root: bool) {
      && (f.hash.Some? ==> f.hash.value == k(Blob(k, t)) && (root || Big(k, t)))
      && (!f.dirty ==> HeldAt(t, root))
    }

    ghost predicate IsRef(n: Node, t: Node, root: bool) {
      n.HashNode? && n.hash == k(Blob(k, t)) && (root || Big(k, t)) && HeldAt(t, true)
    }

    /** Every loaded node that is stored by itself carries its hash, and no other does. */
    ghost predicate Hashed(n: Node, t: Node, root: bool)
      decreases t
    {
      match t
      case Short(_, v, _) =>
        n.Short? ==> (n.flags.hash.Some? <==> root || Big(k, t)) && Hashed(n.val, v, false)
      case Full(ch, _) =>
        n.Full? && |n.children| == |ch| ==>
          (n.flags.hash.Some? <==> root || Big(k, t)) && forall i | 0 <= i < |ch| :: Hashed(n.children[i], ch[i], false)
      case _ => true
    }

    /** The node `n` stands for the loaded tree `t`.  Below a node with a cached hash,
        everything is hashed. */
    ghost predicate Rep(n: Node, t: Node, root: bool)
      decreases t
    {
      match t
      case Nil => n.Nil?
      case Value(_) => n == t
      case HashNode(_) => false
      case Short(key, v, _) =>
        || IsRef(n, t, root)
        || (n.Short? && n.key == key && Rep(n.val, v, false) && FlagOk(n.flags, t, root)
            && (n.flags.hash.Some? ==> Hashed(n, t, root)))
      case Full(ch, _) =>
        || IsRef(n, t, root)
        || (n.Full? && |n.children| == |ch|
            && (forall i | 0 <= i < |ch| :: Rep(n.children[i], ch[i], false)) && FlagOk(n.flags, t, root)
            && (n.flags.hash.Some? ==> Hashed(n, t, root)))
    }

    /** What the node of a tree can be. */
    lemma RepCases(n: Node, t: Node, root: bool)
      requires Rep(n, t, root)
      ensures n.Nil? <==> t.Nil?
      ensures n.Value? || t.Value? ==> n == t
      ensures n.HashNode? ==> IsRef(n, t, root) && (t.Short? || t.Full?)
      ensures n.Short? ==> t.Short? && n.key == t.key && Rep(n.val, t.val, false) && FlagOk(n.flags, t, root)
      ensures n.Full? ==>
        && t.Full? && |n.children| == |t.children| && FlagOk(n.flags, t, root)
        && forall i | 0 <= i < |n.children| :: Rep(n.children[i], t.children[i], false)
    {
    }

    lemma RepNil(root: bool)
      ensures Rep(Nil, Nil, root)
    {
    }

    lemma RepValue(v: seq<byte>)
      ensures Rep(Value(v), Value(v), false)
    {
    }

    /** New nodes carry no claims. */
    lemma RepNewShort(key: seq<byte>, n: Node, t: Node, root: bool)
      requires Rep(n, t, false)
      ensures Rep(Short(key, n, NEW), Short(key, t, NEW), root)
    {
    }

    lemma RepNewFull(ch: seq<Node>, tch: seq<Node>, root: bool)
      requires |ch| == |tch| && forall i | 0 <= i < |ch| :: Rep(ch[i], tch[i], false)
      ensures Rep(Full(ch, NEW), Full(tch, NEW), root)
    {
    }

    /** Putting a loaded child in place keeps the tree, so the flags stay right. */
    lemma RepShortChild(n: Node, t: Node, root: bool, c: Node)
      requires n.Short? && Rep(n, t, root) && t.Short? && Rep(c, t.val, false)
      requires Hashed(n.val, t.val, false) ==> Hashed(c, t.val, false)
      ensures Rep(Short(n.key, c, n.flags), t, root)
      ensures Hashed(n, t, root) ==> Hashed(Short(n.key, c, n.flags), t, root)
    {
    }

    lemma RepFullChild(n: Node, t: Node, root: bool, i: byte, c: Node)
      requires n.Full? && Rep(n, t, root) && i < |n.children|
      requires t.Full? && |t.children| == |n.children| ==>
                 && Rep(c, t.children[i], false)
                 && (Hashed(n.children[i], t.children[i], false) ==> Hashed(c, t.children[i], false))
      ensures Rep(Full(n.children[i := c], n.flags), t, root)
      ensures Hashed(n, t, root) ==> Hashed(Full(n.children[i := c], n.flags), t, root)
    {
    }

    lemma {:induction false} LoadRep(t: Node, hash: Option<Hash>, root: bool)
      requires Canon(t) && HeldAt(t, root)
      requires hash.Some? <==> root || Big(k, t)
      requires hash.Some? ==> hash.value == k(Blob(k, t))
      ensures Rep(Load(k, t, hash), t, root) && Hashed(Load(k, t, hash), t, root)
      decreases t, 0
    {
      hide Rep, Hashed, HeldHere, Blob, Big, FlagOk;
      LoadFlag(t, hash, root);
      match t {
        case Short(_, v, _) =>
          LoadRefRep(v);
          LoadedShort(t, hash, root, LoadRef(k, v));
        case Full(ch, _) =>
          forall i | 0 <= i < |ch| ensures Rep(LoadRef(k, ch[i]), ch[i], false) && Hashed(LoadRef(k, ch[i]), ch[i], false) {
            LoadRefRep(ch[i]);
          }
          LoadedFull(t, hash, root, Load(k, t, hash).children);
      }
    }

    lemma LoadFlag(t: Node, hash: Option<Hash>, root: bool)
      requires HeldAt(t, root) && (hash.Some? ==> hash.value == k(Blob(k, t)) && (root || Big(k, t)))
      ensures FlagOk(Flag(hash, false), t, root)
    {
    }

    /** A node whose children are loaded is loaded. */
    lemma LoadedShort(t: Node, hash: Option<Hash>, root: bool, c: Node)
      requires t.Short? && FlagOk(Flag(hash, false), t, root) && (hash.Some? <==> root || Big(k, t))
      requires Rep(c, t.val, false) && Hashed(c, t.val, false)
      ensures var n := Short(t.key, c, Flag(hash, false)); Rep(n, t, root) && Hashed(n, t, root)
    {
      hide FlagOk, IsRef, Big, Blob;
    }

    lemma LoadedFull(t: Node, hash: Option<Hash>, root: bool, ch: seq<Node>)
      requires t.Full? && FlagOk(Flag(hash, false), t, root) && (hash.Some? <==> root || Big(k, t)) && |ch| == |t.children|
      requires forall i | 0 <= i < |ch| :: Rep(ch[i], t.children[i], false) && Hashed(ch[i], t.children[i], false)
      ensures var n := Full(ch, Flag(hash, false)); Rep(n, t, root) && Hashed(n, t, root)
    {
      hide FlagOk, IsRef, Big, Blob;
    }

    lemma {:induction false} LoadRefRep(t: Node)
      requires CanonOrNil(t) || GoodValue(t)
      requires Held(t)
      ensures Rep(LoadRef(k, t), t, false) && Hashed(LoadRef(k, t), t, false)
      decreases t, 1
    {
      if !Big(k, t) && Canon(t) {
        LoadRep(t, None, false);
      }
    }

    /** Loading a reference gives a node for the same tree. */
    lemma ResolveRep(h: Hash, t: Node, root: bool)
      requires IsRef(HashNode(h), t, root) && Canon(t) && Sized(t) && StoreOk(db)
      ensures complete ==> Resolve(db, h).Some?
      ensures Resolve(db, h).Some? ==>
        !Resolve(db, h).value.HashNode? && Rep(Resolve(db, h).value, t, root)
        && Hashed(Resolve(db, h).value, t, root) && db[h] == Blob(k, t)
    {
      if h in db {
        DecodeBlob(k, t, Some(h), []);
        assert Blob(k, t) + [] == Blob(k, t);
        LoadRep(t, Some(h), root);
      }
    }

    lemma {:induction false} RepHasShape(n: Node, t: Node, root: bool)
      requires Rep(n, t, root) && CanonOrNil(t)
      ensures Shape(n) && (n.Nil? <==> t.Nil?) && !n.Value?
      decreases t
    {
      match t {
        case Nil =>
        case Short(_, v, _) =>
          if n.Short? && v.Full? {
            RepHasShape(n.val, v, false);
          }
        case Full(ch, _) =>
          if n.Full? {
            forall i | 0 <= i < 16 ensures Shape(n.children[i]) {
              RepHasShape(n.children[i], ch[i], false);
            }
          }
      }
    }

    lemma RepIsAt(n: Node, t: Node, root: bool, key: seq<byte>)
      requires Rep(n, t, root) && TreeAt(t, key)
      ensures At(n, key)
    {
      if key != [] {
        RepHasShape(n, t, root);
      }
    }

    // -------------------------------------------------------------- tryGet

    /** What a search promises: what the tree holds, and a node for the same tree; the only
        failure is a missing node. */
    ghost predicate Gets(r: Found, n: Node, t: Node, root: bool, key: seq<byte>) {
      && (complete ==> r.fail.None?)
      && (r.fail.None? ==> r.value == Lookup(t, key) && Rep(r.node, t, root))
      && (r.fail.None? && Hashed(n, t, root) ==> Hashed(r.node, t, root))
      && (r.fail.None? && !r.didResolve ==> r.node == n)
    }

    lemma GetShortStep(n: Node, t: Node, root: bool, key: seq<byte>, r: Found)
      requires n.Short? && Rep(n, t, root) && IsPrefix(n.key, key)
      requires t.Short? ==> Gets(r, n.val, t.val, false, key[|n.key|..])
      ensures Gets(GetAfter(n, Short(n.key, r.node, n.flags), r), n, t, root, key)
    {
      hide Rep, Hashed, HeldAt, FlagOk, IsRef;
      RepCases(n, t, root);
      if r.fail.None? {
        RepShortChild(n, t, root, r.node);
      }
    }

    lemma GetMiss(n: Node, t: Node, root: bool, key: seq<byte>)
      requires n.Short? && Rep(n, t, root)
      ensures !IsPrefix(n.key, key) ==> Gets(Found(None, n, false, None, []), n, t, root, key)
    {
      RepCases(n, t, root);
    }

    lemma GetFullStep(n: Node, t: Node, root: bool, key: seq<byte>, r: Found)
      requires n.Full? && Rep(n, t, root) && key != [] && key[0] < |n.children|
      requires t.Full? && |t.children| == |n.children| ==> Gets(r, n.children[key[0]], t.children[key[0]], false, key[1..])
      ensures Gets(GetAfter(n, Full(n.children[key[0] := r.node], n.flags), r), n, t, root, key)
    {
      hide Rep, Hashed, HeldAt, FlagOk, IsRef;
      RepCases(n, t, root);
      if r.fail.None? {
        RepFullChild(n, t, root, key[0], r.node);
      }
    }

    /** `tryGet` finds what the tree holds, and resolving changes nothing. */
    lemma {:induction false} GetRefines(n: Node, t: Node, root: bool, key: seq<byte>, pos: nat)
      requires StoreOk(db) && Rep(n, t, root) && Sized(t)
      requires pos <= |key| && TreeAt(t, key[pos..])
      ensures At(n, key[pos..])
      ensures Gets(TryGet(db, n, key, pos), n, t, root, key[pos..])
      decreases |key| - pos, if n.HashNode? then 1 else 0
    {
      hide Rep, Hashed, HeldAt, FlagOk, IsRef, TryGet, Gets, At, Shape, StoreOk, Resolve;
      RepIsAt(n, t, root, key[pos..]);
      RepCases(n, t, root);
      match n {
        case HashNode(h) =>
          ResolveRep(h, t, root);
          if Resolve(db, h).Some? {
            GetRefines(Resolve(db, h).value, t, root, key, pos);
          }
          GetHashStep(n, t, root, key, pos);
        case Short(nk, nv, _) =>
          if IsPrefix(nk, key[pos..]) {
            DropDrop(key, pos, |nk|);
            EdgeStep(nk, t.val, key[pos..]);
            GetRefines(nv, t.val, false, key, pos + |nk|);
            GetShortStep(n, t, root, key[pos..], TryGet(db, nv, key, pos + |nk|));
          }
          GetMiss(n, t, root, key[pos..]);
          KeyNotEmpty(n, key[pos..]);
          GetBelowShort(db, n, key, pos);
        case Full(ch, _) =>
          BranchStep(t.children, key[pos..]);
          DropDrop(key, pos, 1);
          GetRefines(ch[key[pos]], t.children[key[pos]], false, key, pos + 1);
          GetFullStep(n, t, root, key[pos..], TryGet(db, ch[key[pos]], key, pos + 1));
          GetBelowFull(db, n, key, pos);
        case _ =>
          GetEnd(n, t, root, key, pos);
      }
    }

    lemma GetHashStep(n: Node, t: Node, root: bool, key: seq<byte>, pos: nat)
      requires StoreOk(db) && n.HashNode? && pos <= |key| && At(n, key[pos..])
      requires complete ==> Resolve(db, n.hash).Some?
      requires Resolve(db, n.hash).Some? ==>
        var c := Resolve(db, n.hash).value;
        !c.HashNode? && At(c, key[pos..]) && Hashed(c, t, root) && Gets(TryGet(db, c, key, pos), c, t, root, key[pos..])
      ensures Gets(TryGet(db, n, key, pos), n, t, root, key[pos..])
    {
    }

    lemma GetEnd(n: Node, t: Node, root: bool, key: seq<byte>, pos: nat)
      requires StoreOk(db) && (n.Nil? || n.Value?) && n == t && pos <= |key| && At(n, key[pos..]) && Rep(n, t, root)
      ensures Gets(TryGet(db, n, key, pos), n, t, root, key[pos..])
    {
    }

    // -------------------------------------------------------------- insert

    /** The events on a lazy trie are those on the tree, and reads. */
    static function Writes(events: seq<Event>): seq<Event> {
      if events == [] then []
      else if events[0].OnRead? then Writes(events[1..])
      else [events[0]] + Writes(events[1..])
    }

    static lemma {:induction false} WritesSum(a: seq<Event>, b: seq<Event>)
      ensures Writes(a + b) == Writes(a) + Writes(b)
    {
      if a == [] {
        assert [] + b == b;
      } else {
        WritesSum(a[1..], b);
        assert (a + b)[1..] == a[1..] + b && (a + b)[0] == a[0];
        Associate([a[0]], Writes(a[1..]), Writes(b));
      }
    }

    static lemma Associate(x: seq<Event>, y: seq<Event>, z: seq<Event>)
      ensures x + (y + z) == x + y + z
    {
    }

    static lemma WritesOfRead(path: seq<byte>, blob: seq<byte>, events: seq<Event>)
      ensures Writes([OnRead(path, blob)] + events) == Writes(events)
    {
      assert ([OnRead(path, blob)] + events)[1..] == events;
    }

    static lemma {:induction false} WritesOfWrites(events: seq<Event>)
      requires forall e | e in events :: !e.OnRead?
      ensures Writes(events) == events
    {
      if events != [] {
        WritesOfWrites(events[1..]);
      }
    }

    /** A run on the lazy node does what the run on the tree does, or fails for want of a node. */
    ghost predicate Follows(r: Outcome, s: Outcome, root: bool) {
      && (complete ==> r.fail.None?)
      && (r.fail.Some? ==> !r.dirty)
      && (r.fail.None? ==> r.dirty == s.dirty && Rep(r.node, s.node, root) && Writes(r.events) == s.events)
    }

    lemma InsertShortStep(n: Node, t: Node, root: bool, r: Outcome, s: Outcome)
      requires n.Short? && Rep(n, t, root) && Follows(r, s, false) && s.fail.None?
      ensures t.Short? && Follows(InsertAfter(n, Short(n.key, r.node, NEW), r),
                                  InsertAfter(t, Short(t.key, s.node, NEW), s), root)
    {
      hide Rep, Hashed, HeldAt, FlagOk, IsRef, Writes;
      RepCases(n, t, root);
      if r.fail.None? {
        RepNewShort(n.key, r.node, s.node, root);
      }
    }

    lemma InsertFullStep(n: Node, t: Node, root: bool, i: byte, r: Outcome, s: Outcome)
      requires n.Full? && Rep(n, t, root) && i < |n.children| && Follows(r, s, false) && s.fail.None?
      ensures t.Full? && |t.children| == |n.children|
      ensures Follows(InsertAfter(n, Full(n.children[i := r.node], NEW), r),
                      InsertAfter(t, Full(t.children[i := s.node], NEW), s), root)
    {
      hide Rep, Hashed, HeldAt, FlagOk, IsRef, Writes;
      RepCases(n, t, root);
      if r.fail.None? {
        RepNewFull(n.children[i := r.node], t.children[i := s.node], root);
      }
    }

    lemma InsertHashStep(n: Node, t: Node, root: bool, prefix: seq<byte>, key: seq<byte>, v: seq<byte>, s: Outcome)
      requires StoreOk(db) && n.HashNode? && key != [] && At(n, key)
      requires complete ==> Resolve(db, n.hash).Some?
      requires Resolve(db, n.hash).Some? ==>
        var c := Resolve(db, n.hash).value;
        !c.HashNode? && At(c, key) && Rep(c, t, root) && Follows(Insert(db, c, prefix, key, v), s, root)
      requires !s.dirty ==> s.node == t
      ensures Follows(Insert(db, n, prefix, key, v), s, root)
    {
      if Resolve(db, n.hash).Some? {
        WritesOfRead(prefix, db[n.hash], Insert(db, Resolve(db, n.hash).value, prefix, key, v).events);
      }
    }

    lemma InsertEnd(n: Node, root: bool, prefix: seq<byte>, key: seq<byte>, v: seq<byte>)
      requires StoreOk(db) && At(n, key) && (n.Nil? || key == [])
      ensures Follows(Insert(db, n, prefix, key, v), Insert(NOWHERE, n, prefix, key, v), root)
    {
      RepValue(v);
      RepNewShort(key, Value(v), Value(v), root);
      WritesOfWrites([OnInsert(prefix)]);
    }

    /** `insert` on a lazy node does what it does on the tree. */
    lemma {:induction false} InsertRefines(n: Node, t: Node, root: bool, prefix: seq<byte>, key: seq<byte>, v: seq<byte>)
      requires StoreOk(db) && Rep(n, t, root) && Sized(t) && TreeAt(t, key) && v != []
      ensures At(n, key) && At(t, key)
      ensures Follows(Insert(db, n, prefix, key, v), Insert(NOWHERE, t, prefix, key, v), root)
      decreases |key|, if n.HashNode? then 1 else 0
    {
      hide Rep, Hashed, HeldAt, FlagOk, IsRef, Insert, Follows, At, Shape, StoreOk, Resolve;
      NoStore();
      RepIsAt(n, t, root, key);
      TreeIsAt(t, key);
      InsertCanon(t, prefix, key, v);
      RepCases(n, t, root);
      if key == [] || n.Nil? {
        InsertEnd(n, root, prefix, key, v);
      } else {
        match n {
          case HashNode(h) =>
            ResolveRep(h, t, root);
            if Resolve(db, h).Some? {
              InsertRefines(Resolve(db, h).value, t, root, prefix, key, v);
            }
            InsertHashStep(n, t, root, prefix, key, v, Insert(NOWHERE, t, prefix, key, v));
          case Short(nk, nv, _) =>
            var m := PrefixLen(key, nk);
            if m == |nk| {
              EdgeStep(nk, t.val, key);
              var path, rest := prefix + key[..m], key[m..];
              InsertRefines(nv, t.val, false, path, rest, v);
              InsertCanon(t.val, path, rest, v);
              InsertShortStep(n, t, root, Insert(db, nv, path, rest, v), Insert(NOWHERE, t.val, path, rest, v));
              InsertBelowShort(db, n, prefix, key, v);
              InsertBelowShort(NOWHERE, t, prefix, key, v);
            } else {
              InsertParts(n, t, root, prefix, key, v);
            }
          case Full(ch, _) =>
            BranchStep(t.children, key);
            var i := key[0];
            InsertRefines(ch[i], t.children[i], false, prefix + [i], key[1..], v);
            InsertCanon(t.children[i], prefix + [i], key[1..], v);
            InsertFullStep(n, t, root, i, Insert(db, ch[i], prefix + [i], key[1..], v),
                           Insert(NOWHERE, t.children[i], prefix + [i], key[1..], v));
            InsertBelowFull(db, n, prefix, key, v);
            InsertBelowFull(NOWHERE, t, prefix, key, v);
        }
      }
    }

    lemma InsertParts(n: Node, t: Node, root: bool, prefix: seq<byte>, key: seq<byte>, v: seq<byte>)
      requires StoreOk(db) && StoreOk(NOWHERE) && Rep(n, t, root) && At(n, key) && At(t, key) && key != []
      requires n.Short? && PrefixLen(key, n.key) < |n.key|
      ensures Follows(Insert(db, n, prefix, key, v), Insert(NOWHERE, t, prefix, key, v), root)
    {
      hide Rep, Insert, Follows, At, StoreOk, Split;
      RepCases(n, t, root);
      InsertIsSplit(db, n, prefix, key, v);
      InsertIsSplit(NOWHERE, t, prefix, key, v);
      SplitRefines(prefix, n.key, n.val, t.val, key, v, PrefixLen(key, n.key), root);
    }

    lemma AttachRefines(prefix: seq<byte>, key: seq<byte>, n: Node, t: Node)
      requires Rep(n, t, false)
      ensures Rep(Attach(prefix, key, n).node, Attach(prefix, key, t).node, false)
      ensures Attach(prefix, key, n).events == Attach(prefix, key, t).events
    {
      RepNewShort(key, n, t, false);
    }

    lemma BranchRefines(i: byte, a: Node, ta: Node, j: byte, b: Node, tb: Node, k: seq<byte>, root: bool)
      requires i <= 16 && j <= 16 && Rep(a, ta, false) && Rep(b, tb, false)
      ensures var n, t := Full(EMPTY_CHILDREN[i := a][j := b], NEW), Full(EMPTY_CHILDREN[i := ta][j := tb], NEW);
        Rep(n, t, root) && Rep(Short(k, n, NEW), Short(k, t, NEW), root)
    {
      hide Rep, Hashed;
      RepNil(false);
      var ch, tch := EMPTY_CHILDREN[i := a][j := b], EMPTY_CHILDREN[i := ta][j := tb];
      RepNewFull(ch, tch, root);
      RepNewFull(ch, tch, false);
      RepNewShort(k, Full(ch, NEW), Full(tch, NEW), root);
    }

    lemma SplitRefines(prefix: seq<byte>, nk: seq<byte>, nv: Node, tv: Node, key: seq<byte>, v: seq<byte>, m: nat, root: bool)
      requires m < |nk| && m < |key| && nk[m] <= 16 && key[m] <= 16
      requires Rep(nv, tv, false)
      ensures Follows(Split(prefix, nk, nv, key, v, m), Split(prefix, nk, tv, key, v, m), root)
    {
      hide Rep, Hashed, Attach, Writes;
      RepValue(v);
      var path, path' := prefix + nk[..m + 1], prefix + key[..m + 1];
      AttachRefines(path, nk[m + 1..], nv, tv);
      AttachRefines(path', key[m + 1..], Value(v), Value(v));
      var a, ta, b := Attach(path, nk[m + 1..], nv), Attach(path, nk[m + 1..], tv), Attach(path', key[m + 1..], Value(v));
      BranchRefines(nk[m], a.node, ta.node, key[m], b.node, b.node, key[..m], root);
      SplitWrites(prefix, nk, nv, key, v, m);
    }

    lemma SplitWrites(prefix: seq<byte>, nk: seq<byte>, nv: Node, key: seq<byte>, v: seq<byte>, m: nat)
      requires m < |nk| && m < |key| && nk[m] <= 16 && key[m] <= 16
      ensures Writes(Split(prefix, nk, nv, key, v, m).events) == Split(prefix, nk, nv, key, v, m).events
    {
      WritesOfWrites(Split(prefix, nk, nv, key, v, m).events);
    }

    // -------------------------------------------------------------- delete

    lemma {:induction false} SoleRefines(ch: seq<Node>, tch: seq<Node>, i: nat, pos: int)
      requires |ch| == |tch| && i <= |ch|
      requires forall j | 0 <= j < |ch| :: ch[j].Nil? <==> tch[j].Nil?
      ensures Sole(ch, i, pos) == Sole(tch, i, pos)
      decreases |ch| - i
    {
      if i < |ch| {
        if ch[i] == Nil {
          SoleRefines(ch, tch, i + 1, pos);
        } else if pos == -1 {
          SoleRefines(ch, tch, i + 1, i);
        }
      }
    }

    lemma ReduceRefines(prefix: seq<byte>, ch: seq<Node>, tch: seq<Node>, events: seq<Event>, tevents: seq<Event>, root: bool)
      requires StoreOk(db) && |ch| == |tch| == 17
      requires forall i | 0 <= i < 17 :: Rep(ch[i], tch[i], false) && Sized(tch[i])
      requires forall i | 0 <= i < 16 :: CanonOrNil(tch[i])
      requires tch[16].Nil? || GoodValue(tch[16])
      requires Writes(events) == tevents
      ensures Follows(Reduce(db, prefix, ch, events), Reduce(NOWHERE, prefix, tch, tevents), root)
    {
      hide Rep, Hashed, HeldHere, Held, HeldAt, FlagOk, IsRef, Sole, StoreOk, Resolve, Writes, Reduce;
      NoStore();
      forall i | 0 <= i < 17 ensures ch[i].Nil? <==> tch[i].Nil? {
        RepCases(ch[i], tch[i], false);
      }
      SoleRefines(ch, tch, 0, -1);
      var pos := Sole(ch, 0, -1);
      ReduceIs(prefix, tch, tevents);
      ReduceLoads(db, prefix, ch, events, pos);
      RepNewFull(ch, tch, root);
      if 0 <= pos {
        RepNewShort([pos], ch[pos], tch[pos], root);
        RepCases(ch[pos], tch[pos], false);
        LastWrites(prefix + [pos], events, []);
        if ch[pos].Short? {
          MergeRefines([pos], ch[pos], tch[pos], root);
        } else if pos < 16 && ch[pos].HashNode? {
          ResolveRep(ch[pos].hash, tch[pos], false);
          if Resolve(db, ch[pos].hash).Some? {
            LastWrites(prefix + [pos], events, db[ch[pos].hash]);
            MergeRefines([pos], Resolve(db, ch[pos].hash).value, tch[pos], root);
          }
        }
      }
    }

    static lemma LastWrites(path: seq<byte>, events: seq<Event>, blob: seq<byte>)
      ensures Writes(events + [OnDelete(path)]) == Writes(events) + [OnDelete(path)]
      ensures Writes(events + [OnRead(path, blob)]) == Writes(events)
      ensures Writes(events + [OnRead(path, blob)] + [OnDelete(path)]) == Writes(events) + [OnDelete(path)]
    {
      var end, read := [OnDelete(path)], [OnRead(path, blob)];
      WritesOfWrites(end);
      WritesOfRead(path, blob, []);
      assert read + [] == read;
      WritesSum(events, end);
      WritesSum(events, read);
      WritesSum(events + read, end);
    }

    /** A dirty result of `delete` is loaded: merging can see whether it is a short node. */
    lemma {:induction false} LoadedAfterDelete(n: Node, prefix: seq<byte>, key: seq<byte>)
      requires StoreOk(db) && At(n, key)
      ensures Delete(db, n, prefix, key).dirty ==> !Delete(db, n, prefix, key).node.HashNode?
      decreases |key|, if n.HashNode? then 1 else 0
    {
      if n.HashNode? && Resolve(db, n.hash).Some? {
        LoadedAfterDelete(Resolve(db, n.hash).value, prefix, key);
      }
    }

    lemma MergeRefines(nk: seq<byte>, c: Node, tc: Node, root: bool)
      requires Rep(c, tc, false) && !c.HashNode?
      ensures c.Short? <==> tc.Short?
      ensures c.Short? ==> Rep(Short(nk + c.key, c.val, NEW), Short(nk + tc.key, tc.val, NEW), root)
      ensures Rep(Short(nk, c, NEW), Short(nk, tc, NEW), root)
    {
      RepCases(c, tc, false);
      RepNewShort(nk, c, tc, root);
      if c.Short? {
        RepNewShort(nk + c.key, c.val, tc.val, root);
      }
    }

    lemma DeleteHashStep(n: Node, t: Node, root: bool, prefix: seq<byte>, key: seq<byte>, s: Outcome)
      requires StoreOk(db) && n.HashNode? && At(n, key)
      requires complete ==> Resolve(db, n.hash).Some?
      requires Resolve(db, n.hash).Some? ==>
        var c := Resolve(db, n.hash).value;
        !c.HashNode? && At(c, key) && Rep(c, t, root) && Follows(Delete(db, c, prefix, key), s, root)
      requires !s.dirty ==> s.node == t
      ensures Follows(Delete(db, n, prefix, key), s, root)
    {
      if Resolve(db, n.hash).Some? {
        WritesOfRead(prefix, db[n.hash], Delete(db, Resolve(db, n.hash).value, prefix, key).events);
      }
    }

    lemma DeleteShortStep(n: Node, t: Node, root: bool, prefix: seq<byte>, r: Outcome, s: Outcome)
      requires n.Short? && Rep(n, t, root) && Follows(r, s, false) && s.fail.None?
      requires r.dirty ==> !r.node.HashNode?
      ensures t.Short? && Follows(ShortAfter(n, prefix, r), ShortAfter(t, prefix, s), root)
    {
      hide Rep, Hashed, HeldAt, FlagOk, IsRef, Writes;
      RepCases(n, t, root);
      var end := [OnDelete(prefix + n.key)];
      WritesOfWrites(end);
      WritesSum(r.events, end);
      if r.fail.None? && r.dirty {
        MergeRefines(n.key, r.node, s.node, root);
      }
    }

    lemma DeleteEnd(n: Node, t: Node, root: bool, prefix: seq<byte>, key: seq<byte>)
      requires StoreOk(db) && Rep(n, t, root) && At(n, key) && At(t, key)
      requires n.Nil? || n.Value? || (n.Short? && (PrefixLen(key, n.key) == |key| || PrefixLen(key, n.key) < |n.key|))
      ensures Follows(Delete(db, n, prefix, key), Delete(NOWHERE, t, prefix, key), root)
    {
      RepCases(n, t, root);
      hide Rep, Hashed, HeldAt, FlagOk, IsRef;
      RepNil(root);
      WritesOfWrites([OnDelete(prefix)]);
    }

    lemma DeleteFullStep(n: Node, t: Node, root: bool, prefix: seq<byte>, i: byte, r: Outcome, s: Outcome)
      requires StoreOk(db) && n.Full? && Rep(n, t, root) && Sized(t) && Canon(t)
      requires i <= 16 && Follows(r, s, false) && s.fail.None?
      requires if i == 16 then s.node.Nil? || GoodValue(s.node) else CanonOrNil(s.node)
      ensures |n.children| == 17 && t.Full?
      ensures Follows(FullAfter(db, n, prefix, i, r), FullAfter(NOWHERE, t, prefix, i, s), root)
    {
      hide Rep, Hashed, Held, HeldHere, HeldAt, FlagOk, IsRef, Reduce, Writes;
      RepCases(n, t, root);
      if r.fail.None? && r.dirty {
        var ch, tch := n.children[i := r.node], t.children[i := s.node];
        RepCases(r.node, s.node, false);
        RepNewFull(ch, tch, root);
        if s.node.Nil? {
          ReduceRefines(prefix, ch, tch, r.events, s.events, root);
        }
      }
    }

    /** `delete` on a lazy node does what it does on the tree. */
    lemma {:induction false} DeleteRefines(n: Node, t: Node, root: bool, prefix: seq<byte>, key: seq<byte>)
      requires StoreOk(db) && Rep(n, t, root) && Sized(t) && TreeAt(t, key)
      ensures At(n, key) && At(t, key)
      ensures Follows(Delete(db, n, prefix, key), Delete(NOWHERE, t, prefix, key), root)
      decreases |key|, if n.HashNode? then 1 else 0
    {
      hide Rep, Hashed, HeldAt, FlagOk, IsRef, Reduce, Delete, Follows, At, Shape, StoreOk, Resolve;
      NoStore();
      RepIsAt(n, t, root, key);
      TreeIsAt(t, key);
      DeleteCanon(t, prefix, key);
      RepCases(n, t, root);
      match n {
        case HashNode(h) =>
          ResolveRep(h, t, root);
          if Resolve(db, h).Some? {
            DeleteRefines(Resolve(db, h).value, t, root, prefix, key);
          }
          DeleteHashStep(n, t, root, prefix, key, Delete(NOWHERE, t, prefix, key));
        case Short(nk, nv, _) =>
          var m := PrefixLen(key, nk);
          if m == |nk| && m < |key| {
            EdgeStep(nk, t.val, key);
            var path, rest := prefix + key[..m], key[m..];
            DeleteRefines(nv, t.val, false, path, rest);
            DeleteCanon(t.val, path, rest);
            LoadedAfterDelete(nv, path, rest);
            DeleteShortStep(n, t, root, prefix, Delete(db, nv, path, rest), Delete(NOWHERE, t.val, path, rest));
            DeleteBelowShort(db, n, prefix, key);
            DeleteBelowShort(NOWHERE, t, prefix, key);
          } else {
            DeleteEnd(n, t, root, prefix, key);
          }
        case Full(ch, _) =>
          BranchStep(t.children, key);
          var i := key[0];
          DeleteRefines(ch[i], t.children[i], false, prefix + [i], key[1..]);
          DeleteCanon(t.children[i], prefix + [i], key[1..]);
          DeleteFullStep(n, t, root, prefix, i, Delete(db, ch[i], prefix + [i], key[1..]),
                         Delete(NOWHERE, t.children[i], prefix + [i], key[1..]));
          DeleteBelowFull(db, n, prefix, key);
          DeleteBelowFull(NOWHERE, t, prefix, key);
        case _ =>
          DeleteEnd(n, t, root, prefix, key);
      }
    }
  }
}
