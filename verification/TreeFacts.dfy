/** The algorithm on loaded canonical trees: it keeps them canonical, updates the map they
    stand for at one key, and a canonical tree is determined by its map. */
module TreeFacts {
  import opened Bytes
  import opened HexKeys
  import opened Nodes
  import opened TrieOps

  /** Loaded trees need no store. */
  const NOWHERE: Store := map[]

  /** A canonical tree, or the value slot, where a key continues with `key`. */
  predicate TreeAt(t: Node, key: seq<byte>) {
    if key == [] then t.Nil? || GoodValue(t) else HexKey(key) && CanonOrNil(t)
  }

  lemma TreeIsAt(t: Node, key: seq<byte>)
    requires TreeAt(t, key)
    ensures At(t, key)
  {
    if key != [] {
      CanonHasShape(t);
    }
  }

  /** A short node with this key and child is canonical. */
  predicate Edge(k: seq<byte>, v: Node) {
    |k| > 0 && if HasTerm(k) then HexKey(k) && GoodValue(v) else Nibbles(k) && v.Full? && Canon(v)
  }

  lemma EdgeIsCanon(k: seq<byte>, v: Node)
    ensures Canon(Short(k, v, NEW)) <==> Edge(k, v)
  {
  }

  /** The child below a short node, where the key goes on. */
  lemma EdgeStep(nk: seq<byte>, nv: Node, key: seq<byte>)
    requires Edge(nk, nv) && HexKey(key) && IsPrefix(nk, key)
    ensures TreeAt(nv, key[|nk|..])
    ensures HasTerm(nk) <==> nk == key
  {
    KeyAhead(nk, key);
  }

  lemma BranchStep(ch: seq<Node>, key: seq<byte>)
    requires Canon(Full(ch, NEW)) && HexKey(key)
    ensures key[0] <= 16 && TreeAt(ch[key[0]], key[1..])
    ensures key[0] == 16 <==> key[1..] == []
  {
    CanonHasShape(Full(ch, NEW));
    StepAt(ch, key);
    if |key| > 1 {
      assert key[0] == key[..|key| - 1][0];
      assert key[1..][..|key| - 2] == key[..|key| - 1][1..];
    }
  }

  /** The nibbles of an edge: below 16 but for a final terminator. */
  lemma EdgeNibble(k: seq<byte>, v: Node, m: nat)
    requires Edge(k, v) && m < |k|
    ensures k[m] <= 16 && Nibbles(k[..m])
    ensures k[m] == 16 <==> HasTerm(k) && m == |k| - 1
    ensures k[m + 1..] != [] ==> Edge(k[m + 1..], v)
  {
    if HasTerm(k) {
      assert m < |k| - 1 ==> k[m] == k[..|k| - 1][m];
      assert k[..m] == k[..|k| - 1][..m];
      if m + 1 < |k| {
        var r := k[m + 1..];
        assert r[..|r| - 1] == k[..|k| - 1][m + 1..];
      }
    }
  }

  /** What hangs in a slot of a branch. */
  predicate InSlot(i: int, t: Node) {
    if i == 16 then GoodValue(t) else Canon(t)
  }

  lemma AttachInSlot(prefix: seq<byte>, k: seq<byte>, v: Node, m: nat)
    requires Edge(k, v) && m < |k|
    ensures InSlot(k[m], Attach(prefix, k[m + 1..], v).node)
  {
    EdgeNibble(k, v, m);
  }

  lemma NewEdge(key: seq<byte>, v: seq<byte>)
    requires HexKey(key) && v != []
    ensures Edge(key, Value(v))
  {
  }

  // ---------------------------------------------------------------- on loaded trees

  lemma NoStore()
    ensures StoreOk(NOWHERE)
  {
  }

  lemma InsertNew(t: Node, prefix: seq<byte>, key: seq<byte>, v: seq<byte>)
    requires StoreOk(NOWHERE) && At(t, key) && key != []
    ensures t.Nil? ==> Insert(NOWHERE, t, prefix, key, v) == Attach(prefix, key, Value(v))
  {
  }

  lemma DeleteSimple(t: Node, prefix: seq<byte>, key: seq<byte>)
    requires StoreOk(NOWHERE) && At(t, key)
    ensures t.Nil? || t.Value? ==> Delete(NOWHERE, t, prefix, key).events == [] && Delete(NOWHERE, t, prefix, key).node == Nil
    ensures t.Short? && PrefixLen(key, t.key) < |t.key| ==>
      Delete(NOWHERE, t, prefix, key).events == [] && Delete(NOWHERE, t, prefix, key).node == t
    ensures t.Short? && PrefixLen(key, t.key) == |t.key| == |key| ==>
      Delete(NOWHERE, t, prefix, key) == Outcome(true, Nil, None, [OnDelete(prefix)])
  {
  }

  /** The reduction of a loaded branch. */
  lemma ReduceIs(prefix: seq<byte>, ch: seq<Node>, events: seq<Event>)
    requires StoreOk(NOWHERE) && |ch| == 17 && forall i | 0 <= i < 16 :: CanonOrNil(ch[i])
    ensures var pos := Sole(ch, 0, -1);
      -2 <= pos < 17
      && Reduce(NOWHERE, prefix, ch, events) ==
           if pos < 0 then Outcome(true, Full(ch, NEW), None, events)
           else if pos < 16 && ch[pos].Short? then
             Outcome(true, Short([pos] + ch[pos].key, ch[pos].val, NEW), None, events + [OnDelete(prefix + [pos])])
           else Outcome(true, Short([pos], ch[pos], NEW), None, events)
  {
    SoleIs(ch, 0, -1);
  }

  // ---------------------------------------------------------------- canonical form

  lemma SplitCanon(prefix: seq<byte>, nk: seq<byte>, nv: Node, key: seq<byte>, v: seq<byte>, m: nat)
    requires Edge(nk, nv) && HexKey(key) && v != []
    requires m < |nk| && m < |key| && nk[m] != key[m]
    ensures nk[m] <= 16 && key[m] <= 16
    ensures Canon(Split(prefix, nk, nv, key, v, m).node)
  {
    NewEdge(key, v);
    EdgeNibble(nk, nv, m);
    EdgeNibble(key, Value(v), m);
    AttachInSlot(prefix + nk[..m + 1], nk, nv, m);
    AttachInSlot(prefix + key[..m + 1], key, Value(v), m);
    var a := Attach(prefix + nk[..m + 1], nk[m + 1..], nv).node;
    var b := Attach(prefix + key[..m + 1], key[m + 1..], Value(v)).node;
    BranchOfTwo(nk[m], a, key[m], b);
    if m > 0 {
      assert !HasTerm(key[..m]);
    }
  }

  lemma BranchOfTwo(i: byte, a: Node, j: byte, b: Node)
    requires i <= 16 && j <= 16 && i != j && InSlot(i, a) && InSlot(j, b)
    ensures Canon(Full(EMPTY_CHILDREN[i := a][j := b], NEW))
  {
    var ch := EMPTY_CHILDREN[i := a][j := b];
    assert ch[i] == a != Nil && ch[j] == b != Nil;
    forall x | 0 <= x < 16 ensures CanonOrNil(ch[x]) {
    }
    if i < j {
      assert ch[i] != Nil && ch[j] != Nil;
    } else {
      assert ch[j] != Nil && ch[i] != Nil;
    }
  }

  /** Replacing a child of a branch by another. */
  lemma BranchUpdate(ch: seq<Node>, i: byte, t: Node)
    requires Canon(Full(ch, NEW)) && i <= 16 && InSlot(i, t)
    ensures Canon(Full(ch[i := t], NEW))
  {
    var x, y :| 0 <= x < y < 17 && ch[x] != Nil && ch[y] != Nil;
    var ch' := ch[i := t];
    assert ch'[x] != Nil && ch'[y] != Nil;
  }

  /** `insert` keeps the tree canonical, and reports unchanged trees unchanged. */
  lemma {:induction false} InsertCanon(t: Node, prefix: seq<byte>, key: seq<byte>, v: seq<byte>)
    requires TreeAt(t, key) && v != []
    ensures At(t, key)
    ensures var r := Insert(NOWHERE, t, prefix, key, v);
      && r.fail.None? && TreeAt(r.node, key) && r.node != Nil
      && (t.Full? ==> r.node.Full?)
      && (!r.dirty ==> r.node == t && r.events == [])
    decreases |key|
  {
    TreeIsAt(t, key);
    var r := Insert(NOWHERE, t, prefix, key, v);
    if key != [] {
      match t {
        case Nil =>
          NewEdge(key, v);
        case Short(nk, nv, _) =>
          var m := PrefixLen(key, nk);
          if m == |nk| {
            EdgeStep(nk, nv, key);
            InsertCanon(nv, prefix + key[..m], key[m..], v);
          } else {
            CanonHasShape(t);
            KeysPart(nk, key);
            SplitCanon(prefix, nk, nv, key, v, m);
          }
        case Full(ch, _) =>
          BranchStep(ch, key);
          InsertCanon(ch[key[0]], prefix + [key[0]], key[1..], v);
          var r' := Insert(NOWHERE, ch[key[0]], prefix + [key[0]], key[1..], v);
          if r'.dirty {
            BranchUpdate(ch, key[0], r'.node);
          }
      }
    }
  }

  // ---------------------------------------------------------------- the map

  lemma DropPrefix(p: seq<byte>, a: seq<byte>, b: seq<byte>)
    requires IsPrefix(p, a) && IsPrefix(p, b)
    ensures a == b <==> a[|p|..] == b[|p|..]
  {
    assert a == p + a[|p|..] && b == p + b[|p|..];
  }

  lemma AttachLookup(prefix: seq<byte>, k: seq<byte>, v: Node, q: seq<byte>)
    ensures Lookup(Attach(prefix, k, v).node, q) == if IsPrefix(k, q) then Lookup(v, q[|k|..]) else None
  {
    assert k == [] ==> q[0..] == q;
  }

  lemma PrefixSplit(k: seq<byte>, m: nat, q: seq<byte>)
    requires m < |k|
    ensures IsPrefix(k, q) <==> IsPrefix(k[..m], q) && |q| > m && q[m] == k[m] && IsPrefix(k[m + 1..], q[m + 1..])
    ensures IsPrefix(k, q) ==> q[m + 1..][|k[m + 1..]|..] == q[|k|..]
  {
    if |q| > m && IsPrefix(k[m + 1..], q[m + 1..]) {
      assert q[..|k|] == q[..m] + [q[m]] + q[m + 1..][..|k| - m - 1];
      assert k == k[..m] + [k[m]] + k[m + 1..];
    }
    if IsPrefix(k, q) {
      assert q[m + 1..][..|k| - m - 1] == q[..|k|][m + 1..];
      assert q[..m] == q[..|k|][..m];
      assert q[m] == q[..|k|][m];
    }
  }

  lemma SplitLookup(prefix: seq<byte>, nk: seq<byte>, nv: Node, key: seq<byte>, v: seq<byte>, m: nat, q: seq<byte>)
    requires m < |nk| && m < |key| && nk[m] != key[m] && nk[m] <= 16 && key[m] <= 16
    requires nk[..m] == key[..m]
    ensures Lookup(Split(prefix, nk, nv, key, v, m).node, q)
         == if q == key then Some(v) else Lookup(Short(nk, nv, NEW), q)
  {
    var a := Attach(prefix + nk[..m + 1], nk[m + 1..], nv).node;
    var b := Attach(prefix + key[..m + 1], key[m + 1..], Value(v)).node;
    var branch := Full(EMPTY_CHILDREN[nk[m] := a][key[m] := b], NEW);
    var r := Split(prefix, nk, nv, key, v, m).node;
    assert Lookup(r, q) == if IsPrefix(key[..m], q) then Lookup(branch, q[m..]) else None by {
      assert m == 0 ==> q[m..] == q && key[..m] == [];
    }
    hide Lookup, Split, Attach;
    PrefixSplit(nk, m, q);
    PrefixSplit(key, m, q);
    WholeKey(key, q);
    ShortLookup(nk, nv, q);
    if IsPrefix(key[..m], q) {
      BranchLookup(nk[m], a, key[m], b, q[m..]);
      if |q| > m {
        var q' := q[m + 1..];
        assert q[m..][0] == q[m] && q[m..][1..] == q';
        AttachLookup(prefix + nk[..m + 1], nk[m + 1..], nv, q');
        AttachLookup(prefix + key[..m + 1], key[m + 1..], Value(v), q');
        if IsPrefix(key, q) {
          ValueLookup(v, q[|key|..]);
        }
      }
    }
  }

  lemma WholeKey(key: seq<byte>, q: seq<byte>)
    ensures q == key <==> IsPrefix(key, q) && |q| == |key|
  {
  }

  lemma ShortLookup(k: seq<byte>, v: Node, q: seq<byte>)
    ensures Lookup(Short(k, v, NEW), q) == if IsPrefix(k, q) then Lookup(v, q[|k|..]) else None
  {
  }

  lemma ValueLookup(v: seq<byte>, q: seq<byte>)
    ensures Lookup(Value(v), q) == if q == [] then Some(v) else None
  {
  }

  lemma BranchLookup(i: byte, a: Node, j: byte, b: Node, q: seq<byte>)
    requires i <= 16 && j <= 16 && i != j
    ensures Lookup(Full(EMPTY_CHILDREN[i := a][j := b], NEW), q)
         == if q == [] then None
            else if q[0] == j then Lookup(b, q[1..])
            else if q[0] == i then Lookup(a, q[1..])
            else None
  {
    var ch := EMPTY_CHILDREN[i := a][j := b];
    assert q != [] && q[0] <= 16 && q[0] != i && q[0] != j ==> ch[q[0]] == Nil;
  }

  /** The map is set at one key, and `r` is dirty exactly when that changes it. */
  predicate Sets(t: Node, r: Outcome, key: seq<byte>, v: seq<byte>, q: seq<byte>) {
    Lookup(r.node, q) == (if q == key then Some(v) else Lookup(t, q)) && (r.dirty <==> Lookup(t, key) != Some(v))
  }

  lemma SetsShort(nk: seq<byte>, nv: Node, f: Flag, r: Outcome, key: seq<byte>, v: seq<byte>, q: seq<byte>)
    requires IsPrefix(nk, key) && r.fail.None? && (!r.dirty ==> r.node == nv)
    requires Sets(nv, r, key[|nk|..], v, if IsPrefix(nk, q) then q[|nk|..] else [])
    ensures Sets(Short(nk, nv, f), InsertAfter(Short(nk, nv, f), Short(nk, r.node, NEW), r), key, v, q)
  {
    if IsPrefix(nk, q) {
      DropPrefix(nk, q, key);
    }
  }

  lemma SetsFull(ch: seq<Node>, f: Flag, r: Outcome, key: seq<byte>, v: seq<byte>, q: seq<byte>)
    requires |ch| == 17 && key != [] && key[0] <= 16 && r.fail.None? && (!r.dirty ==> r.node == ch[key[0]])
    requires Sets(ch[key[0]], r, key[1..], v, if q != [] then q[1..] else [])
    ensures Sets(Full(ch, f), InsertAfter(Full(ch, f), Full(ch[key[0] := r.node], NEW), r), key, v, q)
  {
    if q != [] && q[0] == key[0] {
      DropPrefix([key[0]], q, key);
    }
  }

  lemma SetsEnd(t: Node, prefix: seq<byte>, key: seq<byte>, v: seq<byte>, q: seq<byte>)
    requires StoreOk(NOWHERE) && TreeAt(t, key) && At(t, key) && (key == [] || t.Nil?)
    ensures Sets(t, Insert(NOWHERE, t, prefix, key, v), key, v, q)
  {
    AttachLookup(prefix, key, Value(v), q);
    WholeKey(key, q);
  }

  /** `insert` sets the map at its key and nowhere else, and is dirty exactly when that
      changes the map. */
  lemma {:induction false} InsertLookup(t: Node, prefix: seq<byte>, key: seq<byte>, v: seq<byte>, q: seq<byte>)
    requires TreeAt(t, key) && v != []
    ensures At(t, key) && Sets(t, Insert(NOWHERE, t, prefix, key, v), key, v, q)
    decreases |key|
  {
    hide Insert, Lookup, InsertAfter, Sets, StoreOk;
    NoStore();
    TreeIsAt(t, key);
    if key == [] || t.Nil? {
      SetsEnd(t, prefix, key, v, q);
    } else {
      match t {
        case Short(nk, nv, f) =>
          var m := PrefixLen(key, nk);
          if m == |nk| {
            EdgeStep(nk, nv, key);
            TreeIsAt(nv, key[m..]);
            InsertCanon(nv, prefix + nk, key[m..], v);
            InsertLookup(nv, prefix + nk, key[m..], v, if IsPrefix(nk, q) then q[m..] else []);
            InsertBelowShort(NOWHERE, t, prefix, key, v);
            SetsShort(nk, nv, f, Insert(NOWHERE, nv, prefix + nk, key[m..], v), key, v, q);
          } else {
            SetsSplit(nk, nv, prefix, key, v, q);
          }
        case Full(ch, f) =>
          BranchStep(ch, key);
          var i := key[0];
          TreeIsAt(ch[i], key[1..]);
          InsertCanon(ch[i], prefix + [i], key[1..], v);
          InsertLookup(ch[i], prefix + [i], key[1..], v, if q != [] then q[1..] else []);
          InsertBelowFull(NOWHERE, t, prefix, key, v);
          SetsFull(ch, f, Insert(NOWHERE, ch[i], prefix + [i], key[1..], v), key, v, q);
      }
    }
  }

  lemma SetsSplit(nk: seq<byte>, nv: Node, prefix: seq<byte>, key: seq<byte>, v: seq<byte>, q: seq<byte>)
    requires Edge(nk, nv) && HexKey(key) && v != [] && PrefixLen(key, nk) < |nk|
    ensures var t := Short(nk, nv, NEW); At(t, key) && Sets(t, Insert(NOWHERE, t, prefix, key, v), key, v, q)
  {
    hide Insert, Lookup;
    var t := Short(nk, nv, NEW);
    TreeIsAt(t, key);
    var m := PrefixLen(key, nk);
    InsertIsSplit(NOWHERE, t, prefix, key, v);
    SplitLookup(prefix, nk, nv, key, v, m, q);
    ShortLookup(nk, nv, key);
    NoPrefix(nk, key, m);
  }

  lemma NoPrefix(nk: seq<byte>, key: seq<byte>, m: nat)
    requires m < |nk| && m < |key| && key[m] != nk[m]
    ensures !IsPrefix(nk, key)
  {
    assert |nk| <= |key| ==> key[..|nk|][m] == key[m];
  }

  // ---------------------------------------------------------------- delete

  /** A branch that lost the child in slot `i`, one of at least two. */
  lemma BranchLoss(ch: seq<Node>, i: byte)
    requires Canon(Full(ch, NEW)) && i <= 16
    ensures exists j | 0 <= j < 17 :: j != i && ch[j] != Nil
  {
    var x, y :| 0 <= x < y < 17 && ch[x] != Nil && ch[y] != Nil;
    if x == i {
      assert y != i && ch[y] != Nil;
    }
  }

  lemma ReduceCanon(ch: seq<Node>, i: byte, prefix: seq<byte>, events: seq<Event>)
    requires Canon(Full(ch, NEW)) && i <= 16
    ensures var r := Reduce(NOWHERE, prefix, ch[i := Nil], events);
      r.fail.None? && r.dirty && Canon(r.node)
  {
    var ch' := ch[i := Nil];
    NoStore();
    BranchLoss(ch, i);
    ReduceIs(prefix, ch', events);
    SoleIs(ch', 0, -1);
    hide Reduce, Sole;
    var j :| 0 <= j < 17 && j != i && ch[j] != Nil;
    assert ch'[j] != Nil;
    var pos := Sole(ch', 0, -1);
    if pos >= 0 {
      assert pos == j;
      LastCanon(pos, ch'[pos]);
    } else {
      var x, y :| 0 <= x < y < 17 && ch'[x] != Nil && ch'[y] != Nil;
      assert Canon(Full(ch', NEW));
    }
  }

  /** A branch's last child makes a canonical short node. */
  lemma LastCanon(pos: byte, t: Node)
    requires pos <= 16 && InSlot(pos, t)
    ensures if pos < 16 && t.Short? then Canon(Short([pos] + t.key, t.val, NEW)) else Canon(Short([pos], t, NEW))
  {
    if pos == 16 {
      assert HexKey([16]) by { assert [16][..0] == []; }
      EdgeIsCanon([16], t);
    } else if t.Short? {
      PrependCanon(pos, t);
    } else {
      assert !HasTerm([pos]);
    }
  }

  lemma PrependCanon(i: byte, t: Node)
    requires i < 16 && Canon(t) && t.Short?
    ensures Canon(Short([i] + t.key, t.val, NEW))
  {
    JoinCanon([i], t);
  }

  /** Merging a short node into the one above it. */
  lemma JoinCanon(k: seq<byte>, t: Node)
    requires Nibbles(k) && Canon(t) && t.Short?
    ensures Canon(Short(k + t.key, t.val, NEW))
  {
    var j := k + t.key;
    assert j[|j| - 1] == t.key[|t.key| - 1];
    if HasTerm(t.key) {
      assert j[..|j| - 1] == k + t.key[..|t.key| - 1];
    }
  }

  /** `delete` keeps the tree canonical, or empties it. */
  lemma {:induction false} DeleteCanon(t: Node, prefix: seq<byte>, key: seq<byte>)
    requires TreeAt(t, key)
    ensures At(t, key)
    ensures var r := Delete(NOWHERE, t, prefix, key);
      && r.fail.None? && (if key == [] then r.node.Nil? else CanonOrNil(r.node))
      && (t.Full? ==> r.node != Nil)
      && (!r.dirty ==> r.node == t && r.events == [])
    decreases |key|
  {
    TreeIsAt(t, key);
    match t {
      case Nil =>
      case Value(_) =>
      case Short(nk, nv, _) =>
        var m := PrefixLen(key, nk);
        if m == |nk| && m < |key| {
          EdgeStep(nk, nv, key);
          DeleteCanon(nv, prefix + key[..m], key[m..]);
          var c := Delete(NOWHERE, nv, prefix + key[..m], key[m..]);
          if c.dirty && c.node.Short? {
            JoinCanon(nk, c.node);
          }
        }
      case Full(ch, _) =>
        BranchStep(ch, key);
        var r := Delete(NOWHERE, ch[key[0]], prefix + [key[0]], key[1..]);
        DeleteCanon(ch[key[0]], prefix + [key[0]], key[1..]);
        if r.dirty {
          if r.node == Nil {
            ReduceCanon(ch, key[0], prefix, r.events);
          } else {
            BranchUpdate(ch, key[0], r.node);
          }
        }
    }
  }

  lemma JoinLookup(k: seq<byte>, ck: seq<byte>, cv: Node, q: seq<byte>)
    ensures Lookup(Short(k + ck, cv, NEW), q)
         == if IsPrefix(k, q) then Lookup(Short(ck, cv, NEW), q[|k|..]) else None
  {
    if IsPrefix(k + ck, q) {
      PrefixOfSum(k, ck, q);
      DropDrop(q, |k|, |ck|);
    }
  }

  lemma ReduceLookup(ch: seq<Node>, i: byte, prefix: seq<byte>, events: seq<Event>, q: seq<byte>)
    requires Canon(Full(ch, NEW)) && i <= 16
    ensures Lookup(Reduce(NOWHERE, prefix, ch[i := Nil], events).node, q) == Lookup(Full(ch[i := Nil], NEW), q)
  {
    var ch' := ch[i := Nil];
    NoStore();
    ReduceIs(prefix, ch', events);
    SoleIs(ch', 0, -1);
    hide Reduce, Sole, Canon;
    var pos := Sole(ch', 0, -1);
    if pos >= 0 {
      assert IsPrefix([pos], q) <==> q != [] && q[0] == pos by {
        assert q != [] && q[0] == pos ==> q[..1] == [pos];
        assert IsPrefix([pos], q) ==> q[0] == q[..1][0];
      }
      if pos != 16 && ch'[pos].Short? {
        JoinLookup([pos], ch'[pos].key, ch'[pos].val, q);
      }
      assert q != [] && q[0] < 17 && q[0] != pos ==> ch'[q[0]] == Nil;
    }
  }

  /** One key is taken out of the map, and `r` is dirty exactly when it was there. */
  predicate Takes(t: Node, r: Outcome, key: seq<byte>, q: seq<byte>) {
    Lookup(r.node, q) == (if q == key then None else Lookup(t, q)) && (r.dirty <==> Lookup(t, key).Some?)
  }

  lemma TakesShort(nk: seq<byte>, nv: Node, f: Flag, prefix: seq<byte>, r: Outcome, key: seq<byte>, q: seq<byte>)
    requires IsPrefix(nk, key) && r.fail.None? && (!r.dirty ==> r.node == nv)
    requires Takes(nv, r, key[|nk|..], if IsPrefix(nk, q) then q[|nk|..] else [])
    ensures Takes(Short(nk, nv, f), ShortAfter(Short(nk, nv, f), prefix, r), key, q)
  {
    if IsPrefix(nk, q) {
      DropPrefix(nk, q, key);
    }
    if r.dirty && r.node.Short? {
      JoinLookup(nk, r.node.key, r.node.val, q);
    }
  }

  lemma TakesFull(ch: seq<Node>, prefix: seq<byte>, r: Outcome, key: seq<byte>, q: seq<byte>)
    requires Canon(Full(ch, NEW)) && |ch| == 17
    requires key != [] && key[0] <= 16 && r.fail.None? && (!r.dirty ==> r.node == ch[key[0]])
    requires Takes(ch[key[0]], r, key[1..], if q != [] then q[1..] else []) && StoreOk(NOWHERE)
    ensures Takes(Full(ch, NEW), FullAfter(NOWHERE, Full(ch, NEW), prefix, key[0], r), key, q)
  {
    hide Reduce, Canon;
    if q != [] && q[0] == key[0] {
      DropPrefix([key[0]], q, key);
    }
    if r.dirty && r.node == Nil {
      ReduceLookup(ch, key[0], prefix, r.events, q);
      ReduceCanon(ch, key[0], prefix, r.events);
    }
  }

  lemma TakesEnd(t: Node, prefix: seq<byte>, key: seq<byte>, q: seq<byte>)
    requires StoreOk(NOWHERE) && TreeAt(t, key) && At(t, key)
    requires t.Nil? || t.Value? || (t.Short? && (PrefixLen(key, t.key) < |t.key| || PrefixLen(key, t.key) == |key|))
    ensures Takes(t, Delete(NOWHERE, t, prefix, key), key, q)
  {
    if t.Short? {
      var m := PrefixLen(key, t.key);
      if m < |t.key| {
        KeysPart(t.key, key);
        NoPrefix(t.key, key, m);
      } else {
        EdgeStep(t.key, t.val, key);
        WholeKey(key, q);
      }
    }
  }

  /** `delete` takes its key out of the map and nothing else, and is dirty exactly when the
      key was there. */
  lemma {:induction false} DeleteLookup(t: Node, prefix: seq<byte>, key: seq<byte>, q: seq<byte>)
    requires TreeAt(t, key)
    ensures At(t, key) && Takes(t, Delete(NOWHERE, t, prefix, key), key, q)
    decreases |key|
  {
    hide Delete, Lookup, ShortAfter, FullAfter, Takes, StoreOk;
    NoStore();
    TreeIsAt(t, key);
    match t {
      case Short(nk, nv, f) =>
        var m := PrefixLen(key, nk);
        if m == |nk| < |key| {
          EdgeStep(nk, nv, key);
          TreeIsAt(nv, key[m..]);
          DeleteCanon(nv, prefix + nk, key[m..]);
          DeleteLookup(nv, prefix + nk, key[m..], if IsPrefix(nk, q) then q[m..] else []);
          DeleteBelowShort(NOWHERE, t, prefix, key);
          TakesShort(nk, nv, f, prefix, Delete(NOWHERE, nv, prefix + nk, key[m..]), key, q);
        } else {
          TakesEnd(t, prefix, key, q);
        }
      case Full(ch, _) =>
        BranchStep(ch, key);
        var i := key[0];
        TreeIsAt(ch[i], key[1..]);
        DeleteCanon(ch[i], prefix + [i], key[1..]);
        DeleteLookup(ch[i], prefix + [i], key[1..], if q != [] then q[1..] else []);
        DeleteBelowFull(NOWHERE, t, prefix, key);
        TakesFull(ch, prefix, Delete(NOWHERE, ch[i], prefix + [i], key[1..]), key, q);
      case Nil =>
        TakesEnd(t, prefix, key, q);
      case Value(_) =>
        TakesEnd(t, prefix, key, q);
    }
  }
}
