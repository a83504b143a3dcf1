/** History independence: a canonical tree is determined by the map it stands for, so what a
    sequence of updates leaves behind depends on the resulting contents only. */
module History {
  import opened Bytes
  import opened HexKeys
  import opened Nodes
  import opened TrieOps
  import opened TreeFacts

  /** Two trees hold the same under every key. */
  ghost predicate Agree(a: Node, b: Node) {
    forall q :: Lookup(a, q) == Lookup(b, q)
  }

  /** Every canonical tree holds something. */
  lemma {:induction false} SomeKey(t: Node) returns (q: seq<byte>)
    requires Canon(t)
    ensures q != [] && Lookup(t, q).Some?
  {
    match t {
      case Short(k, v, _) =>
        if HasTerm(k) {
          q := k;
        } else {
          var q' := SomeKey(v);
          q := k + q';
        }
      case Full(ch, _) =>
        var i, j :| 0 <= i < j < 17 && ch[i] != Nil && ch[j] != Nil;
        var q' := SomeKey(ch[i]);
        q := [i] + q';
    }
  }

  /** A branch holds keys with different first nibbles. */
  lemma TwoKeys(t: Node) returns (p: seq<byte>, q: seq<byte>)
    requires Canon(t) && t.Full?
    ensures Lookup(t, p).Some? && Lookup(t, q).Some?
    ensures p != [] && q != [] && p[0] != q[0]
  {
    var i, j :| 0 <= i < j < 17 && t.children[i] != Nil && t.children[j] != Nil;
    var p' := SomeKey(t.children[i]);
    p := [i] + p';
    if j == 16 {
      q := [16];
    } else {
      var q' := SomeKey(t.children[j]);
      q := [j] + q';
    }
  }

  /** All keys of a short node start with its key. */
  lemma ShortKeys(t: Node, q: seq<byte>)
    requires t.Short? && Lookup(t, q).Some?
    ensures IsPrefix(t.key, q)
  {
  }

  /** A common prefix ends where two keys part. */
  lemma PartAt(p: seq<byte>, x: seq<byte>, y: seq<byte>, n: nat)
    requires IsPrefix(p, x) && IsPrefix(p, y)
    requires n < |x| && n < |y| && x[n] != y[n]
    ensures |p| <= n
  {
  }

  /** If all keys of an extension start with `p`, so does its own key. */
  lemma ExtensionKey(t: Node, p: seq<byte>)
    requires Canon(t) && t.Short? && t.val.Full?
    requires forall q | Lookup(t, q).Some? :: IsPrefix(p, q)
    ensures IsPrefix(p, t.key)
  {
    var a, b := TwoKeys(t.val);
    var k := t.key;
    assert (k + a)[|k|..] == a && (k + b)[|k|..] == b;
    assert IsPrefix(p, k + a) && IsPrefix(p, k + b);
    PartAt(p, k + a, k + b, |k|);
    assert k[..|p|] == (k + a)[..|p|];
  }

  lemma BelowShort(k: seq<byte>, v: Node, q: seq<byte>)
    ensures Lookup(Short(k, v, NEW), k + q) == Lookup(v, q)
  {
    assert (k + q)[|k|..] == q;
  }

  lemma BelowFull(ch: seq<Node>, i: byte, q: seq<byte>)
    requires |ch| == 17 && i <= 16
    ensures Lookup(Full(ch, NEW), [i] + q) == Lookup(ch[i], q)
  {
    assert ([i] + q)[1..] == q;
  }

  lemma AgreeBelowFull(a: Node, b: Node, i: byte)
    requires a.Full? && b.Full? && |a.children| == |b.children| == 17 && i <= 16
    requires a.flags == b.flags == NEW && Agree(a, b)
    ensures Agree(a.children[i], b.children[i])
  {
    forall q ensures Lookup(a.children[i], q) == Lookup(b.children[i], q) {
      BelowFull(a.children, i, q);
      BelowFull(b.children, i, q);
    }
  }

  /** The one tree of a map: canonical trees that agree on every key are equal. */
  lemma {:induction false} CanonUnique(a: Node, b: Node)
    requires CanonOrNil(a) && CanonOrNil(b) && Agree(a, b)
    ensures a == b
    decreases a, 1
  {
    if a.Nil? || b.Nil? {
      if !a.Nil? {
        var q := SomeKey(a);
      }
      if !b.Nil? {
        var q := SomeKey(b);
      }
    } else if a.Full? && b.Full? {
      forall i | 0 <= i < 17 ensures a.children[i] == b.children[i] {
        AgreeBelowFull(a, b, i);
        if i < 16 {
          CanonUnique(a.children[i], b.children[i]);
        } else {
          assert Lookup(a.children[16], []) == Lookup(b.children[16], []);
        }
      }
      assert a.children == b.children;
    } else if a.Full? {
      ShortIsNotFull(b, a);
    } else if b.Full? {
      ShortIsNotFull(a, b);
    } else {
      ShortUnique(a, b);
    }
  }

  lemma ShortIsNotFull(s: Node, f: Node)
    requires Canon(s) && s.Short? && Canon(f) && f.Full?
    ensures !Agree(s, f)
  {
    var p, q := TwoKeys(f);
    ShortHead(s, p, q);
    assert Lookup(s, p) != Lookup(f, p) || Lookup(s, q) != Lookup(f, q);
  }

  lemma ShortHead(s: Node, p: seq<byte>, q: seq<byte>)
    requires s.Short? && s.key != [] && p != [] && q != [] && p[0] != q[0]
    ensures Lookup(s, p).None? || Lookup(s, q).None?
  {
    if IsPrefix(s.key, p) {
      assert p[..|s.key|][0] == p[0];
    }
  }

  lemma LeafIsNotExtension(leaf: Node, ext: Node)
    requires Canon(leaf) && leaf.Short? && leaf.val.Value?
    requires Canon(ext) && ext.Short? && ext.val.Full?
    ensures !Agree(leaf, ext)
  {
    var p, q := TwoKeys(ext.val);
    BelowShort(ext.key, ext.val, p);
    BelowShort(ext.key, ext.val, q);
    var x, y := ext.key + p, ext.key + q;
    assert x[|ext.key|] != y[|ext.key|];
    LeafKeys(leaf, x);
    LeafKeys(leaf, y);
    assert Lookup(leaf, x) != Lookup(ext, x) || Lookup(leaf, y) != Lookup(ext, y);
  }

  lemma LeafKeys(leaf: Node, q: seq<byte>)
    requires leaf.Short? && leaf.val.Value?
    ensures Lookup(leaf, q).Some? ==> q == leaf.key
  {
    if Lookup(leaf, q).Some? {
      assert Lookup(leaf.val, q[|leaf.key|..]).Some?;
      assert q == leaf.key + q[|leaf.key|..];
    }
  }

  lemma {:induction false} ShortUnique(a: Node, b: Node)
    requires Canon(a) && Canon(b) && a.Short? && b.Short? && Agree(a, b)
    ensures a == b
    decreases a, 0
  {
    if a.val.Value? && b.val.Value? {
      assert a.key[|a.key|..] == [];
      assert Lookup(a, a.key) == Some(a.val.data);
      assert Lookup(b, a.key) == Lookup(a, a.key);
      LeafKeys(b, a.key);
      assert b.key[|b.key|..] == [];
    } else if a.val.Value? {
      LeafIsNotExtension(a, b);
    } else if b.val.Value? {
      LeafIsNotExtension(b, a);
    } else {
      forall q | Lookup(a, q).Some? ensures IsPrefix(b.key, q) {
        ShortKeys(b, q);
      }
      ExtensionKey(a, b.key);
      forall q | Lookup(b, q).Some? ensures IsPrefix(a.key, q) {
        ShortKeys(a, q);
      }
      ExtensionKey(b, a.key);
      assert a.key == b.key;
      forall q ensures Lookup(a.val, q) == Lookup(b.val, q) {
        BelowShort(a.key, a.val, q);
        BelowShort(b.key, b.val, q);
      }
      CanonUnique(a.val, b.val);
    }
  }

  // ---------------------------------------------------------------- runs

  /** One call of `Update`: an empty value deletes. */
  datatype Op = Op(key: seq<byte>, value: seq<byte>)

  /** What a sequence of updates makes of the empty map. */
  function Contents(ops: seq<Op>): map<seq<byte>, seq<byte>> {
    if ops == [] then map[]
    else
      var m, op := Contents(ops[..|ops| - 1]), ops[|ops| - 1];
      if op.value != [] then m[op.key := op.value] else m - {op.key}
  }

  /** `tryUpdate` on a loaded tree. */
  function Update(t: Node, key: seq<byte>, value: seq<byte>): Node
    requires CanonOrNil(t)
  {
    KeyToHexIsKey(key);
    TreeIsAt(t, KeyToHex(key));
    if value != [] then Insert(NOWHERE, t, [], KeyToHex(key), value).node
    else Delete(NOWHERE, t, [], KeyToHex(key)).node
  }

  /** The tree holds the map: under the nibbles of its keys, and nothing elsewhere. */
  ghost predicate Holds(t: Node, m: map<seq<byte>, seq<byte>>) {
    && CanonOrNil(t)
    && (forall key :: Lookup(t, KeyToHex(key)) == if key in m then Some(m[key]) else None)
    && (forall q :: Lookup(t, q).Some? ==> exists key :: q == KeyToHex(key))
  }

  lemma HexInjective(a: seq<byte>, b: seq<byte>)
    ensures KeyToHex(a) == KeyToHex(b) ==> a == b
  {
    if KeyToHex(a) == KeyToHex(b) {
      KeyToHexPrefixFree(a, b);
    }
  }

  /** Each update is the update of the map. */
  lemma UpdateHolds(t: Node, m: map<seq<byte>, seq<byte>>, key: seq<byte>, value: seq<byte>)
    requires Holds(t, m)
    ensures Holds(Update(t, key, value), if value != [] then m[key := value] else m - {key})
  {
    var h := KeyToHex(key);
    KeyToHexIsKey(key);
    var t' := Update(t, key, value);
    var m' := if value != [] then m[key := value] else m - {key};
    if value != [] {
      InsertCanon(t, [], h, value);
    } else {
      DeleteCanon(t, [], h);
    }
    forall q ensures Lookup(t', q) == if q == h then (if value != [] then Some(value) else None) else Lookup(t, q) {
      if value != [] {
        InsertLookup(t, [], h, value, q);
      } else {
        DeleteLookup(t, [], h, q);
      }
    }
    forall key' ensures Lookup(t', KeyToHex(key')) == if key' in m' then Some(m'[key']) else None {
      HexInjective(key, key');
    }
    forall q | Lookup(t', q).Some? ensures exists key' :: q == KeyToHex(key') {
    }
  }

  function Run(ops: seq<Op>): (t: Node)
    ensures Holds(t, Contents(ops))
  {
    if ops == [] then Nil
    else
      var op := ops[|ops| - 1];
      UpdateHolds(Run(ops[..|ops| - 1]), Contents(ops[..|ops| - 1]), op.key, op.value);
      Update(Run(ops[..|ops| - 1]), op.key, op.value)
  }

  /** Trees that hold the same map are equal. */
  lemma HoldsUnique(a: Node, b: Node, m: map<seq<byte>, seq<byte>>)
    requires Holds(a, m) && Holds(b, m)
    ensures a == b
  {
    forall q ensures Lookup(a, q) == Lookup(b, q) {
      if key :| q == KeyToHex(key) {
      }
    }
    CanonUnique(a, b);
  }

  /** `Hash` of a loaded tree: the Merkle root of the Yellow Paper. */
  function RootHash(k: Keccak, t: Node): Hash {
    if t.Nil? then EMPTY_ROOT else k(Blob(k, t))
  }

  /** History independence: updates and deletions in whatever order leave the same tree, hence
      the same root hash, when they leave the same contents. */
  lemma HistoryIndependence(k: Keccak, a: seq<Op>, b: seq<Op>)
    requires Contents(a) == Contents(b)
    ensures Run(a) == Run(b) && RootHash(k, Run(a)) == RootHash(k, Run(b))
  {
    HoldsUnique(Run(a), Run(b), Contents(a));
  }

  // ---------------------------------------------------------------- sizes

  /** Keys and values that Go can hold, keys also in nibbles. */
  ghost predicate Fits(m: map<seq<byte>, seq<byte>>) {
    forall key | key in m :: 2 * |key| + 1 < MAX_LEN && |m[key]| < MAX_LEN
  }

  ghost predicate Bounded(t: Node) {
    forall q | Lookup(t, q).Some? :: |q| < MAX_LEN && |Lookup(t, q).value| < MAX_LEN
  }

  /** Short keys and values make a tree of bounded nodes. */
  lemma {:induction false} BoundedIsSized(t: Node)
    requires CanonOrNil(t) && Bounded(t)
    ensures Sized(t)
  {
    match t {
      case Nil =>
      case Short(k, v, _) =>
        var q := SomeKey(t);
        ShortKeys(t, q);
        if v.Full? {
          forall p | Lookup(v, p).Some? ensures |p| < MAX_LEN && |Lookup(v, p).value| < MAX_LEN {
            BelowShort(k, v, p);
          }
          BoundedIsSized(v);
        } else {
          BelowShort(k, v, []);
          assert Lookup(v, []) == Some(v.data) && Lookup(t, k + []).Some?;
        }
      case Full(ch, _) =>
        forall i | 0 <= i < 17 ensures Sized(ch[i]) {
          forall p | Lookup(ch[i], p).Some? ensures |p| < MAX_LEN && |Lookup(ch[i], p).value| < MAX_LEN {
            BelowFull(ch, i, p);
          }
          if i < 16 {
            BoundedIsSized(ch[i]);
          } else if ch[i] != Nil {
            assert Lookup(ch[i], []) == Some(ch[i].data);
          }
        }
    }
  }

  lemma HoldsSized(t: Node, m: map<seq<byte>, seq<byte>>)
    requires Holds(t, m) && Fits(m)
    ensures Sized(t)
  {
    forall q | Lookup(t, q).Some? ensures |q| < MAX_LEN && |Lookup(t, q).value| < MAX_LEN {
      var key :| q == KeyToHex(key);
      assert key in m;
    }
    BoundedIsSized(t);
  }
}
