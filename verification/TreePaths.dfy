/** The capture hooks of `insert` and `delete`: each reports exactly the paths at which nodes
    appear or disappear, through splits, merges and reductions. */
module TreePaths {
  import opened Bytes
  import opened HexKeys
  import opened Nodes
  import opened TrieOps
  import opened TreeFacts

  /** A short or full node, not a value, sits at this path. */
  predicate NodeAt(t: Node, p: seq<byte>) {
    match t
    case Short(k, v, _) => p == [] || (IsPrefix(k, p) && NodeAt(v, p[|k|..]))
    case Full(ch, _) => p == [] || (p[0] < |ch| && NodeAt(ch[p[0]], p[1..]))
    case _ => false
  }

  predicate Distinct(events: seq<Event>) {
    forall i, j | 0 <= i < j < |events| :: events[i] != events[j]
  }

  predicate Below(prefix: seq<byte>, events: seq<Event>) {
    forall e | e in events :: !e.OnRead? && IsPrefix(prefix, e.path)
  }

  lemma PrefixCancel(prefix: seq<byte>, p: seq<byte>, q: seq<byte>)
    ensures prefix + p == prefix + q <==> p == q
    ensures IsPrefix(prefix, prefix + p)
  {
    assert (prefix + p)[|prefix|..] == p && (prefix + q)[|prefix|..] == q;
  }

  /** Paths of the subtree below `k`, seen from above it. */
  lemma SubPath(prefix: seq<byte>, k: seq<byte>, p: seq<byte>)
    ensures IsPrefix(prefix + k, prefix + p) <==> IsPrefix(k, p)
    ensures IsPrefix(k, p) ==> prefix + p == prefix + k + p[|k|..]
  {
    if |k| <= |p| {
      assert (prefix + p)[..|prefix + k|] == prefix + p[..|k|];
      PrefixCancel(prefix, p[..|k|], k);
    }
    if IsPrefix(k, p) {
      assert p == k + p[|k|..];
    }
  }

  lemma BelowTrans(a: seq<byte>, b: seq<byte>, events: seq<Event>)
    requires Below(a + b, events)
    ensures Below(a, events)
  {
    forall e | e in events ensures IsPrefix(a, e.path) {
      PrefixOfSum(a, b, e.path);
    }
  }

  lemma OneNibble(i: byte, p: seq<byte>)
    ensures IsPrefix([i], p) <==> p != [] && p[0] == i
  {
    if p != [] {
      assert p[..1] == [p[0]];
    }
  }

  // ---------------------------------------------------------------- insert

  predicate Inserts(events: seq<Event>) {
    forall e | e in events :: e.OnInsert?
  }

  lemma AttachNodes(prefix: seq<byte>, k: seq<byte>, v: Node, p: seq<byte>)
    ensures NodeAt(Attach(prefix, k, v).node, p) <==> (k != [] && p == []) || (IsPrefix(k, p) && NodeAt(v, p[|k|..]))
    ensures Attach(prefix, k, v).events == if k == [] then [] else [OnInsert(prefix)]
  {
    assert k == [] ==> p[0..] == p;
  }

  lemma BranchNodes(i: byte, a: Node, j: byte, b: Node, p: seq<byte>)
    requires i <= 16 && j <= 16 && i != j
    ensures NodeAt(Full(EMPTY_CHILDREN[i := a][j := b], NEW), p)
       <==> p == [] || (p[0] == j && NodeAt(b, p[1..])) || (p[0] == i && NodeAt(a, p[1..]))
  {
    var ch := EMPTY_CHILDREN[i := a][j := b];
    assert p != [] && p[0] <= 16 && p[0] != i && p[0] != j ==> ch[p[0]] == Nil;
  }

  /** Which paths a split adds. */
  predicate SplitAdds(nk: seq<byte>, key: seq<byte>, m: nat, p: seq<byte>)
    requires m < |nk| && m < |key|
  {
    || (nk[m + 1..] != [] && p == nk[..m + 1])
    || (key[m + 1..] != [] && p == key[..m + 1])
    || (m > 0 && p == key[..m])
  }

  function InsertIf(b: bool, p: seq<byte>): seq<Event> {
    if b then [OnInsert(p)] else []
  }

  lemma SplitEventsAre(prefix: seq<byte>, nk: seq<byte>, nv: Node, key: seq<byte>, v: seq<byte>, m: nat)
    requires m < |nk| && m < |key| && nk[m] <= 16 && key[m] <= 16
    ensures Split(prefix, nk, nv, key, v, m).events
         == InsertIf(nk[m + 1..] != [], prefix + nk[..m + 1]) + InsertIf(key[m + 1..] != [], prefix + key[..m + 1])
            + InsertIf(m > 0, prefix + key[..m])
  {
  }

  lemma OneMoreEvent(events: seq<Event>, prefix: seq<byte>, e: Event)
    requires Below(prefix, events) && Distinct(events) && e !in events && !e.OnRead? && IsPrefix(prefix, e.path)
    ensures Below(prefix, events + [e]) && Distinct(events + [e])
  {
  }

  lemma OneMoreInsert(events: seq<Event>, prefix: seq<byte>, b: bool, p: seq<byte>)
    requires Inserts(events) && Below(prefix, events) && Distinct(events) && OnInsert(p) !in events && IsPrefix(prefix, p)
    ensures var events' := events + InsertIf(b, p);
      && Inserts(events') && Below(prefix, events') && Distinct(events')
      && forall w :: OnInsert(w) in events' <==> OnInsert(w) in events || (b && w == p)
  {
    hide Below, Distinct;
    if b {
      OneMoreEvent(events, prefix, OnInsert(p));
    } else {
      assert events + [] == events;
    }
  }

  lemma ThreeInserts(x: bool, p: seq<byte>, y: bool, q: seq<byte>, z: bool, r: seq<byte>, prefix: seq<byte>)
    requires p != q && p != r && q != r && IsPrefix(prefix, p) && IsPrefix(prefix, q) && IsPrefix(prefix, r)
    ensures var events := InsertIf(x, p) + InsertIf(y, q) + InsertIf(z, r);
      && Inserts(events) && Below(prefix, events) && Distinct(events)
      && forall w :: OnInsert(w) in events <==> (x && w == p) || (y && w == q) || (z && w == r)
  {
    hide InsertIf;
    assert [] + InsertIf(x, p) == InsertIf(x, p);
    OneMoreInsert([], prefix, x, p);
    OneMoreInsert(InsertIf(x, p), prefix, y, q);
    OneMoreInsert(InsertIf(x, p) + InsertIf(y, q), prefix, z, r);
  }

  lemma SplitEvents(prefix: seq<byte>, nk: seq<byte>, nv: Node, key: seq<byte>, v: seq<byte>, m: nat, p: seq<byte>)
    requires m < |nk| && m < |key| && nk[m] != key[m] && nk[m] <= 16 && key[m] <= 16 && nk[..m] == key[..m]
    ensures var r := Split(prefix, nk, nv, key, v, m);
      && (OnInsert(prefix + p) in r.events <==> SplitAdds(nk, key, m, p))
      && Inserts(r.events) && Below(prefix, r.events) && Distinct(r.events)
  {
    hide Split, InsertIf, Inserts, Below, Distinct;
    var a, b, c := nk[..m + 1], key[..m + 1], key[..m];
    assert a[m] != b[m];
    SplitEventsAre(prefix, nk, nv, key, v, m);
    PrefixCancel(prefix, p, a);
    PrefixCancel(prefix, p, b);
    PrefixCancel(prefix, p, c);
    PrefixCancel(prefix, a, b);
    PrefixCancel(prefix, c, a);
    PrefixCancel(prefix, c, b);
    ThreeInserts(nk[m + 1..] != [], prefix + a, key[m + 1..] != [], prefix + b, m > 0, prefix + c, prefix);
  }

  lemma SplitNodesAre(prefix: seq<byte>, nk: seq<byte>, nv: Node, key: seq<byte>, v: seq<byte>, m: nat, p: seq<byte>)
    requires m < |nk| && m < |key| && nk[m] <= 16 && key[m] <= 16
    ensures var a := Attach(prefix + nk[..m + 1], nk[m + 1..], nv).node;
      var b := Attach(prefix + key[..m + 1], key[m + 1..], Value(v)).node;
      var branch := Full(EMPTY_CHILDREN[nk[m] := a][key[m] := b], NEW);
      NodeAt(Split(prefix, nk, nv, key, v, m).node, p)
      <==> p == [] || (IsPrefix(key[..m], p) && NodeAt(branch, p[m..]))
    ensures NodeAt(Short(nk, nv, NEW), p) <==> p == [] || (IsPrefix(nk, p) && NodeAt(nv, p[|nk|..]))
    ensures forall q :: !NodeAt(Value(v), q)
  {
    hide Attach;
    assert m == 0 ==> p[m..] == p && key[..m] == [];
  }

  lemma OneMore(s: seq<byte>, m: nat, p: seq<byte>)
    requires m < |s| && m < |p| && IsPrefix(s[..m], p)
    ensures p == s[..m + 1] <==> p[m] == s[m] && p[m + 1..] == []
  {
    if p[m] == s[m] && |p| == m + 1 {
      assert p == p[..m] + [p[m]];
    }
  }

  lemma SplitNodes(prefix: seq<byte>, nk: seq<byte>, nv: Node, key: seq<byte>, v: seq<byte>, m: nat, p: seq<byte>)
    requires m < |nk| && m < |key| && nk[m] != key[m] && nk[m] <= 16 && key[m] <= 16 && nk[..m] == key[..m]
    ensures NodeAt(Split(prefix, nk, nv, key, v, m).node, p)
       <==> NodeAt(Short(nk, nv, NEW), p) || SplitAdds(nk, key, m, p)
    ensures SplitAdds(nk, key, m, p) ==> !NodeAt(Short(nk, nv, NEW), p)
  {
    var a := Attach(prefix + nk[..m + 1], nk[m + 1..], nv).node;
    var b := Attach(prefix + key[..m + 1], key[m + 1..], Value(v)).node;
    hide NodeAt, Split, Attach;
    SplitNodesAre(prefix, nk, nv, key, v, m, p);
    PrefixSplit(nk, m, p);
    SplitNotBelow(nk, key, m, p);
    if IsPrefix(key[..m], p) {
      BranchNodes(nk[m], a, key[m], b, p[m..]);
      if |p| > m {
        assert p[m..][0] == p[m];
        DropDrop(p, m, 1);
        AttachNodes(prefix + nk[..m + 1], nk[m + 1..], nv, p[m + 1..]);
        AttachNodes(prefix + key[..m + 1], key[m + 1..], Value(v), p[m + 1..]);
        OneMore(nk, m, p);
        OneMore(key, m, p);
      } else {
        assert p == key[..m];
      }
    }
  }

  lemma SplitNotBelow(nk: seq<byte>, key: seq<byte>, m: nat, p: seq<byte>)
    requires m < |nk| && m < |key| && nk[m] != key[m] && nk[..m] == key[..m]
    ensures SplitAdds(nk, key, m, p) ==> p != [] && !IsPrefix(nk, p)
    ensures SplitAdds(nk, key, m, p) ==> IsPrefix(key[..m], p)
    ensures SplitAdds(nk, key, m, p) && |p| > m ==> p[m + 1..] == [] && (p[m] == nk[m] || p[m] == key[m])
  {
    if p == key[..m + 1] && |nk| == m + 1 {
      assert nk[..m + 1][m] == nk[m] && p[m] == key[m];
    }
    assert nk[..m + 1][..m] == nk[..m] && key[..m + 1][..m] == key[..m];
  }

  /** What an insertion below `prefix` makes of the node at one path. */
  predicate Adds(t: Node, r: Outcome, prefix: seq<byte>, p: seq<byte>) {
    && (NodeAt(r.node, p) <==> NodeAt(t, p) || OnInsert(prefix + p) in r.events)
    && (OnInsert(prefix + p) in r.events ==> !NodeAt(t, p))
    && Inserts(r.events) && Below(prefix, r.events) && Distinct(r.events)
  }

  lemma AddsShort(nk: seq<byte>, nv: Node, f: Flag, prefix: seq<byte>, r: Outcome, p: seq<byte>)
    requires nk != [] && r.fail.None? && Adds(nv, r, prefix + nk, if IsPrefix(nk, p) then p[|nk|..] else [])
    requires !r.dirty ==> r.node == nv
    ensures Adds(Short(nk, nv, f), InsertAfter(Short(nk, nv, f), Short(nk, r.node, NEW), r), prefix, p)
  {
    BelowTrans(prefix, nk, r.events);
    SubPath(prefix, nk, p);
    NotOutside(prefix, nk, r.events, p);
  }

  /** Events below a longer prefix say nothing of other paths. */
  lemma NotOutside(prefix: seq<byte>, step: seq<byte>, events: seq<Event>, p: seq<byte>)
    requires Below(prefix + step, events)
    ensures !IsPrefix(step, p) ==> OnInsert(prefix + p) !in events && OnDelete(prefix + p) !in events
  {
    SubPath(prefix, step, p);
    assert !IsPrefix(step, p) ==> forall e | e in events :: e.path != prefix + p;
  }

  lemma AddsFull(ch: seq<Node>, f: Flag, prefix: seq<byte>, i: byte, r: Outcome, p: seq<byte>)
    requires |ch| == 17 && i <= 16 && r.fail.None? && Adds(ch[i], r, prefix + [i], if p != [] then p[1..] else [])
    requires !r.dirty ==> r.node == ch[i]
    ensures Adds(Full(ch, f), InsertAfter(Full(ch, f), Full(ch[i := r.node], NEW), r), prefix, p)
  {
    BelowTrans(prefix, [i], r.events);
    SubPath(prefix, [i], p);
    OneNibble(i, p);
  }

  lemma AddsNew(prefix: seq<byte>, key: seq<byte>, v: seq<byte>, p: seq<byte>)
    requires key != []
    ensures Adds(Nil, Attach(prefix, key, Value(v)), prefix, p)
  {
    AttachNodes(prefix, key, Value(v), p);
    PrefixCancel(prefix, p, []);
    assert prefix + [] == prefix;
  }

  lemma AddsSplit(nk: seq<byte>, nv: Node, f: Flag, prefix: seq<byte>, key: seq<byte>, v: seq<byte>, m: nat, p: seq<byte>)
    requires m < |nk| && m < |key| && nk[m] != key[m] && nk[m] <= 16 && key[m] <= 16 && nk[..m] == key[..m]
    ensures Adds(Short(nk, nv, f), Split(prefix, nk, nv, key, v, m), prefix, p)
  {
    hide Split, SplitAdds;
    SplitEvents(prefix, nk, nv, key, v, m, p);
    SplitNodes(prefix, nk, nv, key, v, m, p);
    assert NodeAt(Short(nk, nv, f), p) == NodeAt(Short(nk, nv, NEW), p);
  }

  /** `insert` reports exactly the nodes it adds, each once. */
  lemma {:induction false} InsertEvents(t: Node, prefix: seq<byte>, key: seq<byte>, v: seq<byte>, p: seq<byte>)
    requires TreeAt(t, key) && v != []
    ensures At(t, key) && Adds(t, Insert(NOWHERE, t, prefix, key, v), prefix, p)
    decreases |key|
  {
    hide Insert, Adds, InsertAfter, Split, StoreOk;
    NoStore();
    TreeIsAt(t, key);
    if key == [] {
      AddsValue(t, prefix, v, p);
    } else {
      InsertNew(t, prefix, key, v);
      match t {
        case Nil =>
          AddsNew(prefix, key, v, p);
        case Short(nk, nv, f) =>
          var m := PrefixLen(key, nk);
          if m == |nk| {
            EdgeStep(nk, nv, key);
            TreeIsAt(nv, key[m..]);
            InsertCanon(nv, prefix + nk, key[m..], v);
            InsertEvents(nv, prefix + nk, key[m..], v, if IsPrefix(nk, p) then p[m..] else []);
            InsertBelowShort(NOWHERE, t, prefix, key, v);
            AddsShort(nk, nv, f, prefix, Insert(NOWHERE, nv, prefix + nk, key[m..], v), p);
          } else {
            InsertIsSplit(NOWHERE, t, prefix, key, v);
            AddsSplit(nk, nv, f, prefix, key, v, m, p);
          }
        case Full(ch, f) =>
          BranchStep(ch, key);
          var i := key[0];
          TreeIsAt(ch[i], key[1..]);
          InsertCanon(ch[i], prefix + [i], key[1..], v);
          InsertEvents(ch[i], prefix + [i], key[1..], v, if p != [] then p[1..] else []);
          InsertBelowFull(NOWHERE, t, prefix, key, v);
          AddsFull(ch, f, prefix, i, Insert(NOWHERE, ch[i], prefix + [i], key[1..], v), p);
      }
    }
  }

  lemma AddsValue(t: Node, prefix: seq<byte>, v: seq<byte>, p: seq<byte>)
    requires StoreOk(NOWHERE) && TreeAt(t, []) && At(t, [])
    ensures Adds(t, Insert(NOWHERE, t, prefix, [], v), prefix, p)
  {
  }

  // ---------------------------------------------------------------- delete

  predicate Deletes(events: seq<Event>) {
    forall e | e in events :: e.OnDelete?
  }

  lemma JoinNodes(k: seq<byte>, ck: seq<byte>, cv: Node, p: seq<byte>)
    requires k != [] && ck != []
    ensures NodeAt(Short(k + ck, cv, NEW), p)
       <==> p == [] || (IsPrefix(k, p) && p != k && NodeAt(Short(ck, cv, NEW), p[|k|..]))
  {
    if IsPrefix(k + ck, p) {
      PrefixOfSum(k, ck, p);
      DropDrop(p, |k|, |ck|);
    }
    if IsPrefix(k, p) {
      assert p == k + p[|k|..];
      if IsPrefix(ck, p[|k|..]) {
        assert p[..|k + ck|] == k + p[|k|..][..|ck|];
        DropDrop(p, |k|, |ck|);
      }
    }
  }

  /** What a deletion below `prefix` makes of the node at one path. */
  predicate Drops(t: Node, r: Outcome, prefix: seq<byte>, p: seq<byte>) {
    && (NodeAt(r.node, p) <==> NodeAt(t, p) && OnDelete(prefix + p) !in r.events)
    && (OnDelete(prefix + p) in r.events ==> NodeAt(t, p))
    && Deletes(r.events) && Below(prefix, r.events) && Distinct(r.events)
  }

  lemma OneMoreDelete(events: seq<Event>, prefix: seq<byte>, p: seq<byte>)
    requires Deletes(events) && Below(prefix, events) && Distinct(events) && OnDelete(p) !in events && IsPrefix(prefix, p)
    ensures var events' := events + [OnDelete(p)];
      Deletes(events') && Below(prefix, events') && Distinct(events')
  {
    OneMoreEvent(events, prefix, OnDelete(p));
  }

  /** The reduction takes away the last child's node, if it was a short node. */
  lemma ReduceEvents(ch: seq<Node>, i: byte, prefix: seq<byte>, events: seq<Event>, p: seq<byte>)
    requires Canon(Full(ch, NEW)) && i <= 16 && StoreOk(NOWHERE)
    requires Deletes(events) && Below(prefix + [i], events) && Distinct(events)
    ensures var r, t := Reduce(NOWHERE, prefix, ch[i := Nil], events), Full(ch[i := Nil], NEW);
      && (NodeAt(r.node, p) <==> NodeAt(t, p) && (OnDelete(prefix + p) in r.events ==> OnDelete(prefix + p) in events))
      && (OnDelete(prefix + p) in events ==> OnDelete(prefix + p) in r.events)
      && (OnDelete(prefix + p) in r.events && OnDelete(prefix + p) !in events ==> NodeAt(t, p))
      && Deletes(r.events) && Below(prefix, r.events) && Distinct(r.events)
  {
    var ch' := ch[i := Nil];
    ReduceIs(prefix, ch', events);
    SoleIs(ch', 0, -1);
    var pos := Sole(ch', 0, -1);
    BelowTrans(prefix, [i], events);
    hide Reduce, Sole, Canon, Deletes, Below, Distinct;
    if pos >= 0 {
      assert pos != i;
      OneNibble(pos, p);
      OneNibble(i, [pos]);
      NotOutside(prefix, [i], events, [pos]);
      PrefixCancel(prefix, p, [pos]);
      PrefixCancel(prefix, [pos], p);
      OnlyChild(ch', pos, p);
      if pos != 16 && ch'[pos].Short? {
        ChildKey(ch, pos);
        JoinNodes([pos], ch'[pos].key, ch'[pos].val, p);
        OneMoreDelete(events, prefix, prefix + [pos]);
      }
    }
  }

  lemma ChildKey(ch: seq<Node>, pos: nat)
    requires Canon(Full(ch, NEW)) && pos < 16 && ch[pos].Short?
    ensures ch[pos].key != []
  {
  }

  /** The nodes below a branch with one child. */
  lemma OnlyChild(ch: seq<Node>, pos: byte, p: seq<byte>)
    requires |ch| == 17 && pos <= 16 && forall j | 0 <= j < 17 && j != pos :: ch[j] == Nil
    ensures NodeAt(Full(ch, NEW), p) <==> p == [] || (p[0] == pos && NodeAt(ch[pos], p[1..]))
    ensures NodeAt(Short([pos], ch[pos], NEW), p) <==> NodeAt(Full(ch, NEW), p)
    ensures ch[pos].Short? ==> NodeAt(Full(ch, NEW), [pos])
    ensures p == [pos] <==> p != [] && p[0] == pos && p[1..] == []
    ensures ch[pos].Short? && p != [] && p[0] == pos ==>
      (NodeAt(Short(ch[pos].key, ch[pos].val, NEW), p[1..]) <==> NodeAt(ch[pos], p[1..]))
  {
    OneNibble(pos, p);
    assert [pos][1..] == [];
    assert p != [] && p[0] < 17 && p[0] != pos ==> ch[p[0]] == Nil;
  }

  lemma DropsShort(nk: seq<byte>, nv: Node, f: Flag, prefix: seq<byte>, r: Outcome, p: seq<byte>)
    requires nk != [] && r.fail.None? && Drops(nv, r, prefix + nk, if IsPrefix(nk, p) then p[|nk|..] else [])
    requires Drops(nv, r, prefix + nk, []) && (!r.dirty ==> r.node == nv)
    requires r.dirty && r.node.Short? ==> r.node.key != []
    ensures Drops(Short(nk, nv, f), ShortAfter(Short(nk, nv, f), prefix, r), prefix, p)
  {
    BelowTrans(prefix, nk, r.events);
    SubPath(prefix, nk, p);
    NotOutside(prefix, nk, r.events, p);
    if r.dirty && r.node.Short? {
      assert prefix + nk + [] == prefix + nk;
      MergeEvents(nk, nv, r.node.key, r.node.val, prefix, r.events, p);
    }
  }

  lemma DropsFull(ch: seq<Node>, prefix: seq<byte>, i: byte, r: Outcome, p: seq<byte>)
    requires Canon(Full(ch, NEW)) && i <= 16 && StoreOk(NOWHERE)
    requires r.fail.None? && Drops(ch[i], r, prefix + [i], if p != [] then p[1..] else [])
    requires !r.dirty ==> r.node == ch[i]
    ensures Drops(Full(ch, NEW), FullAfter(NOWHERE, Full(ch, NEW), prefix, i, r), prefix, p)
  {
    hide Reduce;
    BelowTrans(prefix, [i], r.events);
    SubPath(prefix, [i], p);
    OneNibble(i, p);
    NotOutside(prefix, [i], r.events, p);
    if r.dirty && r.node == Nil {
      ReduceEvents(ch, i, prefix, r.events, p);
    }
  }

  lemma DropsLeaf(nk: seq<byte>, nv: Node, f: Flag, prefix: seq<byte>, p: seq<byte>)
    requires nv.Value?
    ensures Drops(Short(nk, nv, f), Outcome(true, Nil, None, [OnDelete(prefix)]), prefix, p)
  {
    PrefixCancel(prefix, p, []);
    assert prefix + [] == prefix;
  }

  lemma DropsNothing(t: Node, r: Outcome, prefix: seq<byte>, p: seq<byte>)
    requires r.events == [] && (r.node == t || (r.node.Nil? && t.Value?))
    ensures Drops(t, r, prefix, p)
  {
  }

  /** `delete` reports exactly the nodes it takes away, each once. */
  lemma {:induction false} DeleteEvents(t: Node, prefix: seq<byte>, key: seq<byte>, p: seq<byte>)
    requires TreeAt(t, key)
    ensures At(t, key) && Drops(t, Delete(NOWHERE, t, prefix, key), prefix, p)
    decreases |key|
  {
    hide Delete, Drops, ShortAfter, FullAfter, StoreOk;
    NoStore();
    TreeIsAt(t, key);
    DeleteSimple(t, prefix, key);
    match t {
      case Short(nk, nv, f) =>
        var m := PrefixLen(key, nk);
        if m == |nk| < |key| {
          EdgeStep(nk, nv, key);
          TreeIsAt(nv, key[m..]);
          DeleteCanon(nv, prefix + nk, key[m..]);
          DeleteEvents(nv, prefix + nk, key[m..], if IsPrefix(nk, p) then p[m..] else []);
          DeleteEvents(nv, prefix + nk, key[m..], []);
          DeleteBelowShort(NOWHERE, t, prefix, key);
          DropsShort(nk, nv, f, prefix, Delete(NOWHERE, nv, prefix + nk, key[m..]), p);
        } else if m == |nk| {
          EdgeStep(nk, nv, key);
          DropsLeaf(nk, nv, f, prefix, p);
        } else {
          DropsNothing(t, Delete(NOWHERE, t, prefix, key), prefix, p);
        }
      case Full(ch, f) =>
        BranchStep(ch, key);
        var i := key[0];
        TreeIsAt(ch[i], key[1..]);
        DeleteCanon(ch[i], prefix + [i], key[1..]);
        DeleteEvents(ch[i], prefix + [i], key[1..], if p != [] then p[1..] else []);
        DeleteBelowFull(NOWHERE, t, prefix, key);
        DropsFull(ch, prefix, i, Delete(NOWHERE, ch[i], prefix + [i], key[1..]), p);
      case Nil =>
        DropsNothing(t, Delete(NOWHERE, t, prefix, key), prefix, p);
      case Value(_) =>
        DropsNothing(t, Delete(NOWHERE, t, prefix, key), prefix, p);
    }
  }

  /** The child, reduced to a short node, merges into the one above it. */
  lemma MergeEvents(nk: seq<byte>, nv: Node, ck: seq<byte>, cv: Node, prefix: seq<byte>, events: seq<Event>, p: seq<byte>)
    requires nk != [] && ck != []
    requires Deletes(events) && Below(prefix, events) && Distinct(events)
    requires OnDelete(prefix + p) in events ==> IsPrefix(nk, p) && NodeAt(nv, p[|nk|..])
    requires IsPrefix(nk, p) ==>
               (NodeAt(Short(ck, cv, NEW), p[|nk|..]) <==> NodeAt(nv, p[|nk|..]) && OnDelete(prefix + p) !in events)
    requires OnDelete(prefix + nk) !in events && NodeAt(nv, [])
    ensures var events' := events + [OnDelete(prefix + nk)];
      && (NodeAt(Short(nk + ck, cv, NEW), p) <==> NodeAt(Short(nk, nv, NEW), p) && OnDelete(prefix + p) !in events')
      && (OnDelete(prefix + p) in events' ==> NodeAt(Short(nk, nv, NEW), p))
      && Deletes(events') && Below(prefix, events') && Distinct(events')
  {
    JoinNodes(nk, ck, cv, p);
    PrefixCancel(prefix, p, nk);
    PrefixCancel(prefix, nk, nk);
    OneMoreDelete(events, prefix, prefix + nk);
    hide Deletes, Below, Distinct;
    if IsPrefix(nk, p) {
      assert p == nk + p[|nk|..];
    }
  }

  // ---------------------------------------------------------------- the tracked sets

  ghost function NodePaths(t: Node): iset<seq<byte>> {
    iset p | NodeAt(t, p)
  }

  /** What the capture sets mean: the paths of nodes there now and not when tracking began,
      and the reverse. */
  ghost predicate Exact(insert: set<seq<byte>>, delete: set<seq<byte>>, then_: iset<seq<byte>>, now: iset<seq<byte>>) {
    forall p ::
      && (p in insert <==> p in now && p !in then_)
      && (p in delete <==> p in then_ && p !in now)
  }

  /** Every event changes the set of nodes. */
  ghost predicate Legal(now: iset<seq<byte>>, events: seq<Event>)
    decreases |events|
  {
    events == [] ||
    match events[0]
    case OnInsert(p) => p !in now && Legal(now + iset{p}, events[1..])
    case OnDelete(p) => p in now && Legal(now - iset{p}, events[1..])
    case OnRead(_, _) => Legal(now, events[1..])
  }

  ghost function After(now: iset<seq<byte>>, events: seq<Event>): iset<seq<byte>>
    decreases |events|
  {
    if events == [] then now
    else
      match events[0]
      case OnInsert(p) => After(now + iset{p}, events[1..])
      case OnDelete(p) => After(now - iset{p}, events[1..])
      case OnRead(_, _) => After(now, events[1..])
  }

  lemma {:induction false} InsertsAreLegal(now: iset<seq<byte>>, events: seq<Event>)
    requires Inserts(events) && Distinct(events)
    requires forall e | e in events :: e.path !in now
    ensures Legal(now, events)
    ensures forall p :: p in After(now, events) <==> p in now || OnInsert(p) in events
    decreases |events|
  {
    if events != [] {
      var e, rest := events[0], events[1..];
      forall f | f in rest ensures f.path !in now + iset{e.path} {
        var i :| 0 <= i < |rest| && rest[i] == f;
        assert events[0] != events[i + 1];
      }
      assert forall i, j | 0 <= i < j < |rest| :: rest[i] == events[i + 1] && rest[j] == events[j + 1];
      InsertsAreLegal(now + iset{e.path}, rest);
      assert events == [e] + rest;
    }
  }

  lemma {:induction false} DeletesAreLegal(now: iset<seq<byte>>, events: seq<Event>)
    requires Deletes(events) && Distinct(events)
    requires forall e | e in events :: e.path in now
    ensures Legal(now, events)
    ensures forall p :: p in After(now, events) <==> p in now && OnDelete(p) !in events
    decreases |events|
  {
    if events != [] {
      var e, rest := events[0], events[1..];
      forall f | f in rest ensures f.path in now - iset{e.path} {
        var i :| 0 <= i < |rest| && rest[i] == f;
        assert events[0] != events[i + 1] && f in events && e in events;
        assert f == OnDelete(f.path) && e == OnDelete(e.path);
      }
      assert forall i, j | 0 <= i < j < |rest| :: rest[i] == events[i + 1] && rest[j] == events[j + 1];
      DeletesAreLegal(now - iset{e.path}, rest);
      assert events == [e] + rest;
      assert e == OnDelete(e.path);
      forall p ensures p in After(now, events) <==> p in now && OnDelete(p) !in events {
        assert OnDelete(p) in events <==> OnDelete(p) == e || OnDelete(p) in rest;
      }
    }
  }

  /** An insertion into a tree is a legal series of events that leads to the new tree. */
  lemma InsertTracks(t: Node, key: seq<byte>, v: seq<byte>)
    requires HexKey(key) && CanonOrNil(t) && v != []
    ensures At(t, key)
    ensures var r := Insert(NOWHERE, t, [], key, v);
      Legal(NodePaths(t), r.events) && After(NodePaths(t), r.events) == NodePaths(r.node)
  {
    TreeIsAt(t, key);
    var r := Insert(NOWHERE, t, [], key, v);
    forall p
      ensures NodeAt(r.node, p) <==> NodeAt(t, p) || OnInsert(p) in r.events
      ensures OnInsert(p) in r.events ==> !NodeAt(t, p)
      ensures Inserts(r.events) && Distinct(r.events)
    {
      InsertEvents(t, [], key, v, p);
      assert [] + p == p;
    }
    forall e | e in r.events ensures e.path !in NodePaths(t) {
      assert e == OnInsert(e.path);
    }
    InsertsAreLegal(NodePaths(t), r.events);
  }

  lemma DeleteTracks(t: Node, key: seq<byte>)
    requires HexKey(key) && CanonOrNil(t)
    ensures At(t, key)
    ensures var r := Delete(NOWHERE, t, [], key);
      Legal(NodePaths(t), r.events) && After(NodePaths(t), r.events) == NodePaths(r.node)
  {
    TreeIsAt(t, key);
    var r := Delete(NOWHERE, t, [], key);
    forall p
      ensures NodeAt(r.node, p) <==> NodeAt(t, p) && OnDelete(p) !in r.events
      ensures OnDelete(p) in r.events ==> NodeAt(t, p)
      ensures Deletes(r.events) && Distinct(r.events)
    {
      DeleteEvents(t, [], key, p);
      assert [] + p == p;
    }
    forall e | e in r.events ensures e.path in NodePaths(t) {
      assert e == OnDelete(e.path);
    }
    DeletesAreLegal(NodePaths(t), r.events);
  }
}
