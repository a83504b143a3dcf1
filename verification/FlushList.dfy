/** trie/trie_db.go, trie/trie_db_cleaner.go: the flush list, threaded by hashes through the
    cached nodes in the order in which they were inserted. */
module FlushList {
  import opened Bytes
  import opened Nodes
  import opened NodeEncode

  type uint32 = x: int | 0 <= x < 0x1_0000_0000

  type uint16 = x: int | 0 <= x < 0x1_0000

  /** `cachedNode` */
  datatype Cached = Cached(node: Raw, parents: uint32, children: Option<map<Hash, uint16>>, prev: Hash, next: Hash)

  datatype Db = Db(dirties: map<Hash, Cached>, oldest: Hash, newest: Hash)

  type Dirties = map<Hash, Cached>

  function SetPrev(d: Dirties, h: Hash, prev: Hash): Dirties
    requires h in d
  {
    d[h := d[h].(prev := prev)]
  }

  function SetNext(d: Dirties, h: Hash, next: Hash): Dirties
    requires h in d
  {
    d[h := d[h].(next := next)]
  }

  /** The neighbours that unlinking a node writes to are cached. */
  predicate Neighbours(s: Db, h: Hash) {
    && h in s.dirties
    && (h == s.oldest || s.dirties[h].prev in s.dirties)
    && ((h == s.newest && h != s.oldest) || s.dirties[h].next in s.dirties)
  }

  /** Taking a node out of the flush list. */
  function Unlink(s: Db, h: Hash): Db
    requires Neighbours(s, h)
  {
    var n := s.dirties[h];
    if h == s.oldest then Db(SetPrev(s.dirties, n.next, ZERO_HASH), n.next, s.newest)
    else if h == s.newest then Db(SetNext(s.dirties, n.prev, ZERO_HASH), s.oldest, n.prev)
    else Db(SetPrev(SetNext(s.dirties, n.prev, n.next), n.next, n.prev), s.oldest, s.newest)
  }

  /** Putting a new node at the end of the list. */
  function Append(s: Db, h: Hash, e: Cached): Db
    requires s.oldest == ZERO_HASH || s.newest in s.dirties
  {
    var d := s.dirties[h := e.(prev := s.newest, next := ZERO_HASH)];
    if s.oldest == ZERO_HASH then Db(d, h, h) else Db(SetNext(d, s.newest, h), s.oldest, h)
  }

  predicate Distinct(list: seq<Hash>) {
    forall i, j | 0 <= i < j < |list| :: list[i] != list[j]
  }

  /** The node at position `i` is linked to those after and before it. */
  ghost predicate LinkAt(s: Db, list: seq<Hash>, i: nat)
    requires i < |list|
  {
    && list[i] in s.dirties && list[i] != ZERO_HASH
    && s.dirties[list[i]].next == (if i + 1 < |list| then list[i + 1] else ZERO_HASH)
    && (i > 0 ==> s.dirties[list[i]].prev == list[i - 1])
  }

  /** The list threaded through the cache: `next` links every node to the one after it, `prev`
      all but the oldest to the one before.  The oldest node's `prev`, and `newest` of an empty
      list, may be stale.  `away` are cached nodes on their way out. */
  ghost predicate Linked(s: Db, list: seq<Hash>, away: set<Hash>) {
    && ZERO_HASH in s.dirties
    && Distinct(list)
    && (forall i: nat | i < |list| :: LinkAt(s, list, i))
    && (forall h :: h in list <==> h in s.dirties && h != ZERO_HASH && h !in away)
    && (if list == [] then s.oldest == ZERO_HASH else s.oldest == list[0] && s.newest == list[|list| - 1])
  }

  /** The same nodes, but for the links. */
  predicate SameNodes(a: Dirties, b: Dirties) {
    && a.Keys == b.Keys
    && forall h | h in a :: b[h] == a[h].(prev := b[h].prev, next := b[h].next)
  }

  function Without(list: seq<Hash>, i: nat): seq<Hash>
    requires i < |list|
  {
    list[..i] + list[i + 1..]
  }

  lemma LinkedNeighbours(s: Db, list: seq<Hash>, away: set<Hash>, i: nat)
    requires Linked(s, list, away) && i < |list|
    ensures Neighbours(s, list[i])
    ensures list[i] == s.oldest <==> i == 0
    ensures list[i] == s.newest <==> i == |list| - 1
    ensures LinkAt(s, list, i)
  {
    assert LinkAt(s, list, i);
    assert i + 1 < |list| ==> LinkAt(s, list, i + 1);
    assert i > 0 ==> LinkAt(s, list, i - 1);
  }

  lemma WithoutIs(list: seq<Hash>, i: nat)
    requires i < |list| && Distinct(list)
    ensures var r := Without(list, i);
      && |r| == |list| - 1 && Distinct(r)
      && (forall h :: h in r <==> h in list && h != list[i])
  {
    var r := Without(list, i);
    forall h | h in list && h != list[i] ensures h in r {
      var j :| 0 <= j < |list| && list[j] == h;
      assert r[if j < i then j else j - 1] == h;
    }
  }

  function NthOrZero(list: seq<Hash>, m: nat): Hash {
    if m < |list| then list[m] else ZERO_HASH
  }

  lemma WithoutAt(list: seq<Hash>, i: nat, k: nat)
    requires i < |list|
    ensures |Without(list, i)| == |list| - 1
    ensures NthOrZero(Without(list, i), k) == NthOrZero(list, if k < i then k else k + 1)
  {
  }

  /** What unlinking does to the links of a node that stays. */
  lemma UnlinkLinks(s: Db, list: seq<Hash>, away: set<Hash>, i: nat, j: nat)
    requires Linked(s, list, away) && i < |list| && j < |list| && j != i
    ensures Neighbours(s, list[i])
    ensures var d := Unlink(s, list[i]).dirties;
      && list[j] in d && list[j] != ZERO_HASH
      && d[list[j]].next == NthOrZero(list, if j + 1 == i then i + 1 else j + 1)
      && (j > 0 && j != i + 1 ==> d[list[j]].prev == list[j - 1])
      && (j == i + 1 && i > 0 ==> d[list[j]].prev == list[i - 1])
  {
    hide Linked, Unlink;
    LinkedNeighbours(s, list, away, i);
    LinkedNeighbours(s, list, away, j);
    LinkedApart(s, list, away);
    UnlinkAt(s, list[i], list[j]);
  }

  /** What unlinking does to the links of another node. */
  lemma UnlinkAt(s: Db, h: Hash, g: Hash)
    requires Neighbours(s, h) && g in s.dirties && g != h
    ensures var n, d := s.dirties[h], Unlink(s, h).dirties;
      && g in d
      && d[g].next == (if h == s.oldest || g != n.prev then s.dirties[g].next else if h == s.newest then ZERO_HASH else n.next)
      && d[g].prev == (if g != n.next then s.dirties[g].prev else if h == s.oldest then ZERO_HASH
                       else if h == s.newest then s.dirties[g].prev else n.prev)
  {
  }

  lemma LinkedApart(s: Db, list: seq<Hash>, away: set<Hash>)
    requires Linked(s, list, away)
    ensures Distinct(list) && ZERO_HASH in s.dirties
    ensures forall h :: h in list <==> h in s.dirties && h != ZERO_HASH && h !in away
    ensures if list == [] then s.oldest == ZERO_HASH else s.oldest == list[0] && s.newest == list[|list| - 1]
  {
  }

  lemma UnlinkEnds(s: Db, list: seq<Hash>, away: set<Hash>, i: nat)
    requires Linked(s, list, away) && i < |list|
    ensures Neighbours(s, list[i])
    ensures var s' := Unlink(s, list[i]);
      && SameNodes(s.dirties, s'.dirties)
      && s'.oldest == (if i > 0 then list[0] else if |list| > 1 then list[1] else ZERO_HASH)
      && (|list| > 1 ==> s'.newest == list[if i == |list| - 1 then i - 1 else |list| - 1])
  {
    LinkedNeighbours(s, list, away, i);
  }

  lemma UnlinkLinkAt(s: Db, list: seq<Hash>, away: set<Hash>, i: nat, k: nat)
    requires Linked(s, list, away) && i < |list| && k < |list| - 1
    ensures Neighbours(s, list[i])
    ensures LinkAt(Unlink(s, list[i]), Without(list, i), k)
  {
    hide Unlink, Linked, Neighbours, Without, SetPrev, SetNext;
    var j := if k < i then k else k + 1;
    UnlinkLinks(s, list, away, i, j);
    WithoutAt(list, i, k);
    WithoutAt(list, i, k + 1);
    if k > 0 {
      WithoutAt(list, i, k - 1);
    }
  }

  /** Unlinking takes exactly this node out, wherever it is in the list. */
  lemma UnlinkKeepsList(s: Db, list: seq<Hash>, away: set<Hash>, i: nat)
    requires Linked(s, list, away) && i < |list|
    ensures Neighbours(s, list[i])
    ensures Linked(Unlink(s, list[i]), Without(list, i), away + {list[i]})
    ensures SameNodes(s.dirties, Unlink(s, list[i]).dirties)
  {
    hide Unlink, Neighbours, LinkAt;
    WithoutIs(list, i);
    UnlinkEnds(s, list, away, i);
    var s', r := Unlink(s, list[i]), Without(list, i);
    forall k: nat | k < |r| ensures LinkAt(s', r, k) {
      UnlinkLinkAt(s, list, away, i, k);
    }
  }

  lemma DropAway(s: Db, list: seq<Hash>, away: set<Hash>, h: Hash)
    requires Linked(s, list, away) && h in away && h != ZERO_HASH
    ensures Linked(s.(dirties := s.dirties - {h}), list, away - {h})
  {
    var s' := s.(dirties := s.dirties - {h});
    forall i: nat | i < |list| ensures LinkAt(s', list, i) {
      assert LinkAt(s, list, i) && list[i] in list;
    }
  }

  lemma AppendKeepsList(s: Db, list: seq<Hash>, h: Hash, e: Cached)
    requires Linked(s, list, {}) && h !in s.dirties
    ensures s.oldest == ZERO_HASH || s.newest in s.dirties
    ensures Linked(Append(s, h, e), list + [h], {})
    ensures var d := Append(s, h, e).dirties;
      && d.Keys == s.dirties.Keys + {h} && SameNodes(s.dirties, d - {h})
      && d[h] == e.(prev := d[h].prev, next := d[h].next)
  {
    LinkedApart(s, list, {});
    var list', s' := list + [h], Append(s, h, e);
    assert list != [] ==> s.newest in list && s.oldest in list;
    AppendIs(s, h, e);
    hide Append, LinkAt;
    forall i: nat | i < |list'| ensures LinkAt(s', list', i) {
      AppendLinkAt(s, list, h, e, i);
    }
    forall g ensures g in list' <==> g in s'.dirties && g != ZERO_HASH {
      assert g in list <==> g in s.dirties && g != ZERO_HASH;
    }
  }

  lemma AppendIs(s: Db, h: Hash, e: Cached)
    requires (s.oldest == ZERO_HASH || s.newest in s.dirties) && h !in s.dirties
    ensures var s' := Append(s, h, e);
      && s'.dirties.Keys == s.dirties.Keys + {h} && SameNodes(s.dirties, s'.dirties - {h})
      && s'.dirties[h] == e.(prev := s.newest, next := ZERO_HASH)
      && s'.oldest == (if s.oldest == ZERO_HASH then h else s.oldest) && s'.newest == h
  {
  }

  lemma AppendLinkAt(s: Db, list: seq<Hash>, h: Hash, e: Cached, i: nat)
    requires Linked(s, list, {}) && h !in s.dirties && i <= |list|
    ensures s.oldest == ZERO_HASH || s.newest in s.dirties
    ensures LinkAt(Append(s, h, e), list + [h], i)
  {
    hide Linked, Append;
    LinkedApart(s, list, {});
    assert list != [] ==> s.newest in list && s.oldest in list;
    var n := |list|;
    AppendIs(s, h, e);
    if i < n {
      LinkedNeighbours(s, list, {}, i);
      AppendNode(s, h, e, list[i]);
    }
  }

  lemma AppendNode(s: Db, h: Hash, e: Cached, g: Hash)
    requires (s.oldest == ZERO_HASH || s.newest in s.dirties) && h !in s.dirties && g in s.dirties
    ensures var d := Append(s, h, e).dirties;
      && g in d && d[g].prev == s.dirties[g].prev
      && d[g].next == if s.oldest != ZERO_HASH && g == s.newest then h else s.dirties[g].next
  {
  }

  /** Changes that leave the links alone leave the list alone. */
  lemma LinkedSame(s: Db, s': Db, list: seq<Hash>, away: set<Hash>)
    requires Linked(s, list, away) && s'.oldest == s.oldest && s'.newest == s.newest
    requires s'.dirties.Keys == s.dirties.Keys
    requires forall h | h in s.dirties :: s'.dirties[h].prev == s.dirties[h].prev && s'.dirties[h].next == s.dirties[h].next
    ensures Linked(s', list, away)
  {
    forall i: nat | i < |list| ensures LinkAt(s', list, i) {
      assert LinkAt(s, list, i);
    }
  }

  // ---------------------------------------------------------------- walking the list

  /** Following `next` for at most `n` nodes. */
  function Walk(s: Db, h: Hash, n: nat): seq<Hash>
    decreases n
  {
    if n == 0 || h == ZERO_HASH || h !in s.dirties then [] else [h] + Walk(s, s.dirties[h].next, n - 1)
  }

  lemma {:induction false} WalkRest(s: Db, list: seq<Hash>, i: nat, n: nat)
    requires Linked(s, list, {}) && i <= |list| && n >= |list| - i
    ensures Walk(s, if i < |list| then list[i] else ZERO_HASH, n) == list[i..]
    decreases |list| - i
  {
    hide Linked;
    if i < |list| {
      LinkedNeighbours(s, list, {}, i);
      WalkRest(s, list, i + 1, n - 1);
      assert list[i..] == [list[i]] + list[i + 1..];
    }
  }

  /** From the oldest node, `next` leads through every cached node once and stops at the
      newest. */
  lemma WalkVisitsAll(s: Db, list: seq<Hash>, n: nat)
    requires Linked(s, list, {}) && n >= |list|
    ensures var w := Walk(s, s.oldest, n);
      && Distinct(w) && (forall h :: h in w <==> h in s.dirties && h != ZERO_HASH)
      && (w != [] ==> w[|w| - 1] == s.newest)
  {
    WalkRest(s, list, 0, n);
    assert list[0..] == list;
  }
}
