/** trie/trie_db.go: the reference counts of cached nodes.  A count is right when it is the
    number of references from cached nodes, inside them or explicit. */
module RefCounts {
  import opened Bytes
  import opened Nodes
  import opened NodeEncode
  import opened FlushList
  import opened Flushing

  /** How often a cached node refers to `h`. */
  function Count(e: Cached, h: Hash): nat {
    multiset(Gather(e.node))[h] + if e.children.Some? && h in e.children.value then e.children.value[h] else 0
  }

  lemma CountRefers(e: Cached, h: Hash)
    ensures Count(e, h) > 0 <==> Keeps(e, h)
    ensures Keeps(e, h) ==> Refers(e, h)
  {
  }

  function RefSum(d: Dirties, l: seq<Hash>, h: Hash): nat {
    if l == [] then 0
    else RefSum(d, l[..|l| - 1], h) + if l[|l| - 1] in d then Count(d[l[|l| - 1]], h) else 0
  }

  /** All references to `h` from the metaroot and the nodes in the list. */
  function Refs(d: Dirties, list: seq<Hash>, h: Hash): nat {
    (if ZERO_HASH in d then Count(d[ZERO_HASH], h) else 0) + RefSum(d, list, h)
  }

  /** Every count is right, but for references on their way out, and those of `loose` nodes. */
  ghost predicate Conserved(d: Dirties, list: seq<Hash>, pending: multiset<Hash>, loose: iset<Hash>) {
    forall h | h in list :: h in d && (h !in loose ==> d[h].parents == Refs(d, list, h) + pending[h])
  }

  /** The nodes whose counts are off. */
  ghost function Miscounted(d: Dirties, list: seq<Hash>): iset<Hash> {
    iset h | h in list && h in d && d[h].parents != Refs(d, list, h)
  }

  lemma MiscountedIs(d: Dirties, list: seq<Hash>, loose: iset<Hash>)
    requires forall h | h in list :: h in d
    ensures Conserved(d, list, multiset{}, loose) <==> Miscounted(d, list) <= loose
  {
    hide Refs;
    forall h: Hash ensures multiset{}[h] == 0 {
    }
  }

  /** Every reference from the cache leads to a node that is cached or on disk, and the counts
      are right. */
  ghost predicate Right(d: Dirties, list: seq<Hash>, st: Disk, loose: iset<Hash>) {
    Closed(d, st) && Conserved(d, list, multiset{}, loose)
  }

  lemma {:induction false} RefSumSame(d: Dirties, d': Dirties, l: seq<Hash>, h: Hash)
    requires forall g | g in l :: g in d && g in d' && Count(d'[g], h) == Count(d[g], h)
    ensures RefSum(d', l, h) == RefSum(d, l, h)
  {
    if l != [] {
      var n := |l| - 1;
      assert l[n] in l;
      forall g | g in l[..n] ensures g in l {
      }
      RefSumSame(d, d', l[..n], h);
    }
  }

  lemma {:induction false} RefSumWithout(d: Dirties, l: seq<Hash>, i: nat, h: Hash)
    requires i < |l| && l[i] in d
    ensures RefSum(d, l, h) == RefSum(d, Without(l, i), h) + Count(d[l[i]], h)
  {
    hide Count;
    var n := |l| - 1;
    if i == n {
      assert Without(l, i) == l[..n];
    } else {
      RefSumWithout(d, l[..n], i, h);
      assert Without(l, i)[..n - 1] == Without(l[..n], i);
      assert Without(l, i)[n - 1] == l[n];
    }
  }

  lemma {:induction false} RefSumZero(d: Dirties, l: seq<Hash>, h: Hash, g: Hash)
    requires RefSum(d, l, h) == 0 && g in l && g in d
    ensures Count(d[g], h) == 0
  {
    var n := |l| - 1;
    if l[n] != g {
      assert g in l[..n];
      RefSumZero(d, l[..n], h, g);
    }
  }

  lemma {:induction false} RefSumOne(d: Dirties, d': Dirties, l: seq<Hash>, p: Hash, h: Hash)
    requires Distinct(l) && p in l && forall g | g in l :: g in d && g in d'
    requires forall g | g in l && g != p :: Count(d'[g], h) == Count(d[g], h)
    ensures RefSum(d', l, h) - Count(d'[p], h) == RefSum(d, l, h) - Count(d[p], h)
  {
    hide Count;
    var i :| 0 <= i < |l| && l[i] == p;
    RefSumWithout(d, l, i, h);
    RefSumWithout(d', l, i, h);
    WithoutIs(l, i);
    RefSumSame(d, d', Without(l, i), h);
  }

  // ---------------------------------------------------------------- insert

  function Add32(n: uint32, m: nat): uint32 {
    (n + m) % 0x1_0000_0000
  }

  function Inc(n: uint32): uint32 {
    Add32(n, 1)
  }

  function Bump(d: Dirties, c: Hash): Dirties {
    if c in d then d[c := d[c].(parents := Inc(d[c].parents))] else d
  }

  /** The callbacks of `forChilds` on a new entry. */
  function Bumped(d: Dirties, cs: seq<Hash>): (r: Dirties)
    ensures r.Keys == d.Keys
  {
    if cs == [] then d else Bump(Bumped(d, cs[..|cs| - 1]), cs[|cs| - 1])
  }

  lemma IncAdd(a: uint32, m: nat)
    ensures Inc(Add32(a, m)) == Add32(a, m + 1)
    ensures Add32(a, 0) == a
  {
  }

  lemma {:induction false} BumpedAt(d: Dirties, cs: seq<Hash>, h: Hash)
    ensures h in Bumped(d, cs) <==> h in d
    ensures h in d ==>
      Bumped(d, cs)[h] == d[h].(parents := Add32(d[h].parents, multiset(cs)[h]))
  {
    hide Add32, Inc;
    if h in d {
      IncAdd(d[h].parents, 0);
    }
    if cs != [] {
      var n := |cs| - 1;
      BumpedAt(d, cs[..n], h);
      assert cs == cs[..n] + [cs[n]];
      if h in d {
        IncAdd(d[h].parents, multiset(cs[..n])[h]);
      }
    }
  }

  lemma BumpedIs(d: Dirties, cs: seq<Hash>)
    ensures Bumped(d, cs).Keys == d.Keys
    ensures forall h | h in d ::
      Bumped(d, cs)[h] == d[h].(parents := Add32(d[h].parents, multiset(cs)[h]))
  {
    hide Bumped;
    forall h ensures h in Bumped(d, cs) <==> h in d {
      BumpedAt(d, cs, h);
    }
    forall h | h in d
      ensures Bumped(d, cs)[h] == d[h].(parents := Add32(d[h].parents, multiset(cs)[h]))
    {
      BumpedAt(d, cs, h);
    }
  }

  /** `insert` */
  function Inserted(s: Db, h: Hash, node: Raw): Db {
    if h in s.dirties || !(s.oldest == ZERO_HASH || s.newest in s.dirties) then s
    else Append(s.(dirties := Bumped(s.dirties, Gather(node))), h, Cached(node, 0, None, ZERO_HASH, ZERO_HASH))
  }

  function ListAfter(s: Db, list: seq<Hash>, h: Hash): seq<Hash> {
    if h in s.dirties then list else list + [h]
  }

  lemma NewestCached(s: Db, list: seq<Hash>)
    requires Linked(s, list, {})
    ensures s.oldest == ZERO_HASH || s.newest in s.dirties
  {
    if list != [] {
      assert list[|list| - 1] in list;
    }
  }

  /** An insertion adds one node at the end of the list, and changes of the others only their
      counts and links. */
  lemma InsertedIs(s: Db, list: seq<Hash>, h: Hash, node: Raw)
    requires Linked(s, list, {})
    ensures s.oldest == ZERO_HASH || s.newest in s.dirties
    ensures var s' := Inserted(s, h, node);
      && Linked(s', ListAfter(s, list, h), {})
      && s'.dirties.Keys == s.dirties.Keys + {h}
      && (forall g | g in s.dirties ::
            s'.dirties[g].node == s.dirties[g].node && s'.dirties[g].children == s.dirties[g].children)
      && (h !in s.dirties ==>
            && s'.dirties[h].node == node && s'.dirties[h].children.None? && s'.dirties[h].parents == 0
            && forall g | g in s.dirties ::
                 s'.dirties[g].parents == Add32(s.dirties[g].parents, multiset(Gather(node))[g]))
  {
    hide Linked, Append, Bumped, Gather;
    NewestCached(s, list);
    if h !in s.dirties {
      hide Inserted;
      InsertedParts(s, list, h, node);
    } else {
      LinkedKeys(s, list);
      assert s.dirties.Keys + {h} == s.dirties.Keys;
    }
  }

  lemma InsertedParts(s: Db, list: seq<Hash>, h: Hash, node: Raw)
    requires Linked(s, list, {}) && (s.oldest == ZERO_HASH || s.newest in s.dirties) && h !in s.dirties
    ensures var s' := Inserted(s, h, node);
      && Linked(s', list + [h], {})
      && s'.dirties.Keys == s.dirties.Keys + {h}
      && (forall g | g in s.dirties ::
            && s'.dirties[g].node == s.dirties[g].node && s'.dirties[g].children == s.dirties[g].children
            && s'.dirties[g].parents == Add32(s.dirties[g].parents, multiset(Gather(node))[g]))
      && s'.dirties[h].node == node && s'.dirties[h].children.None? && s'.dirties[h].parents == 0
  {
    hide *;
    var cs := Gather(node);
    var e := Cached(node, 0, None, ZERO_HASH, ZERO_HASH);
    var s1 := s.(dirties := Bumped(s.dirties, cs));
    BumpedIs(s.dirties, cs);
    InsertedNew(s, h, node);
    LinkedSame(s, s1, list, {});
    AppendKeepsList(s1, list, h, e);
    var d := Append(s1, h, e).dirties;
    assert d[h].node == node && d[h].children.None? && d[h].parents == 0;
    forall g | g in s.dirties
      ensures g in d && d[g].node == s.dirties[g].node && d[g].children == s.dirties[g].children
      ensures d[g].parents == Add32(s.dirties[g].parents, multiset(cs)[g])
    {
      assert g in s1.dirties;
      AppendSame(s1, h, e, g);
    }
  }

  lemma InsertedNew(s: Db, h: Hash, node: Raw)
    requires (s.oldest == ZERO_HASH || s.newest in s.dirties) && h !in s.dirties
    ensures Inserted(s, h, node)
         == Append(s.(dirties := Bumped(s.dirties, Gather(node))), h, Cached(node, 0, None, ZERO_HASH, ZERO_HASH))
  {
  }

  lemma AppendSame(s: Db, h: Hash, e: Cached, g: Hash)
    requires (s.oldest == ZERO_HASH || s.newest in s.dirties) && h !in s.dirties && g in s.dirties
    ensures g in Append(s, h, e).dirties
    ensures var x, y := s.dirties[g], Append(s, h, e).dirties[g];
      y.node == x.node && y.children == x.children && y.parents == x.parents
  {
  }

  /** Inserting a node keeps the counts right exactly when no cached node refers to it yet and
      no count overflows. */
  lemma InsertConserved(s: Db, list: seq<Hash>, h: Hash, node: Raw, loose: iset<Hash>)
    requires Linked(s, list, {}) && h !in s.dirties && Conserved(s.dirties, list, multiset{}, loose)
    requires h !in Gather(node)
    ensures Conserved(Inserted(s, h, node).dirties, list + [h], multiset{}, loose) <==>
      && (h !in loose ==> Refs(s.dirties, list, h) == 0)
      && (forall c | c in list && c !in loose :: Refs(s.dirties, list, c) + multiset(Gather(node))[c] < 0x1_0000_0000)
  {
    hide *;
    LinkedKeys(s, list);
    InsertedIs(s, list, h, node);
    ListAfterNew(s, list, h);
    var d, d' := s.dirties, Inserted(s, h, node).dirties;
    forall c ensures Refs(d', list + [h], c) == Refs(d, list, c) + multiset(Gather(node))[c] {
      InsertRefs(d, d', list, h, c);
    }
    assert forall c | c in list :: c in d && c in d' && d'[c].parents == Add32(d[c].parents, multiset(Gather(node))[c]);
    InsertedCounts(d, d', list, h, Gather(node), loose);
  }

  /** The cache over the disk stays closed exactly when what the node refers to is there. */
  lemma InsertClosed(s: Db, list: seq<Hash>, st: Disk, h: Hash, node: Raw)
    requires Linked(s, list, {}) && h !in s.dirties && Closed(s.dirties, st) && h !in Gather(node)
    ensures Closed(Inserted(s, h, node).dirties, st) <==> forall c | c in Gather(node) :: c in s.dirties || c in st
  {
    hide Linked, Inserted, Gather;
    InsertedIs(s, list, h, node);
    var d, d' := s.dirties, Inserted(s, h, node).dirties;
    if forall c | c in Gather(node) :: c in d || c in st {
      forall g, c | g in d' && Keeps(d'[g], c) ensures c in d' || c in st {
        if g in d {
          assert Keeps(d[g], c);
        }
      }
    } else {
      var c :| c in Gather(node) && c !in d && c !in st;
      assert Keeps(d'[h], c);
    }
  }

  /** When an insertion keeps everything right. */
  ghost predicate InsertFits(d: Dirties, list: seq<Hash>, st: Disk, loose: iset<Hash>, h: Hash, node: Raw) {
    h in d || (
      && (h !in loose ==> Refs(d, list, h) == 0)
      && (forall c | c in Gather(node) :: c in d || c in st)
      && (forall c | c in list && c !in loose :: Refs(d, list, c) + multiset(Gather(node))[c] < 0x1_0000_0000))
  }

  lemma InsertRight(s: Db, list: seq<Hash>, st: Disk, loose: iset<Hash>, h: Hash, node: Raw)
    requires Linked(s, list, {}) && Right(s.dirties, list, st, loose) && h !in Gather(node)
    ensures Right(Inserted(s, h, node).dirties, ListAfter(s, list, h), st, loose)
       <==> InsertFits(s.dirties, list, st, loose, h, node)
  {
    hide Linked, Inserted, Gather, Closed, Conserved, Refs;
    if h in s.dirties {
      InsertedOld(s, list, h, node);
    } else {
      InsertConserved(s, list, h, node, loose);
      InsertClosed(s, list, st, h, node);
    }
  }

  lemma InsertedOld(s: Db, list: seq<Hash>, h: Hash, node: Raw)
    requires h in s.dirties
    ensures Inserted(s, h, node) == s && ListAfter(s, list, h) == list
  {
  }

  /** Nothing refers to a node that is neither cached nor on disk. */
  lemma UnknownUnreferenced(d: Dirties, list: seq<Hash>, st: Disk, h: Hash)
    requires Closed(d, st) && ZERO_HASH in d && (forall g | g in list :: g in d) && h !in d && h !in st
    ensures Refs(d, list, h) == 0
  {
    if Refs(d, list, h) > 0 {
      var g := Referrer(d, list, h);
      CountRefers(d[g], h);
    }
  }

  /** Where a reference comes from. */
  lemma Referrer(d: Dirties, list: seq<Hash>, h: Hash) returns (g: Hash)
    requires Refs(d, list, h) > 0
    ensures (g == ZERO_HASH || g in list) && g in d && Count(d[g], h) > 0
  {
    hide Count;
    if ZERO_HASH in d && Count(d[ZERO_HASH], h) > 0 {
      g := ZERO_HASH;
    } else {
      g := SumReferrer(d, list, h);
    }
  }

  lemma {:induction false} SumReferrer(d: Dirties, list: seq<Hash>, h: Hash) returns (g: Hash)
    requires RefSum(d, list, h) > 0
    ensures g in list && g in d && Count(d[g], h) > 0
  {
    hide Count;
    var n := |list| - 1;
    if list[n] in d && Count(d[list[n]], h) > 0 {
      g := list[n];
    } else {
      g := SumReferrer(d, list[..n], h);
    }
  }

  lemma LinkedKeys(s: Db, list: seq<Hash>)
    requires Linked(s, list, {})
    ensures ZERO_HASH in s.dirties && Distinct(list)
    ensures forall h :: h in list <==> h in s.dirties && h != ZERO_HASH
  {
  }

  lemma InsertedCounts(d: Dirties, d': Dirties, list: seq<Hash>, h: Hash, cs: seq<Hash>, loose: iset<Hash>)
    requires h !in list && h in d' && d'[h].parents == 0 && Conserved(d, list, multiset{}, loose) && h !in cs
    requires forall c | c in list :: c in d && c in d' && d'[c].parents == Add32(d[c].parents, multiset(cs)[c])
    requires forall c :: Refs(d', list + [h], c) == Refs(d, list, c) + multiset(cs)[c]
    ensures Conserved(d', list + [h], multiset{}, loose) <==>
      && (h !in loose ==> Refs(d, list, h) == 0)
      && (forall c | c in list && c !in loose :: Refs(d, list, c) + multiset(cs)[c] < 0x1_0000_0000)
  {
    hide Refs;
    var l' := list + [h];
    assert l'[|list|] == h;
    assert forall c :: c in l' <==> c in list || c == h;
    forall c | c in list && c !in loose
      ensures d'[c].parents == Refs(d', l', c) <==> Refs(d, list, c) + multiset(cs)[c] < 0x1_0000_0000
    {
      assert d[c].parents == Refs(d, list, c) + multiset{}[c];
      AddExact(d[c].parents, multiset(cs)[c]);
    }
    hide Add32;
    if Conserved(d', l', multiset{}, loose) {
      forall c | c in l' && c !in loose ensures d'[c].parents == Refs(d', l', c) {
        assert d'[c].parents == Refs(d', l', c) + multiset{}[c];
      }
      assert h !in loose ==> d'[h].parents == Refs(d', l', h);
    }
  }

  lemma AddExact(n: uint32, m: nat)
    ensures Add32(n, m) == n + m <==> n + m < 0x1_0000_0000
  {
  }

  lemma InsertRefs(d: Dirties, d': Dirties, list: seq<Hash>, h: Hash, c: Hash)
    requires ZERO_HASH in d && h != ZERO_HASH && h !in d && d'.Keys == d.Keys + {h} && forall g | g in list :: g in d
    requires forall g | g in d :: d'[g].node == d[g].node && d'[g].children == d[g].children
    requires d'[h].children.None?
    ensures Refs(d', list + [h], c) == Refs(d, list, c) + multiset(Gather(d'[h].node))[c]
  {
    assert (list + [h])[..|list|] == list;
    RefSumSame(d, d', list, c);
  }

  lemma ListAfterNew(s: Db, list: seq<Hash>, h: Hash)
    requires h !in s.dirties
    ensures ListAfter(s, list, h) == list + [h]
  {
  }

  // ---------------------------------------------------------------- reference

  /** `reference`: the explicit link from an account to its storage trie. */
  function Referenced(d: Dirties, child: Hash, parent: Hash): Dirties
    requires parent in d && child != parent
  {
    if child !in d then d
    else
      var cs := if d[parent].children.Some? then d[parent].children.value else map[];
      if child in cs && parent != ZERO_HASH then d
      else
        var n: int := if child in cs then cs[child] else 0;
        d[child := d[child].(parents := Inc(d[child].parents))]
         [parent := d[parent].(children := Some(cs[child := (n + 1) % 0x1_0000]))]
  }

  /** Explicit references of nodes other than the metaroot are single. */
  ghost predicate Single(d: Dirties) {
    forall p, c | p in d && p != ZERO_HASH && d[p].children.Some? && c in d[p].children.value :: d[p].children.value[c] == 1
  }

  /** When a reference keeps everything right: it is not new, or nothing overflows. */
  ghost predicate ReferenceFits(d: Dirties, list: seq<Hash>, loose: iset<Hash>, child: Hash, parent: Hash)
    requires parent in d
  {
    || child !in d || child in loose
    || (parent != ZERO_HASH && d[parent].children.Some? && child in d[parent].children.value)
    || (Refs(d, list, child) + 1 < 0x1_0000_0000 && Explicit(d[parent], child) + 1 < 0x1_0000)
  }

  lemma ReferenceRight(s: Db, list: seq<Hash>, st: Disk, loose: iset<Hash>, child: Hash, parent: Hash)
    requires Linked(s, list, {}) && parent in s.dirties && child != parent && child != ZERO_HASH
    requires Right(s.dirties, list, st, loose)
    ensures Right(Referenced(s.dirties, child, parent), list, st, loose)
       <==> ReferenceFits(s.dirties, list, loose, child, parent)
  {
    hide Linked, Referenced, Refs, Count, Conserved, Gather, Explicit;
    var d := s.dirties;
    ReferenceIsNew(d, child, parent);
    if Referenced(d, child, parent) != d {
      LinkedKeys(s, list);
      ReferenceConserved(d, list, child, parent, loose);
      ReferencedClosed(d, st, child, parent);
    }
  }

  lemma ReferencedClosed(d: Dirties, st: Disk, child: Hash, parent: Hash)
    requires parent in d && child in d && child != parent && Closed(d, st)
    ensures Closed(Referenced(d, child, parent), st)
  {
    hide Referenced, Gather;
    var d' := Referenced(d, child, parent);
    ReferencedIs(d, child, parent);
    forall h, c | h in d' && Keeps(d'[h], c) ensures c in d' || c in st {
      assert c == child || Keeps(d[h], c);
    }
  }

  lemma ReferenceIsNew(d: Dirties, child: Hash, parent: Hash)
    requires parent in d && child != parent
    ensures Referenced(d, child, parent) == d <==>
      child !in d || (parent != ZERO_HASH && d[parent].children.Some? && child in d[parent].children.value)
  {
    if child in d {
      IncIsNew(d[child].parents);
    }
  }

  lemma IncIsNew(n: uint32)
    ensures Inc(n) != n
  {
  }

  lemma ReferenceConserved(d: Dirties, list: seq<Hash>, child: Hash, parent: Hash, loose: iset<Hash>)
    requires ZERO_HASH in d && parent in d && child in list && child != parent && Referenced(d, child, parent) != d
    requires Distinct(list) && (forall g | g in list :: g in d && g != ZERO_HASH) && (parent in list || parent == ZERO_HASH)
    requires Conserved(d, list, multiset{}, loose)
    ensures Conserved(Referenced(d, child, parent), list, multiset{}, loose) <==>
      child in loose || (Refs(d, list, child) + 1 < 0x1_0000_0000 && Explicit(d[parent], child) + 1 < 0x1_0000)
  {
    hide Referenced, Refs, Count, Explicit, Inc;
    var d' := Referenced(d, child, parent);
    ReferencedIs(d, child, parent);
    forall h | h in list && h !in loose && h != child ensures d'[h].parents == Refs(d', list, h) {
      assert d[h].parents == Refs(d, list, h) + multiset{}[h];
      ReferenceRefs(d, d', list, child, parent, h);
    }
    ReferenceRefs(d, d', list, child, parent, child);
    if child !in loose {
      assert d[child].parents == Refs(d, list, child) + multiset{}[child];
      OverflowShows(d[child].parents, Explicit(d[parent], child));
      assert Conserved(d', list, multiset{}, loose) ==> d'[child].parents == Refs(d', list, child) + multiset{}[child];
    }
  }

  /** A count that is one too high or wraps never agrees with references that went up by one or
      wrapped. */
  lemma OverflowShows(n: uint32, m: uint16)
    ensures Inc(n) == n + (m + 1) % 0x1_0000 - m <==> n + 1 < 0x1_0000_0000 && m + 1 < 0x1_0000
  {
  }

  lemma ReferenceRefs(d: Dirties, d': Dirties, list: seq<Hash>, child: Hash, parent: Hash, h: Hash)
    requires ZERO_HASH in d && parent in d && child in d && child != parent && d' == Referenced(d, child, parent) && d' != d
    requires Distinct(list) && (forall g | g in list :: g in d && g != ZERO_HASH) && (parent in list || parent == ZERO_HASH)
    ensures Refs(d', list, h) ==
      Refs(d, list, h) + if h == child then (Explicit(d[parent], child) + 1) % 0x1_0000 - Explicit(d[parent], child) else 0
  {
    ReferencedIs(d, child, parent);
    forall g | g in d && g != parent ensures Count(d'[g], h) == Count(d[g], h) {
    }
    ReferencedCount(d, child, parent, h);
    hide Count, Referenced, Explicit;
    if parent == ZERO_HASH {
      RefSumSame(d, d', list, h);
    } else {
      RefSumOne(d, d', list, parent, h);
    }
  }

  /** A reference changes the child's count and the parent's children. */
  lemma ReferencedIs(d: Dirties, child: Hash, parent: Hash)
    requires parent in d && child != parent
    ensures var d' := Referenced(d, child, parent);
      && d'.Keys == d.Keys
      && (forall g | g in d && g != parent ::
            d'[g] == d[g].(parents := if d' != d && g == child then Inc(d[g].parents) else d[g].parents))
      && d'[parent] == d[parent].(children := d'[parent].children)
      && (d' == d && child in d ==> Refers(d[parent], child))
      && (d' != d ==> child in d && d'[parent].children.Some? && child in d'[parent].children.value)
      && (d' != d && parent != ZERO_HASH ==> d'[parent].children.value[child] == 1)
      && (forall c | d'[parent].children.Some? && c in d'[parent].children.value && c != child ::
            d[parent].children.Some? && c in d[parent].children.value
            && d'[parent].children.value[c] == d[parent].children.value[c])
  {
  }

  lemma ReferencedCount(d: Dirties, child: Hash, parent: Hash, h: Hash)
    requires parent in d && child in d && child != parent && Referenced(d, child, parent) != d
    ensures Count(Referenced(d, child, parent)[parent], h) == Count(d[parent], h) +
      if h == child then (Explicit(d[parent], child) + 1) % 0x1_0000 - Explicit(d[parent], child) else 0
  {
  }

  // ---------------------------------------------------------------- dereference

  function Explicit(e: Cached, child: Hash): uint16 {
    if e.children.Some? && child in e.children.value then e.children.value[child] else 0
  }

  /** The parent's side of `dereference`. */
  function Forgotten(e: Cached, child: Hash): Cached {
    if Explicit(e, child) == 0 then e
    else
      var n := e.children.value[child] - 1;
      e.(children := Some(if n == 0 then e.children.value - {child} else e.children.value[child := n]))
  }

  lemma ForgottenCount(e: Cached, child: Hash, h: Hash)
    ensures Count(Forgotten(e, child), h) == Count(e, h) - if h == child && Explicit(e, child) > 0 then 1 else 0
    ensures Refers(Forgotten(e, child), h) ==> Refers(e, h)
  {
  }

  /** The reference leaves the cache and is pending: the child's count still includes it. */
  lemma ForgetStep(d: Dirties, list: seq<Hash>, pending: multiset<Hash>, loose: iset<Hash>, child: Hash, parent: Hash)
    requires Conserved(d, list, pending, loose) && Distinct(list) && ZERO_HASH in d && ZERO_HASH !in list && parent in d
    ensures var held := (parent in list || parent == ZERO_HASH) && Explicit(d[parent], child) > 0;
      Conserved(d[parent := Forgotten(d[parent], child)], list, if held then pending + multiset{child} else pending, loose)
  {
    hide Count, Forgotten, Explicit;
    var d' := d[parent := Forgotten(d[parent], child)];
    var held := (parent in list || parent == ZERO_HASH) && Explicit(d[parent], child) > 0;
    var p' := if held then pending + multiset{child} else pending;
    forall h | h in list ensures h in d' && (h !in loose ==> d'[h].parents == Refs(d', list, h) + p'[h]) {
      assert h !in loose ==> d[h].parents == Refs(d, list, h) + pending[h];
      ForgottenCount(d[parent], child, h);
      ForgottenParents(d[parent], child);
      if parent in list {
        RefSumOne(d, d', list, parent, h);
      } else {
        RefSumSame(d, d', list, h);
      }
    }
  }

  lemma ForgottenParents(e: Cached, child: Hash)
    ensures Forgotten(e, child).parents == e.parents && Forgotten(e, child).node == e.node
  {
  }

  /** The child counts one reference less, but not less than none. */
  function Lowered(d: Dirties, child: Hash): Dirties
    requires child in d
  {
    if d[child].parents > 0 then d[child := d[child].(parents := d[child].parents - 1)] else d
  }

  /** The child's side: a count that is right and owed a reference is not zero yet. */
  lemma DropStep(d: Dirties, list: seq<Hash>, pending: multiset<Hash>, loose: iset<Hash>, child: Hash)
    requires Conserved(d, list, pending, loose) && child in list
    requires child in loose || pending[child] > 0 || (child in d && d[child].parents == 0)
    ensures child in d && (child !in loose && pending[child] > 0 ==> d[child].parents > 0)
    ensures Conserved(Lowered(d, child), list, pending - multiset{child}, loose)
  {
    assert child in d && (child !in loose ==> d[child].parents == Refs(d, list, child) + pending[child]);
    var d' := Lowered(d, child);
    assert forall g, h | g in d :: Count(d'[g], h) == Count(d[g], h);
    hide Count;
    forall h | h in list ensures h in d' && (h !in loose ==> d'[h].parents == Refs(d', list, h) + (pending - multiset{child})[h]) {
      assert h in d && (h !in loose ==> d[h].parents == Refs(d, list, h) + pending[h]);
      RefSumSame(d, d', list, h);
    }
  }

  /** No cached node refers to `h`. */
  ghost predicate Unreferenced(d: Dirties, list: seq<Hash>, h: Hash) {
    && (ZERO_HASH in d ==> Count(d[ZERO_HASH], h) == 0)
    && forall g | g in list && g in d :: Count(d[g], h) == 0
  }

  /** A node whose count is right and zero is not referred to; when it leaves the list, its own
      references are pending. */
  lemma LeaveStep(d: Dirties, d': Dirties, list: seq<Hash>, i: nat, pending: multiset<Hash>, loose: iset<Hash>, refs: seq<Hash>)
    requires Conserved(d, list, pending, loose) && i < |list| && Distinct(list) && ZERO_HASH in d && ZERO_HASH !in list
    requires list[i] in d && d[list[i]].parents == 0
    requires forall h :: multiset(refs)[h] == Count(d[list[i]], h)
    requires SameNodes(d, d')
    ensures Conserved(d', Without(list, i), pending + multiset(refs), loose)
    ensures list[i] !in loose ==> Unreferenced(d', Without(list, i), list[i])
  {
    hide Count;
    var l', c := Without(list, i), list[i];
    WithoutIs(list, i);
    assert c in list;
    forall g, h | g in d ensures Count(d'[g], h) == Count(d[g], h) {
      CountSame(d[g], d'[g], h);
    }
    forall h | h in list ensures h in d && (h !in loose ==> d[h].parents == Refs(d, list, h) + pending[h]) {
    }
    forall h ensures Refs(d', l', h) + Count(d[c], h) == Refs(d, list, h) {
      RefSumWithout(d, list, i, h);
      forall g | g in l' ensures g in d && g in d' {
      }
      RefSumSame(d, d', l', h);
    }
    forall h | h in l' ensures h in d' && (h !in loose ==> d'[h].parents == Refs(d', l', h) + (pending + multiset(refs))[h]) {
    }
    if c !in loose {
      forall g | g in l' && g in d' ensures Count(d'[g], c) == 0 {
        RefSumZero(d, list, c, g);
      }
    }
  }

  lemma CountSame(a: Cached, b: Cached, h: Hash)
    requires b == a.(prev := b.prev, next := b.next)
    ensures Count(b, h) == Count(a, h)
  {
  }

  lemma Dropped(d: Dirties, list: seq<Hash>, pending: multiset<Hash>, loose: iset<Hash>, h: Hash)
    requires Conserved(d, list, pending, loose) && h !in list && h != ZERO_HASH
    ensures Conserved(d - {h}, list, pending, loose)
  {
    hide Count;
    var d' := d - {h};
    forall g | g in list ensures g in d' && (g !in loose ==> d'[g].parents == Refs(d', list, g) + pending[g]) {
      assert g in d && (g !in loose ==> d[g].parents == Refs(d, list, g) + pending[g]);
      forall x | x in list ensures x in d && x in d' {
      }
      RefSumSame(d, d', list, g);
    }
  }

  /** The references of a node, one by one: its explicit children and those inside it. */
  lemma OutgoingIs(e: Cached, keys: seq<Hash>, h: Hash)
    requires Distinct(keys) && forall c :: c in keys <==> e.children.Some? && c in e.children.value
    requires e.children.Some? ==> forall c | c in e.children.value :: e.children.value[c] == 1
    ensures multiset(keys + Gather(e.node))[h] == Count(e, h)
  {
    DistinctCount(keys, h);
    assert multiset(keys + Gather(e.node)) == multiset(keys) + multiset(Gather(e.node));
  }

  lemma {:induction false} DistinctCount(keys: seq<Hash>, h: Hash)
    requires Distinct(keys)
    ensures multiset(keys)[h] == if h in keys then 1 else 0
  {
    if keys != [] {
      var n := |keys| - 1;
      DistinctCount(keys[..n], h);
      assert keys == keys[..n] + [keys[n]];
    }
  }

  // ---------------------------------------------------------------- what a cascade leaves

  /** What `dereference` makes of cache and list: nodes only leave, those that leave are not
      referred to, unless they are `loose`, and the ones that stay are as they were but for
      counts and links. */
  ghost predicate Trimmed(rank: Hash -> nat, loose: iset<Hash>, d: Dirties, l: seq<Hash>, d': Dirties, l': seq<Hash>, top: nat, parent: Hash) {
    && d'.Keys <= d.Keys && (forall h | h in l' :: h in l && h in d')
    && (forall h | h in d' :: d'[h].node == d[h].node && (h != parent ==> d'[h].children == d[h].children))
    && FewerRefs(d, d')
    && (forall h | h in d && h !in d' :: h in l && rank(h) <= top)
    && Unneeded(loose, l, d', l')
    && (forall h | h in l' && d'[h].parents == 0 :: d[h].parents == 0)
  }

  /** No node refers to another more often. */
  ghost predicate FewerRefs(d: Dirties, d': Dirties) {
    forall h, c | h in d' && h in d :: Count(d'[h], c) <= Count(d[h], c)
  }

  /** What left the list left the cache, and is not referred to, unless it is loose. */
  ghost predicate Unneeded(loose: iset<Hash>, l: seq<Hash>, d': Dirties, l': seq<Hash>) {
    forall h | h in l && h !in l' :: h !in d' && (h !in loose ==> Unreferenced(d', l', h))
  }

  lemma UnreferencedStays(d: Dirties, l: seq<Hash>, d': Dirties, l': seq<Hash>, h: Hash)
    requires Unreferenced(d, l, h) && d'.Keys <= d.Keys && FewerRefs(d, d') && forall g | g in l' :: g in l
    ensures Unreferenced(d', l', h)
  {
    hide Count;
    forall g | g in d' ensures Count(d'[g], h) <= Count(d[g], h) {
    }
  }

  lemma TrimmedTwice(rank: Hash -> nat, loose: iset<Hash>, d: Dirties, l: seq<Hash>, d1: Dirties, l1: seq<Hash>, d2: Dirties, l2: seq<Hash>,
                     top1: nat, top2: nat, top: nat, parent: Hash)
    requires Trimmed(rank, loose, d, l, d1, l1, top1, parent) && Trimmed(rank, loose, d1, l1, d2, l2, top2, parent)
    requires top1 <= top && top2 <= top
    ensures Trimmed(rank, loose, d, l, d2, l2, top, parent)
  {
    hide FewerRefs, Unneeded;
    FewerTwice(d, d1, d2);
    UnneededTwice(loose, d1, l, l1, d2, l2);
  }

  lemma FewerTwice(d: Dirties, d1: Dirties, d2: Dirties)
    requires FewerRefs(d, d1) && FewerRefs(d1, d2) && d2.Keys <= d1.Keys
    ensures FewerRefs(d, d2)
  {
    hide Count;
    forall h, c | h in d2 && h in d ensures Count(d2[h], c) <= Count(d[h], c) {
      assert Count(d1[h], c) <= Count(d[h], c);
    }
  }

  lemma UnneededTwice(loose: iset<Hash>, d1: Dirties, l: seq<Hash>, l1: seq<Hash>, d2: Dirties, l2: seq<Hash>)
    requires Unneeded(loose, l, d1, l1) && Unneeded(loose, l1, d2, l2) && FewerRefs(d1, d2)
    requires d2.Keys <= d1.Keys && forall h | h in l2 :: h in l1
    ensures Unneeded(loose, l, d2, l2)
  {
    hide Unreferenced, FewerRefs;
    forall h | h in l && h !in l2 ensures h !in d2 && (h !in loose ==> Unreferenced(d2, l2, h)) {
      if h !in l1 && h !in loose {
        UnreferencedStays(d1, l1, d2, l2, h);
      }
    }
  }

  lemma TrimmedSelf(rank: Hash -> nat, loose: iset<Hash>, d: Dirties, l: seq<Hash>, top: nat, parent: Hash)
    requires forall h | h in l :: h in d
    ensures Trimmed(rank, loose, d, l, d, l, top, parent)
  {
    hide Count;
  }

  /** The first half of `dereference`: parent and child, before the child may leave. */
  lemma HalfTrimmed(rank: Hash -> nat, loose: iset<Hash>, d: Dirties, l: seq<Hash>, child: Hash, parent: Hash, d1: Dirties, top: nat)
    requires parent in d && child != parent && forall h | h in l :: h in d
    requires d1 == d[parent := Forgotten(d[parent], child)]
    ensures Trimmed(rank, loose, d, l, d1, l, top, parent)
    ensures child in d && d[child].parents > 1 ==>
      Trimmed(rank, loose, d, l, d1[child := d1[child].(parents := d[child].parents - 1)], l, top, parent)
  {
    hide Forgotten, FewerRefs, Unneeded;
    ForgottenParents(d[parent], child);
    ForgottenFewer(d, child, parent);
    NoneUnneeded(loose, l, d1);
    assert Trimmed(rank, loose, d, l, d1, l, top, parent);
    if child in d && d[child].parents > 1 {
      LowerTrimmed(rank, loose, d, l, child, parent, d1, top, d[child].parents - 1);
    }
  }

  lemma NoneUnneeded(loose: iset<Hash>, l: seq<Hash>, d: Dirties)
    ensures Unneeded(loose, l, d, l)
  {
  }

  lemma LowerTrimmed(rank: Hash -> nat, loose: iset<Hash>, d: Dirties, l: seq<Hash>, child: Hash, parent: Hash, d1: Dirties, top: nat,
                     n: uint32)
    requires Trimmed(rank, loose, d, l, d1, l, top, parent) && child in d1 && n > 0
    ensures Trimmed(rank, loose, d, l, d1[child := d1[child].(parents := n)], l, top, parent)
  {
    hide FewerRefs, Unneeded;
    LoweredFewer(d, d1, child, n);
    NoneUnneeded(loose, l, d1[child := d1[child].(parents := n)]);
  }

  lemma ForgottenFewer(d: Dirties, child: Hash, parent: Hash)
    requires parent in d
    ensures FewerRefs(d, d[parent := Forgotten(d[parent], child)])
  {
    hide Forgotten, Count;
    forall c ensures Count(Forgotten(d[parent], child), c) <= Count(d[parent], c) {
      ForgottenCount(d[parent], child, c);
    }
  }

  lemma LoweredFewer(d: Dirties, d1: Dirties, child: Hash, n: uint32)
    requires FewerRefs(d, d1) && child in d1
    ensures FewerRefs(d, d1[child := d1[child].(parents := n)])
  {
    hide Count;
    var d2 := d1[child := d1[child].(parents := n)];
    forall h, c | h in d2 && h in d ensures Count(d2[h], c) <= Count(d[h], c) {
      CountOfParents(d1[child], n, c);
      assert Count(d1[h], c) <= Count(d[h], c);
    }
  }

  lemma CountOfParents(e: Cached, n: uint32, c: Hash)
    ensures Count(e.(parents := n), c) == Count(e, c)
  {
  }

  lemma FewerUnlessGone(d1: Dirties, d2: Dirties, d': Dirties, child: Hash)
    requires child in d1 && d2 == d1[child := d1[child].(parents := 0)] && FewerRefs(d2, d') && child !in d'
    ensures FewerRefs(d1, d')
  {
    hide Count;
    forall h, c | h in d' && h in d1 ensures Count(d'[h], c) <= Count(d1[h], c) {
      assert h in d2 && d2[h] == d1[h];
    }
  }

  /** The second half: the child's count is zero, and it leaves. */
  lemma WholeTrimmed(rank: Hash -> nat, loose: iset<Hash>, d: Dirties, l: seq<Hash>, child: Hash, parent: Hash, d1: Dirties, d2: Dirties,
                     d': Dirties, l': seq<Hash>)
    requires Trimmed(rank, loose, d, l, d1, l, rank(child), parent) && child in d1 && child != parent
    requires d2 == d1[child := d1[child].(parents := 0)]
    requires Trimmed(rank, loose, d2, l, d', l', rank(child), child) && child !in d'
    ensures Trimmed(rank, loose, d, l, d', l', rank(child), parent)
  {
    hide Unneeded, FewerRefs;
    FewerUnlessGone(d1, d2, d', child);
    assert Trimmed(rank, loose, d1, l, d', l', rank(child), parent);
    TrimmedTwice(rank, loose, d, l, d1, l, d', l', rank(child), rank(child), rank(child), parent);
  }

  lemma SameNodesAre(a: Dirties, b: Dirties)
    requires SameNodes(a, b)
    ensures b.Keys == a.Keys
    ensures forall g | g in a :: b[g].node == a[g].node && b[g].children == a[g].children && b[g].parents == a[g].parents
    ensures FewerRefs(a, b)
  {
  }

  lemma FewerStill(d3: Dirties, d4: Dirties, c: Hash)
    requires FewerRefs(d3, d4)
    ensures FewerRefs(d3, d4 - {c}) && FewerRefs(d4, d4 - {c})
  {
    hide Count;
  }

  lemma RemovedUnneeded(loose: iset<Hash>, d3: Dirties, l: seq<Hash>, i: nat, d4: Dirties, l4: seq<Hash>)
    requires i < |l| && Distinct(l) && d4.Keys <= d3.Keys && FewerRefs(d3, d4)
    requires (l[i] !in loose ==> Unreferenced(d3, Without(l, i), l[i])) && Unneeded(loose, Without(l, i), d4, l4)
    requires forall h | h in l4 :: h in Without(l, i)
    ensures Unneeded(loose, l, d4 - {l[i]}, l4)
  {
    hide Unreferenced, Without, FewerRefs;
    var c, l3, d5 := l[i], Without(l, i), d4 - {l[i]};
    WithoutIs(l, i);
    FewerStill(d3, d4, c);
    forall h | h in l && h !in l4 ensures h !in d5 && (h !in loose ==> Unreferenced(d5, l4, h)) {
      assert h == c || h in l3;
      if h !in loose {
        if h == c {
          UnreferencedStays(d3, l3, d5, l4, c);
        } else {
          UnreferencedStays(d4, l4, d5, l4, h);
        }
      }
    }
  }

  /** The child leaves the list, the nodes below it follow, and it leaves the cache. */
  lemma RemoveTrims(rank: Hash -> nat, loose: iset<Hash>, d: Dirties, l: seq<Hash>, i: nat, d3: Dirties, d4: Dirties, l4: seq<Hash>)
    requires i < |l| && Distinct(l) && (forall h | h in l :: h in d && h != ZERO_HASH) && ZERO_HASH in d
    requires SameNodes(d, d3) && (l[i] !in loose ==> Unreferenced(d3, Without(l, i), l[i]))
    requires Trimmed(rank, loose, d3, Without(l, i), d4, l4, rank(l[i]), l[i])
    ensures l[i] in d4 && Trimmed(rank, loose, d, l, d4 - {l[i]}, l4, rank(l[i]), l[i])
  {
    hide Count, Unreferenced, Without, SameNodes, FewerRefs, Unneeded;
    var c, l3, d5 := l[i], Without(l, i), d4 - {l[i]};
    WithoutIs(l, i);
    SameNodesAre(d, d3);
    assert c in l && c !in l3 && c in d3 && c in d4;
    FewerStill(d3, d4, c);
    FewerTwice(d, d3, d5);
    RemovedUnneeded(loose, d3, l, i, d4, l4);
    forall h | h in d && h !in d5 ensures h in l && rank(h) <= rank(c) {
      assert h == c || (h in d3 && h !in d4);
    }
  }

  /** The cascade never takes away a node that is still referred to, if its count is right. */
  lemma ReferencedStay(rank: Hash -> nat, loose: iset<Hash>, s: Db, l: seq<Hash>, s': Db, l': seq<Hash>, top: nat, parent: Hash, g: Hash, c: Hash)
    requires Linked(s, l, {}) && Linked(s', l', {}) && Trimmed(rank, loose, s.dirties, l, s'.dirties, l', top, parent)
    requires g in s'.dirties && Keeps(s'.dirties[g], c) && c in s.dirties && c !in loose
    ensures c in s'.dirties
  {
    CountRefers(s'.dirties[g], c);
    hide Count, Keeps;
    LinkedKeys(s', l');
    LinkedKeys(s, l);
  }

  /** So the cache over the disk stays closed, if all loose nodes are on disk. */
  lemma TrimmedClosed(rank: Hash -> nat, loose: iset<Hash>, s: Db, l: seq<Hash>, s': Db, l': seq<Hash>, top: nat, parent: Hash, st: Disk)
    requires Linked(s, l, {}) && Linked(s', l', {}) && Trimmed(rank, loose, s.dirties, l, s'.dirties, l', top, parent)
    requires Closed(s.dirties, st) && forall h | h in s.dirties && h in loose :: h in st
    ensures Closed(s'.dirties, st)
  {
    hide Linked;
    forall h, c | h in s'.dirties && Keeps(s'.dirties[h], c) ensures c in s'.dirties || c in st {
      TrimmedKeeps(rank, loose, s.dirties, l, s'.dirties, l', top, parent, h, c);
      if c in s.dirties && c !in loose {
        ReferencedStay(rank, loose, s, l, s', l', top, parent, h, c);
      }
    }
  }

  lemma TrimmedKeeps(rank: Hash -> nat, loose: iset<Hash>, d: Dirties, l: seq<Hash>, d': Dirties, l': seq<Hash>, top: nat, parent: Hash,
                     h: Hash, c: Hash)
    requires Trimmed(rank, loose, d, l, d', l', top, parent) && h in d' && Keeps(d'[h], c)
    ensures h in d && Keeps(d[h], c)
  {
    CountRefers(d'[h], c);
    CountRefers(d[h], c);
    hide Keeps;
    assert Count(d'[h], c) <= Count(d[h], c);
  }

  lemma PendingElsewhere(d: Dirties, list: seq<Hash>, p: multiset<Hash>, q: multiset<Hash>, loose: iset<Hash>, h: Hash)
    requires Conserved(d, list, p, loose) && h !in list && forall g | g != h :: q[g] == p[g]
    ensures Conserved(d, list, q, loose)
  {
    hide Refs;
  }

  /** What is right stays right when more may be loose, or a loose node is gone. */
  lemma ConservedLooser(d: Dirties, list: seq<Hash>, pending: multiset<Hash>, a: iset<Hash>, b: iset<Hash>)
    requires Conserved(d, list, pending, a) && forall h | h in list && h in a :: h in b
    ensures Conserved(d, list, pending, b)
  {
    hide Refs;
  }

  // ---------------------------------------------------------------- uncaching

  /** A node without cached children may leave: the counts of the others do not change. */
  lemma UncacheConserved(d: Dirties, d': Dirties, list: seq<Hash>, i: nat, pending: multiset<Hash>, loose: iset<Hash>)
    requires Conserved(d, list, pending, loose) && i < |list| && Distinct(list)
    requires ZERO_HASH in d && ZERO_HASH !in list && forall h | h in list :: h in d
    requires SameNodes(d, d') && forall c | Refers(d[list[i]], c) :: c !in d
    ensures Conserved(d' - {list[i]}, Without(list, i), pending, loose)
  {
    var l', h := Without(list, i), list[i];
    WithoutIs(list, i);
    forall g, x | g in d ensures Count(d'[g], x) == Count(d[g], x) {
      CountSame(d[g], d'[g], x);
    }
    forall x | x in list ensures Count(d[h], x) == 0 {
      CountRefers(d[h], x);
    }
    hide Count;
    forall x | x in l' ensures x in d' && (x !in loose ==> d'[x].parents == Refs(d', l', x) + pending[x]) {
      assert x !in loose ==> d[x].parents == Refs(d, list, x) + pending[x];
      RefSumWithout(d, list, i, x);
      forall g | g in l' ensures g in d && g in d' {
      }
      RefSumSame(d, d', l', x);
    }
    Dropped(d', l', pending, loose, h);
  }

  // ---------------------------------------------------------------- the steps of a cascade

  /** During a cascade: `away` are the nodes being taken out, `pending` the references they
      still hold.  The counts of all but the `loose` nodes are right. */
  ghost predicate CascadeOk(s: Db, list: seq<Hash>, away: set<Hash>, pending: multiset<Hash>, rank: Hash -> nat, loose: iset<Hash>) {
    && Linked(s, list, away) && MetaOk(s.dirties) && Ranked(s.dirties, rank) && Writable(s.dirties)
    && Single(s.dirties) && Conserved(s.dirties, list, pending, loose)
    && forall a | a in away :: a in s.dirties && a != ZERO_HASH
  }

  /** Changes of children and counts that add no reference keep the rest in order. */
  lemma StaysOk(s: Db, s': Db, list: seq<Hash>, away: set<Hash>, pending: multiset<Hash>, rank: Hash -> nat, loose: iset<Hash>)
    requires CascadeOk(s, list, away, pending, rank, loose)
    requires s'.oldest == s.oldest && s'.newest == s.newest && s'.dirties.Keys == s.dirties.Keys
    requires forall h | h in s.dirties ::
      s'.dirties[h] == s.dirties[h].(parents := s'.dirties[h].parents, children := s'.dirties[h].children)
    requires s'.dirties[ZERO_HASH].children.Some?
    requires forall h, c | h in s.dirties && s'.dirties[h].children.Some? && c in s'.dirties[h].children.value ::
      s.dirties[h].children.Some? && c in s.dirties[h].children.value
      && s'.dirties[h].children.value[c] <= s.dirties[h].children.value[c]
      && (h != ZERO_HASH ==> s'.dirties[h].children.value[c] > 0)
    ensures Linked(s', list, away) && MetaOk(s'.dirties) && Ranked(s'.dirties, rank) && Writable(s'.dirties) && Single(s'.dirties)
    ensures forall a | a in away :: a in s'.dirties && a != ZERO_HASH
  {
    LinkedSame(s, s', list, away);
    forall h, c | h in s'.dirties && h != ZERO_HASH && Refers(s'.dirties[h], c) ensures Lower(rank, c, h) {
      assert Refers(s.dirties[h], c);
    }
  }

  lemma AwayKeys(s: Db, list: seq<Hash>, away: set<Hash>)
    requires Linked(s, list, away)
    ensures ZERO_HASH in s.dirties && Distinct(list)
    ensures forall h :: h in list <==> h in s.dirties && h != ZERO_HASH && h !in away
  {
  }

  lemma ForgottenChildren(e: Cached, child: Hash, c: Hash)
    ensures var f := Forgotten(e, child);
      && f == e.(children := f.children) && (f.children.Some? <==> e.children.Some?)
      && (f.children.Some? && c in f.children.value ==>
            && c in e.children.value && f.children.value[c] <= e.children.value[c]
            && (f.children.value[c] == e.children.value[c] || f.children.value[c] > 0))
  {
  }

  /** The references on their way out once the parent has forgotten the child. */
  function Owed(d: Dirties, away: set<Hash>, pending: multiset<Hash>, child: Hash, parent: Hash): multiset<Hash>
    requires parent in d
  {
    if parent in away || Explicit(d[parent], child) == 0 then pending else pending + multiset{child}
  }

  /** The parent forgets the child. */
  lemma ForgetsOk(s: Db, list: seq<Hash>, away: set<Hash>, pending: multiset<Hash>, rank: Hash -> nat, loose: iset<Hash>, child: Hash, parent: Hash)
    requires CascadeOk(s, list, away, pending, rank, loose) && parent in s.dirties
    ensures CascadeOk(s.(dirties := s.dirties[parent := Forgotten(s.dirties[parent], child)]), list, away,
                      Owed(s.dirties, away, pending, child, parent), rank, loose)
  {
    hide Forgotten, Linked, Conserved, Explicit;
    AwayKeys(s, list, away);
    var s' := s.(dirties := s.dirties[parent := Forgotten(s.dirties[parent], child)]);
    assert s'.dirties[ZERO_HASH].children.Some? by {
      ForgottenChildren(s.dirties[parent], child, child);
    }
    forall h, c | h in s.dirties && s'.dirties[h].children.Some? && c in s'.dirties[h].children.value
      ensures s.dirties[h].children.Some? && c in s.dirties[h].children.value
        && s'.dirties[h].children.value[c] <= s.dirties[h].children.value[c]
        && (h != ZERO_HASH ==> s'.dirties[h].children.value[c] > 0)
    {
      if h == parent {
        ForgottenChildren(s.dirties[parent], child, c);
      }
    }
    ForgottenChildren(s.dirties[parent], child, child);
    StaysOk(s, s', list, away, pending, rank, loose);
    ForgetStep(s.dirties, list, pending, loose, child, parent);
  }

  lemma DropsOk(s: Db, list: seq<Hash>, away: set<Hash>, pending: multiset<Hash>, rank: Hash -> nat, loose: iset<Hash>, child: Hash)
    requires CascadeOk(s, list, away, pending, rank, loose)
    requires child in s.dirties && child != ZERO_HASH && child !in away
    requires child in loose || pending[child] > 0 || s.dirties[child].parents == 0
    ensures child in list
    ensures CascadeOk(s.(dirties := Lowered(s.dirties, child)), list, away, pending - multiset{child}, rank, loose)
  {
    hide Linked, Conserved, Count, Ranked, Writable, Gather;
    AwayKeys(s, list, away);
    DropStep(s.dirties, list, pending, loose, child);
    StaysOk(s, s.(dirties := Lowered(s.dirties, child)), list, away, pending, rank, loose);
  }

  /** The child leaves the list; its references are pending. */
  lemma LeavesOk(s: Db, list: seq<Hash>, away: set<Hash>, pending: multiset<Hash>, rank: Hash -> nat, loose: iset<Hash>, child: Hash, keys: seq<Hash>)
    returns (i: nat)
    requires CascadeOk(s, list, away, pending, rank, loose) && child in list && child in s.dirties && s.dirties[child].parents == 0
    requires Distinct(keys) && forall c :: c in keys <==> s.dirties[child].children.Some? && c in s.dirties[child].children.value
    ensures i < |list| && list[i] == child && Neighbours(s, child)
    ensures Distinct(list) && ZERO_HASH in s.dirties && forall h | h in list :: h in s.dirties && h != ZERO_HASH
    ensures var refs := keys + Gather(s.dirties[child].node);
      && CascadeOk(Unlink(s, child), Without(list, i), away + {child}, pending + multiset(refs), rank, loose)
      && forall r | r in refs :: Lower(rank, r, child)
    ensures SameNodes(s.dirties, Unlink(s, child).dirties) && child in Unlink(s, child).dirties
    ensures child !in loose ==> Unreferenced(Unlink(s, child).dirties, Without(list, i), child)
    ensures forall h | h in Without(list, i) :: h in Unlink(s, child).dirties
  {
    hide Linked, Unlink, Count, Without, Conserved, Neighbours, Ranked, Writable, Single, MetaOk, Gather;
    AwayKeys(s, list, away);
    i :| 0 <= i < |list| && list[i] == child;
    var refs := keys + Gather(s.dirties[child].node);
    Outgoing(s.dirties, rank, child, keys);
    UnlinkKeepsList(s, list, away, i);
    var s' := Unlink(s, child);
    AwayKeys(s', Without(list, i), away + {child});
    LeaveStep(s.dirties, s'.dirties, list, i, pending, loose, refs);
    UnlinkedOk(s.dirties, s'.dirties, rank);
  }

  lemma Outgoing(d: Dirties, rank: Hash -> nat, child: Hash, keys: seq<Hash>)
    requires Ranked(d, rank) && Single(d) && child in d && child != ZERO_HASH
    requires Distinct(keys) && forall c :: c in keys <==> d[child].children.Some? && c in d[child].children.value
    ensures var refs := keys + Gather(d[child].node);
      && (forall r | r in refs :: Lower(rank, r, child))
      && forall h :: multiset(refs)[h] == Count(d[child], h)
  {
    var refs := keys + Gather(d[child].node);
    forall r | r in refs ensures Lower(rank, r, child) {
      assert Refers(d[child], r);
    }
    forall h ensures multiset(refs)[h] == Count(d[child], h) {
      OutgoingIs(d[child], keys, h);
    }
  }

  lemma UnlinkedOk(d: Dirties, d': Dirties, rank: Hash -> nat)
    requires SameNodes(d, d') && MetaOk(d) && Ranked(d, rank) && Writable(d) && Single(d)
    ensures MetaOk(d') && Ranked(d', rank) && Writable(d') && Single(d')
  {
    forall h, c | h in d' && h != ZERO_HASH && Refers(d'[h], c) ensures Lower(rank, c, h) {
      assert Refers(d[h], c);
    }
  }

  /** The child is deleted. */
  lemma DeletesOk(s: Db, list: seq<Hash>, away: set<Hash>, pending: multiset<Hash>, rank: Hash -> nat, loose: iset<Hash>, child: Hash)
    requires CascadeOk(s, list, away + {child}, pending, rank, loose) && child !in away
    ensures CascadeOk(s.(dirties := s.dirties - {child}), list, away, pending, rank, loose)
  {
    AwayKeys(s, list, away + {child});
    DropAway(s, list, away + {child}, child);
    assert away + {child} - {child} == away;
    hide Linked, Conserved;
    Dropped(s.dirties, list, pending, loose, child);
    var d, d' := s.dirties, s.dirties - {child};
    forall h, c | h in d' && h != ZERO_HASH && Refers(d'[h], c) ensures Lower(rank, c, h) {
      assert Refers(d[h], c);
    }
  }

  lemma NotCachedOk(s: Db, list: seq<Hash>, away: set<Hash>, pending: multiset<Hash>, rest: multiset<Hash>, rank: Hash -> nat, loose: iset<Hash>, child: Hash)
    requires CascadeOk(s, list, away, pending, rank, loose) && child !in s.dirties
    requires forall g | g != child :: rest[g] == pending[g]
    ensures CascadeOk(s, list, away, rest, rank, loose)
  {
    AwayKeys(s, list, away);
    PendingElsewhere(s.dirties, list, pending, rest, loose, child);
  }

  // ---------------------------------------------------------------- a whole dereference

  /** When a `dereference` keeps everything right: the parent holds a reference to the child; or
      the child is not cached, or its count is zero or not minded; or it was the last node to
      be counted and the disk has the child. */
  ghost predicate DereferenceFits(d: Dirties, st: Disk, loose: iset<Hash>, child: Hash, parent: Hash)
    requires parent in d
  {
    || child !in d || Explicit(d[parent], child) > 0 || d[child].parents == 0 || child in loose
    || (d[child].parents == 1 && child in st)
  }

  ghost const ALL: iset<Hash> := iset h: Hash | true

  /** Nodes whose counts a `dereference` that fits need not keep right. */
  ghost function Excused(d: Dirties, st: Disk, loose: iset<Hash>, child: Hash, parent: Hash): iset<Hash>
    requires parent in d
  {
    if !DereferenceFits(d, st, loose, child, parent) then ALL
    else if child in d && d[child].parents == 1 && Explicit(d[parent], child) == 0 then loose + iset{child}
    else loose
  }

  /** The reference that is dropped is owed, or there is none to miss. */
  ghost predicate MayDrop(d: Dirties, away: set<Hash>, pending: multiset<Hash>, loose: iset<Hash>, child: Hash, parent: Hash)
    requires parent in d
  {
    child in loose || child !in d || Owed(d, away, pending, child, parent)[child] > 0 || d[child].parents == 0
  }

  /** What a whole `dereference` leaves, as far as the two nodes themselves go. */
  ghost predicate Dereferenced(d: Dirties, l: seq<Hash>, d': Dirties, l': seq<Hash>, child: Hash, parent: Hash)
    requires parent in d && child != parent
  {
    var d1 := d[parent := Forgotten(d[parent], child)];
    && (parent in d' ==> d'[parent].children == d1[parent].children)
    && (child !in d ==> d' == d1 && l' == l)
    && (child in d && d[child].parents > 1 ==> d' == Lowered(d1, child) && l' == l)
    && (child in d && d[child].parents <= 1 ==> child !in d')
  }

  /** A `dereference` keeps everything right exactly when it fits. */
  lemma DereferenceRight(s: Db, l: seq<Hash>, s': Db, l': seq<Hash>, st: Disk, rank: Hash -> nat, loose: iset<Hash>, child: Hash, parent: Hash)
    requires Linked(s, l, {}) && Linked(s', l', {}) && Ranked(s.dirties, rank) && Right(s.dirties, l, st, loose)
    requires parent in s.dirties && child != parent && child != ZERO_HASH && forall h | h in loose :: h in st
    requires var x := Excused(s.dirties, st, loose, child, parent);
      Conserved(s'.dirties, l', multiset{}, x) && Trimmed(rank, x, s.dirties, l, s'.dirties, l', rank(child), parent)
    requires Dereferenced(s.dirties, l, s'.dirties, l', child, parent)
    ensures Right(s'.dirties, l', st, loose) <==> DereferenceFits(s.dirties, st, loose, child, parent)
  {
    hide *;
    RightParts(s.dirties, l, st, loose);
    RightParts(s'.dirties, l', st, loose);
    if DereferenceFits(s.dirties, st, loose, child, parent) {
      ExcusedIs(s, l, s', l', st, loose, child, parent);
      var x := Excused(s.dirties, st, loose, child, parent);
      TrimmedClosed(rank, x, s, l, s', l', rank(child), parent, st);
      ConservedLooser(s'.dirties, l', multiset{}, x, loose);
    } else {
      Misfits(s.dirties, st, loose, child, parent);
      if s.dirties[child].parents > 1 {
        LowersWrongly(s, l, s', l', loose, child, parent);
      } else {
        LosesReferred(s, l, s', l', st, rank, loose, Excused(s.dirties, st, loose, child, parent), child, parent);
      }
    }
  }

  lemma RightParts(d: Dirties, list: seq<Hash>, st: Disk, loose: iset<Hash>)
    ensures Right(d, list, st, loose) <==> Closed(d, st) && Conserved(d, list, multiset{}, loose)
  {
  }

  lemma ExcusedIs(s: Db, l: seq<Hash>, s': Db, l': seq<Hash>, st: Disk, loose: iset<Hash>, child: Hash, parent: Hash)
    requires parent in s.dirties && child != parent && DereferenceFits(s.dirties, st, loose, child, parent)
    requires Linked(s', l', {}) && Dereferenced(s.dirties, l, s'.dirties, l', child, parent)
    requires forall h | h in loose :: h in st
    ensures forall h | h in Excused(s.dirties, st, loose, child, parent) :: h in st
    ensures forall h | h in l' && h in Excused(s.dirties, st, loose, child, parent) :: h in loose
  {
  }

  lemma Misfits(d: Dirties, st: Disk, loose: iset<Hash>, child: Hash, parent: Hash)
    requires parent in d && !DereferenceFits(d, st, loose, child, parent)
    ensures child in d && child !in loose && d[child].parents > 0 && Forgotten(d[parent], child) == d[parent]
    ensures d[child].parents > 1 || child !in st
  {
  }

  /** The count is lowered although all references are still there. */
  lemma LowersWrongly(s: Db, l: seq<Hash>, s': Db, l': seq<Hash>, loose: iset<Hash>, child: Hash, parent: Hash)
    requires Linked(s, l, {}) && Conserved(s.dirties, l, multiset{}, loose) && parent in s.dirties && child != parent
    requires child in s.dirties && child != ZERO_HASH && child !in loose && s.dirties[child].parents > 1
    requires Forgotten(s.dirties[parent], child) == s.dirties[parent]
    requires Dereferenced(s.dirties, l, s'.dirties, l', child, parent)
    ensures !Conserved(s'.dirties, l', multiset{}, loose)
  {
    hide *;
    LinkedKeys(s, l);
    LoweredOnly(s.dirties, l, s'.dirties, l', child, parent);
    OffByOne(s.dirties, s'.dirties, l, loose, child);
  }

  lemma LoweredOnly(d: Dirties, l: seq<Hash>, d': Dirties, l': seq<Hash>, child: Hash, parent: Hash)
    requires parent in d && child != parent && child in d && d[child].parents > 1
    requires Forgotten(d[parent], child) == d[parent] && Dereferenced(d, l, d', l', child, parent)
    ensures l' == l && d' == d[child := d[child].(parents := d[child].parents - 1)]
  {
    hide Forgotten;
    assert d[parent := d[parent]] == d;
  }

  lemma OffByOne(d: Dirties, d': Dirties, l: seq<Hash>, loose: iset<Hash>, child: Hash)
    requires Conserved(d, l, multiset{}, loose) && child in l && child !in loose && child in d && d[child].parents > 0
    requires forall g | g in l :: g in d
    requires d' == d[child := d[child].(parents := d[child].parents - 1)]
    ensures !Conserved(d', l, multiset{}, loose)
  {
    assert forall g | g in d :: Count(d'[g], child) == Count(d[g], child);
    hide Count;
    assert d[child].parents == Refs(d, l, child) + multiset{}[child];
    RefSumSame(d, d', l, child);
    assert d'[child].parents != Refs(d', l, child) + multiset{}[child];
  }

  /** The child leaves although a cached node refers to it, and the disk has it not. */
  lemma LosesReferred(s: Db, l: seq<Hash>, s': Db, l': seq<Hash>, st: Disk, rank: Hash -> nat, loose: iset<Hash>, x: iset<Hash>,
                      child: Hash, parent: Hash)
    requires Linked(s, l, {}) && Linked(s', l', {}) && Ranked(s.dirties, rank) && Conserved(s.dirties, l, multiset{}, loose)
    requires Trimmed(rank, x, s.dirties, l, s'.dirties, l', rank(child), parent)
    requires parent in s.dirties && child != parent && child != ZERO_HASH && child !in st
    requires child in s.dirties && child !in loose && s.dirties[child].parents == 1
    requires Forgotten(s.dirties[parent], child) == s.dirties[parent]
    requires Dereferenced(s.dirties, l, s'.dirties, l', child, parent)
    ensures !Closed(s'.dirties, st)
  {
    var d, d' := s.dirties, s'.dirties;
    LinkedKeys(s, l);
    LinkedKeys(s', l');
    hide Linked;
    assert d[child].parents == Refs(d, l, child) + multiset{}[child];
    var g := Referrer(d, l, child);
    CountRefers(d[g], child);
    hide Count;
    assert g != ZERO_HASH ==> Lower(rank, child, g);
    assert g in d' && d'[g].node == d[g].node && d'[g].children == d[g].children;
    assert Keeps(d'[g], child);
  }
}
