/** trie/trie_db.go, `Update`: a series of insertions, then a series of links from account
    leaves to storage tries, and what they do to cache, list and counts. */
module Updating {
  import opened Bytes
  import opened Nodes
  import opened NodeEncode
  import opened FlushList
  import opened Flushing
  import opened RefCounts
  import opened Committing

  // ---------------------------------------------------------------- insertions

  /** The insertions of `Update`, one after the other. */
  function InsertAll(s: Db, es: seq<Entry>): Db {
    if es == [] then s else Inserted(InsertAll(s, es[..|es| - 1]), es[|es| - 1].hash, es[|es| - 1].node)
  }

  /** The flush list afterwards. */
  function ListAll(s: Db, list: seq<Hash>, es: seq<Entry>): seq<Hash> {
    if es == [] then list
    else ListAfter(InsertAll(s, es[..|es| - 1]), ListAll(s, list, es[..|es| - 1]), es[|es| - 1].hash)
  }

  lemma {:induction false} InsertAllSum(s: Db, a: seq<Entry>, b: seq<Entry>)
    ensures InsertAll(s, a + b) == InsertAll(InsertAll(s, a), b)
  {
    if b == [] {
      assert a + b == a;
    } else {
      var n := |b| - 1;
      InsertAllSum(s, a, b[..n]);
      assert (a + b)[..|a + b| - 1] == a + b[..n];
    }
  }

  lemma InsertNone(s: Db, es: seq<Entry>)
    requires es == []
    ensures InsertAll(s, es) == s
  {
  }

  lemma InsertAllSnoc(s: Db, es: seq<Entry>, e: Entry)
    ensures InsertAll(s, es + [e]) == Inserted(InsertAll(s, es), e.hash, e.node)
  {
    assert (es + [e])[..|es|] == es;
  }

  /** The list stays intact, whatever is inserted. */
  lemma {:induction false} InsertAllLinked(s: Db, list: seq<Hash>, es: seq<Entry>)
    requires Linked(s, list, {})
    ensures Linked(InsertAll(s, es), ListAll(s, list, es), {})
  {
    hide Linked, Inserted, ListAfter, Gather;
    if es != [] {
      var n := |es| - 1;
      InsertAllLinked(s, list, es[..n]);
      InsertedIs(InsertAll(s, es[..n]), ListAll(s, list, es[..n]), es[n].hash, es[n].node);
    }
  }

  /** What `Update` makes of the cached nodes: all that were there stay, and of the entries
      each hash is there, the first one with it if it is new. */
  ghost predicate Adopted(d: Dirties, es: seq<Entry>, d': Dirties) {
    && (forall h | h in d :: h in d' && d'[h].node == d[h].node)
    && (forall e | e in es :: e.hash in d')
    && (forall h | h in d' && h !in d :: exists i: nat :: FirstAt(es, i, h, d'[h].node))
  }

  predicate FirstAt(es: seq<Entry>, i: nat, h: Hash, node: Raw) {
    i < |es| && es[i].hash == h && es[i].node == node && forall j | 0 <= j < i :: es[j].hash != h
  }

  lemma AdoptedSnoc(d: Dirties, es: seq<Entry>, d1: Dirties, e: Entry, d2: Dirties)
    requires Adopted(d, es, d1) && d2.Keys == d1.Keys + {e.hash}
    requires forall h | h in d1 :: d2[h].node == d1[h].node
    requires e.hash !in d1 ==> d2[e.hash].node == e.node
    ensures Adopted(d, es + [e], d2)
  {
    var es' := es + [e];
    forall h | h in d2 && h !in d ensures exists i: nat :: FirstAt(es', i, h, d2[h].node) {
      if h in d1 {
        var i: nat :| FirstAt(es, i, h, d1[h].node);
        assert FirstAt(es', i, h, d2[h].node);
      } else {
        assert FirstAt(es', |es|, h, d2[h].node);
      }
    }
  }

  lemma AdoptedSame(d: Dirties, es: seq<Entry>, d1: Dirties, d2: Dirties)
    requires Adopted(d, es, d1) && d2.Keys == d1.Keys && forall h | h in d1 :: d2[h].node == d1[h].node
    ensures Adopted(d, es, d2)
  {
  }

  lemma {:induction false} InsertAllAdopts(s: Db, list: seq<Hash>, es: seq<Entry>)
    requires Linked(s, list, {})
    ensures Adopted(s.dirties, es, InsertAll(s, es).dirties)
  {
    hide Linked, Inserted, ListAfter, Gather, Adopted;
    if es == [] {
      AdoptedNone(s.dirties);
    } else {
      var n := |es| - 1;
      InsertAllLinked(s, list, es[..n]);
      InsertAllAdopts(s, list, es[..n]);
      var s1 := InsertAll(s, es[..n]);
      InsertedIs(s1, ListAll(s, list, es[..n]), es[n].hash, es[n].node);
      AdoptedSnoc(s.dirties, es[..n], s1.dirties, es[n], InsertAll(s, es).dirties);
      assert es == es[..n] + [es[n]];
    }
  }

  lemma AdoptedNone(d: Dirties)
    ensures Adopted(d, [], d)
  {
  }

  /** Insertions touch no explicit reference. */
  lemma {:induction false} InsertAllChildren(s: Db, list: seq<Hash>, es: seq<Entry>, h: Hash)
    requires Linked(s, list, {}) && h in InsertAll(s, es).dirties
    ensures InsertAll(s, es).dirties[h].children == if h in s.dirties then s.dirties[h].children else None
    ensures h in s.dirties ==> InsertAll(s, es).dirties[h].node == s.dirties[h].node
  {
    hide Linked, Inserted, ListAfter, Gather;
    if es != [] {
      var n := |es| - 1;
      InsertAllLinked(s, list, es[..n]);
      var s1 := InsertAll(s, es[..n]);
      InsertedIs(s1, ListAll(s, list, es[..n]), es[n].hash, es[n].node);
      InsertAllKeys(s, list, es[..n], h);
      if h in s1.dirties {
        InsertAllChildren(s, list, es[..n], h);
      }
    }
  }

  lemma InsertAllKeys(s: Db, list: seq<Hash>, es: seq<Entry>, h: Hash)
    requires Linked(s, list, {})
    ensures h in InsertAll(s, es).dirties <==> h in s.dirties || exists i: nat :: i < |es| && es[i].hash == h
  {
    hide Linked, InsertAll;
    InsertAllAdopts(s, list, es);
    if h in InsertAll(s, es).dirties && h !in s.dirties {
      var i: nat :| FirstAt(es, i, h, InsertAll(s, es).dirties[h].node);
    }
    if i: nat :| i < |es| && es[i].hash == h {
      assert es[i] in es;
    }
  }

  // ---------------------------------------------------------------- counts of insertions

  /** The entry is inserted: its hash is not cached, and this is the first entry with it. */
  predicate IsNew(d: Dirties, es: seq<Entry>, i: nat)
    requires i < |es|
  {
    es[i].hash !in d && forall j | 0 <= j < i :: es[j].hash != es[i].hash
  }

  /** How often the entries that are inserted refer to `h`. */
  function Given(d: Dirties, es: seq<Entry>, h: Hash): nat {
    if es == [] then 0
    else
      var n := |es| - 1;
      Given(d, es[..n], h) + if IsNew(d, es, n) then multiset(Gather(es[n].node))[h] else 0
  }

  lemma {:induction false} InsertAllRefs(s: Db, list: seq<Hash>, es: seq<Entry>, h: Hash)
    requires Linked(s, list, {})
    ensures Refs(InsertAll(s, es).dirties, ListAll(s, list, es), h) == Refs(s.dirties, list, h) + Given(s.dirties, es, h)
  {
    hide Linked, Inserted, ListAfter, Gather, Refs;
    if es != [] {
      var n := |es| - 1;
      InsertAllRefs(s, list, es[..n], h);
      InsertAllLinked(s, list, es[..n]);
      NewIsNew(s, list, es, n);
      InsertedRefs(InsertAll(s, es[..n]), ListAll(s, list, es[..n]), es[n].hash, es[n].node, h);
    }
  }

  lemma NewIsNew(s: Db, list: seq<Hash>, es: seq<Entry>, n: nat)
    requires Linked(s, list, {}) && n < |es|
    ensures IsNew(s.dirties, es, n) <==> es[n].hash !in InsertAll(s, es[..n]).dirties
  {
    hide Linked, InsertAll;
    InsertAllKeys(s, list, es[..n], es[n].hash);
    assert forall j: nat | j < n :: es[..n][j] == es[j];
    assert (exists i: nat :: i < |es[..n]| && es[..n][i].hash == es[n].hash)
      <==> exists i: nat :: i < n && es[i].hash == es[n].hash;
  }

  lemma InsertedRefs(s: Db, list: seq<Hash>, h: Hash, node: Raw, c: Hash)
    requires Linked(s, list, {})
    ensures Refs(Inserted(s, h, node).dirties, ListAfter(s, list, h), c)
         == Refs(s.dirties, list, c) + if h in s.dirties then 0 else multiset(Gather(node))[c]
  {
    hide *;
    LinkedKeys(s, list);
    if h in s.dirties {
      InsertedOld(s, list, h, node);
    } else {
      InsertedIs(s, list, h, node);
      ListAfterNew(s, list, h);
      InsertRefs(s.dirties, Inserted(s, h, node).dirties, list, h, c);
    }
  }

  /** Nothing referred to `h` when it was inserted, neither the cache nor an earlier entry. */
  predicate Unawaited(d: Dirties, list: seq<Hash>, es: seq<Entry>, h: Hash) {
    forall i: nat | i < |es| && IsNew(d, es, i) && es[i].hash == h :: Refs(d, list, h) + Given(d, es[..i], h) == 0
  }

  lemma UnawaitedSnoc(d: Dirties, list: seq<Hash>, es: seq<Entry>, h: Hash)
    requires es != []
    ensures var n := |es| - 1;
      Unawaited(d, list, es, h) <==>
        && Unawaited(d, list, es[..n], h)
        && (IsNew(d, es, n) && es[n].hash == h ==> Refs(d, list, h) + Given(d, es[..n], h) == 0)
  {
    hide Given, Refs;
    var n := |es| - 1;
    assert forall i: nat | i < n :: es[..n][..i] == es[..i] && es[..n][i] == es[i];
    forall i: nat | i < n ensures IsNew(d, es[..n], i) <==> IsNew(d, es, i) {
    }
    if Unawaited(d, list, es, h) {
      forall i: nat | i < n && IsNew(d, es[..n], i) && es[..n][i].hash == h
        ensures Refs(d, list, h) + Given(d, es[..n][..i], h) == 0
      {
        assert IsNew(d, es, i);
      }
    } else {
      var i: nat :| i < |es| && IsNew(d, es, i) && es[i].hash == h && Refs(d, list, h) + Given(d, es[..i], h) != 0;
      assert i < n ==> IsNew(d, es[..n], i);
    }
  }

  /** The count of one node after the insertions: never above the references to it, and equal
      exactly when nothing referred to the node before it was there and nothing overflows. */
  ghost predicate CountIs(d: Dirties, list: seq<Hash>, h: Hash, exact: bool) {
    h in d && d[h].parents <= Refs(d, list, h) && (d[h].parents == Refs(d, list, h) <==> exact && Refs(d, list, h) < 0x1_0000_0000)
  }

  lemma {:induction false} InsertAllCounts(s: Db, list: seq<Hash>, es: seq<Entry>, loose: iset<Hash>, h: Hash)
    requires Linked(s, list, {}) && Conserved(s.dirties, list, multiset{}, loose) && h !in loose
    requires forall e | e in es :: e.hash !in Gather(e.node)
    requires h in ListAll(s, list, es)
    ensures CountIs(InsertAll(s, es).dirties, ListAll(s, list, es), h, Unawaited(s.dirties, list, es, h))
  {
    hide Linked, Inserted, ListAfter, Gather, Refs, Unawaited, IsNew, Given, Conserved, CountIs;
    if es == [] {
      NoneCounts(s.dirties, list, es, loose, h);
    } else {
      var n := |es| - 1;
      var s1, l1, e := InsertAll(s, es[..n]), ListAll(s, list, es[..n]), es[n];
      InsertAllLinked(s, list, es[..n]);
      NewIsNew(s, list, es, n);
      UnawaitedSnoc(s.dirties, list, es, h);
      InsertAllRefs(s, list, es[..n], h);
      InsertedRefs(s1, l1, e.hash, e.node, h);
      ListAfterIs(s1, l1, e.hash);
      forall x | x in es[..n] ensures x.hash !in Gather(x.node) {
        assert x in es;
      }
      if h in l1 {
        InsertAllCounts(s, list, es[..n], loose, h);
      } else {
        LinkedKeys(s1, l1);
        NotThere(s, list, es[..n], h);
      }
      StepCounts(s1, l1, e.hash, e.node, h, Unawaited(s.dirties, list, es[..n], h));
    }
  }

  lemma NoneCounts(d: Dirties, list: seq<Hash>, es: seq<Entry>, loose: iset<Hash>, h: Hash)
    requires es == [] && Conserved(d, list, multiset{}, loose) && h in list && h !in loose
    ensures CountIs(d, list, h, Unawaited(d, list, es, h))
  {
    hide Refs;
    assert d[h].parents == Refs(d, list, h) + multiset{}[h];
  }

  lemma ListAfterIs(s: Db, list: seq<Hash>, h: Hash)
    requires Linked(s, list, {})
    ensures forall x :: x in ListAfter(s, list, h) <==> x in list || (x == h && h !in s.dirties)
    ensures forall x :: x in list <==> x in s.dirties && x != ZERO_HASH
  {
  }

  lemma NotThere(s: Db, list: seq<Hash>, es: seq<Entry>, h: Hash)
    requires Linked(s, list, {}) && h !in ListAll(s, list, es) && h != ZERO_HASH
    ensures Unawaited(s.dirties, list, es, h)
  {
    hide Linked, InsertAll, ListAll;
    InsertAllLinked(s, list, es);
    LinkedKeys(InsertAll(s, es), ListAll(s, list, es));
    InsertAllKeys(s, list, es, h);
  }

  /** One insertion. */
  lemma StepCounts(s: Db, list: seq<Hash>, g: Hash, node: Raw, h: Hash, exact: bool)
    requires Linked(s, list, {}) && g !in Gather(node) && h in ListAfter(s, list, g)
    requires h in list ==> CountIs(s.dirties, list, h, exact)
    ensures var d', l' := Inserted(s, g, node).dirties, ListAfter(s, list, g);
      CountIs(d', l', h, if h in list then exact else Refs(s.dirties, list, h) == 0)
  {
    hide *;
    ListAfterIs(s, list, g);
    InsertedRefs(s, list, g, node, h);
    if g in s.dirties {
      InsertedOld(s, list, g, node);
    } else {
      InsertedIs(s, list, g, node);
      var d', l', m := Inserted(s, g, node).dirties, ListAfter(s, list, g), multiset(Gather(node))[h];
      if h == g {
        SelfCount(d', l', h);
      } else {
        AddCount(s.dirties, list, d', l', h, exact, m);
      }
    }
  }

  lemma SelfCount(d: Dirties, list: seq<Hash>, h: Hash)
    requires h in d && d[h].parents == 0
    ensures CountIs(d, list, h, Refs(d, list, h) == 0)
  {
  }

  lemma AddCount(d: Dirties, list: seq<Hash>, d': Dirties, l': seq<Hash>, h: Hash, exact: bool, m: nat)
    requires CountIs(d, list, h, exact) && h in d' && d'[h].parents == Add32(d[h].parents, m)
    requires Refs(d', l', h) == Refs(d, list, h) + m
    ensures CountIs(d', l', h, exact)
  {
    hide Refs;
    AddExact(d[h].parents, m);
    AddBound(d[h].parents, m);
  }

  lemma AddBound(n: uint32, m: nat)
    ensures Add32(n, m) <= n + m
  {
  }

  // ---------------------------------------------------------------- links

  /** The reference from the node that holds an account leaf to the account's storage trie. */
  function LinkOne(d: Dirties, leaf: Leaf, account: seq<byte> -> Option<Hash>): Dirties {
    var root := account(leaf.blob);
    if root.None? || root.value == EMPTY_ROOT || leaf.parent !in d || root.value == leaf.parent then d
    else Referenced(d, root.value, leaf.parent)
  }

  function LinkAll(d: Dirties, leaves: seq<Leaf>, account: seq<byte> -> Option<Hash>): Dirties {
    if leaves == [] then d else LinkOne(LinkAll(d, leaves[..|leaves| - 1], account), leaves[|leaves| - 1], account)
  }

  lemma LinkNone(d: Dirties, leaves: seq<Leaf>, account: seq<byte> -> Option<Hash>)
    requires leaves == []
    ensures LinkAll(d, leaves, account) == d
  {
  }

  lemma LinkNext(d: Dirties, leaves: seq<Leaf>, i: nat, account: seq<byte> -> Option<Hash>)
    requires i < |leaves|
    ensures LinkAll(d, leaves[..i + 1], account) == LinkOne(LinkAll(d, leaves[..i], account), leaves[i], account)
  {
    assert leaves[..i + 1][..i] == leaves[..i];
  }

  /** Afterwards every account leaf is linked to its storage trie, if that is cached, and a
      node has no other new children. */
  lemma {:induction false} LinkAllLinks(d: Dirties, leaves: seq<Leaf>, account: seq<byte> -> Option<Hash>, p: Hash, c: Hash)
    requires p in d && p != c
    ensures var d' := LinkAll(d, leaves, account);
      && d'.Keys == d.Keys && (forall h | h in d :: d'[h].node == d[h].node)
      && ((d'[p].children.Some? && c in d'[p].children.value) <==>
            || (d[p].children.Some? && c in d[p].children.value)
            || (c in d && c != EMPTY_ROOT && exists leaf :: leaf in leaves && leaf.parent == p && account(leaf.blob) == Some(c)))
  {
    if leaves != [] {
      var n := |leaves| - 1;
      LinkAllLinks(d, leaves[..n], account, p, c);
      assert leaves == leaves[..n] + [leaves[n]];
      assert leaves[n] in leaves;
      LinkOneLinks(LinkAll(d, leaves[..n], account), leaves[n], account, p, c);
    }
  }

  lemma LinkOneLinks(d: Dirties, leaf: Leaf, account: seq<byte> -> Option<Hash>, p: Hash, c: Hash)
    requires p in d && p != c
    ensures var d' := LinkOne(d, leaf, account);
      && d'.Keys == d.Keys && (forall h | h in d :: d'[h].node == d[h].node)
      && ((d'[p].children.Some? && c in d'[p].children.value) <==>
            || (d[p].children.Some? && c in d[p].children.value)
            || (c in d && c != EMPTY_ROOT && leaf.parent == p && account(leaf.blob) == Some(c)))
  {
  }

  lemma {:induction false} LinkAllNodes(d: Dirties, leaves: seq<Leaf>, account: seq<byte> -> Option<Hash>)
    ensures var d' := LinkAll(d, leaves, account);
      && d'.Keys == d.Keys
      && (forall h | h in d :: d'[h] == d[h].(parents := d'[h].parents, children := d'[h].children))
  {
    hide Referenced;
    if leaves != [] {
      var n := |leaves| - 1;
      LinkAllNodes(d, leaves[..n], account);
      var d1, root := LinkAll(d, leaves[..n], account), account(leaves[n].blob);
      if root.Some? && leaves[n].parent in d1 && root.value != leaves[n].parent {
        ReferencedIs(d1, root.value, leaves[n].parent);
      }
    }
  }

  /** A link adds as many references to a node as it adds to its count, but for overflow. */
  lemma LinkCounts(s: Db, list: seq<Hash>, leaf: Leaf, account: seq<byte> -> Option<Hash>, h: Hash)
    requires Linked(s, list, {}) && leaf.parent != ZERO_HASH && h in list && h in s.dirties
    ensures var d' := LinkOne(s.dirties, leaf, account);
      h in d' && exists m: nat :: Refs(d', list, h) == Refs(s.dirties, list, h) + m && d'[h].parents == Add32(s.dirties[h].parents, m)
  {
    hide Linked, Refs, Referenced, Add32, Inc;
    var d, root := s.dirties, account(leaf.blob);
    var d' := LinkOne(d, leaf, account);
    IncAdd(d[h].parents, 0);
    if d' == d {
      assert Refs(d', list, h) == Refs(d, list, h) + 0;
    } else {
      LinkedKeys(s, list);
      ReferenceIsNew(d, root.value, leaf.parent);
      ReferencedIs(d, root.value, leaf.parent);
      ReferenceRefs(d, d', list, root.value, leaf.parent, h);
      assert Explicit(d[leaf.parent], root.value) == 0;
      var m := if h == root.value then 1 else 0;
      assert Refs(d', list, h) == Refs(d, list, h) + m;
    }
  }

  lemma {:induction false} LinkAllCounts(s: Db, list: seq<Hash>, leaves: seq<Leaf>, account: seq<byte> -> Option<Hash>, h: Hash, exact: bool)
    requires Linked(s, list, {}) && h in list && CountIs(s.dirties, list, h, exact)
    requires forall leaf | leaf in leaves :: leaf.parent != ZERO_HASH
    ensures CountIs(LinkAll(s.dirties, leaves, account), list, h, exact)
  {
    hide Linked, Refs, LinkOne, CountIs;
    if leaves != [] {
      var n := |leaves| - 1;
      LinkAllCounts(s, list, leaves[..n], account, h, exact);
      var d1 := LinkAll(s.dirties, leaves[..n], account);
      LinkAllLinked(s, list, leaves[..n], account);
      CountThere(d1, list, h, exact);
      assert leaves[n] in leaves;
      LinkCounts(s.(dirties := d1), list, leaves[n], account, h);
      var d' := LinkOne(d1, leaves[n], account);
      var m: nat :| Refs(d', list, h) == Refs(d1, list, h) + m && d'[h].parents == Add32(d1[h].parents, m);
      AddCount(d1, list, d', list, h, exact, m);
    }
  }

  lemma CountThere(d: Dirties, list: seq<Hash>, h: Hash, exact: bool)
    requires CountIs(d, list, h, exact)
    ensures h in d
  {
  }

  lemma LinkAllLinked(s: Db, list: seq<Hash>, leaves: seq<Leaf>, account: seq<byte> -> Option<Hash>)
    requires Linked(s, list, {})
    ensures Linked(s.(dirties := LinkAll(s.dirties, leaves, account)), list, {})
  {
    hide Linked, LinkAll;
    LinkAllNodes(s.dirties, leaves, account);
    LinkedSame(s, s.(dirties := LinkAll(s.dirties, leaves, account)), list, {});
  }

  lemma {:induction false} LinkAllClosed(d: Dirties, st: Disk, leaves: seq<Leaf>, account: seq<byte> -> Option<Hash>)
    ensures Closed(d, st) ==> Closed(LinkAll(d, leaves, account), st)
    ensures forall g, c | g in d && c in Gather(d[g].node) ::
      g in LinkAll(d, leaves, account) && Keeps(LinkAll(d, leaves, account)[g], c)
  {
    hide Gather, Referenced, Closed;
    LinkAllNodes(d, leaves, account);
    if leaves != [] {
      var n := |leaves| - 1;
      LinkAllClosed(d, st, leaves[..n], account);
      var d1, root := LinkAll(d, leaves[..n], account), account(leaves[n].blob);
      var d' := LinkOne(d1, leaves[n], account);
      if d' != d1 && Closed(d, st) {
        ReferenceIsNew(d1, root.value, leaves[n].parent);
        ReferencedClosed(d1, st, root.value, leaves[n].parent);
      }
    }
  }

  // ---------------------------------------------------------------- update

  predicate Named(es: seq<Entry>, h: Hash) {
    exists i: nat :: i < |es| && es[i].hash == h
  }

  /** When `Update` keeps everything right, as far as its entries go: nothing refers to a new
      node yet, neither the cache nor an entry before it; and what a new node refers to is
      cached, on disk, or among the entries. */
  ghost predicate EntriesFit(d: Dirties, list: seq<Hash>, st: Disk, loose: iset<Hash>, es: seq<Entry>) {
    forall i: nat | i < |es| && IsNew(d, es, i) ::
      && (es[i].hash !in loose ==> Refs(d, list, es[i].hash) + Given(d, es[..i], es[i].hash) == 0)
      && (forall c | c in Gather(es[i].node) :: c in d || c in st || Named(es, c))
  }

  /** No count overflows. */
  ghost predicate NoOverflow(d: Dirties, list: seq<Hash>, loose: iset<Hash>) {
    forall h | h in list && h !in loose :: Refs(d, list, h) < 0x1_0000_0000
  }

  /** The state after `Update`. */
  function Updated(s: Db, es: seq<Entry>, leaves: seq<Leaf>, account: seq<byte> -> Option<Hash>): Db {
    InsertAll(s, es).(dirties := LinkAll(InsertAll(s, es).dirties, leaves, account))
  }

  lemma UpdatedLinked(s: Db, list: seq<Hash>, es: seq<Entry>, leaves: seq<Leaf>, account: seq<byte> -> Option<Hash>)
    requires Linked(s, list, {})
    ensures Linked(Updated(s, es, leaves, account), ListAll(s, list, es), {})
    ensures Adopted(s.dirties, es, Updated(s, es, leaves, account).dirties)
  {
    hide Linked, InsertAll, LinkAll, Adopted, ListAll;
    InsertAllLinked(s, list, es);
    LinkAllLinked(InsertAll(s, es), ListAll(s, list, es), leaves, account);
    InsertAllAdopts(s, list, es);
    LinkAllNodes(InsertAll(s, es).dirties, leaves, account);
    AdoptedSame(s.dirties, es, InsertAll(s, es).dirties, LinkAll(InsertAll(s, es).dirties, leaves, account));
  }

  /** `Update` keeps everything right exactly when its entries fit and no count overflows. */
  lemma UpdateRight(s: Db, list: seq<Hash>, st: Disk, loose: iset<Hash>, es: seq<Entry>, leaves: seq<Leaf>,
                    account: seq<byte> -> Option<Hash>)
    requires Linked(s, list, {}) && Right(s.dirties, list, st, loose)
    requires forall e | e in es :: e.hash !in Gather(e.node)
    requires forall leaf | leaf in leaves :: leaf.parent != ZERO_HASH
    ensures var d', l' := Updated(s, es, leaves, account).dirties, ListAll(s, list, es);
      Right(d', l', st, loose) <==> EntriesFit(s.dirties, list, st, loose, es) && NoOverflow(d', l', loose)
  {
    hide *;
    var d', l' := Updated(s, es, leaves, account).dirties, ListAll(s, list, es);
    RightIs(s.dirties, list, st, loose);
    RightIs(d', l', st, loose);
    UpdateClosed(s, list, st, es, leaves, account);
    UpdateConserved(s, list, loose, es, leaves, account);
    FitIs(s.dirties, list, st, loose, es);
  }

  lemma RightIs(d: Dirties, list: seq<Hash>, st: Disk, loose: iset<Hash>)
    ensures Right(d, list, st, loose) <==> Closed(d, st) && Conserved(d, list, multiset{}, loose)
  {
  }

  ghost predicate ChildrenThere(d: Dirties, st: Disk, es: seq<Entry>) {
    forall i: nat | i < |es| && IsNew(d, es, i) :: forall c | c in Gather(es[i].node) :: c in d || c in st || Named(es, c)
  }

  ghost predicate NoneAwaited(d: Dirties, list: seq<Hash>, loose: iset<Hash>, es: seq<Entry>) {
    forall i: nat | i < |es| && IsNew(d, es, i) && es[i].hash !in loose ::
      Refs(d, list, es[i].hash) + Given(d, es[..i], es[i].hash) == 0
  }

  lemma FitIs(d: Dirties, list: seq<Hash>, st: Disk, loose: iset<Hash>, es: seq<Entry>)
    ensures EntriesFit(d, list, st, loose, es) <==> ChildrenThere(d, st, es) && NoneAwaited(d, list, loose, es)
  {
    hide Given, Refs, Gather, IsNew, Named;
  }

  lemma UpdateClosed(s: Db, list: seq<Hash>, st: Disk, es: seq<Entry>, leaves: seq<Leaf>, account: seq<byte> -> Option<Hash>)
    requires Linked(s, list, {}) && Closed(s.dirties, st)
    ensures Closed(Updated(s, es, leaves, account).dirties, st) <==> ChildrenThere(s.dirties, st, es)
  {
    hide Linked, InsertAll, LinkAll, Gather, Closed, ChildrenThere;
    var d1 := InsertAll(s, es).dirties;
    if ChildrenThere(s.dirties, st, es) {
      InsertAllClosed(s, list, st, es);
      LinkAllClosed(d1, st, leaves, account);
    } else {
      var i, c := Absent(s.dirties, st, es);
      InsertAllKeys(s, list, es, c);
      NewNode(s, list, es, i);
      LinkAllNodes(d1, leaves, account);
      LinkAllClosed(d1, st, leaves, account);
      NotClosed(LinkAll(d1, leaves, account), st, es[i].hash, c);
    }
  }

  lemma Absent(d: Dirties, st: Disk, es: seq<Entry>) returns (i: nat, c: Hash)
    requires !ChildrenThere(d, st, es)
    ensures i < |es| && IsNew(d, es, i) && c in Gather(es[i].node) && c !in d && c !in st && !Named(es, c)
  {
    i :| i < |es| && IsNew(d, es, i) && !forall c | c in Gather(es[i].node) :: c in d || c in st || Named(es, c);
    c :| c in Gather(es[i].node) && !(c in d || c in st || Named(es, c));
  }

  lemma NotClosed(d: Dirties, st: Disk, h: Hash, c: Hash)
    requires h in d && Keeps(d[h], c) && c !in d && c !in st
    ensures !Closed(d, st)
  {
  }

  /** A new node is the one of its first entry. */
  lemma NewNode(s: Db, list: seq<Hash>, es: seq<Entry>, i: nat)
    requires Linked(s, list, {}) && i < |es| && IsNew(s.dirties, es, i)
    ensures es[i].hash in InsertAll(s, es).dirties && InsertAll(s, es).dirties[es[i].hash].node == es[i].node
  {
    hide Linked, InsertAll;
    InsertAllAdopts(s, list, es);
    var h := es[i].hash;
    assert es[i] in es;
    var j: nat :| FirstAt(es, j, h, InsertAll(s, es).dirties[h].node);
    assert i == j;
  }

  lemma InsertAllClosed(s: Db, list: seq<Hash>, st: Disk, es: seq<Entry>)
    requires Linked(s, list, {}) && Closed(s.dirties, st) && ChildrenThere(s.dirties, st, es)
    ensures Closed(InsertAll(s, es).dirties, st)
  {
    hide Linked, InsertAll, Gather;
    var d, d' := s.dirties, InsertAll(s, es).dirties;
    InsertAllAdopts(s, list, es);
    forall h, c | h in d' && Keeps(d'[h], c) ensures c in d' || c in st {
      InsertAllChildren(s, list, es, h);
      InsertAllKeys(s, list, es, c);
      if h in d {
        assert Keeps(d[h], c);
      } else {
        var i: nat :| FirstAt(es, i, h, d'[h].node);
        assert IsNew(d, es, i);
      }
    }
  }

  lemma UpdateConserved(s: Db, list: seq<Hash>, loose: iset<Hash>, es: seq<Entry>, leaves: seq<Leaf>,
                        account: seq<byte> -> Option<Hash>)
    requires Linked(s, list, {}) && Conserved(s.dirties, list, multiset{}, loose)
    requires forall e | e in es :: e.hash !in Gather(e.node)
    requires forall leaf | leaf in leaves :: leaf.parent != ZERO_HASH
    ensures var d', l' := Updated(s, es, leaves, account).dirties, ListAll(s, list, es);
      Conserved(d', l', multiset{}, loose) <==> NoneAwaited(s.dirties, list, loose, es) && NoOverflow(d', l', loose)
  {
    hide Linked, InsertAll, LinkAll, ListAll, Gather, Refs, Given, Conserved, NoneAwaited, NoOverflow, IsNew, CountIs, Unawaited;
    var d', l' := Updated(s, es, leaves, account).dirties, ListAll(s, list, es);
    InsertAllLinked(s, list, es);
    UpdatedLinked(s, list, es, leaves, account);
    LinkedKeys(Updated(s, es, leaves, account), l');
    forall h | h in l' && h !in loose ensures CountIs(d', l', h, Unawaited(s.dirties, list, es, h)) {
      InsertAllCounts(s, list, es, loose, h);
      LinkAllCounts(InsertAll(s, es), l', leaves, account, h, Unawaited(s.dirties, list, es, h));
    }
    forall i: nat | i < |es| && IsNew(s.dirties, es, i) ensures es[i].hash in l' {
      NewNode(s, list, es, i);
      LinkAllNodes(InsertAll(s, es).dirties, leaves, account);
      NotZero(s, list, es, i);
    }
    AllCounts(s.dirties, list, es, loose, d', l');
  }

  lemma NotZero(s: Db, list: seq<Hash>, es: seq<Entry>, i: nat)
    requires Linked(s, list, {}) && i < |es| && IsNew(s.dirties, es, i)
    ensures es[i].hash != ZERO_HASH
  {
  }

  /** All counts are right when each one is. */
  lemma AllCounts(d: Dirties, list: seq<Hash>, es: seq<Entry>, loose: iset<Hash>, d': Dirties, l': seq<Hash>)
    requires forall h | h in l' :: h in d'
    requires forall h | h in l' && h !in loose :: CountIs(d', l', h, Unawaited(d, list, es, h))
    requires forall i: nat | i < |es| && IsNew(d, es, i) :: es[i].hash in l'
    ensures Conserved(d', l', multiset{}, loose) <==> NoneAwaited(d, list, loose, es) && NoOverflow(d', l', loose)
  {
    hide Given, Refs, IsNew;
    if Conserved(d', l', multiset{}, loose) {
      forall h | h in l' && h !in loose ensures Unawaited(d, list, es, h) && Refs(d', l', h) < 0x1_0000_0000 {
        assert d'[h].parents == Refs(d', l', h) + multiset{}[h];
        assert CountIs(d', l', h, Unawaited(d, list, es, h));
      }
    } else {
      var h :| h in l' && h !in loose && d'[h].parents != Refs(d', l', h) + multiset{}[h];
      assert CountIs(d', l', h, Unawaited(d, list, es, h));
    }
  }

  /** Every entry refers only to what is there before it. */
  ghost predicate ChildrenBefore(d: Dirties, st: Disk, es: seq<Entry>) {
    forall i: nat, c | i < |es| && c in Gather(es[i].node) :: c in d || c in st || Named(es[..i], c)
  }

  /** So entries that come children first fit, unless one of them comes back from disk. */
  lemma FreshFit(d: Dirties, list: seq<Hash>, st: Disk, loose: iset<Hash>, es: seq<Entry>)
    requires Closed(d, st) && ZERO_HASH in d && (forall g | g in list :: g in d) && ChildrenBefore(d, st, es)
    requires forall i: nat | i < |es| && IsNew(d, es, i) && es[i].hash !in loose :: es[i].hash !in st
    ensures EntriesFit(d, list, st, loose, es)
  {
    hide Refs, Given, Gather, Closed;
    forall i: nat | i < |es| && IsNew(d, es, i)
      ensures es[i].hash !in loose ==> Refs(d, list, es[i].hash) + Given(d, es[..i], es[i].hash) == 0
      ensures forall c | c in Gather(es[i].node) :: c in d || c in st || Named(es, c)
    {
      if es[i].hash !in loose {
        UnknownUnreferenced(d, list, st, es[i].hash);
        GivenNone(d, st, es, i, i);
      }
      forall c | c in Gather(es[i].node) ensures c in d || c in st || Named(es, c) {
        assert Named(es[..i], c) ==> Named(es, c);
      }
    }
  }

  lemma {:induction false} GivenNone(d: Dirties, st: Disk, es: seq<Entry>, i: nat, n: nat)
    requires ChildrenBefore(d, st, es) && n <= i < |es| && IsNew(d, es, i) && es[i].hash !in st
    ensures Given(d, es[..n], es[i].hash) == 0
  {
    hide Gather;
    if n > 0 {
      GivenNone(d, st, es, i, n - 1);
      assert es[..n][..n - 1] == es[..n - 1];
      assert es[i].hash !in Gather(es[n - 1].node);
    }
  }
}
