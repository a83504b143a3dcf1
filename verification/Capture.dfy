/** trie/trie_capture.go: the net change of the set of node paths since tracking began. */
module Capture {
  import opened Bytes
  import opened Nodes
  import opened TrieOps
  import opened TreePaths
  import opened Refine

  /** The hooks as functions of the two sets: an insertion takes back an earlier deletion,
      and the reverse. */
  function Net(insert: set<seq<byte>>, delete: set<seq<byte>>, e: Event): (set<seq<byte>>, set<seq<byte>>) {
    match e
    case OnInsert(p) => if p in delete then (insert, delete - {p}) else (insert + {p}, delete)
    case OnDelete(p) => if p in insert then (insert - {p}, delete) else (insert, delete + {p})
    case OnRead(_, _) => (insert, delete)
  }

  function NetAll(insert: set<seq<byte>>, delete: set<seq<byte>>, events: seq<Event>): (set<seq<byte>>, set<seq<byte>>)
    decreases |events|
  {
    if events == [] then (insert, delete)
    else
      var (i, d) := Net(insert, delete, events[0]);
      NetAll(i, d, events[1..])
  }

  /** Legal events keep the two sets exact. */
  lemma {:induction false} NetExact(insert: set<seq<byte>>, delete: set<seq<byte>>, events: seq<Event>,
                                    began: iset<seq<byte>>, now: iset<seq<byte>>)
    requires Exact(insert, delete, began, now) && Legal(now, events)
    ensures Exact(NetAll(insert, delete, events).0, NetAll(insert, delete, events).1, began, After(now, events))
    decreases |events|
  {
    if events != [] {
      var (i, d) := Net(insert, delete, events[0]);
      match events[0] {
        case OnInsert(p) => NetExact(i, d, events[1..], began, now + iset{p});
        case OnDelete(p) => NetExact(i, d, events[1..], began, now - iset{p});
        case OnRead(_, _) => NetExact(i, d, events[1..], began, now);
      }
    }
  }

  /** Reads make no difference. */
  lemma {:induction false} NetOfWrites(insert: set<seq<byte>>, delete: set<seq<byte>>, events: seq<Event>)
    ensures NetAll(insert, delete, World.Writes(events)) == NetAll(insert, delete, events)
    decreases |events|
  {
    if events != [] {
      var (i, d) := Net(insert, delete, events[0]);
      NetOfWrites(i, d, events[1..]);
      if !events[0].OnRead? {
        var w := World.Writes(events);
        assert w[0] == events[0] && w[1..] == World.Writes(events[1..]);
      }
    }
  }

  /** A search only reads. */
  lemma {:induction false} GetReads(db: Store, n: Node, key: seq<byte>, pos: nat)
    requires StoreOk(db) && pos <= |key| && At(n, key[pos..])
    ensures World.Writes(TryGet(db, n, key, pos).events) == []
    decreases |key| - pos, if n.HashNode? then 1 else 0
  {
    match n {
      case Short(nk, nv, _) =>
        GetBelowShort(db, n, key, pos);
        if IsPrefix(nk, key[pos..]) {
          GetReads(db, nv, key, pos + |nk|);
        }
      case Full(ch, _) =>
        GetBelowFull(db, n, key, pos);
        GetReads(db, ch[key[pos]], key, pos + 1);
      case HashNode(h) =>
        if Resolve(db, h).Some? {
          var c := Resolve(db, h).value;
          GetReads(db, c, key, pos);
          World.WritesOfRead(key[..pos], db[h], TryGet(db, c, key, pos).events);
        }
      case _ =>
    }
  }

  /** The blob last read at a path. */
  function Origins(origin: map<seq<byte>, seq<byte>>, events: seq<Event>): map<seq<byte>, seq<byte>>
    decreases |events|
  {
    if events == [] then origin
    else Origins(if events[0].OnRead? then origin[events[0].path := events[0].blob] else origin, events[1..])
  }

  /** The state of the tracer. */
  datatype Marks = Marks(insert: set<seq<byte>>, delete: set<seq<byte>>, origin: map<seq<byte>, seq<byte>>)

  function Recorded(m: Marks, events: seq<Event>): Marks {
    var (i, d) := NetAll(m.insert, m.delete, events);
    Marks(i, d, Origins(m.origin, events))
  }

  lemma {:induction false} RecordedSum(m: Marks, a: seq<Event>, b: seq<Event>)
    ensures Recorded(m, a + b) == Recorded(Recorded(m, a), b)
    decreases |a|
  {
    if a == [] {
      assert a + b == b;
    } else {
      assert (a + b)[1..] == a[1..] + b && (a + b)[0] == a[0];
      RecordedSum(Recorded(m, [a[0]]), a[1..], b);
      RecordedOne(m, a);
      RecordedOne(m, a + b);
    }
  }

  lemma RecordedOne(m: Marks, a: seq<Event>)
    requires a != []
    ensures Recorded(m, a) == Recorded(Recorded(m, [a[0]]), a[1..])
  {
    RecordedEvent(m, a[0]);
  }

  lemma RecordedEvent(m: Marks, e: Event)
    ensures var (i, d) := Net(m.insert, m.delete, e);
      Recorded(m, [e]) == Marks(i, d, if e.OnRead? then m.origin[e.path := e.blob] else m.origin)
  {
    assert [e][1..] == [];
    var (i, d) := Net(m.insert, m.delete, e);
    assert NetAll(i, d, [e][1..]) == (i, d);
    var o := if e.OnRead? then m.origin[e.path := e.blob] else m.origin;
    assert Origins(o, [e][1..]) == o;
  }

  class TrieCapture {
    var insert: set<seq<byte>>
    var delete: set<seq<byte>>
    var origin: map<seq<byte>, seq<byte>>

    constructor ()
      ensures insert == {} && delete == {} && origin == map[]
    {
      insert, delete, origin := {}, {}, map[];
    }

    function State(): Marks
      reads this
    {
      Marks(insert, delete, origin)
    }

    method OnRead(path: seq<byte>, val: seq<byte>)
      modifies this`origin
      ensures origin == old(origin)[path := val]
    {
      origin := origin[path := val];
    }

    method OnInsert(path: seq<byte>)
      modifies this`insert, this`delete
      ensures (insert, delete) == Net(old(insert), old(delete), Event.OnInsert(path))
    {
      if path in delete {
        delete := delete - {path};
        return;
      }
      insert := insert + {path};
    }

    method OnDelete(path: seq<byte>)
      modifies this`insert, this`delete
      ensures (insert, delete) == Net(old(insert), old(delete), Event.OnDelete(path))
    {
      if path in insert {
        insert := insert - {path};
        return;
      }
      delete := delete + {path};
    }

    /** One call of a hook. */
    method Fire(e: Event)
      modifies this
      ensures State() == Recorded(old(State()), [e])
    {
      RecordedEvent(State(), e);
      match e {
        case OnInsert(p) => OnInsert(p);
        case OnDelete(p) => OnDelete(p);
        case OnRead(p, b) => OnRead(p, b);
      }
    }

    method Reset()
      modifies this
      ensures insert == {} && delete == {} && origin == map[]
    {
      insert, delete, origin := {}, {}, map[];
    }

    /** `deleteList`, in an order of the map's choosing. */
    method DeleteList() returns (ret: seq<seq<byte>>)
      ensures forall p :: p in ret <==> p in delete
      ensures forall i, j | 0 <= i < j < |ret| :: ret[i] != ret[j]
    {
      ret := [];
      var rest := delete;
      while rest != {}
        invariant rest <= delete
        invariant forall p :: p in ret <==> p in delete && p !in rest
        invariant forall i, j | 0 <= i < j < |ret| :: ret[i] != ret[j]
        decreases |rest|
      {
        var p :| p in rest;
        ret, rest := ret + [p], rest - {p};
      }
    }
  }

  /** What the tracer of a trie holds: the exact net change since the tree was `began`. */
  ghost predicate Tracks(c: TrieCapture, began: Node, now: Node)
    reads c
  {
    Exact(c.insert, c.delete, NodePaths(began), NodePaths(now))
  }

  /** The events of an update on a lazy node, after which the tracer is exact for the new tree. */
  lemma UpdateTracks(insert: set<seq<byte>>, delete: set<seq<byte>>, began: Node, t: Node, t': Node,
                     events: seq<Event>, writes: seq<Event>)
    requires Exact(insert, delete, NodePaths(began), NodePaths(t))
    requires World.Writes(events) == writes
    requires Legal(NodePaths(t), writes) && After(NodePaths(t), writes) == NodePaths(t')
    ensures var (i, d) := NetAll(insert, delete, events); Exact(i, d, NodePaths(began), NodePaths(t'))
  {
    hide Exact, Legal, After;
    NetExact(insert, delete, writes, NodePaths(began), NodePaths(t));
    NetOfWrites(insert, delete, events);
  }
}
