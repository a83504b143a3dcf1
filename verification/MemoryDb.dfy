/** accdb/memorydb/memorydb.go: the key-value store and its write batches. */
module MemoryDb {
  import opened Bytes

  datatype KeyValue = KeyValue(key: seq<byte>, value: seq<byte>, delete: bool)

  type Kv = map<seq<byte>, seq<byte>>

  /** What a series of writes makes of a store. */
  function Applied(kv: Kv, cache: seq<KeyValue>): Kv {
    if cache == [] then kv
    else
      var m, c := Applied(kv, cache[..|cache| - 1]), cache[|cache| - 1];
      if c.delete then m - {c.key} else m[c.key := c.value]
  }

  function LastWrite(cache: seq<KeyValue>, key: seq<byte>): Option<KeyValue> {
    if cache == [] then None
    else if cache[|cache| - 1].key == key then Some(cache[|cache| - 1])
    else LastWrite(cache[..|cache| - 1], key)
  }

  function ValueAt(kv: Kv, key: seq<byte>): Option<seq<byte>> {
    if key in kv then Some(kv[key]) else None
  }

  /** Of several writes to a key the last one counts, and other keys keep their values. */
  lemma {:induction false} AppliedAt(kv: Kv, cache: seq<KeyValue>, key: seq<byte>)
    ensures ValueAt(Applied(kv, cache), key) ==
      match LastWrite(cache, key)
      case None => ValueAt(kv, key)
      case Some(c) => if c.delete then None else Some(c.value)
  {
    if cache != [] {
      AppliedAt(kv, cache[..|cache| - 1], key);
    }
  }

  function Volume(cache: seq<KeyValue>): nat {
    if cache == [] then 0
    else
      var c := cache[|cache| - 1];
      Volume(cache[..|cache| - 1]) + |c.key| + if c.delete then 0 else |c.value|
  }

  class MemDB {
    var kv: Kv

    constructor ()
      ensures kv == map[]
    {
      kv := map[];
    }

    method Has(key: seq<byte>) returns (ok: bool)
      ensures ok <==> key in kv
    {
      ok := key in kv;
    }

    /** `None` stands for "not found". */
    method Get(key: seq<byte>) returns (r: Option<seq<byte>>)
      ensures r == if key in kv then Some(kv[key]) else None
    {
      r := if key in kv then Some(kv[key]) else None;
    }

    method Put(key: seq<byte>, value: seq<byte>)
      modifies this
      ensures kv == old(kv)[key := value]
    {
      kv := kv[key := value];
    }

    method Delete(key: seq<byte>)
      modifies this
      ensures kv == old(kv) - {key}
    {
      kv := kv - {key};
    }
  }

  class MemBatch {
    const db: MemDB
    var cache: seq<KeyValue>
    var size: nat

    ghost predicate Valid()
      reads this
    {
      size == Volume(cache)
    }

    /** `NewBatch` */
    constructor (db: MemDB)
      ensures Valid() && this.db == db && cache == []
    {
      this.db, cache, size := db, [], 0;
    }

    method Put(key: seq<byte>, value: seq<byte>)
      requires Valid()
      modifies this
      ensures Valid() && cache == old(cache) + [KeyValue(key, value, false)]
    {
      assert (cache + [KeyValue(key, value, false)])[..|cache|] == cache;
      cache := cache + [KeyValue(key, value, false)];
      size := size + |key| + |value|;
    }

    method Delete(key: seq<byte>)
      requires Valid()
      modifies this
      ensures Valid() && cache == old(cache) + [KeyValue(key, [], true)]
    {
      assert (cache + [KeyValue(key, [], true)])[..|cache|] == cache;
      cache := cache + [KeyValue(key, [], true)];
      size := size + |key|;
    }

    method ValueSize() returns (n: nat)
      requires Valid()
      ensures n == Volume(cache)
    {
      n := size;
    }

    method Submit()
      modifies db
      ensures db.kv == Applied(old(db.kv), cache)
    {
      for i := 0 to |cache|
        invariant db.kv == Applied(old(db.kv), cache[..i])
      {
        var keyvalue := cache[i];
        assert cache[..i + 1][..i] == cache[..i];
        if keyvalue.delete {
          db.kv := db.kv - {keyvalue.key};
          continue;
        }
        db.kv := db.kv[keyvalue.key := keyvalue.value];
      }
      assert cache[..|cache|] == cache;
    }

    method Reset()
      modifies this
      ensures Valid() && cache == []
    {
      cache, size := [], 0;
    }
  }
}
