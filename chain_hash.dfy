/** Separate chaining, `ChainHash` in src/hashing/hash-tables.py: a fixed number of
    buckets, each a list of key/value records searched front to back. */
module ChainHash {
  import opened Options

  datatype Record = Record(key: int, val: int)

  /** Position of the first record of `b` carrying `key`. */
  function IndexOf(b: seq<Record>, key: int): (r: Option<nat>)
    ensures r.Some? ==> r.value < |b| && b[r.value].key == key
    ensures forall i :: 0 <= i < |b| && (r.None? || i < r.value) ==> b[i].key != key
  {
    if b == [] then None
    else if b[0].key == key then Some(0)
    else match IndexOf(b[1..], key)
      case None => None
      case Some(i) => Some(i + 1)
  }

  /** The first record carrying the key is the one `IndexOf` finds. */
  lemma IndexOfFirst(b: seq<Record>, key: int, i: nat)
    requires i < |b| && b[i].key == key
    requires forall j :: 0 <= j < i ==> b[j].key != key
    ensures IndexOf(b, key) == Some(i)
  {
    var r := IndexOf(b, key);
    assert r.Some?;
    assert !(r.value < i) && !(i < r.value);
  }

  /** The value `get_val` finds in a bucket: that of the first record with the key. */
  function Lookup(b: seq<Record>, key: int): Option<int>
  {
    match IndexOf(b, key)
    case None => None
    case Some(i) => Some(b[i].val)
  }

  /** A bucket as `put_val` leaves it: the first record with the key replaced, or a
      new record appended. */
  function Put(b: seq<Record>, key: int, val: int): seq<Record>
  {
    match IndexOf(b, key)
    case Some(i) => b[i := Record(key, val)]
    case None => b + [Record(key, val)]
  }

  /** A bucket as `delete_val` leaves it: the first record with the key popped. */
  function Delete(b: seq<Record>, key: int): seq<Record>
  {
    match IndexOf(b, key)
    case Some(i) => b[..i] + b[i + 1..]
    case None => b
  }

  ghost predicate KeysUnique(b: seq<Record>)
  {
    forall i, j :: 0 <= i < j < |b| ==> b[i].key != b[j].key
  }

  lemma LookupFinds(b: seq<Record>, key: int)
    ensures Lookup(b, key).Some? <==> exists i :: 0 <= i < |b| && b[i].key == key
    ensures Lookup(b, key).Some? ==> Record(key, Lookup(b, key).value) in b
  {
    if Lookup(b, key).None? {
      assert forall i :: 0 <= i < |b| ==> b[i].key != key;
    }
  }

  /** After `put_val(k, v)` the key maps to `v`. */
  lemma PutThenLookup(b: seq<Record>, key: int, val: int)
    ensures Lookup(Put(b, key, val), key) == Some(val)
  {
    var b' := Put(b, key, val);
    match IndexOf(b, key)
    case Some(i) =>
      assert forall j :: 0 <= j < i ==> b'[j] == b[j];
      IndexOfFirst(b', key, i);
    case None =>
      assert forall j :: 0 <= j < |b| ==> b'[j] == b[j];
      IndexOfFirst(b', key, |b|);
  }

  /** `put_val(k, v)` leaves every other key's value as it was. */
  lemma PutOtherKey(b: seq<Record>, key: int, val: int, other: int)
    requires other != key
    ensures Lookup(Put(b, key, val), other) == Lookup(b, other)
  {
    var b' := Put(b, key, val);
    assert forall j :: 0 <= j < |b| ==> b'[j].key == b[j].key;
    assert forall j :: 0 <= j < |b| && b'[j].key == other ==> b'[j] == b[j];
    match IndexOf(b, other)
    case Some(i) =>
      assert IndexOf(b', other) == Some(i);
    case None =>
      assert IndexOf(b', other).None?;
  }

  /** A second `put_val` with the same key overwrites the first. */
  lemma PutOverwrites(b: seq<Record>, key: int, v1: int, v2: int)
    ensures Put(Put(b, key, v1), key, v2) == Put(b, key, v2)
  {
    var b' := Put(b, key, v1);
    match IndexOf(b, key)
    case Some(i) =>
      assert forall j :: 0 <= j < i ==> b'[j] == b[j];
      IndexOfFirst(b', key, i);
    case None =>
      assert forall j :: 0 <= j < |b| ==> b'[j] == b[j];
      IndexOfFirst(b', key, |b|);
  }

  /** `put_val` replaces before it appends, so a bucket never holds a key twice;
      the records of the new bucket are the old ones and the new record. */
  lemma PutKeepsUnique(b: seq<Record>, key: int, val: int)
    requires KeysUnique(b)
    ensures KeysUnique(Put(b, key, val))
    ensures forall r :: r in Put(b, key, val) ==> r in b || r == Record(key, val)
  {
    var b' := Put(b, key, val);
    match IndexOf(b, key)
    case Some(i) =>
      assert forall j :: 0 <= j < |b| ==> b'[j].key == b[j].key;
      assert forall j :: 0 <= j < |b| && j != i ==> b'[j] == b[j];
    case None =>
      assert forall j :: 0 <= j < |b| ==> b'[j] == b[j];
  }

  /** After `delete_val(k)` on a bucket without duplicate keys, `k` is gone. */
  lemma DeleteThenLookup(b: seq<Record>, key: int)
    requires KeysUnique(b)
    ensures Lookup(Delete(b, key), key).None?
  {
    var b' := Delete(b, key);
    match IndexOf(b, key)
    case Some(i) =>
      assert forall j :: 0 <= j < |b'| ==> b'[j] == if j < i then b[j] else b[j + 1];
      assert forall j :: 0 <= j < |b'| ==> b'[j].key != key;
    case None =>
  }

  /** `delete_val(k)` leaves every other key's value as it was, and is a no-op when
      `k` is absent. */
  lemma DeleteOtherKey(b: seq<Record>, key: int, other: int)
    requires other != key
    ensures Lookup(Delete(b, key), other) == Lookup(b, other)
    ensures Lookup(b, key).None? ==> Delete(b, key) == b
  {
    var b' := Delete(b, key);
    match IndexOf(b, key)
    case Some(i) =>
      assert forall j :: 0 <= j < |b'| ==> b'[j] == if j < i then b[j] else b[j + 1];
      match IndexOf(b, other) {
        case Some(o) =>
          assert o != i;
          IndexOfFirst(b', other, if o < i then o else o - 1);
        case None =>
          assert IndexOf(b', other).None?;
      }
    case None =>
  }

  /** `pop(i)` keeps the other records, and their order. */
  lemma DeleteKeepsUnique(b: seq<Record>, key: int)
    requires KeysUnique(b)
    ensures KeysUnique(Delete(b, key))
    ensures forall r :: r in Delete(b, key) ==> r in b
    ensures |Delete(b, key)| == if Lookup(b, key).Some? then |b| - 1 else |b|
  {
    var b' := Delete(b, key);
    match IndexOf(b, key)
    case Some(i) =>
      assert forall j :: 0 <= j < |b'| ==> b'[j] == if j < i then b[j] else b[j + 1];
    case None =>
  }

  /** A table of `size` buckets. Python accepts any size: a size of zero makes every
      `hash(key) % self.size` raise `ZeroDivisionError`, and a negative size builds no
      bucket (`range(size)` is empty), so every lookup of a bucket raises `IndexError`. */
  class ChainHash {
    const size: int
    /** Python's built-in `hash`, which the model takes as a parameter. */
    const hash: int -> int
    var buckets: seq<seq<Record>>

    /** `hash(key) % self.size`; Python's `%` by a positive size is never negative. */
    function BucketOf(key: int): (id: nat)
      requires size > 0
      ensures id < size
    {
      hash(key) % size
    }

    /** One bucket per unit of a positive size (none otherwise), keys unique within a
        bucket, and each record in the bucket its key hashes to. */
    ghost predicate Valid()
      reads this
    {
      && |buckets| == (if size > 0 then size else 0)
      && (forall id :: 0 <= id < |buckets| ==> KeysUnique(buckets[id]))
      && (forall id, j :: 0 <= id < |buckets| && 0 <= j < |buckets[id]| ==> size > 0 && BucketOf(buckets[id][j].key) == id)
    }

    /** The table as a partial map from keys to values; a table without buckets is empty. */
    ghost function Get(key: int): Option<int>
      reads this
      requires Valid()
    {
      if size > 0 then Lookup(buckets[BucketOf(key)], key) else None
    }

    constructor (size: int, hash: int -> int)
      ensures Valid() && this.size == size && this.hash == hash
      ensures forall key :: Get(key).None?
    {
      this.size := size;
      this.hash := hash;
      buckets := seq(if size > 0 then size else 0, _ => []);
    }

    method GetVal(key: int) returns (r: Outcome<Option<int>>)
      requires Valid()
      ensures size <= 0 ==> r == Raised
      ensures size > 0 ==> r == Normal(Get(key))
      ensures size > 0 ==>
        (r.value.Some? <==> exists j :: 0 <= j < |buckets[BucketOf(key)]| && buckets[BucketOf(key)][j].key == key)
    {
      if size <= 0 {
        return Raised;
      }
      var bucket := buckets[BucketOf(key)];
      LookupFinds(bucket, key);
      var i := 0;
      while i < |bucket|
        invariant 0 <= i <= |bucket|
        invariant forall j :: 0 <= j < i ==> bucket[j].key != key
      {
        if bucket[i].key == key {
          return Normal(Some(bucket[i].val));
        }
        i := i + 1;
      }
      return Normal(None);
    }

    method PutVal(key: int, val: int) returns (raised: bool)
      requires Valid()
      modifies this
      ensures Valid()
      ensures raised <==> size <= 0
      ensures raised ==> buckets == old(buckets)
      ensures !raised ==> buckets == old(buckets)[BucketOf(key) := Put(old(buckets)[BucketOf(key)], key, val)]
      ensures !raised ==> Get(key) == Some(val)
      ensures forall other :: other != key ==> Get(other) == old(Get(other))
    {
      if size <= 0 {
        return true;
      }
      raised := false;
      var id := BucketOf(key);
      var bucket := buckets[id];
      PutThenLookup(bucket, key, val);
      PutKeepsUnique(bucket, key, val);
      forall other | other != key {
        PutOtherKey(bucket, key, val, other);
      }
      var i := 0;
      while i < |bucket|
        invariant 0 <= i <= |bucket|
        invariant forall j :: 0 <= j < i ==> bucket[j].key != key
      {
        if bucket[i].key == key {
          buckets := buckets[id := bucket[i := Record(key, val)]];
          return;
        }
        i := i + 1;
      }
      buckets := buckets[id := bucket + [Record(key, val)]];
    }

    method DeleteVal(key: int) returns (raised: bool)
      requires Valid()
      modifies this
      ensures Valid()
      ensures raised <==> size <= 0
      ensures raised ==> buckets == old(buckets)
      ensures !raised ==> buckets == old(buckets)[BucketOf(key) := Delete(old(buckets)[BucketOf(key)], key)]
      ensures Get(key).None?
      ensures forall other :: other != key ==> Get(other) == old(Get(other))
    {
      if size <= 0 {
        return true;
      }
      raised := false;
      var id := BucketOf(key);
      var bucket := buckets[id];
      DeleteThenLookup(bucket, key);
      DeleteKeepsUnique(bucket, key);
      forall other | other != key {
        DeleteOtherKey(bucket, key, other);
      }
      var i := 0;
      while i < |bucket|
        invariant 0 <= i <= |bucket|
        invariant forall j :: 0 <= j < i ==> bucket[j].key != key
      {
        if bucket[i].key == key {
          buckets := buckets[id := bucket[..i] + bucket[i + 1..]];
          return;
        }
        i := i + 1;
      }
    }
  }

  /** The sequence of calls in the source's own test, with a hash that sends every
      key to bucket 0: a missing key, a put, an overwriting put, a delete. */
  method PutOverwriteDelete() returns (missing: Outcome<Option<int>>, first: Outcome<Option<int>>,
                                       second: Outcome<Option<int>>, deleted: Outcome<Option<int>>)
    ensures missing == Normal(None) && first == Normal(Some(10))
    ensures second == Normal(Some(20)) && deleted == Normal(None)
  {
    var t := new ChainHash(7, k => 0);
    missing := t.GetVal(2);
    var raised := t.PutVal(5, 10);
    first := t.GetVal(5);
    raised := t.PutVal(5, 20);
    second := t.GetVal(5);
    raised := t.DeleteVal(5);
    deleted := t.GetVal(5);
  }

  /** A table of size 0 is built without complaint, and then every call raises. */
  method ZeroSizeRaises() returns (got: Outcome<Option<int>>, putRaised: bool, deleteRaised: bool)
    ensures got == Raised && putRaised && deleteRaised
  {
    var t := new ChainHash(0, k => k);
    got := t.GetVal(1);
    putRaised := t.PutVal(1, 10);
    deleteRaised := t.DeleteVal(1);
  }
}
