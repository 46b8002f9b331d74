/** Open addressing with linear probing, `OpenAddressHash` in src/hashing/hash-tables.py:
    a fixed array of slots holding non-negative keys, where `-1` marks a slot never
    used and `-2` a slot whose key was removed (a tombstone). */
module OpenAddressHash {
  import opened Options

  const Empty := -1
  const Deleted := -2

  /** The slot visited at step `k` of the probe sequence from `h`: `(h + k) % cap`. */
  function Probe(h: int, k: int, cap: int): (j: int)
    requires 0 <= h < cap && 0 <= k < cap
    ensures 0 <= j < cap
  {
    if h + k < cap then h + k else h + k - cap
  }

  /** The step at which the probe sequence from `h` reaches slot `j`. */
  function Dist(h: int, j: int, cap: int): (k: int)
    requires 0 <= h < cap && 0 <= j < cap
    ensures 0 <= k < cap && Probe(h, k, cap) == j
    ensures forall k' :: 0 <= k' < cap && Probe(h, k', cap) == j ==> k' == k
  {
    if h <= j then j - h else j - h + cap
  }

  /** One step of `i = (i + 1) % self.cap` along the probe sequence: it comes back to
      `h` exactly when all `cap` slots have been visited. */
  lemma ProbeNext(h: int, k: int, cap: int)
    requires 0 <= h < cap && 0 <= k < cap
    ensures (Probe(h, k, cap) + 1) % cap == if k + 1 < cap then Probe(h, k + 1, cap) else h
    ensures k + 1 < cap ==> Probe(h, k + 1, cap) != h
  {
    var i := Probe(h, k, cap);
    if i + 1 == cap {
      ModSelf(cap);
      assert h + k == cap - 1 || h + k == 2 * cap - 1;
    } else {
      ModBelow(i + 1, cap);
    }
  }

  lemma ModBelow(x: int, n: int)
    requires 0 <= x < n
    ensures x % n == x
  {
  }

  lemma ModSelf(n: int)
    requires 0 < n
    ensures n % n == 0
  {
  }

  /** Every slot from step 0 to step `k` of the run from `h` holds something other than `-1`. */
  ghost predicate ReachedBeforeEmpty(s: seq<int>, h: int, k: int)
    requires 0 <= h < |s| && 0 <= k <= |s|
  {
    forall k' :: 0 <= k' < k ==> s[Probe(h, k', |s|)] != Empty
  }

  /** `x` sits on the probe run from `h`, before the first empty slot. */
  ghost predicate OnProbeRun(s: seq<int>, x: int, h: int)
    requires 0 <= h < |s|
  {
    exists k :: 0 <= k < |s| && s[Probe(h, k, |s|)] == x && ReachedBeforeEmpty(s, h, k)
  }

  /** Slots hold a key (`>= 0`), `-1` or `-2`. */
  ghost predicate Wellformed(s: seq<int>)
  {
    forall j :: 0 <= j < |s| ==> s[j] >= Deleted
  }

  /** No key occupies two slots. */
  ghost predicate KeysUnique(s: seq<int>)
  {
    forall i, j :: 0 <= i < j < |s| && s[i] >= 0 ==> s[i] != s[j]
  }

  /** Every key is reachable from its home slot `key % cap` without crossing a `-1`. */
  ghost predicate ChainsIntact(s: seq<int>)
  {
    forall j :: 0 <= j < |s| && s[j] >= 0 ==> ReachedBeforeEmpty(s, s[j] % |s|, Dist(s[j] % |s|, j, |s|))
  }

  /** The number of slots that hold a key. */
  function Occupied(s: seq<int>): (n: nat)
    ensures n <= |s|
  {
    if s == [] then 0 else Occupied(s[..|s| - 1]) + if s[|s| - 1] >= 0 then 1 else 0
  }

  lemma {:induction false} OccupiedUpdate(s: seq<int>, j: int, v: int)
    requires 0 <= j < |s|
    ensures Occupied(s[j := v]) == Occupied(s) - (if s[j] >= 0 then 1 else 0) + (if v >= 0 then 1 else 0)
  {
    var t := s[j := v];
    if j < |s| - 1 {
      assert t[..|t| - 1] == s[..|s| - 1][j := v];
      OccupiedUpdate(s[..|s| - 1], j, v);
    } else {
      assert t[..|t| - 1] == s[..|s| - 1];
    }
  }

  lemma {:induction false} OccupiedNone(s: seq<int>)
    requires forall j :: 0 <= j < |s| ==> s[j] < 0
    ensures Occupied(s) == 0
  {
    if s != [] {
      OccupiedNone(s[..|s| - 1]);
    }
  }

  lemma {:induction false} OccupiedAll(s: seq<int>)
    requires forall j :: 0 <= j < |s| ==> s[j] >= 0
    ensures Occupied(s) == |s|
  {
    if s != [] {
      OccupiedAll(s[..|s| - 1]);
    }
  }

  /** A probe run that met only keys for all `cap` steps has seen a full table; so while
      fewer than `cap` slots hold keys, `insert`'s loop finds a free slot. */
  lemma FullRunFullTable(s: seq<int>, h: int, k: int)
    requires 0 <= h < |s| && 0 <= k < |s|
    requires forall k' :: 0 <= k' <= k ==> s[Probe(h, k', |s|)] >= 0
    ensures k + 1 == |s| ==> Occupied(s) == |s|
  {
    if k + 1 == |s| {
      forall j | 0 <= j < |s| ensures s[j] >= 0 {
        assert s[Probe(h, Dist(h, j, |s|), |s|)] >= 0;
      }
      OccupiedAll(s);
    }
  }

  /** With intact chains, `search`'s notion of presence is plain membership. */
  lemma KeyOnRun(s: seq<int>, x: int)
    requires |s| > 0 && x >= 0 && ChainsIntact(s)
    ensures x in s <==> OnProbeRun(s, x, x % |s|)
  {
    var h := x % |s|;
    if x in s {
      var j :| 0 <= j < |s| && s[j] == x;
      var k := Dist(h, j, |s|);
      assert s[Probe(h, k, |s|)] == x && ReachedBeforeEmpty(s, h, k);
    }
  }

  /** Writing a key into the first free slot of its probe run keeps every chain intact. */
  lemma InsertKeepsChains(s: seq<int>, x: int, k: int)
    requires |s| > 0 && x >= 0 && 0 <= k < |s|
    requires Wellformed(s) && ChainsIntact(s) && KeysUnique(s) && x !in s
    requires s[Probe(x % |s|, k, |s|)] < 0
    requires forall k' :: 0 <= k' < k ==> s[Probe(x % |s|, k', |s|)] >= 0
    ensures var t := s[Probe(x % |s|, k, |s|) := x];
      Wellformed(t) && ChainsIntact(t) && KeysUnique(t)
  {
    var h, j := x % |s|, Probe(x % |s|, k, |s|);
    var t := s[j := x];
    forall i | 0 <= i < |t| && t[i] >= 0
      ensures ReachedBeforeEmpty(t, t[i] % |t|, Dist(t[i] % |t|, i, |t|))
    {
      if i != j {
        assert ReachedBeforeEmpty(s, s[i] % |s|, Dist(s[i] % |s|, i, |s|));
      } else {
        assert Dist(h, j, |s|) == k;
      }
    }
  }

  /** Turning a key's slot into a tombstone (never `-1`) keeps the other chains intact. */
  lemma RemoveKeepsChains(s: seq<int>, j: int)
    requires 0 <= j < |s| && s[j] >= 0
    requires Wellformed(s) && ChainsIntact(s) && KeysUnique(s)
    ensures var t := s[j := Deleted];
      Wellformed(t) && ChainsIntact(t) && KeysUnique(t) && s[j] !in t
    ensures Occupied(s[j := Deleted]) == Occupied(s) - 1
  {
    var t := s[j := Deleted];
    forall i | 0 <= i < |t| && t[i] >= 0
      ensures ReachedBeforeEmpty(t, t[i] % |t|, Dist(t[i] % |t|, i, |t|))
    {
      assert ReachedBeforeEmpty(s, s[i] % |s|, Dist(s[i] % |s|, i, |s|));
    }
    OccupiedUpdate(s, j, Deleted);
  }

  class OpenAddressHash {
    const cap: int
    const buckets: array<int>
    /** Counts successful inserts; `remove` leaves it alone. */
    var size: int

    /** `[-1] * cap` holds no slot at all when `cap` is zero or negative. */
    ghost predicate Valid()
      reads this, buckets
    {
      && buckets.Length == (if cap > 0 then cap else 0)
      && Wellformed(buckets[..])
      && ChainsIntact(buckets[..])
      && KeysUnique(buckets[..])
      && Occupied(buckets[..]) <= size <= buckets.Length
    }

    constructor (cap: int)
      ensures Valid() && this.cap == cap && size == 0 && fresh(buckets)
      ensures buckets.Length == if cap > 0 then cap else 0
      ensures forall j :: 0 <= j < buckets.Length ==> buckets[j] == Empty
    {
      this.cap := cap;
      buckets := new int[if cap > 0 then cap else 0](_ => Empty);
      size := 0;
      new;
      OccupiedNone(buckets[..]);
    }

    /** `x % self.cap` with Python's sign rule: a slot index for a positive `cap`, a
        value in `(cap, 0]` for a negative one. */
    function Hash(x: int): (h: int)
      requires cap != 0
      ensures cap > 0 ==> 0 <= h < cap
      ensures cap < 0 ==> cap < h <= 0
    {
      var r := x % cap;
      if cap > 0 || r == 0 then r else r + cap
    }

    /** `x % 0` raises `ZeroDivisionError`; with a negative `cap` there is no slot, so
        `t[i]` raises `IndexError`. */
    method Search(x: int) returns (r: Outcome<bool>)
      requires Valid() && x >= 0
      ensures r == Raised <==> cap <= 0
      ensures r.Normal? ==> (r.value <==> OnProbeRun(buckets[..], x, Hash(x)))
      ensures r.Normal? ==> (r.value <==> x in buckets[..])
    {
      if cap <= 0 {
        return Raised;
      }
      var s := buckets[..];
      var h := Hash(x);
      var i := h;
      ghost var k := 0;
      KeyOnRun(s, x);
      while buckets[i] != Empty
        invariant buckets[..] == s
        invariant 0 <= k < cap && i == Probe(h, k, cap)
        invariant ReachedBeforeEmpty(s, h, k)
        invariant forall k' :: 0 <= k' < k ==> s[Probe(h, k', cap)] != x
        decreases cap - k
      {
        if buckets[i] == x {
          assert s[Probe(h, k, cap)] == x;
          return Normal(true);
        }
        ProbeNext(h, k, cap);
        i := (i + 1) % cap;
        if i == h {
          return Normal(false);
        }
        k := k + 1;
      }
      assert !ReachedBeforeEmpty(s, h, k + 1) by {
        assert s[Probe(h, k, cap)] == Empty;
      }
      return Normal(false);
    }

    /** With `cap < 0`, `size == cap` never holds and `search` raises. */
    method Insert(x: int) returns (ok: bool, raised: bool)
      requires Valid() && x >= 0
      modifies this, buckets
      ensures Valid()
      ensures raised <==> cap < 0
      ensures ok <==> old(size) < cap && x !in old(buckets[..])
      ensures !ok ==> size == old(size) && buckets[..] == old(buckets[..])
      ensures ok ==> size == old(size) + 1 && exists k ::
        && 0 <= k < cap
        && old(buckets[..])[Probe(Hash(x), k, cap)] in {Empty, Deleted}
        && (forall k' :: 0 <= k' < k ==> old(buckets[..])[Probe(Hash(x), k', cap)] >= 0)
        && buckets[..] == old(buckets[..])[Probe(Hash(x), k, cap) := x]
    {
      raised := false;
      if size == cap {
        return false, false;
      }
      var present := Search(x);
      if present.Raised? {
        return false, true;
      }
      if present.value {
        return false, false;
      }
      var s := buckets[..];
      ghost var k;
      var i;
      i, k := FreeSlot(Hash(x));
      InsertKeepsChains(s, x, k);
      OccupiedUpdate(s, i, x);
      buckets[i] := x;
      assert buckets[..] == s[i := x];
      size := size + 1;
      return true, false;
    }

    /** The probe loop of `insert` from the home slot `h`: the first slot holding `-1`
        or `-2` on the run, which exists while fewer than `cap` slots hold keys. */
    method FreeSlot(h: int) returns (i: int, ghost k: int)
      requires buckets.Length == cap && Wellformed(buckets[..])
      requires 0 <= h < cap && Occupied(buckets[..]) < cap
      ensures 0 <= k < cap && i == Probe(h, k, cap)
      ensures buckets[i] in {Empty, Deleted}
      ensures forall k' :: 0 <= k' < k ==> buckets[Probe(h, k', cap)] >= 0
    {
      var s := buckets[..];
      i, k := h, 0;
      while buckets[i] != Empty && buckets[i] != Deleted
        invariant s == buckets[..] && |s| == cap
        invariant 0 <= k < cap && i == Probe(h, k, cap)
        invariant forall k' :: 0 <= k' < k ==> s[Probe(h, k', cap)] >= 0
        decreases cap - k
      {
        FullRunFullTable(s, h, k);
        ProbeNext(h, k, cap);
        i := (i + 1) % cap;
        k := k + 1;
      }
    }

    /** Raises as `search` does when `cap <= 0`. */
    method Remove(x: int) returns (ok: bool, raised: bool)
      requires Valid() && x >= 0
      modifies buckets
      ensures Valid()
      ensures raised <==> cap <= 0
      ensures ok <==> x in old(buckets[..])
      ensures ok ==> exists j :: 0 <= j < cap && old(buckets[j]) == x && buckets[..] == old(buckets[..])[j := Deleted]
      ensures !ok ==> buckets[..] == old(buckets[..])
      ensures x !in buckets[..]
    {
      if cap <= 0 {
        return false, true;
      }
      raised := false;
      var s := buckets[..];
      var h := Hash(x);
      var i := h;
      ghost var k := 0;
      KeyOnRun(s, x);
      while buckets[i] != Empty
        invariant buckets[..] == s
        invariant 0 <= k < cap && i == Probe(h, k, cap)
        invariant ReachedBeforeEmpty(s, h, k)
        invariant forall k' :: 0 <= k' < k ==> s[Probe(h, k', cap)] != x
        decreases cap - k
      {
        if buckets[i] == x {
          RemoveKeepsChains(s, i);
          buckets[i] := Deleted;
          assert buckets[..] == s[i := Deleted];
          return true, false;
        }
        ProbeNext(h, k, cap);
        i := (i + 1) % cap;
        if i == h {
          return false, false;
        }
        k := k + 1;
      }
      assert !ReachedBeforeEmpty(s, h, k + 1) by {
        assert s[Probe(h, k, cap)] == Empty;
      }
      return false, false;
    }
  }

  /** `OpenAddressHash(0)`: `insert` finds the table full and returns False, while
      `search` and `remove` raise on `x % 0`. `OpenAddressHash(-3)`: every call raises,
      since no slot exists. */
  method NonPositiveCapacity() returns (zeroInsert: bool, zeroRaised: bool, zeroSearch: Outcome<bool>,
                                        zeroRemoveRaised: bool, negativeSearch: Outcome<bool>,
                                        negativeInsertRaised: bool)
    ensures !zeroInsert && !zeroRaised && zeroSearch == Raised && zeroRemoveRaised
    ensures negativeSearch == Raised && negativeInsertRaised
  {
    var t := new OpenAddressHash(0);
    zeroInsert, zeroRaised := t.Insert(5);
    zeroSearch := t.Search(5);
    var removed;
    removed, zeroRemoveRaised := t.Remove(5);
    var u := new OpenAddressHash(-3);
    negativeSearch := u.Search(5);
    var inserted;
    inserted, negativeInsertRaised := u.Insert(5);
  }
}
