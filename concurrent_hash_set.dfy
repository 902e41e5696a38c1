/**
 * NativeConcurrentHashSet, single-threaded: the locks are no-ops, so the
 * "tables changed, retry" branches are never taken. The set is a handle
 * (`HashSet`) holding the current `Tables` (bucket array, lock count and
 * per-lock counts), the resize budget and the `GrowLockArray` flag. Each
 * bucket holds its chain as a sequence of nodes (see `HashChains`).
 */
module ConcurrentHashSet {
  import opened Results
  import opened HashChains

  /** The largest bucket count `GrowTable` will choose. */
  const MaxBucketCount: int := 2147483591

  /** `GrowTable` stops doubling the lock count at this many locks. */
  const MaxLockCount: int := 1024

  /**
   * What the set needs of `HashHelpers.GetPrime`: for a non-negative
   * argument it returns a value at least as large.
   */
  ghost predicate PrimeLike(getPrime: int32 -> int32)
  {
    forall n: int32 | 0 <= n :: n <= getPrime(n)
  }

  /**
   * The budget of a sparse table after `GrowTable`: twice the budget in
   * 32-bit arithmetic, or `int.MaxValue` when the doubling wraps to a
   * negative number, which is the doubling saturated at `int.MaxValue`.
   */
  function DoubledBudget(budget: int): (r: int)
    requires 1 <= budget <= IntMax
    ensures r == Min(2 * budget, IntMax)
  {
    var doubled := Wrap32(2 * budget);
    if doubled < 0 then IntMax else doubled
  }

  /**
   * The bucket count `GrowTable` resizes to: `GetPrime` of twice the
   * length, doubled in 32-bit arithmetic, or 2147483591 when the doubling
   * wraps to a negative number or the prime is larger. (The capped
   * branches also set the budget to `int.MaxValue`, which is recomputed
   * from the new table before it is published.)
   */
  function GrownLength(length: int, getPrime: int32 -> int32): (n: int)
    requires 0 < length <= IntMax && PrimeLike(getPrime)
    ensures Min(2 * length, MaxBucketCount) <= n <= MaxBucketCount
    ensures 2 * length <= IntMax ==> n == Min(getPrime(2 * length), MaxBucketCount)
    ensures 2 * length > IntMax ==> n == MaxBucketCount
  {
    var doubled := Wrap32(length * 2);
    if doubled < 0 then MaxBucketCount
    else if getPrime(doubled) > MaxBucketCount then MaxBucketCount
    else getPrime(doubled)
  }

  /** A product with a positive factor is at least the other, non-negative factor. */
  lemma {:induction false} MulAtLeast(q: int, d: int)
    requires 0 <= q && 1 <= d
    ensures q <= q * d
    decreases d
  {
    if d > 1 {
      MulAtLeast(q, d - 1);
      assert q * d == q * (d - 1) + q;
    }
  }

  /**
   * Buckets per lock never exceed the buckets, and there is at least one
   * per lock when there are at least as many buckets as locks.
   */
  lemma PerLockBounds(n: int, d: int)
    requires 0 <= n && 0 < d
    ensures n / d <= n
    ensures d <= n ==> 1 <= n / d
  {
    var q := n / d;
    assert 0 <= q && q * d + n % d == n && n % d < d;
    MulAtLeast(q, d);
  }

  function Max(a: int, b: int): int { if a < b then b else a }

  function Min(a: int, b: int): int { if a < b then a else b }

  /**
   * The chain walk of `Contains`, `TryGetValue`, `TryAddInternal` and
   * `Remove`: the position of the first node with the same hash code and
   * an equal key, or -1 when there is none.
   */
  method FindNode<T(==)>(c: Chain<T>, key: T, hashCode: int32) returns (i: int)
    ensures -1 <= i < |c|
    ensures 0 <= i ==> Matches(c[i], key, hashCode)
    ensures forall j | 0 <= j < |c| && (i < 0 || j < i) :: !Matches(c[j], key, hashCode)
  {
    i := 0;
    while i < |c|
      invariant 0 <= i <= |c|
      invariant forall j | 0 <= j < i :: !Matches(c[j], key, hashCode)
    {
      if Matches(c[i], key, hashCode) {
        return;
      }
      i := i + 1;
    }
    i := -1;
  }

  /**
   * The insertion of `TryAddInternal` in the order it is written, for a
   * key that is not in its chain: the node is linked in front of its
   * bucket first, and the checked increment of the lock count comes
   * after, so an overflow exception leaves the node linked and the count
   * as it was. Returns the new chains, the new counts and the outcome.
   */
  function AddAsWritten<T>(bs: seq<Chain<T>>, counts: seq<int>, locks: int, key: T, hash: T -> int32)
    : (r: (seq<Chain<T>>, seq<int>, Result<bool>))
    requires |bs| > 0 && |counts| == locks > 0
    ensures var b := BucketIndex(hash(key), |bs|);
            && |r.0| == |bs| && r.0[b] == [Node(key, hash(key))] + bs[b]
            && (forall j | 0 <= j < |bs| && j != b :: r.0[j] == bs[j])
            && (r.2.Err? <==> counts[b % locks] == IntMax)
            && (r.2.Err? ==> r.1 == counts)
            && (r.2.Ok? ==> r.2 == Ok(true) && r.1 == counts[b % locks := counts[b % locks] + 1])
  {
    var b := BucketIndex(hash(key), |bs|);
    var linked := bs[b := [Node(key, hash(key))] + bs[b]];
    var l := b % locks;
    if counts[l] == IntMax then (linked, counts, Err(Overflow))
    else (linked, counts[l := counts[l] + 1], Ok(true))
  }

  /**
   * The overflow of `AddAsWritten` breaks the table: the set now holds
   * the key, but the count of its lock no longer matches its buckets, so
   * `Count` and `IsEmpty` disagree with the contents from then on.
   */
  lemma AddAsWrittenOverflow<T(!new)>(bs: seq<Chain<T>>, counts: seq<int>, locks: int, contents: set<T>,
                                      key: T, hash: T -> int32)
    requires Table(bs, locks, counts, hash) && Represents(contents, bs, hash) && key !in contents
    requires counts[BucketIndex(hash(key), |bs|) % locks] == IntMax
    ensures var r := AddAsWritten(bs, counts, locks, key, hash);
            && r.2 == Err(Overflow)
            && Represents(contents + {key}, r.0, hash)
            && !Counted(r.1, r.0, locks)
  {
    var b := BucketIndex(hash(key), |bs|);
    var l := b % locks;
    var c := [Node(key, hash(key))] + bs[b];
    Prepend(contents, bs, hash, key);
    CountedUpdate(counts, bs, locks, b, c);
    assert StripeCount(bs[b := c], l, locks) == IntMax + 1;
  }

  /**
   * One step of the rehash loop: `node` goes in front of new bucket `nb`
   * and the count of lock `l` goes up by one, a checked increment that
   * the caller shows cannot overflow.
   */
  method MoveNode<T>(newBuckets: array<Chain<T>>, newCounts: array<int>, node: Node<T>, nb: int, l: int)
    requires 0 <= nb < newBuckets.Length && 0 <= l < newCounts.Length && newCounts[l] < IntMax
    modifies newBuckets, newCounts
    ensures newBuckets[..] == old(newBuckets[..])[nb := [node] + old(newBuckets[nb])]
    ensures newCounts[..] == old(newCounts[..])[l := old(newCounts[l]) + 1]
  {
    newBuckets[nb] := [node] + newBuckets[nb];
    newCounts[l] := newCounts[l] + 1;
  }

  /**
   * The inner loop of `GrowTable`'s rehash: walks old bucket `i` and links
   * each node in front of the new bucket its cached hash code selects,
   * counting it under that bucket's lock. The checked increment never
   * overflows: no lock count exceeds the old table's node count.
   */
  method MoveChain<T(!new)>(newBuckets: array<Chain<T>>, newCounts: array<int>, bs: seq<Chain<T>>, i: int,
                            hash: T -> int32)
    requires Placed(bs, hash) && Unique(bs) && 0 <= i < |bs| && Total(bs) <= IntMax
    requires newBuckets.Length > 0 && newCounts.Length > 0
    requires Placed(newBuckets[..], hash) && Unique(newBuckets[..])
    requires Counted(newCounts[..], newBuckets[..], newCounts.Length)
    requires Total(newBuckets[..]) == Total(bs[..i]) && Migrated(newBuckets[..], bs, i, 0, hash)
    modifies newBuckets, newCounts
    ensures Placed(newBuckets[..], hash) && Unique(newBuckets[..])
    ensures Counted(newCounts[..], newBuckets[..], newCounts.Length)
    ensures Total(newBuckets[..]) == Total(bs[..i]) + |bs[i]| && Migrated(newBuckets[..], bs, i, |bs[i]|, hash)
  {
    var current := bs[i];
    ghost var nbs := newBuckets[..];
    ghost var ncs := newCounts[..];
    var j := 0;
    while j < |current|
      invariant 0 <= j <= |current|
      invariant newBuckets[..] == nbs && newCounts[..] == ncs
      invariant Placed(nbs, hash) && Unique(nbs) && Counted(ncs, nbs, newCounts.Length)
      invariant Total(nbs) == Total(bs[..i]) + j && Migrated(nbs, bs, i, j, hash)
    {
      var node := current[j];
      var newBucket := BucketIndex(node.hashCode, newBuckets.Length);
      var newLockNo := newBucket % newCounts.Length;
      RehashStep(nbs, ncs, newCounts.Length, bs, i, j, hash, newBucket, newLockNo);
      MoveNode(newBuckets, newCounts, node, newBucket, newLockNo);
      nbs := nbs[newBucket := [node] + nbs[newBucket]];
      ncs := ncs[newLockNo := ncs[newLockNo] + 1];
      j := j + 1;
    }
  }

  /** The arrays of a new table: `n` empty buckets and `locks` zero counts. */
  method NewTable<T>(n: int, locks: int) returns (newBuckets: array<Chain<T>>, newCounts: array<int>)
    requires 0 < n && 0 < locks
    ensures fresh(newBuckets) && fresh(newCounts)
    ensures newBuckets[..] == EmptyBuckets(n) && newCounts[..] == seq(locks, _ => 0)
  {
    newBuckets := new Chain<T>[n](_ => []);
    newCounts := new int[locks](_ => 0);
    assert newBuckets[..] == EmptyBuckets(n);
    assert newCounts[..] == seq(locks, _ => 0);
  }

  /**
   * The rehash of `GrowTable`: a fresh table of `newLength` empty buckets
   * and `newLocks` zero counts receives every node of `bs`. The result is
   * a valid table holding exactly the same keys.
   */
  method Rehash<T(!new)>(bs: seq<Chain<T>>, newLength: int, newLocks: int, hash: T -> int32,
                         ghost contents: set<T>)
    returns (newBuckets: array<Chain<T>>, newCounts: array<int>)
    requires Placed(bs, hash) && Unique(bs) && Represents(contents, bs, hash) && |contents| <= IntMax
    requires 0 < newLength <= IntMax && newLocks > 0
    ensures fresh(newBuckets) && fresh(newCounts)
    ensures newBuckets.Length == newLength && newCounts.Length == newLocks
    ensures Table(newBuckets[..], newLocks, newCounts[..], hash) && Represents(contents, newBuckets[..], hash)
  {
    KeysListContents(contents, bs, hash);
    newBuckets, newCounts := NewTable(newLength, newLocks);
    RehashStart(bs, newLength, newLocks, hash);
    var i := 0;
    while i < |bs|
      invariant 0 <= i <= |bs|
      invariant Placed(newBuckets[..], hash) && Unique(newBuckets[..])
      invariant Counted(newCounts[..], newBuckets[..], newLocks)
      invariant Total(newBuckets[..]) == Total(bs[..i]) && Migrated(newBuckets[..], bs, i, 0, hash)
    {
      MoveChain(newBuckets, newCounts, bs, i, hash);
      RehashNext(newBuckets[..], bs, i, hash);
      i := i + 1;
    }
    RehashDone(newBuckets[..], bs, contents, hash);
    CountsBounded(newCounts[..], newBuckets[..], newLocks);
  }

  /**
   * The set invariant on values: a valid table whose chains hold exactly
   * `contents`, and a budget in the 32-bit range.
   */
  ghost predicate TableState<T(!new)>(bs: seq<Chain<T>>, locks: int, counts: seq<int>, contents: set<T>,
                                      hash: T -> int32, budget: int)
  {
    && Table(bs, locks, counts, hash)
    && Represents(contents, bs, hash)
    && 1 <= budget <= IntMax
  }

  /** `Tables`: the bucket array, the number of locks and the per-lock counts. */
  class Tables<T> {
    var buckets: array<Chain<T>>
    const lockCount: int
    const countPerLock: array<int>

    /** `Tables.Initialize`: stores the three parts. */
    constructor Initialize(buckets: array<Chain<T>>, lockCount: int, countPerLock: array<int>)
      ensures this.buckets == buckets && this.lockCount == lockCount && this.countPerLock == countPerLock
    {
      this.buckets := buckets;
      this.lockCount := lockCount;
      this.countPerLock := countPerLock;
    }
  }

  class HashSet<T(==,!new)> {
    var tables: Tables<T>
    var budget: int
    const growLockArray: bool
    /** `key.GetHashCode()`. */
    const hash: T -> int32
    /** `HashHelpers.GetPrime`. */
    const getPrime: int32 -> int32

    /** The keys in the set. */
    ghost var Contents: set<T>

    /**
     * The table invariant: every node sits in the bucket its cached hash
     * code selects, no chain holds a key twice, each lock count is the
     * number of nodes in that lock's buckets, and the keys of the chains
     * are `Contents`.
     */
    ghost predicate Valid()
      reads this, tables, tables.buckets, tables.countPerLock
    {
      && tables.countPerLock.Length == tables.lockCount
      && TableState(tables.buckets[..], tables.lockCount, tables.countPerLock[..], Contents, hash, budget)
      && PrimeLike(getPrime)
    }

    /**
     * The constructor: a non-positive concurrency level means one lock per
     * processor, the capacity is raised to at least one bucket per lock and
     * then to `GetPrime` of it, and the budget is buckets per lock.
     */
    constructor (concurrencyLevel: int32, capacity: int32, growLockArray: bool,
                 hash: T -> int32, getPrime: int32 -> int32, processorCount: int32)
      requires processorCount > 0 && PrimeLike(getPrime)
      ensures Valid() && fresh(tables) && fresh(tables.buckets) && fresh(tables.countPerLock) && Contents == {}
      ensures var level := if concurrencyLevel <= 0 then processorCount else concurrencyLevel;
              && tables.lockCount == level
              && tables.buckets.Length == getPrime(Max(capacity, level))
              && budget == tables.buckets.Length / level >= 1
      ensures this.growLockArray == growLockArray && this.hash == hash && this.getPrime == getPrime
    {
      var level := concurrencyLevel;
      if level <= 0 {
        level := processorCount;
      }
      var cap := capacity;
      if cap < level {
        cap := level;
      }
      cap := getPrime(cap);
      var countPerLock := new int[level](_ => 0);
      var buckets := new Chain<T>[cap](_ => []);
      EmptyTable(buckets[..], countPerLock[..], level, hash);
      PerLockBounds(cap, level);
      ghost var bs, cs := buckets[..], countPerLock[..];
      assert TableState(bs, level, cs, {}, hash, cap / level);
      var t := new Tables.Initialize(buckets, level, countPerLock);
      tables := t;
      this.growLockArray := growLockArray;
      budget := cap / level;
      this.hash := hash;
      this.getPrime := getPrime;
      Contents := {};
      assert t.buckets[..] == bs && t.countPerLock[..] == cs;
    }

    /** `Contains`: walks the key's chain for a node with its hash code and an equal key. */
    method Contains(key: T) returns (r: bool)
      requires Valid()
      ensures r <==> key in Contents
    {
      var hashCode := hash(key);
      var buckets := tables.buckets;
      var b := BucketIndex(hashCode, buckets.Length);
      var i := FindNode(buckets[b], key, hashCode);
      ChainHas(buckets[b], b, buckets.Length, hash, key);
      r := i >= 0;
    }

    /** `TryGetValue`: the stored key equal to `equalValue`, if any. */
    method TryGetValue(equalValue: T) returns (r: Option<T>)
      requires Valid()
      ensures r.Some? <==> equalValue in Contents
      ensures r.Some? ==> r.value == equalValue
    {
      var hashCode := hash(equalValue);
      var buckets := tables.buckets;
      var b := BucketIndex(hashCode, buckets.Length);
      var i := FindNode(buckets[b], equalValue, hashCode);
      ChainHas(buckets[b], b, buckets.Length, hash, equalValue);
      if i >= 0 {
        return Some(buckets[b][i].key);
      }
      return None;
    }

    /** `AreAllBucketsEmpty`: every lock count is zero, which is the set being empty. */
    method AreAllBucketsEmpty() returns (r: bool)
      requires Valid()
      ensures r <==> forall l | 0 <= l < tables.lockCount :: tables.countPerLock[l] == 0
      ensures r <==> Contents == {}
    {
      var counts := tables.countPerLock;
      var i := 0;
      while i < counts.Length
        invariant 0 <= i <= counts.Length
        invariant forall l | 0 <= l < i :: counts[l] == 0
      {
        if counts[i] != 0 {
          EmptyIffZeroCounts(Contents, tables.buckets[..], counts[..], tables.lockCount, hash);
          return false;
        }
        i := i + 1;
      }
      EmptyIffZeroCounts(Contents, tables.buckets[..], counts[..], tables.lockCount, hash);
      return true;
    }

    /** `IsEmpty`: the lock-free test, confirmed under all locks. */
    method IsEmpty() returns (r: bool)
      requires Valid()
      ensures r <==> Contents == {}
    {
      var empty := AreAllBucketsEmpty();
      if !empty {
        return false;
      }
      r := AreAllBucketsEmpty();
    }

    /**
     * `GetCountNoLocks`: the checked sum of the lock counts. It is the
     * number of keys, and fails with an overflow exactly when that number
     * exceeds `int.MaxValue`.
     */
    method GetCountNoLocks() returns (r: Result<int>)
      requires Valid()
      ensures r.Ok? <==> |Contents| <= IntMax
      ensures r.Ok? ==> r.value == |Contents|
      ensures r.Err? ==> r.error == Overflow
    {
      var counts := tables.countPerLock;
      ghost var cs := counts[..];
      CountsAddUp(cs, tables.buckets[..], tables.lockCount);
      KeysListContents(Contents, tables.buckets[..], hash);
      var count := 0;
      var i := 0;
      while i < counts.Length
        invariant 0 <= i <= counts.Length
        invariant count == Sum(cs[..i]) <= IntMax
      {
        assert cs[..i + 1][..i] == cs[..i];
        if count + counts[i] > IntMax {
          SumPrefix(cs, i + 1);
          return Err(Overflow);
        }
        count := count + counts[i];
        i := i + 1;
      }
      assert cs[..i] == cs;
      return Ok(count);
    }

    /** `Count`: `GetCountNoLocks` under all locks. */
    method Count() returns (r: Result<int>)
      requires Valid()
      ensures r.Ok? <==> |Contents| <= IntMax
      ensures r.Ok? ==> r.value == |Contents|
      ensures r.Err? ==> r.error == Overflow
    {
      r := GetCountNoLocks();
    }

    /**
     * The tables after linking `key` into bucket `b`, from chains `bs0` and
     * lock counts `cs0`: a node holding the key and its hash code is in
     * front of the chain of `b`, the count of `lockNo` is one higher, and
     * nothing else differs.
     */
    ghost predicate Linked(key: T, b: int, lockNo: int, bs0: seq<Chain<T>>, cs0: seq<int>)
      reads this, tables, tables.buckets, tables.countPerLock
    {
      && 0 <= b < |bs0| && 0 <= lockNo < |cs0|
      && tables.buckets[..] == bs0[b := [Node(key, hash(key))] + bs0[b]]
      && tables.countPerLock[..] == cs0[lockNo := cs0[lockNo] + 1]
    }

    /**
     * The insertion step of `TryAddInternal`: a node holding `key` and its
     * hash code goes in front of the chain of bucket `b`, and the count of
     * its lock goes up by one.
     */
    method LinkNode(key: T, b: int, lockNo: int)
      requires Valid() && key !in Contents
      requires b == BucketIndex(hash(key), tables.buckets.Length) && lockNo == b % tables.lockCount
      requires tables.countPerLock[lockNo] < IntMax
      modifies tables.buckets, tables.countPerLock, this`Contents
      ensures Valid() && Contents == old(Contents) + {key}
      ensures Linked(key, b, lockNo, old(tables.buckets[..]), old(tables.countPerLock[..]))
    {
      ghost var bs := tables.buckets[..];
      ghost var cs := tables.countPerLock[..];
      var c := [Node(key, hash(key))] + tables.buckets[b];
      Prepend(Contents, bs, hash, key);
      CountedUpdate(cs, bs, tables.lockCount, b, c);
      tables.buckets[b] := c;
      tables.countPerLock[lockNo] := tables.countPerLock[lockNo] + 1;
      Contents := Contents + {key};
      assert tables.buckets[..] == bs[b := c];
      assert tables.countPerLock[..] == cs[lockNo := cs[lockNo] + 1];
    }

    /**
     * `Add` (`TryAddInternal`): false when an equal key is already in its
     * chain; otherwise the key is linked in and counted, and the table
     * grows once its lock count passes the budget. The checked increment
     * of the lock count is made before the node is linked (see the
     * findings), so an overflow leaves the set as it was; an overflow of
     * the count check inside `GrowTable` comes after the key was added.
     */
    method Add(key: T) returns (r: Result<bool>)
      requires Valid()
      modifies this, tables, tables.buckets, tables.countPerLock
      ensures Valid()
      ensures r == Ok(false) <==> key in old(Contents)
      ensures r == Ok(false) ==> unchanged(this, old(tables), old(tables.buckets), old(tables.countPerLock))
      ensures r.Ok? ==> Contents == old(Contents) + {key}
      ensures r.Err? ==> r.error == Overflow && key !in old(Contents)
      ensures r.Err? ==>
                || (Contents == old(Contents)
                    && old(tables.countPerLock[BucketIndex(hash(key), tables.buckets.Length) % tables.lockCount]) == IntMax)
                || (Contents == old(Contents) + {key} && |Contents| > IntMax)
      ensures var b := BucketIndex(hash(key), old(tables.buckets.Length));
              var lockNo := b % old(tables.lockCount);
              key !in old(Contents) && old(tables.countPerLock[lockNo]) < old(budget) ==>
                && r == Ok(true) && tables == old(tables) && budget == old(budget)
                && Linked(key, b, lockNo, old(tables.buckets[..]), old(tables.countPerLock[..]))
      ensures var lockNo := BucketIndex(hash(key), old(tables.buckets.Length)) % old(tables.lockCount);
              r == Ok(true) && old(tables.countPerLock[lockNo]) >= old(budget) ==>
                Grew(old(tables), old(tables.buckets.Length), old(tables.lockCount), old(budget))
      ensures var b := BucketIndex(hash(key), old(tables.buckets.Length));
              var lockNo := b % old(tables.lockCount);
              r.Err? && old(tables.countPerLock[lockNo]) < IntMax ==>
                && tables == old(tables) && budget == old(budget)
                && Linked(key, b, lockNo, old(tables.buckets[..]), old(tables.countPerLock[..]))
    {
      var hashCode := hash(key);
      var t := tables;
      var b := BucketIndex(hashCode, t.buckets.Length);
      var lockNo := b % t.lockCount;
      var i := FindNode(t.buckets[b], key, hashCode);
      ChainHas(t.buckets[b], b, t.buckets.Length, hash, key);
      if i >= 0 {
        return Ok(false);
      }
      r := Insert(key, b, lockNo);
    }

    /**
     * The insertion path of `TryAddInternal` for a key that is not in the
     * set: the lock count is checked before the node is linked, so an
     * overflow leaves the set as it was; once the key is in, a lock count
     * above the budget grows the table, whose count check may still fail.
     */
    method Insert(key: T, b: int, lockNo: int) returns (r: Result<bool>)
      requires Valid() && key !in Contents
      requires b == BucketIndex(hash(key), tables.buckets.Length) && lockNo == b % tables.lockCount
      modifies this, tables, tables.buckets, tables.countPerLock
      ensures Valid()
      ensures r.Ok? ==> r.value && Contents == old(Contents) + {key}
      ensures r.Err? ==>
                && r.error == Overflow
                && (|| (Contents == old(Contents) && old(tables.countPerLock[lockNo]) == IntMax)
                    || (Contents == old(Contents) + {key} && |Contents| > IntMax))
      ensures old(tables.countPerLock[lockNo]) < old(budget) ==>
                && r == Ok(true) && tables == old(tables) && budget == old(budget)
                && Linked(key, b, lockNo, old(tables.buckets[..]), old(tables.countPerLock[..]))
      ensures r.Ok? && old(tables.countPerLock[lockNo]) >= old(budget) ==>
                Grew(old(tables), old(tables.buckets.Length), old(tables.lockCount), old(budget))
      ensures r.Ok? && tables == old(tables) ==> Linked(key, b, lockNo, old(tables.buckets[..]), old(tables.countPerLock[..]))
      ensures r.Err? && old(tables.countPerLock[lockNo]) < IntMax ==>
                && tables == old(tables) && budget == old(budget)
                && Linked(key, b, lockNo, old(tables.buckets[..]), old(tables.countPerLock[..]))
    {
      var t := tables;
      if t.countPerLock[lockNo] == IntMax {
        return Err(Overflow);
      }
      LinkNode(key, b, lockNo);
      if t.countPerLock[lockNo] > budget {
        var grown := GrowTable();
        if grown.Err? {
          return Err(Overflow);
        }
      }
      return Ok(true);
    }

    /**
     * The unlinking step of `Remove`: node `i` of bucket `b`, the one
     * holding `key`, leaves its chain, through the bucket head when it is
     * first and through its predecessor's link otherwise, and the count
     * of its lock goes down by one.
     */
    method UnlinkNode(key: T, b: int, lockNo: int, i: int)
      requires Valid()
      requires b == BucketIndex(hash(key), tables.buckets.Length) && lockNo == b % tables.lockCount
      requires 0 <= i < |tables.buckets[b]| && tables.buckets[b][i].key == key
      modifies tables.buckets, tables.countPerLock, this`Contents
      ensures Valid() && Contents == old(Contents) - {key}
      ensures tables.buckets[..] == old(tables.buckets[..])[b := old(tables.buckets[b][..i] + tables.buckets[b][i + 1..])]
      ensures tables.countPerLock[..] == old(tables.countPerLock[..])[lockNo := old(tables.countPerLock[lockNo]) - 1]
    {
      ghost var bs := tables.buckets[..];
      ghost var cs := tables.countPerLock[..];
      var c := tables.buckets[b];
      ghost var spliced := c[..i] + c[i + 1..];
      Splice(Contents, bs, hash, key, i);
      CountedUpdate(cs, bs, tables.lockCount, b, spliced);
      if i == 0 {
        assert c[1..] == spliced;
        tables.buckets[b] := c[1..];
      } else {
        tables.buckets[b] := c[..i] + c[i + 1..];
      }
      tables.countPerLock[lockNo] := tables.countPerLock[lockNo] - 1;
      Contents := Contents - {key};
      assert tables.buckets[..] == bs[b := spliced];
      assert tables.countPerLock[..] == cs[lockNo := cs[lockNo] - 1];
    }

    /**
     * `Remove`: true exactly when the key was in the set, which it then no
     * longer is. A zero count for the key's lock answers false without
     * walking the chain: that lock's buckets are all empty.
     */
    method Remove(key: T) returns (r: bool)
      requires Valid()
      modifies tables.buckets, tables.countPerLock, this`Contents
      ensures Valid()
      ensures r <==> key in old(Contents)
      ensures Contents == old(Contents) - {key}
      ensures !r ==> unchanged(tables.buckets, tables.countPerLock)
      ensures var b := BucketIndex(hash(key), tables.buckets.Length);
              var lockNo := b % tables.lockCount;
              var c := old(tables.buckets[b]);
              r ==> exists i | 0 <= i < |c| && c[i].key == key ::
                      && tables.buckets[..] == old(tables.buckets[..])[b := c[..i] + c[i + 1..]]
                      && tables.countPerLock[..] == old(tables.countPerLock[..])[lockNo := old(tables.countPerLock[lockNo]) - 1]
    {
      var hashCode := hash(key);
      var t := tables;
      var b := BucketIndex(hashCode, t.buckets.Length);
      var lockNo := b % t.lockCount;
      ChainHas(t.buckets[b], b, t.buckets.Length, hash, key);
      if t.countPerLock[lockNo] != 0 {
        var i := FindNode(t.buckets[b], key, hashCode);
        if i >= 0 {
          UnlinkNode(key, b, lockNo, i);
          return true;
        }
      } else {
        StripeZero(t.buckets[..], lockNo, t.lockCount, b);
      }
      return false;
    }

    /**
     * What a successful `GrowTable` leaves, from `tables0` with `length0`
     * buckets and `lockCount0` locks and budget `budget0`: a sparse table
     * keeps its tables and doubles the budget, saturating at `int.MaxValue`;
     * otherwise a new table of the grown length, with twice the locks when
     * `GrowLockArray` is set and there are fewer than 1024, and a budget of
     * buckets per lock, at least 1.
     */
    ghost predicate Grew(tables0: Tables<T>, length0: int, lockCount0: int, budget0: int)
      reads this, tables, tables.buckets
    {
      if |Contents| < length0 / 4 then
        tables == tables0 && budget == Min(2 * budget0, IntMax)
      else
        && tables != tables0
        && tables.lockCount == (if growLockArray && lockCount0 < MaxLockCount then 2 * lockCount0 else lockCount0)
        && (0 <= 2 * length0 <= IntMax ==> tables.buckets.Length == Min(getPrime(2 * length0), MaxBucketCount))
        && (2 * length0 > IntMax ==> tables.buckets.Length == MaxBucketCount)
        && tables.lockCount > 0 && budget == Max(1, tables.buckets.Length / tables.lockCount)
    }

    /**
     * `GrowTable`. A sparse table (fewer keys than a quarter of the
     * buckets) only doubles the budget, saturating at `int.MaxValue`.
     * Otherwise every node moves to a fresh table of `GetPrime(2 * length)`
     * buckets, capped at 2147483591, with twice the locks when
     * `GrowLockArray` is set and there are fewer than 1024, and the budget
     * becomes buckets per lock, at least 1. The keys never change; the
     * count check fails with an overflow when there are more keys than
     * `int.MaxValue`.
     */
    method GrowTable() returns (r: Result<()>)
      requires Valid()
      modifies this
      ensures Valid() && Contents == old(Contents)
      ensures r.Err? <==> |Contents| > IntMax
      ensures r.Err? ==> r.error == Overflow && tables == old(tables) && budget == old(budget)
      ensures r.Ok? && |Contents| < old(tables.buckets.Length) / 4 ==>
                tables == old(tables) && budget == Min(2 * old(budget), IntMax)
      ensures r.Ok? && |Contents| >= old(tables.buckets.Length) / 4 ==>
                && fresh(tables) && fresh(tables.buckets) && fresh(tables.countPerLock)
                && tables.lockCount ==
                   (if growLockArray && old(tables.lockCount) < MaxLockCount then 2 * old(tables.lockCount)
                    else old(tables.lockCount))
                && Min(2 * old(tables.buckets.Length), MaxBucketCount) <= tables.buckets.Length <= MaxBucketCount
                && (2 * old(tables.buckets.Length) <= IntMax
                    ==> tables.buckets.Length == Min(getPrime(2 * old(tables.buckets.Length)), MaxBucketCount))
                && (2 * old(tables.buckets.Length) > IntMax ==> tables.buckets.Length == MaxBucketCount)
                && budget == Max(1, tables.buckets.Length / tables.lockCount)
    {
      var count := GetCountNoLocks();
      if count.Err? {
        return Err(Overflow);
      }
      var length := tables.buckets.Length;
      if count.value < length / 4 {
        budget := DoubledBudget(budget);
        return Ok(());
      }
      var newLength := GrownLength(length, getPrime);
      var newLocks := tables.lockCount;
      if growLockArray && tables.lockCount < MaxLockCount {
        newLocks := tables.lockCount * 2;
      }
      Resize(newLength, newLocks);
      return Ok(());
    }

    /**
     * The rehash half of `GrowTable`: every node moves to a fresh table of
     * `newLength` buckets and `newLocks` locks, which replaces the old one,
     * and the budget becomes buckets per lock, at least 1.
     */
    method Resize(newLength: int, newLocks: int)
      requires Valid() && |Contents| <= IntMax && 0 < newLength <= IntMax && newLocks > 0
      modifies this
      ensures Valid() && Contents == old(Contents)
      ensures fresh(tables) && fresh(tables.buckets) && fresh(tables.countPerLock)
      ensures tables.buckets.Length == newLength && tables.lockCount == newLocks
      ensures budget == Max(1, newLength / newLocks)
    {
      var newBuckets, newCounts := Rehash(tables.buckets[..], newLength, newLocks, hash, Contents);
      PerLockBounds(newLength, newLocks);
      Install(newBuckets, newCounts, Contents);
    }

    /**
     * The end of `GrowTable`: a new `Tables` over the rehashed arrays
     * replaces the current one, and the budget becomes buckets per lock,
     * at least 1.
     */
    method Install(newBuckets: array<Chain<T>>, newCounts: array<int>, ghost contents: set<T>)
      requires newCounts.Length > 0 && PrimeLike(getPrime)
      requires TableState(newBuckets[..], newCounts.Length, newCounts[..], contents, hash,
                          Max(1, newBuckets.Length / newCounts.Length))
      modifies this
      ensures Valid() && fresh(tables)
      ensures tables.buckets == newBuckets && tables.countPerLock == newCounts
      ensures tables.lockCount == newCounts.Length && Contents == contents
      ensures budget == Max(1, newBuckets.Length / newCounts.Length)
    {
      var perLock := newBuckets.Length / newCounts.Length;
      budget := if perLock >= 1 then perLock else 1;
      tables := new Tables.Initialize(newBuckets, newCounts.Length, newCounts);
      Contents := contents;
    }

    /**
     * `Clear`: nothing happens to an empty set. Otherwise every bucket is
     * emptied, into a fresh array of `GetPrime(31)` buckets unless the
     * table already has that many, every lock count becomes zero, and the
     * budget becomes buckets per lock, at least 1.
     */
    method Clear()
      requires Valid()
      modifies this, tables, tables.buckets, tables.countPerLock
      ensures Valid() && Contents == {}
      ensures tables == old(tables)
      ensures old(Contents) == {} ==> unchanged(this, old(tables), old(tables.buckets), old(tables.countPerLock))
      ensures old(Contents) != {} ==>
                && tables.buckets.Length == getPrime(31)
                && (old(tables.buckets.Length) == getPrime(31) ==> tables.buckets == old(tables.buckets))
                && (old(tables.buckets.Length) != getPrime(31) ==> fresh(tables.buckets))
                && budget == Max(1, getPrime(31) / tables.lockCount)
    {
      var empty := AreAllBucketsEmpty();
      if empty {
        return;
      }
      var length := getPrime(31);
      var buckets := tables.buckets;
      var counts := tables.countPerLock;
      if buckets.Length != length {
        buckets := new Chain<T>[length](_ => []);
        tables.buckets := buckets;
      } else {
        forall b | 0 <= b < buckets.Length {
          buckets[b] := [];
        }
      }
      forall l | 0 <= l < counts.Length {
        counts[l] := 0;
      }
      EmptyTable(buckets[..], counts[..], tables.lockCount, hash);
      PerLockBounds(length, tables.lockCount);
      var perLock := length / tables.lockCount;
      budget := if perLock >= 1 then perLock else 1;
      Contents := {};
    }
  }

  /** An element followed by more elements in a sequence without repeats does not occur before it. */
  lemma NoDupSplit<X>(a: seq<X>, x: X, b: seq<X>)
    requires NoDup(a + [x] + b)
    ensures x !in a
  {
    forall i | 0 <= i < |a|
      ensures a[i] != x
    {
      assert (a + [x] + b)[i] == a[i] && (a + [x] + b)[|a|] == x;
    }
  }

  /** The states of `Enumerator`. */
  const Uninitialized: int := 0
  const OuterLoop: int := 1
  const InnerLoop: int := 2
  const Done: int := 3

  /**
   * `Enumerator` (`GetEnumerator`): walks the buckets in order and each
   * chain from its head. The first `MoveNext` takes the bucket array of
   * the set; `node` is the rest of the chain being walked, empty where the
   * source has a null node.
   */
  class Enumerator<T(==,0,!new)> {
    const source: HashSet<T>
    var buckets: seq<Chain<T>>
    var index: int
    var node: Chain<T>
    var state: int
    var current: T

    /** The keys returned so far, in order. */
    ghost var Yielded: seq<T>
    /** The keys of the set when the enumeration started. */
    ghost var Keys: set<T>

    /**
     * Between calls the enumerator is not started, inside a chain, or done.
     * Once started, the keys of the buckets in walking order have no
     * repeats and are exactly `Keys`; those returned so far, followed by
     * the rest of the current chain and the later buckets, are all of them.
     */
    ghost predicate Valid()
      reads this
    {
      && (state == Uninitialized || state == InnerLoop || state == Done)
      && (state == Uninitialized ==> Yielded == [])
      && (state != Uninitialized ==>
            && NoDup(KeysFrom(buckets, 0))
            && forall k :: k in KeysFrom(buckets, 0) <==> k in Keys)
      && (state == InnerLoop ==> 0 <= index < |buckets| && At(Yielded, node, buckets, index, KeysFrom(buckets, 0)))
      && (state == Done ==> Yielded == KeysFrom(buckets, 0))
    }

    /** The enumerator constructor: not started, over set `s`. */
    constructor (s: HashSet<T>)
      ensures Valid() && source == s && state == Uninitialized && index == -1 && Yielded == []
    {
      source := s;
      index := -1;
      buckets := [];
      node := [];
      state := Uninitialized;
      Yielded := [];
    }

    /**
     * The start of `MoveNext`: the buckets of the set are taken, and the
     * walk stands before the first bucket.
     */
    method Start()
      requires Valid() && state == Uninitialized && source.Valid()
      modifies this
      ensures Valid() && state == Uninitialized && index == -1 && Yielded == []
      ensures buckets == old(source.tables.buckets[..]) && Keys == old(source.Contents)
      ensures NoDup(KeysFrom(buckets, 0)) && forall k :: k in KeysFrom(buckets, 0) <==> k in Keys
    {
      buckets := source.tables.buckets[..];
      Keys := source.Contents;
      KeysListContents(Keys, buckets, source.hash);
      index := -1;
    }

    /**
     * `MoveNext`: the first call takes the buckets of the set. Each call
     * returns the next key of the current chain, moving on to the next
     * bucket when the chain is exhausted, and returns false once the last
     * bucket is behind it, and on every call after that. Every key of the
     * set is returned exactly once, bucket by bucket, each chain from its
     * head.
     */
    method MoveNext() returns (moved: bool)
      requires Valid() && (state == Uninitialized ==> source.Valid())
      modifies this
      ensures Valid()
      ensures old(state) == Uninitialized ==> buckets == old(source.tables.buckets[..]) && Keys == old(source.Contents)
      ensures old(state) != Uninitialized ==> buckets == old(buckets) && Keys == old(Keys)
      ensures moved ==> state == InnerLoop && Yielded == old(Yielded) + [current]
      ensures moved ==> current in Keys && current !in old(Yielded)
      ensures !moved ==> state == Done && Yielded == old(Yielded)
      ensures !moved ==> Yielded == KeysFrom(buckets, 0) && NoDup(Yielded) && forall k :: k in Yielded <==> k in Keys
      ensures old(state) == Done ==> !moved
    {
      var pc := state;
      if pc == Uninitialized {
        Start();
        pc := OuterLoop;
      }
      if pc == Done {
        return false;
      }
      ghost var all := KeysFrom(buckets, 0);
      if pc == OuterLoop {
        AtStart(buckets);
      }
      var i, n, found := Walk(buckets, index, node, pc, Yielded, all);
      if found {
        NextNode(Yielded, n, buckets, i, all);
        index, node, current, state := i, n[1..], n[0].key, InnerLoop;
        Yielded := Yielded + [current];
        return true;
      }
      index, node, state := i, n, Done;
      return false;
    }
  }

  /**
   * A position of the walk: the keys returned so far `ys`, then the rest
   * `n` of the chain of bucket `i`, then the keys of the later buckets,
   * are all the keys. Before bucket `i + 1` the rest is empty.
   */
  ghost predicate At<T>(ys: seq<T>, n: Chain<T>, bs: seq<Chain<T>>, i: int, all: seq<T>)
    requires -1 <= i
  {
    ys + ChainKeys(n) + KeysFrom(bs, i + 1) == all
  }

  /** The walk starts before the first bucket with nothing returned. */
  lemma AtStart<T>(bs: seq<Chain<T>>)
    ensures At([], [], bs, -1, KeysFrom(bs, 0))
  {
    assert [] + ChainKeys([]) + KeysFrom(bs, 0) == KeysFrom(bs, 0);
  }

  /**
   * The state machine of `MoveNext` from the outer or the inner loop:
   * steps to the next bucket whenever the current chain is exhausted,
   * until it stands at a node (`found`) or past the last bucket. The keys
   * returned before, followed by what is left from where it stops, are
   * still all the keys.
   */
  method Walk<T>(bs: seq<Chain<T>>, index: int, node: Chain<T>, pc: int, ghost ys: seq<T>, ghost all: seq<T>)
    returns (i: int, n: Chain<T>, found: bool)
    requires pc == OuterLoop || pc == InnerLoop
    requires pc == OuterLoop ==> -1 <= index < |bs| && At(ys, [], bs, index, all)
    requires pc == InnerLoop ==> 0 <= index < |bs| && At(ys, node, bs, index, all)
    ensures found ==> 0 <= i < |bs| && n != [] && At(ys, n, bs, i, all)
    ensures !found ==> i == |bs| && ys == all
  {
    var state := pc;
    i, n := index, if pc == OuterLoop then [] else node;
    while state == OuterLoop || state == InnerLoop
      invariant state == OuterLoop || state == InnerLoop || state == Done
      invariant state == OuterLoop ==> -1 <= i < |bs| && n == [] && At(ys, n, bs, i, all)
      invariant state == InnerLoop ==> 0 <= i < |bs| && At(ys, n, bs, i, all)
      invariant state == Done ==> i == |bs| && ys == all
      decreases 2 * (|bs| - i) + (if state == InnerLoop then 1 else 0)
    {
      if state == OuterLoop {
        NextBucket(ys, bs, i, all);
        i := i + 1;
        if i < |bs| {
          n := bs[i];
          state := InnerLoop;
        } else {
          state := Done;
        }
      } else if n != [] {
        return i, n, true;
      } else {
        state := OuterLoop;
      }
    }
    found := false;
  }

  /** Stepping from before bucket `i + 1` into it: its chain comes next, and past the last bucket nothing does. */
  lemma NextBucket<T>(ys: seq<T>, bs: seq<Chain<T>>, i: int, all: seq<T>)
    requires -1 <= i < |bs| && At(ys, [], bs, i, all)
    ensures i + 1 < |bs| ==> At(ys, bs[i + 1], bs, i + 1, all)
    ensures i + 1 == |bs| ==> ys == all
  {
    assert ChainKeys<T>([]) == [];
    assert ys + KeysFrom(bs, i + 1) == all;
    if i + 1 < |bs| {
      assert KeysFrom(bs, i + 1) == ChainKeys(bs[i + 1]) + KeysFrom(bs, i + 2);
      assert ys + ChainKeys(bs[i + 1]) + KeysFrom(bs, i + 2) == ys + (ChainKeys(bs[i + 1]) + KeysFrom(bs, i + 2));
    } else {
      assert ys + [] == ys;
    }
  }

  /**
   * Taking the head of the chain being walked: its key is returned next.
   * When the keys have no repeats, it is one of them and was not returned
   * before.
   */
  lemma NextNode<T>(ys: seq<T>, n: Chain<T>, bs: seq<Chain<T>>, i: int, all: seq<T>)
    requires -1 <= i && n != [] && At(ys, n, bs, i, all)
    ensures At(ys + [n[0].key], n[1..], bs, i, all)
    ensures NoDup(all) ==> n[0].key in all && n[0].key !in ys
  {
    var rest := ChainKeys(n[1..]) + KeysFrom(bs, i + 1);
    assert ChainKeys(n) == [n[0].key] + ChainKeys(n[1..]);
    assert ys + ChainKeys(n) + KeysFrom(bs, i + 1) == ys + [n[0].key] + rest;
    assert ys + [n[0].key] + rest == (ys + [n[0].key]) + ChainKeys(n[1..]) + KeysFrom(bs, i + 1);
    assert all[|ys|] == n[0].key;
    if NoDup(all) {
      NoDupSplit(ys, n[0].key, rest);
    }
  }
}
