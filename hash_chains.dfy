/**
 * The bucket table of NativeConcurrentHashSet as a value: a sequence of
 * bucket chains, each chain the nodes reachable from its bucket head in
 * `Next` order. This module holds the table invariant (node placement,
 * no duplicate keys, per-lock counts) and the lemmas that show each
 * update of a single bucket keeps it.
 */
module HashChains {

  /** `int.MaxValue`. */
  const IntMax: int := 0x7fff_ffff

  /** A 32-bit signed integer. */
  type int32 = x: int | -0x8000_0000 <= x <= 0x7fff_ffff

  /** 32-bit two's-complement wrap-around of an unbounded result. */
  function Wrap32(x: int): (r: int32)
    ensures (r - x) % 0x1_0000_0000 == 0
    ensures -0x8000_0000 <= x <= IntMax ==> r == x
    ensures 0x8000_0000 <= x < 0x1_0000_0000 ==> r == x - 0x1_0000_0000
  {
    (x + 0x8000_0000) % 0x1_0000_0000 - 0x8000_0000
  }

  /** `(uint)x`: the same 32 bits read as an unsigned number. */
  function ToUInt32(x: int32): (u: nat)
    ensures u < 0x1_0000_0000 && (u - x) % 0x1_0000_0000 == 0
  {
    if x < 0 then x + 0x1_0000_0000 else x
  }

  /**
   * `GetBucket`/`GetBucketAndLock` on their 32-bit path:
   * `(uint)hashCode % (uint)length`, the bucket a hash code selects.
   */
  function BucketIndex(hashCode: int32, length: int): (b: nat)
    requires length > 0
    ensures b < length
    ensures 0 <= hashCode ==> b == hashCode % length
  {
    ToUInt32(hashCode) % length
  }

  /**
   * A node as `Node.Initialize` fills it: the key and its cached hash code.
   * Its `Next` link is its position in the chain that holds it.
   */
  datatype Node<T> = Node(key: T, hashCode: int32)

  /** A bucket chain: the nodes from the bucket head along `Next`. */
  type Chain<T> = seq<Node<T>>

  /** The keys of chain `c`, head first. */
  function ChainKeys<T>(c: Chain<T>): (ks: seq<T>)
    ensures |ks| == |c| && forall j | 0 <= j < |c| :: ks[j] == c[j].key
  {
    if c == [] then [] else [c[0].key] + ChainKeys(c[1..])
  }

  /** No element occurs twice in `s`. */
  ghost predicate NoDup<X>(s: seq<X>)
  {
    forall i, j | 0 <= i < j < |s| :: s[i] != s[j]
  }

  /**
   * Every node of chain `c` caches the hash code of its key and sits in
   * bucket `b` of a table of `n` buckets.
   */
  ghost predicate ChainPlaced<T>(c: Chain<T>, b: int, n: int, hash: T -> int32)
    requires n > 0
  {
    forall j | 0 <= j < |c| :: c[j].hashCode == hash(c[j].key) && BucketIndex(c[j].hashCode, n) == b
  }

  /** Every node of the table sits in the bucket its hash code selects. */
  ghost predicate Placed<T>(bs: seq<Chain<T>>, hash: T -> int32)
  {
    |bs| > 0 && forall b | 0 <= b < |bs| :: ChainPlaced(bs[b], b, |bs|, hash)
  }

  /** No chain of the table holds two nodes with equal keys. */
  ghost predicate Unique<T>(bs: seq<Chain<T>>)
  {
    forall b | 0 <= b < |bs| :: NoDup(ChainKeys(bs[b]))
  }

  /** The number of nodes in the table. */
  ghost function Total<T>(bs: seq<Chain<T>>): nat
  {
    if bs == [] then 0 else Total(bs[..|bs| - 1]) + |bs[|bs| - 1]|
  }

  /** The number of nodes in the buckets guarded by lock `l` (bucket `b` by lock `b % locks`). */
  ghost function StripeCount<T>(bs: seq<Chain<T>>, l: int, locks: int): nat
    requires locks > 0
  {
    if bs == [] then 0
    else StripeCount(bs[..|bs| - 1], l, locks) + (if (|bs| - 1) % locks == l then |bs[|bs| - 1]| else 0)
  }

  /** The sum of `s`. */
  function Sum(s: seq<int>): int
  {
    if s == [] then 0 else Sum(s[..|s| - 1]) + s[|s| - 1]
  }

  /** `CountPerLock[l]` is the number of nodes in the buckets of lock `l`. */
  ghost predicate Counted<T>(counts: seq<int>, bs: seq<Chain<T>>, locks: int)
  {
    |counts| == locks > 0 && forall l | 0 <= l < locks :: counts[l] == StripeCount(bs, l, locks)
  }

  /**
   * The table invariant: placement, distinct keys, exact per-lock counts,
   * and 32-bit bounds on the bucket count and the per-lock counts.
   */
  ghost predicate Table<T>(bs: seq<Chain<T>>, locks: int, counts: seq<int>, hash: T -> int32)
  {
    && Placed(bs, hash) && |bs| <= IntMax
    && Unique(bs)
    && Counted(counts, bs, locks)
    && forall l | 0 <= l < |counts| :: counts[l] <= IntMax
  }

  /** The keys of the table are `contents`: each is found in the bucket its hash selects. */
  ghost predicate Represents<T(!new)>(contents: set<T>, bs: seq<Chain<T>>, hash: T -> int32)
    requires |bs| > 0
  {
    forall k :: k in contents <==> k in ChainKeys(bs[BucketIndex(hash(k), |bs|)])
  }

  /** A table of `n` empty buckets. */
  function EmptyBuckets<T>(n: nat): (bs: seq<Chain<T>>)
    ensures |bs| == n && forall b | 0 <= b < n :: bs[b] == []
  {
    seq(n, _ => [])
  }

  // ---------------------------------------------------------------------
  // Sums and counts

  /** Changing one element changes the sum by the difference. */
  lemma {:induction false} SumUpdate(s: seq<int>, m: int, v: int)
    requires 0 <= m < |s|
    ensures Sum(s[m := v]) == Sum(s) - s[m] + v
  {
    var n := |s|;
    var t := s[m := v];
    if m < n - 1 {
      assert t[..n - 1] == s[..n - 1][m := v];
      SumUpdate(s[..n - 1], m, v);
    } else {
      assert t[..n - 1] == s[..n - 1];
    }
  }

  /** A sum of zeros is zero. */
  lemma {:induction false} SumZeros(s: seq<int>)
    requires forall l | 0 <= l < |s| :: s[l] == 0
    ensures Sum(s) == 0
  {
    if s != [] {
      SumZeros(s[..|s| - 1]);
    }
  }

  /** A sum of non-negative numbers is zero exactly when every one is. */
  lemma {:induction false} SumZeroIff(s: seq<int>)
    requires forall l | 0 <= l < |s| :: s[l] >= 0
    ensures Sum(s) == 0 <==> forall l | 0 <= l < |s| :: s[l] == 0
  {
    if s != [] {
      SumZeroIff(s[..|s| - 1]);
      SumNonNegative(s[..|s| - 1]);
    }
  }

  /** A sum of non-negative numbers is not negative. */
  lemma {:induction false} SumNonNegative(s: seq<int>)
    requires forall l | 0 <= l < |s| :: s[l] >= 0
    ensures Sum(s) >= 0
  {
    if s != [] {
      SumNonNegative(s[..|s| - 1]);
    }
  }

  /** A prefix of non-negative numbers sums to no more than the whole. */
  lemma {:induction false} SumPrefix(s: seq<int>, i: int)
    requires 0 <= i <= |s| && forall l | 0 <= l < |s| :: s[l] >= 0
    ensures Sum(s[..i]) <= Sum(s)
    decreases |s|
  {
    if i < |s| {
      assert s[..|s| - 1][..i] == s[..i];
      SumPrefix(s[..|s| - 1], i);
    } else {
      assert s[..i] == s;
    }
  }

  /** Replacing one chain changes the node count by the difference in length. */
  lemma {:induction false} TotalUpdate<T>(bs: seq<Chain<T>>, b: int, c: Chain<T>)
    requires 0 <= b < |bs|
    ensures Total(bs[b := c]) == Total(bs) - |bs[b]| + |c|
  {
    var n := |bs|;
    var t := bs[b := c];
    if b < n - 1 {
      assert t[..n - 1] == bs[..n - 1][b := c];
      TotalUpdate(bs[..n - 1], b, c);
    } else {
      assert t[..n - 1] == bs[..n - 1];
    }
  }

  /** Replacing one chain changes only the count of the lock guarding it. */
  lemma {:induction false} StripeUpdate<T>(bs: seq<Chain<T>>, b: int, c: Chain<T>, l: int, locks: int)
    requires 0 <= b < |bs| && locks > 0
    ensures StripeCount(bs[b := c], l, locks)
            == StripeCount(bs, l, locks) + (if b % locks == l then |c| - |bs[b]| else 0)
  {
    var n := |bs|;
    var t := bs[b := c];
    if b < n - 1 {
      assert t[..n - 1] == bs[..n - 1][b := c];
      StripeUpdate(bs[..n - 1], b, c, l, locks);
    } else {
      assert t[..n - 1] == bs[..n - 1];
    }
  }

  /** A table of empty buckets holds no nodes. */
  lemma {:induction false} EmptyCounts<T>(n: nat, l: int, locks: int)
    requires locks > 0
    ensures Total(EmptyBuckets<T>(n)) == 0 && StripeCount(EmptyBuckets<T>(n), l, locks) == 0
  {
    if n > 0 {
      assert EmptyBuckets<T>(n)[..n - 1] == EmptyBuckets<T>(n - 1);
      EmptyCounts<T>(n - 1, l, locks);
    }
  }

  /** A lock's count is at most the number of nodes. */
  lemma {:induction false} StripeAtMostTotal<T>(bs: seq<Chain<T>>, l: int, locks: int)
    requires locks > 0
    ensures StripeCount(bs, l, locks) <= Total(bs)
  {
    if bs != [] {
      StripeAtMostTotal(bs[..|bs| - 1], l, locks);
    }
  }

  /** The per-lock counts add up to the number of nodes (what `GetCountNoLocks` relies on). */
  lemma {:induction false} CountsAddUp<T>(counts: seq<int>, bs: seq<Chain<T>>, locks: int)
    requires Counted(counts, bs, locks)
    ensures Sum(counts) == Total(bs)
    decreases |bs|
  {
    if bs == [] {
      SumZeros(counts);
    } else {
      var n := |bs|;
      var m := (n - 1) % locks;
      var rest := counts[m := counts[m] - |bs[n - 1]|];
      forall l | 0 <= l < locks
        ensures rest[l] == StripeCount(bs[..n - 1], l, locks)
      {
      }
      CountsAddUp(rest, bs[..n - 1], locks);
      SumUpdate(counts, m, counts[m] - |bs[n - 1]|);
    }
  }

  /** A chain update that keeps the per-lock counts: only the count of the chain's lock moves. */
  lemma CountedUpdate<T>(counts: seq<int>, bs: seq<Chain<T>>, locks: int, b: int, c: Chain<T>)
    requires Counted(counts, bs, locks) && 0 <= b < |bs|
    ensures Counted(counts[b % locks := counts[b % locks] + |c| - |bs[b]|], bs[b := c], locks)
  {
    forall l | 0 <= l < locks
      ensures StripeCount(bs[b := c], l, locks) == StripeCount(bs, l, locks) + (if b % locks == l then |c| - |bs[b]| else 0)
    {
      StripeUpdate(bs, b, c, l, locks);
    }
  }

  /** Replacing one chain by a placed chain without repeated keys keeps the table placed and its keys distinct. */
  lemma ChainUpdate<T>(bs: seq<Chain<T>>, b: int, c: Chain<T>, hash: T -> int32)
    requires Placed(bs, hash) && Unique(bs) && 0 <= b < |bs|
    requires ChainPlaced(c, b, |bs|, hash) && NoDup(ChainKeys(c))
    ensures Placed(bs[b := c], hash) && Unique(bs[b := c])
  {
  }

  /** Counts that match a table of at most `int.MaxValue` nodes are valid `int` values. */
  lemma CountsBounded<T>(counts: seq<int>, bs: seq<Chain<T>>, locks: int)
    requires Counted(counts, bs, locks) && Total(bs) <= IntMax
    ensures forall l | 0 <= l < |counts| :: 0 <= counts[l] <= IntMax
  {
    forall l | 0 <= l < |counts|
      ensures counts[l] <= IntMax
    {
      StripeAtMostTotal(bs, l, locks);
    }
  }

  /** A table of empty buckets with zero counts is valid and holds no key. */
  lemma EmptyTable<T(!new)>(bs: seq<Chain<T>>, counts: seq<int>, locks: int, hash: T -> int32)
    requires 0 < |bs| <= IntMax && |counts| == locks > 0
    requires forall b | 0 <= b < |bs| :: bs[b] == []
    requires forall l | 0 <= l < locks :: counts[l] == 0
    ensures Table(bs, locks, counts, hash) && Represents({}, bs, hash)
  {
    assert bs == EmptyBuckets(|bs|);
    forall l | 0 <= l < locks
      ensures StripeCount(bs, l, locks) == 0
    {
      EmptyCounts<T>(|bs|, l, locks);
    }
  }

  /** In a valid table the set is empty exactly when every lock count is zero. */
  lemma EmptyIffZeroCounts<T(!new)>(contents: set<T>, bs: seq<Chain<T>>, counts: seq<int>, locks: int,
                                    hash: T -> int32)
    requires Table(bs, locks, counts, hash) && Represents(contents, bs, hash)
    ensures contents == {} <==> forall l | 0 <= l < |counts| :: counts[l] == 0
  {
    CountsAddUp(counts, bs, locks);
    SumZeroIff(counts);
    KeysListContents(contents, bs, hash);
  }

  // ---------------------------------------------------------------------
  // Lookup

  /** The test every chain walk applies to a node: same cached hash code and an equal key. */
  predicate Matches<T(==)>(e: Node<T>, key: T, hashCode: int32)
  {
    hashCode == e.hashCode && e.key == key
  }

  /**
   * In a placed chain, a node matching `k` and `hash(k)` exists exactly
   * when `k` is one of the chain's keys: the hash code test never hides a
   * key.
   */
  lemma ChainHas<T>(c: Chain<T>, b: int, n: int, hash: T -> int32, k: T)
    requires n > 0 && ChainPlaced(c, b, n, hash)
    ensures k in ChainKeys(c) <==> exists j | 0 <= j < |c| :: Matches(c[j], k, hash(k))
  {
    if k in ChainKeys(c) {
      var j :| 0 <= j < |c| && ChainKeys(c)[j] == k;
      assert Matches(c[j], k, hash(k));
    }
  }

  /** A lock whose count is zero guards only empty buckets. */
  lemma {:induction false} StripeZero<T>(bs: seq<Chain<T>>, l: int, locks: int, b: int)
    requires locks > 0 && StripeCount(bs, l, locks) == 0 && 0 <= b < |bs| && b % locks == l
    ensures bs[b] == []
  {
    var last := |bs| - 1;
    if b < last {
      assert bs[..last][b] == bs[b];
      StripeZero(bs[..last], l, locks, b);
    }
  }

  /** The enumeration from bucket `i` on lists every node of those buckets once. */
  lemma {:induction false} KeysFromLength<T>(bs: seq<Chain<T>>, i: nat)
    requires i <= |bs|
    ensures |KeysFrom(bs, i)| == Total(bs) - Total(bs[..i])
    decreases |bs| - i
  {
    if i == |bs| {
      assert bs[..i] == bs;
    } else {
      KeysFromLength(bs, i + 1);
      TotalPrefix(bs, i);
    }
  }

  /** A sequence without repeats has as many distinct elements as positions. */
  lemma {:induction false} NoDupCard<X>(s: seq<X>)
    requires NoDup(s)
    ensures |set x | x in s| == |s|
  {
    if s != [] {
      NoDupCard(s[1..]);
      assert (set x | x in s) == {s[0]} + (set x | x in s[1..]);
      assert s[0] !in s[1..];
    }
  }

  /**
   * The enumeration of a valid table lists each of its keys exactly once,
   * and nothing else; so the table holds as many keys as nodes.
   */
  lemma KeysListContents<T(!new)>(contents: set<T>, bs: seq<Chain<T>>, hash: T -> int32)
    requires Placed(bs, hash) && Unique(bs) && Represents(contents, bs, hash)
    ensures NoDup(KeysFrom(bs, 0))
    ensures forall k :: k in KeysFrom(bs, 0) <==> k in contents
    ensures |contents| == Total(bs)
  {
    KeysFromNoDup(bs, 0, hash);
    forall k
      ensures k in KeysFrom(bs, 0) <==> k in contents
    {
      KeysFromHas(bs, 0, hash, k);
    }
    assert (set x | x in KeysFrom(bs, 0)) == contents;
    NoDupCard(KeysFrom(bs, 0));
    KeysFromLength(bs, 0);
    assert bs[..0] == [];
  }

  // ---------------------------------------------------------------------
  // Single-bucket updates: Add and Remove

  /**
   * Linking node `e`, placed for bucket `b` and with a key the chain does
   * not hold, in front of chain `c` keeps the chain placed and its keys
   * distinct, and adds `e`'s key.
   */
  lemma PrependChain<T>(c: Chain<T>, e: Node<T>, b: int, n: int, hash: T -> int32)
    requires n > 0 && ChainPlaced(c, b, n, hash) && NoDup(ChainKeys(c))
    requires e.hashCode == hash(e.key) && BucketIndex(e.hashCode, n) == b && e.key !in ChainKeys(c)
    ensures ChainPlaced([e] + c, b, n, hash) && NoDup(ChainKeys([e] + c))
    ensures ChainKeys([e] + c) == [e.key] + ChainKeys(c)
  {
    assert ChainKeys([e] + c) == [e.key] + ChainKeys(c);
  }

  /**
   * Linking a node for a key that is not in the table in front of its
   * bucket's chain keeps placement and distinct keys, and adds the key.
   */
  lemma Prepend<T(!new)>(contents: set<T>, bs: seq<Chain<T>>, hash: T -> int32, k: T)
    requires Placed(bs, hash) && Unique(bs) && Represents(contents, bs, hash) && k !in contents
    ensures var b := BucketIndex(hash(k), |bs|);
            var t := bs[b := [Node(k, hash(k))] + bs[b]];
            Placed(t, hash) && Unique(t) && Represents(contents + {k}, t, hash)
  {
    var b := BucketIndex(hash(k), |bs|);
    PrependChain(bs[b], Node(k, hash(k)), b, |bs|, hash);
  }

  /** Dropping position `i` of a sequence without repeats leaves exactly the other elements, still without repeats. */
  lemma NoDupRemove<X>(s: seq<X>, i: int)
    requires 0 <= i < |s| && NoDup(s)
    ensures NoDup(s[..i] + s[i + 1..])
    ensures forall x :: x in s[..i] + s[i + 1..] <==> x in s && x != s[i]
  {
    var d := s[..i] + s[i + 1..];
    forall p | 0 <= p < |d|
      ensures d[p] == s[if p < i then p else p + 1]
    {
    }
    forall x | x in s && x != s[i]
      ensures x in d
    {
      var p :| 0 <= p < |s| && s[p] == x;
      assert d[if p < i then p else p - 1] == x;
    }
  }

  /**
   * Removing node `i` of a chain: the keys lose exactly that node's key,
   * stay distinct, and the remaining nodes stay in place.
   */
  lemma SpliceChain<T>(c: Chain<T>, i: int, b: int, n: int, hash: T -> int32)
    requires 0 <= i < |c| && n > 0 && ChainPlaced(c, b, n, hash) && NoDup(ChainKeys(c))
    ensures var d := c[..i] + c[i + 1..];
            && ChainPlaced(d, b, n, hash) && NoDup(ChainKeys(d))
            && forall x :: x in ChainKeys(d) <==> x in ChainKeys(c) && x != c[i].key
  {
    var d := c[..i] + c[i + 1..];
    var ks := ChainKeys(c);
    assert ChainKeys(d) == ks[..i] + ks[i + 1..];
    NoDupRemove(ks, i);
    forall p | 0 <= p < |d|
      ensures d[p] == c[if p < i then p else p + 1]
    {
    }
  }

  /**
   * Splicing out the node at position `i` of key `k`'s chain, the node
   * holding `k`, keeps placement and distinct keys, and removes the key.
   */
  lemma Splice<T(!new)>(contents: set<T>, bs: seq<Chain<T>>, hash: T -> int32, k: T, i: int)
    requires Placed(bs, hash) && Unique(bs) && Represents(contents, bs, hash)
    requires 0 <= i < |bs[BucketIndex(hash(k), |bs|)]| && bs[BucketIndex(hash(k), |bs|)][i].key == k
    ensures var b := BucketIndex(hash(k), |bs|);
            var t := bs[b := bs[b][..i] + bs[b][i + 1..]];
            Placed(t, hash) && Unique(t) && Represents(contents - {k}, t, hash)
  {
    var b := BucketIndex(hash(k), |bs|);
    SpliceChain(bs[b], i, b, |bs|, hash);
  }

  // ---------------------------------------------------------------------
  // Enumeration order

  /** The keys of buckets `i` onwards, bucket by bucket, each chain head first. */
  ghost function KeysFrom<T>(bs: seq<Chain<T>>, i: nat): seq<T>
    decreases |bs| - i
  {
    if i >= |bs| then [] else ChainKeys(bs[i]) + KeysFrom(bs, i + 1)
  }

  /** A key is listed from bucket `i` on exactly when its own bucket, at or after `i`, holds it. */
  lemma {:induction false} KeysFromHas<T>(bs: seq<Chain<T>>, i: nat, hash: T -> int32, k: T)
    requires Placed(bs, hash)
    ensures k in KeysFrom(bs, i)
            <==> i <= BucketIndex(hash(k), |bs|) && k in ChainKeys(bs[BucketIndex(hash(k), |bs|)])
    decreases |bs| - i
  {
    if i < |bs| {
      KeysFromHas(bs, i + 1, hash, k);
      var ks := ChainKeys(bs[i]);
      assert KeysFrom(bs, i) == ks + KeysFrom(bs, i + 1);
      if k in ks {
        var j :| 0 <= j < |ks| && ks[j] == k;
        assert bs[i][j].key == k;
        assert ChainPlaced(bs[i], i, |bs|, hash);
        assert BucketIndex(hash(k), |bs|) == i;
      }
    }
  }

  /** Two sequences without repeats and without common elements join without repeats. */
  lemma NoDupConcat<X>(a: seq<X>, b: seq<X>)
    requires NoDup(a) && NoDup(b) && forall x | x in a :: x !in b
    ensures NoDup(a + b)
  {
    forall i, j | 0 <= i < j < |a + b|
      ensures (a + b)[i] != (a + b)[j]
    {
      if i < |a| && j >= |a| {
        assert (a + b)[i] in a && (a + b)[j] in b;
      }
    }
  }

  /** Enumerating a valid table lists no key twice. */
  lemma {:induction false} KeysFromNoDup<T>(bs: seq<Chain<T>>, i: nat, hash: T -> int32)
    requires Placed(bs, hash) && Unique(bs)
    ensures NoDup(KeysFrom(bs, i))
    decreases |bs| - i
  {
    if i < |bs| {
      KeysFromNoDup(bs, i + 1, hash);
      var ks := ChainKeys(bs[i]);
      forall x | x in ks
        ensures x !in KeysFrom(bs, i + 1)
      {
        var j :| 0 <= j < |ks| && ks[j] == x;
        assert bs[i][j].key == x;
        KeysFromHas(bs, i + 1, hash, x);
      }
      NoDupConcat(ks, KeysFrom(bs, i + 1));
    }
  }

  // ---------------------------------------------------------------------
  // Rehashing (GrowTable)

  /**
   * Key `k` of the old table `bs` has been moved: its bucket comes before
   * `i`, or it is `i` and `k` is among the first `j` nodes of that chain.
   */
  ghost predicate Moved<T>(k: T, bs: seq<Chain<T>>, i: int, j: int, hash: T -> int32)
    requires |bs| > 0
  {
    var b := BucketIndex(hash(k), |bs|);
    (b < i && k in ChainKeys(bs[b])) || (b == i && 0 <= j <= |bs[b]| && k in ChainKeys(bs[b][..j]))
  }

  /**
   * The new table `nbs` holds exactly the keys of `bs` moved so far, each
   * in the bucket its hash code selects in the new table.
   */
  ghost predicate Migrated<T(!new)>(nbs: seq<Chain<T>>, bs: seq<Chain<T>>, i: int, j: int, hash: T -> int32)
    requires |nbs| > 0 && |bs| > 0
  {
    forall k :: k in ChainKeys(nbs[BucketIndex(hash(k), |nbs|)]) <==> Moved(k, bs, i, j, hash)
  }

  /** The nodes of the buckets before `i`, and those of bucket `i`, are part of the table. */
  lemma {:induction false} TotalPrefix<T>(bs: seq<Chain<T>>, i: int)
    requires 0 <= i < |bs|
    ensures Total(bs[..i + 1]) == Total(bs[..i]) + |bs[i]|
    ensures Total(bs[..i + 1]) <= Total(bs)
    decreases |bs|
  {
    assert bs[..i + 1][..i] == bs[..i];
    if i + 1 < |bs| {
      assert bs[..|bs| - 1][..i + 1] == bs[..i + 1];
      assert bs[..|bs| - 1][..i] == bs[..i];
      TotalPrefix(bs[..|bs| - 1], i);
    } else {
      assert bs[..i + 1] == bs;
    }
  }

  /**
   * The rehash starts from a table of `n` empty buckets with zero counts:
   * it is valid and holds none of the old keys.
   */
  lemma RehashStart<T(!new)>(bs: seq<Chain<T>>, n: nat, locks: int, hash: T -> int32)
    requires |bs| > 0 && n > 0 && locks > 0
    ensures var nbs := EmptyBuckets<T>(n);
            && Placed(nbs, hash) && Unique(nbs) && Counted(seq(locks, _ => 0), nbs, locks)
            && Total(nbs) == Total(bs[..0]) == 0 && Migrated(nbs, bs, 0, 0, hash)
  {
    var nbs := EmptyBuckets<T>(n);
    forall l | 0 <= l < locks
      ensures StripeCount(nbs, l, locks) == 0
    {
      EmptyCounts<T>(n, l, locks);
    }
    EmptyCounts<T>(n, 0, locks);
    assert bs[..0] == [];
  }

  /** Moving node `j` of bucket `i` adds exactly its key to the moved keys. */
  lemma MovedNext<T>(bs: seq<Chain<T>>, i: int, j: int, hash: T -> int32)
    requires Placed(bs, hash) && 0 <= i < |bs| && 0 <= j < |bs[i]|
    ensures forall k :: Moved(k, bs, i, j + 1, hash) <==> Moved(k, bs, i, j, hash) || k == bs[i][j].key
  {
    var e := bs[i][j];
    assert BucketIndex(hash(e.key), |bs|) == i;
    assert ChainKeys(bs[i][..j + 1]) == ChainKeys(bs[i][..j]) + [e.key] by {
      assert bs[i][..j + 1] == bs[i][..j] + [e];
    }
    forall k
      ensures Moved(k, bs, i, j + 1, hash) <==> Moved(k, bs, i, j, hash) || k == e.key
    {
      if k == e.key {
        assert e.key in ChainKeys(bs[i][..j + 1]);
      }
    }
  }

  /** Node `j` of bucket `i` has not been moved before its own step: keys within a chain are distinct. */
  lemma Unmoved<T>(bs: seq<Chain<T>>, i: int, j: int, hash: T -> int32)
    requires Placed(bs, hash) && Unique(bs) && 0 <= i < |bs| && 0 <= j < |bs[i]|
    ensures bs[i][j].hashCode == hash(bs[i][j].key) && BucketIndex(hash(bs[i][j].key), |bs|) == i
    ensures !Moved(bs[i][j].key, bs, i, j, hash)
  {
    var ks := ChainKeys(bs[i]);
    assert ChainKeys(bs[i][..j]) == ks[..j];
    assert ks[j] == bs[i][j].key;
    assert NoDup(ks);
  }

  /**
   * The placement half of a rehash step: linking node `j` of old bucket
   * `i` in front of new bucket `nb`, the one its hash code selects, keeps
   * the new table placed with distinct keys and moves exactly that key.
   */
  lemma RehashPlace<T(!new)>(nbs: seq<Chain<T>>, bs: seq<Chain<T>>, i: int, j: int, hash: T -> int32, nb: int)
    requires Placed(nbs, hash) && Unique(nbs) && Placed(bs, hash) && Unique(bs)
    requires 0 <= i < |bs| && 0 <= j < |bs[i]| && nb == BucketIndex(bs[i][j].hashCode, |nbs|)
    requires Migrated(nbs, bs, i, j, hash)
    ensures var t := nbs[nb := [bs[i][j]] + nbs[nb]];
            Placed(t, hash) && Unique(t) && Migrated(t, bs, i, j + 1, hash)
  {
    var e := bs[i][j];
    var c := [e] + nbs[nb];
    var t := nbs[nb := c];
    Unmoved(bs, i, j, hash);
    PrependChain(nbs[nb], e, nb, |nbs|, hash);
    ChainUpdate(nbs, nb, c, hash);
    MovedNext(bs, i, j, hash);
    assert ChainKeys(c) == [e.key] + ChainKeys(nbs[nb]);
  }

  /**
   * The counting half of a rehash step: the count of lock `l`, the lock of
   * new bucket `nb`, goes up by one and stays within the old table's node
   * count.
   */
  lemma RehashCount<T>(nbs: seq<Chain<T>>, ncs: seq<int>, locks: int, bs: seq<Chain<T>>, i: int, j: int,
                       nb: int, l: int)
    requires 0 <= i < |bs| && 0 <= j < |bs[i]| && 0 <= nb < |nbs| && locks > 0 && l == nb % locks
    requires Counted(ncs, nbs, locks) && Total(nbs) == Total(bs[..i]) + j
    ensures var t := nbs[nb := [bs[i][j]] + nbs[nb]];
            Counted(ncs[l := ncs[l] + 1], t, locks) && Total(t) == Total(bs[..i]) + j + 1
    ensures ncs[l] + 1 <= Total(bs[..i]) + j + 1 <= Total(bs)
  {
    var e := bs[i][j];
    CountedUpdate(ncs, nbs, locks, nb, [e] + nbs[nb]);
    TotalUpdate(nbs, nb, [e] + nbs[nb]);
    StripeAtMostTotal(nbs, l, locks);
    TotalPrefix(bs, i);
  }

  /**
   * One pass of the inner rehash loop: node `j` of old bucket `i` goes in
   * front of the chain its hash code selects in the new table, and that
   * bucket's lock count goes up by one. The new table stays valid, holds
   * exactly the moved keys, and no count exceeds the old table's size.
   */
  lemma RehashStep<T(!new)>(nbs: seq<Chain<T>>, ncs: seq<int>, locks: int,
                            bs: seq<Chain<T>>, i: int, j: int, hash: T -> int32, nb: int, l: int)
    requires Placed(bs, hash) && Unique(bs) && 0 <= i < |bs| && 0 <= j < |bs[i]|
    requires Placed(nbs, hash) && Unique(nbs) && Counted(ncs, nbs, locks) && Total(nbs) == Total(bs[..i]) + j
    requires Migrated(nbs, bs, i, j, hash)
    requires nb == BucketIndex(bs[i][j].hashCode, |nbs|) && l == nb % locks
    ensures var t := nbs[nb := [bs[i][j]] + nbs[nb]];
            && Placed(t, hash) && Unique(t) && Counted(ncs[l := ncs[l] + 1], t, locks)
            && Total(t) == Total(bs[..i]) + j + 1 && Migrated(t, bs, i, j + 1, hash)
    ensures ncs[l] + 1 <= Total(bs[..i]) + j + 1 <= Total(bs)
  {
    RehashPlace(nbs, bs, i, j, hash, nb);
    RehashCount(nbs, ncs, locks, bs, i, j, nb, l);
  }

  /** Once bucket `i` is drained, the rehash goes on with bucket `i + 1`. */
  lemma RehashNext<T(!new)>(nbs: seq<Chain<T>>, bs: seq<Chain<T>>, i: int, hash: T -> int32)
    requires |nbs| > 0 && 0 <= i < |bs| && Migrated(nbs, bs, i, |bs[i]|, hash)
    ensures Migrated(nbs, bs, i + 1, 0, hash)
    ensures Total(bs[..i]) + |bs[i]| == Total(bs[..i + 1])
  {
    assert bs[i][..|bs[i]|] == bs[i];
    TotalPrefix(bs, i);
  }

  /**
   * After the last bucket, the new table holds exactly the keys of the old
   * one, and as many nodes.
   */
  lemma RehashDone<T(!new)>(nbs: seq<Chain<T>>, bs: seq<Chain<T>>, contents: set<T>, hash: T -> int32)
    requires |nbs| > 0 && |bs| > 0 && Migrated(nbs, bs, |bs|, 0, hash) && Represents(contents, bs, hash)
    ensures Represents(contents, nbs, hash) && Total(bs[..|bs|]) == Total(bs)
  {
    assert bs[..|bs|] == bs;
  }
}
