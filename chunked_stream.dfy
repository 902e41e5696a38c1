/**
 * A FIFO byte stream stored in a chain of fixed-size chunks
 * (NativeChunkedStream). Bytes are written at the tail chunk and read from
 * the head chunk; drained chunks are kept on a bounded free list for reuse.
 *
 * The chain Head -> Next -> ... -> Tail is the sequence `chunks` (head first),
 * the free list FreeList -> Next -> ... is the sequence `freeList`, and each
 * chunk's payload is an array of `size` bytes.
 */
module ChunkedStream {
  import opened Results

  /** One byte of a chunk or of a caller's buffer. */
  newtype byte = b: int | 0 <= b < 256

  /** No element occurs twice in `s`. */
  ghost predicate NoDup<X>(s: seq<X>)
  {
    forall i, j | 0 <= i < j < |s| :: s[i] != s[j]
  }

  /** Every chunk of `cs` holds exactly `size` bytes. */
  ghost predicate Sized(cs: seq<array<byte>>, size: nat)
  {
    forall i | 0 <= i < |cs| :: cs[i].Length == size
  }

  /**
   * The bytes held by `n` full chunks of `size` bytes, `n * size`, counted
   * up one chunk at a time.
   */
  ghost function Span(n: nat, size: nat): nat
  {
    if n == 0 then 0 else Span(n - 1, size) + size
  }

  /** `Span` is the product of its arguments. */
  lemma {:induction false} SpanIsProduct(n: nat, size: nat)
    ensures Span(n, size) == n * size
  {
    if n > 0 {
      SpanIsProduct(n - 1, size);
    }
  }

  /** Every chunk of `cs` is in `repr`. */
  ghost predicate Owned(cs: seq<array<byte>>, repr: set<object>)
  {
    forall i | 0 <= i < |cs| :: cs[i] in repr
  }

  /** The payloads of the chunks of `cs` laid end to end, head chunk first. */
  ghost function Flat(cs: seq<array<byte>>, size: nat): (r: seq<byte>)
    requires Sized(cs, size)
    reads cs
    ensures |r| == Span(|cs|, size)
  {
    if cs == [] then [] else Flat(cs[..|cs| - 1], size) + cs[|cs| - 1][..]
  }

  /** Unlinking the head chunk drops exactly its `size` bytes from the front. */
  lemma {:induction false} FlatCons(cs: seq<array<byte>>, size: nat)
    requires |cs| >= 1 && Sized(cs, size)
    ensures Flat(cs, size) == cs[0][..] + Flat(cs[1..], size)
  {
    var n := |cs|;
    if n == 1 {
      assert cs[..0] == [] && cs[1..] == [];
    } else {
      var init := cs[..n - 1];
      FlatCons(init, size);
      assert init[1..] == cs[1..][..n - 2];
      assert cs[1..][n - 2] == cs[n - 1];
      calc {
        Flat(cs, size);
        Flat(init, size) + cs[n - 1][..];
        (cs[0][..] + Flat(init[1..], size)) + cs[n - 1][..];
        cs[0][..] + (Flat(init[1..], size) + cs[n - 1][..]);
        cs[0][..] + Flat(cs[1..], size);
      }
    }
  }

  /**
   * The unread window `[r..e)` starts in the head chunk: its first `k`
   * bytes, when they stay inside the head chunk, are the head's bytes.
   */
  lemma HeadWindow(cs: seq<array<byte>>, size: nat, r: int, k: int, e: int)
    requires |cs| >= 1 && Sized(cs, size)
    requires 0 <= r && 0 <= k && r + k <= size && r + k <= e <= Span(|cs|, size)
    ensures Flat(cs, size)[r..e][..k] == cs[0][r..r + k]
  {
    FlatCons(cs, size);
    var head, rest := cs[0][..], Flat(cs[1..], size);
    assert |head| == size;
    assert (head + rest)[r..e][..k] == head[r..r + k];
  }

  /**
   * Unlinking the head chunk once it is drained leaves the rest of the
   * window, which now starts at offset 0 of the next chunk.
   */
  lemma DropHeadWindow(cs: seq<array<byte>>, size: nat, r: int, e: int)
    requires |cs| >= 1 && Sized(cs, size)
    requires 0 <= r <= size <= e <= Span(|cs|, size)
    ensures Flat(cs, size)[r..e][size - r..] == Flat(cs[1..], size)[..e - size]
  {
    FlatCons(cs, size);
    var head, rest := cs[0][..], Flat(cs[1..], size);
    var whole := head + rest;
    assert |head| == size;
    assert whole[r..e][size - r..] == whole[size..e];
    assert whole[size..e] == rest[..e - size];
  }

  /** Linking a chunk after the tail appends its payload. */
  lemma FlatAppend(cs: seq<array<byte>>, c: array<byte>, size: nat)
    requires Sized(cs, size) && c.Length == size
    ensures Flat(cs + [c], size) == Flat(cs, size) + c[..]
  {
    assert (cs + [c])[..|cs|] == cs;
  }

  /**
   * Copying `src` into the tail payload `t` at offset `w` (giving `t2`)
   * leaves the window `[r..|p| + w)` of `p + t` alone and puts `src` right
   * after it.
   */
  lemma TailWindow(p: seq<byte>, t: seq<byte>, t2: seq<byte>, src: seq<byte>, r: int, w: int)
    requires 0 <= w && w + |src| <= |t| == |t2|
    requires 0 <= r <= |p| + w
    requires t2[..w] == t[..w] && t2[w..w + |src|] == src
    ensures (p + t2)[r..|p| + w] == (p + t)[r..|p| + w]
    ensures (p + t2)[|p| + w..][..|src|] == src
  {
    var a, b := (p + t2)[r..|p| + w], (p + t)[r..|p| + w];
    assert |a| == |b|;
    forall k | 0 <= k < |a|
      ensures a[k] == b[k]
    {
      if r + k >= |p| {
        assert t2[r + k - |p|] == t2[..w][r + k - |p|];
      }
    }
    var c := (p + t2)[|p| + w..][..|src|];
    forall k | 0 <= k < |src|
      ensures c[k] == src[k]
    {
      assert t2[w + k] == t2[w..w + |src|][k];
    }
  }

  /**
   * `Unsafe.CopyBlockUnaligned(dst + offset, src, |src|)`: the bytes of `src`
   * land at `offset` in `dst`, and nothing else in `dst` changes.
   */
  method CopyInto(dst: array<byte>, offset: int, src: seq<byte>)
    requires 0 <= offset && offset + |src| <= dst.Length
    modifies dst
    ensures dst[..offset] == old(dst[..offset])
    ensures dst[offset..offset + |src|] == src
    ensures dst[offset + |src|..] == old(dst[offset + |src|..])
  {
    forall k | 0 <= k < |src| {
      dst[offset + k] := src[k];
    }
  }

  /**
   * After `p`, a prefix of `s` followed by the next `n` elements of `s` is
   * the longer prefix.
   */
  lemma PrefixJoin<X>(p: seq<X>, s: seq<X>, i: nat, n: nat)
    requires i + n <= |s|
    ensures s[..i] + s[i..][..n] == s[..i + n]
    ensures p + s[..i] + s[i..][..n] == p + s[..i + n]
  {
    assert s[..i + n] == s[..i] + s[i..][..n];
  }

  /** Dropping `i` and then `j` elements drops `i + j`. */
  lemma DropDrop<X>(s: seq<X>, i: nat, j: nat)
    requires i + j <= |s|
    ensures s[i..][j..] == s[i + j..]
  {
  }

  /** Moving the first element behind a prefix keeps the elements distinct. */
  lemma NoDupMove<X>(x: X, a: seq<X>, b: seq<X>)
    requires NoDup([x] + a + b)
    ensures NoDup(a + [x] + b)
  {
    var s := [x] + a + b;
    var t := a + [x] + b;
    // t[i] == s[P(i)] for the permutation P that moves position |a| to 0
    forall i, j | 0 <= i < j < |t|
      ensures t[i] != t[j]
    {
      var pi := if i < |a| then i + 1 else if i == |a| then 0 else i;
      var pj := if j < |a| then j + 1 else if j == |a| then 0 else j;
      assert t[i] == s[pi] && t[j] == s[pj];
    }
  }

  lemma NoDupAppend<X>(s: seq<X>, x: X)
    requires NoDup(s) && x !in s
    ensures NoDup(s + [x])
  {
  }

  /** Putting a new element in front keeps the elements distinct. */
  lemma NoDupCons<X>(x: X, s: seq<X>)
    requires NoDup(s) && x !in s
    ensures NoDup([x] + s)
  {
  }

  /**
   * Releasing the first spare chunk of `fl`: what is left of the chain and
   * the free list stays distinct and is still owned once that chunk leaves
   * the footprint.
   */
  lemma ReleaseFirst(cs: seq<array<byte>>, fl: seq<array<byte>>, repr: set<object>)
    requires |fl| > 0 && Owned(cs + fl, repr) && NoDup(cs + fl)
    ensures Owned(cs + fl[1..], repr - {fl[0]}) && NoDup(cs + fl[1..])
  {
    var all, rest := cs + fl, cs + fl[1..];
    assert fl[0] == all[|cs|];
    forall i | 0 <= i < |rest|
      ensures rest[i] in repr - {fl[0]}
    {
      var p := if i < |cs| then i else i + 1;
      assert rest[i] == all[p];
    }
    forall i, j | 0 <= i < j < |rest|
      ensures rest[i] != rest[j]
    {
      var p := if i < |cs| then i else i + 1;
      var q := if j < |cs| then j else j + 1;
      assert rest[i] == all[p] && rest[j] == all[q];
    }
  }

  /** `a` is what is left of `b` after dropping some elements from its front. */
  ghost predicate IsSuffix<X>(a: seq<X>, b: seq<X>)
    decreases |b|
  {
    |a| <= |b| && if |a| == |b| then a == b else IsSuffix(a, b[1..])
  }

  /** Dropping `d` elements leaves a suffix. */
  lemma {:induction false} DropIsSuffix<X>(b: seq<X>, d: nat)
    requires d <= |b|
    ensures IsSuffix(b[d..], b)
    decreases d
  {
    if d > 0 {
      DropIsSuffix(b[1..], d - 1);
      assert b[1..][d - 1..] == b[d..];
    }
  }

  /** A suffix is the sequence with its first elements dropped. */
  lemma {:induction false} SuffixIsDrop<X>(a: seq<X>, b: seq<X>)
    requires IsSuffix(a, b)
    ensures a == b[|b| - |a|..]
    decreases |b|
  {
    if |a| < |b| {
      SuffixIsDrop(a, b[1..]);
      assert b[1..][|b| - 1 - |a|..] == b[|b| - |a|..];
    }
  }

  /** A suffix of a suffix is a suffix. */
  lemma SuffixTrans<X>(a: seq<X>, b: seq<X>, c: seq<X>)
    requires IsSuffix(a, b) && IsSuffix(b, c)
    ensures IsSuffix(a, c)
  {
    SuffixIsDrop(a, b);
    SuffixIsDrop(b, c);
    DropDrop(c, |c| - |b|, |b| - |a|);
    DropIsSuffix(c, |c| - |a|);
  }

  /**
   * How reading changes the chunk lists: the chain `cs1` is what is left of
   * `cs0` after dropping drained chunks from its front, and those chunks go
   * onto the front of the free list `fl0` until it holds `max` chunks (the
   * rest are released), so `fl0` is left at the back of `fl1`.
   */
  ghost predicate Recycled(cs0: seq<array<byte>>, fl0: seq<array<byte>>, cs1: seq<array<byte>>, fl1: seq<array<byte>>, max: int)
  {
    && IsSuffix(cs1, cs0) && IsSuffix(fl0, fl1)
    && |fl1| == Min(max, |fl0| + |cs0| - |cs1|)
  }

  /** Two rounds of recycling are one. */
  lemma RecycledTrans(cs0: seq<array<byte>>, fl0: seq<array<byte>>, cs1: seq<array<byte>>, fl1: seq<array<byte>>,
                      cs2: seq<array<byte>>, fl2: seq<array<byte>>, max: int)
    requires |fl0| <= max
    requires Recycled(cs0, fl0, cs1, fl1, max) && Recycled(cs1, fl1, cs2, fl2, max)
    ensures Recycled(cs0, fl0, cs2, fl2, max)
  {
    SuffixTrans(cs2, cs1, cs0);
    SuffixTrans(fl0, fl1, fl2);
  }

  /**
   * One pass of the read loop extends the bytes delivered to `d` from
   * `i` to `i + k` and leaves `d` alone from `n` on.
   */
  lemma DeliveredJoin(start: seq<byte>, d0: seq<byte>, d1: seq<byte>, orig: seq<byte>, i: nat, k: nat, n: nat)
    requires i + k <= n <= |d0| == |d1| == |orig| && n <= |start|
    requires d0[..i] == start[..i] && d0[n..] == orig[n..]
    requires d1[..i] == d0[..i] && d1[i + k..] == d0[i + k..] && d1[i..i + k] == start[i..][..k]
    ensures d1[..i + k] == start[..i + k] && d1[n..] == orig[n..]
  {
    assert d1[..i + k] == d1[..i] + d1[i..i + k];
    PrefixJoin([], start, i, k);
    DropDrop(d1, i + k, n - i - k);
    DropDrop(d0, i + k, n - i - k);
  }

  /**
   * How reading leaves the write offset, from `w0` before the read: a read
   * that empties a full last chunk (`emptied`) rewinds the chain to that one
   * chunk with both offsets at zero, and any other read keeps `w0`.
   */
  ghost predicate Rewound(emptied: bool, w0: int, chunkCount: int, readOffset: int, writeOffset: int)
  {
    if emptied then chunkCount == 1 && readOffset == 0 && writeOffset == 0 else writeOffset == w0
  }

  /**
   * How writing uses chunks, from `c0` chained and `f0` spare ones to `c1`
   * and `f1`: the chain only grows, and spare chunks are used up before any
   * new chunk is allocated.
   */
  ghost predicate SparesFirst(c0: int, f0: int, c1: int, f1: int)
  {
    && c0 <= c1 && 0 <= f1 <= f0 && c1 + f1 >= c0 + f0
    && (c1 + f1 > c0 + f0 ==> f1 == 0)
  }

  /** Two rounds of writing use chunks as one does. */
  lemma SparesFirstTrans(c0: int, f0: int, c1: int, f1: int, c2: int, f2: int)
    requires SparesFirst(c0, f0, c1, f1) && SparesFirst(c1, f1, c2, f2)
    ensures SparesFirst(c0, f0, c2, f2)
  {
  }

  function Min(a: int, b: int): int { if a < b then a else b }
  function Max(a: int, b: int): int { if a < b then b else a }

  class Stream {
    /** The chunk chain, `Head` first and `Tail` last. */
    var chunks: seq<array<byte>>
    /** The spare chunks, `FreeList` first. */
    var freeList: seq<array<byte>>
    /** `Chunks`: the number of chunks in the chain. */
    var chunkCount: int
    /** `FreeChunks`: the number of spare chunks. */
    var freeCount: int
    /** `MaxFreeChunks`: the most spare chunks ever kept. */
    const maxFreeChunks: int
    /** `Size`: the payload size of every chunk. */
    const size: int
    /** `ReadOffset`: the next unread byte of the head chunk. */
    var readOffset: int
    /** `WriteOffset`: the next free byte of the tail chunk. */
    var writeOffset: int
    /** `Length`: the number of unread bytes. */
    var length: int

    ghost var Repr: set<object>

    /**
     * The chain on its own: at least one chunk, all of `size` bytes, with
     * the read offset inside the head chunk and the write offset inside the
     * tail chunk (and not before the read offset when they are the same).
     */
    ghost predicate Chain()
      reads this`chunks, this`chunkCount, this`readOffset, this`writeOffset
    {
      && size > 0
      && |chunks| == chunkCount >= 1 && Sized(chunks, size)
      && 0 <= readOffset < size && 0 <= writeOffset <= size
      && (chunkCount == 1 ==> readOffset <= writeOffset)
    }

    /**
     * Everything the stream promises except the value of `length`. The chain
     * and the free list together hold distinct chunks of the stream's own.
     */
    ghost predicate Shape()
      reads this`Repr, this`chunks, this`freeList, this`chunkCount, this`freeCount, this`readOffset, this`writeOffset
    {
      && this in Repr && maxFreeChunks >= 0
      && Chain()
      && |freeList| == freeCount <= maxFreeChunks && Sized(freeList, size)
      && Owned(chunks + freeList, Repr) && NoDup(chunks + freeList)
    }

    /** The chain holds distinct chunks of the stream's own. */
    lemma ChainShape()
      requires Shape()
      ensures NoDup(chunks) && Owned(chunks, Repr)
    {
      var all := chunks + freeList;
      forall i | 0 <= i < |chunks|
        ensures chunks[i] in Repr
      {
        assert chunks[i] == all[i];
      }
      forall i, j | 0 <= i < j < |chunks|
        ensures chunks[i] != chunks[j]
      {
        assert chunks[i] == all[i] && chunks[j] == all[j];
      }
    }

    /** The tail chunk is the stream's own. */
    lemma TailOwned()
      requires Shape()
      ensures chunks[chunkCount - 1] in Repr
    {
      assert chunks[chunkCount - 1] == (chunks + freeList)[chunkCount - 1];
    }

    /**
     * The object invariant. Besides the shape, `Length` counts exactly the
     * bytes between the read offset in the head chunk and the write offset
     * in the tail chunk.
     */
    ghost predicate Valid()
      reads this`Repr, this`chunks, this`freeList, this`chunkCount, this`freeCount, this`readOffset, this`writeOffset, this`length
    {
      Shape() && length == Span(chunkCount - 1, size) + writeOffset - readOffset
    }

    /** The unread bytes, oldest first. */
    ghost function Contents(): (s: seq<byte>)
      reads this`chunks, this`chunkCount, this`readOffset, this`writeOffset, chunks
      requires Chain()
      ensures |s| == Span(chunkCount - 1, size) + writeOffset - readOffset
    {
      assert chunkCount > 1 ==> Span(chunkCount - 1, size) >= size;
      Flat(chunks, size)[readOffset..Span(chunkCount - 1, size) + writeOffset]
    }

    /** The constructor once its arguments are known to be in range. */
    constructor (size: int, maxFreeChunks: int)
      requires size > 0 && maxFreeChunks >= 0
      ensures Valid() && fresh(Repr)
      ensures this.size == size && this.maxFreeChunks == maxFreeChunks
      ensures Contents() == []
      ensures chunkCount == 1 && freeCount == 0
      ensures readOffset == 0 && writeOffset == 0 && length == 0
    {
      var chunk := new byte[size];
      this.size := size;
      this.maxFreeChunks := maxFreeChunks;
      chunks := [chunk];
      freeList := [];
      chunkCount := 1;
      freeCount := 0;
      readOffset := 0;
      writeOffset := 0;
      length := 0;
      Repr := {this, chunk};
    }

    /** `Chunks`: the chain always holds at least one chunk. */
    function Chunks(): (n: int)
      reads this, Repr
      requires Valid()
      ensures n >= 1 && n == |chunks|
    {
      chunkCount
    }

    /** `FreeChunks`: never more than `MaxFreeChunks`. */
    function FreeChunks(): (n: int)
      reads this, Repr
      requires Valid()
      ensures 0 <= n <= maxFreeChunks && n == |freeList|
    {
      freeCount
    }

    /** `Length`: the number of unread bytes. */
    function Length(): (n: int)
      reads this, Repr
      requires Valid()
      ensures n == |Contents()|
    {
      length
    }

    /**
     * Copies `src` into the tail chunk at the write offset, past the unread
     * bytes, which stay as they are.
     */
    method FillTail(src: seq<byte>)
      requires Chain() && NoDup(chunks) && writeOffset + |src| <= size
      modifies chunks[chunkCount - 1]
      ensures Chain() && Contents() == old(Contents())
      ensures Flat(chunks, size)[Span(chunkCount - 1, size) + writeOffset..][..|src|] == src
    {
      var tail := chunks[chunkCount - 1];
      ghost var init := chunks[..chunkCount - 1];
      ghost var flatInit := Flat(init, size);
      ghost var t0 := tail[..];
      assert |flatInit| == Span(chunkCount - 1, size);
      assert Flat(chunks, size) == flatInit + t0;
      assert tail !in init;
      CopyInto(tail, writeOffset, src);
      assert Flat(init, size) == flatInit;
      assert Flat(chunks, size) == flatInit + tail[..];
      TailWindow(flatInit, t0, tail[..], src, readOffset, writeOffset);
    }

    /** Moves the write offset past `n` bytes already in the tail chunk. */
    method Commit(n: int)
      requires Chain() && 0 <= n && writeOffset + n <= size
      modifies this`writeOffset
      ensures Chain() && writeOffset == old(writeOffset) + n
      ensures Contents() == old(Contents()) + old(Flat(chunks, size)[Span(chunkCount - 1, size) + writeOffset..][..n])
    {
      ghost var flat := Flat(chunks, size);
      ghost var e := Span(chunkCount - 1, size) + writeOffset;
      assert flat[readOffset..e + n] == flat[readOffset..e] + flat[e..][..n];
      writeOffset := writeOffset + n;
    }

    /**
     * One copy into the tail chunk: `src` lands at the write offset, which
     * moves past it.
     */
    method AppendToTail(src: seq<byte>)
      requires Chain() && NoDup(chunks) && writeOffset + |src| <= size
      modifies this`writeOffset, chunks[chunkCount - 1]
      ensures Chain() && writeOffset == old(writeOffset) + |src|
      ensures Contents() == old(Contents()) + src
    {
      FillTail(src);
      Commit(|src|);
    }

    /**
     * Takes the chunk to link next: the head of the free list, or a new
     * chunk when the free list is empty. The chain is not touched.
     */
    method TakeChunk() returns (chunk: array<byte>)
      requires Shape()
      modifies this`freeList, this`freeCount, this`Repr
      ensures chunk.Length == size && this in Repr && fresh(Repr - old(Repr))
      ensures |freeList| == freeCount <= maxFreeChunks && Sized(freeList, size)
      ensures Owned(chunks + [chunk] + freeList, Repr) && NoDup(chunks + [chunk] + freeList)
      ensures old(freeCount) > 0 ==> chunks + [chunk] + freeList == old(chunks + freeList)
      ensures old(freeCount) == 0 ==> freeList == [] && fresh(chunk)
    {
      if freeCount == 0 {
        chunk := new byte[size];
        NoDupAppend(chunks + freeList, chunk);
        assert chunks + freeList + [chunk] == chunks + [chunk] + freeList;
        Repr := Repr + {chunk};
      } else {
        chunk := freeList[0];
        assert chunks + freeList == chunks + [chunk] + freeList[1..];
        freeList := freeList[1..];
        freeCount := freeCount - 1;
      }
    }

    /** Links `chunk` after a full tail; the write offset restarts at 0. */
    method Link(chunk: array<byte>)
      requires Chain() && writeOffset == size && chunk.Length == size
      modifies this`chunks, this`chunkCount, this`writeOffset
      ensures Chain() && Contents() == old(Contents())
      ensures chunks == old(chunks) + [chunk] && writeOffset == 0
    {
      ghost var before := Flat(chunks, size);
      assert Contents() == before[readOffset..|before|];
      FlatAppend(chunks, chunk, size);
      chunks := chunks + [chunk];
      chunkCount := chunkCount + 1;
      writeOffset := 0;
      assert Flat(chunks, size) == before + chunk[..];
      assert (before + chunk[..])[readOffset..|before|] == before[readOffset..|before|];
    }

    /**
     * Links a chunk after a full tail: the head of the free list, or a new
     * chunk when the free list is empty. The write offset restarts at 0.
     */
    method LinkChunk()
      requires Shape() && writeOffset == size
      modifies this`chunks, this`chunkCount, this`freeList, this`freeCount, this`writeOffset, this`Repr
      ensures Shape() && fresh(Repr - old(Repr))
      ensures Contents() == old(Contents())
      ensures writeOffset == 0 && chunkCount == old(chunkCount) + 1
      ensures old(chunks) <= chunks
      ensures old(freeCount) > 0 ==> chunks + freeList == old(chunks + freeList) && freeCount == old(freeCount) - 1
      ensures old(freeCount) == 0 ==> freeList == [] && freeCount == 0 && fresh(chunks[old(chunkCount)])
    {
      var chunk := TakeChunk();
      Link(chunk);
    }

    /**
     * One pass of the write loop: fills the tail chunk with as much of `src`
     * as fits, and links a further chunk when some of `src` is left over.
     * Returns the number of bytes copied.
     */
    method WriteStep(src: seq<byte>) returns (n: int)
      requires Shape() && |src| > 0
      modifies this`chunks, this`chunkCount, this`freeList, this`freeCount, this`writeOffset, this`Repr
      modifies chunks[chunkCount - 1]
      ensures Shape() && fresh(Repr - old(Repr))
      ensures 0 <= n <= |src| && Contents() == old(Contents()) + src[..n]
      ensures n == |src| ==> n <= old(size - writeOffset) && writeOffset == old(writeOffset) + n
      ensures n == |src| ==> chunks == old(chunks) && freeList == old(freeList)
      ensures n < |src| ==> n == old(size - writeOffset) && writeOffset == 0 && chunkCount == old(chunkCount) + 1
      ensures SparesFirst(old(chunkCount), old(freeCount), chunkCount, freeCount)
      ensures old(chunks) <= chunks
    {
      ChainShape();
      var slice := size - writeOffset;
      if slice >= |src| {
        AppendToTail(src);
        assert src[..|src|] == src;
        return |src|;
      }
      AppendToTail(src[..slice]);
      LinkChunk();
      return slice;
    }

    /**
     * The body of the write loop, from `from` bytes of `src` already
     * written: one `WriteStep` on the rest of `src`. The ghost parameters
     * are the state before the loop, against which the loop's invariant is
     * stated.
     */
    method WriteFrom(src: seq<byte>, from: int, ghost start: seq<byte>, ghost chunks0: seq<array<byte>>,
                     ghost chunkCount0: int, ghost freeCount0: int) returns (n: int)
      requires Shape() && 0 <= from < |src|
      requires Contents() == start + src[..from] && chunks0 <= chunks
      requires SparesFirst(chunkCount0, freeCount0, chunkCount, freeCount)
      modifies this`chunks, this`chunkCount, this`freeList, this`freeCount, this`writeOffset, this`Repr
      modifies chunks[chunkCount - 1]
      ensures Shape() && fresh(Repr - old(Repr))
      ensures 0 <= n <= |src| - from && Contents() == start + src[..from + n] && chunks0 <= chunks
      ensures SparesFirst(chunkCount0, freeCount0, chunkCount, freeCount)
      ensures from + n == |src| ==> writeOffset > 0
      ensures 2 * (|src| - from - n) + (if writeOffset == size then 1 else 0)
              < 2 * (|src| - from) + (if old(writeOffset) == size then 1 else 0)
    {
      ghost var chunkCount1, freeCount1 := chunkCount, freeCount;
      n := WriteStep(src[from..]);
      PrefixJoin(start, src, from, n);
      SparesFirstTrans(chunkCount0, freeCount0, chunkCount1, freeCount1, chunkCount, freeCount);
    }

    /**
     * The write loop: appends all of `src`, linking spare chunks first and
     * new ones once the free list is empty.
     */
    method Append(src: seq<byte>)
      requires Shape()
      modifies this`chunks, this`chunkCount, this`freeList, this`freeCount, this`writeOffset, this`Repr
      modifies Repr - {this}
      ensures Shape() && fresh(Repr - old(Repr))
      ensures Contents() == old(Contents()) + src
      ensures old(chunks) <= chunks
      ensures chunkCount > old(chunkCount) ==> writeOffset > 0
      ensures SparesFirst(old(chunkCount), old(freeCount), chunkCount, freeCount)
    {
      ghost var start := Contents();
      var bytesWritten := 0;
      while bytesWritten < |src|
        invariant 0 <= bytesWritten <= |src|
        invariant Shape() && fresh(Repr - old(Repr))
        invariant Contents() == start + src[..bytesWritten]
        invariant old(chunks) <= chunks
        invariant chunkCount > old(chunkCount) ==> writeOffset > 0 || bytesWritten < |src|
        invariant SparesFirst(old(chunkCount), old(freeCount), chunkCount, freeCount)
        decreases 2 * (|src| - bytesWritten) + (if writeOffset == size then 1 else 0)
      {
        TailOwned();
        var n := WriteFrom(src, bytesWritten, start, old(chunks), old(chunkCount), old(freeCount));
        bytesWritten := bytesWritten + n;
      }
    }

    /**
     * Write: appends the first `length` bytes of `buffer` and adds them to
     * `Length`. A negative length is rejected and changes nothing.
     */
    method Write(buffer: seq<byte>, length: int) returns (r: Result<()>)
      requires Valid() && length <= |buffer|
      modifies Repr
      ensures Valid() && fresh(Repr - old(Repr))
      ensures length < 0 ==> r == Err(ArgumentOutOfRange("length")) && unchanged(this) && Contents() == old(Contents())
      ensures length >= 0 ==> r == Ok(())
      ensures length >= 0 ==> Contents() == old(Contents()) + buffer[..length]
      ensures length >= 0 ==> this.length == old(this.length) + length
      ensures readOffset == old(readOffset) && old(chunks) <= chunks
      ensures chunkCount > old(chunkCount) ==> writeOffset > 0
      ensures SparesFirst(old(chunkCount), old(freeCount), chunkCount, freeCount)
    {
      if length < 0 {
        return Err(ArgumentOutOfRange("length"));
      }
      Append(buffer[..length]);
      this.length := this.length + length;
      return Ok(());
    }

    /**
     * Copies the first `k` unread bytes, all inside the head chunk, to
     * `dst` at `at`. The stream does not change.
     */
    method CopyFromHead(dst: array<byte>, at: int, k: int)
      requires Chain() && dst !in chunks
      requires 0 <= k <= size - readOffset && k <= |Contents()|
      requires 0 <= at && at + k <= dst.Length
      modifies dst
      ensures dst[..at] == old(dst[..at]) && dst[at + k..] == old(dst[at + k..])
      ensures dst[at..at + k] == Contents()[..k]
    {
      HeadWindow(chunks, size, readOffset, k, Span(chunkCount - 1, size) + writeOffset);
      CopyInto(dst, at, chunks[0][readOffset..readOffset + k]);
    }

    /** A read that ends inside the head chunk moves the read offset. */
    method Advance(k: int)
      requires Chain() && 0 <= k < size - readOffset && k <= |Contents()|
      modifies this`readOffset
      ensures Chain() && Contents() == old(Contents())[k..]
    {
      ghost var e := Span(chunkCount - 1, size) + writeOffset;
      ghost var flat := Flat(chunks, size);
      assert flat[readOffset..e][k..] == flat[readOffset + k..e];
      readOffset := readOffset + k;
    }

    /** Unlinks the drained head chunk; reading resumes at the next one. */
    method Unlink()
      requires Chain() && chunkCount > 1
      modifies this`readOffset, this`chunks, this`chunkCount
      ensures Chain() && Contents() == old(Contents())[size - old(readOffset)..]
      ensures chunks == old(chunks)[1..] && readOffset == 0
    {
      ghost var e := Span(chunkCount - 1, size) + writeOffset;
      ghost var rest := Flat(chunks[1..], size);
      assert e - size == Span(chunkCount - 2, size) + writeOffset;
      DropHeadWindow(chunks, size, readOffset, e);
      chunks := chunks[1..];
      chunkCount := chunkCount - 1;
      readOffset := 0;
      assert Flat(chunks, size) == rest;
    }

    /**
     * Puts an unlinked chunk on the front of the free list, or releases it
     * when the free list already holds `MaxFreeChunks` chunks.
     */
    method Recycle(c: array<byte>)
      requires this in Repr && maxFreeChunks >= 0 && Chain()
      requires |freeList| == freeCount <= maxFreeChunks && Sized(freeList, size) && c.Length == size
      requires Owned([c] + chunks + freeList, Repr) && NoDup([c] + chunks + freeList)
      modifies this`freeList, this`freeCount, this`Repr
      ensures Shape() && Repr <= old(Repr)
      ensures old(freeCount) == maxFreeChunks ==> freeList == old(freeList) && Repr == old(Repr) - {c}
      ensures old(freeCount) < maxFreeChunks ==> freeList == [c] + old(freeList) && Repr == old(Repr)
      ensures freeCount == |freeList|
    {
      var all := chunks + freeList;
      var before := [c] + chunks + freeList;
      assert before == [c] + all;
      if freeCount == maxFreeChunks {
        forall i | 0 <= i < |all|
          ensures all[i] in Repr - {c}
        {
          assert all[i] == before[i + 1] && c == before[0];
        }
        forall i, j | 0 <= i < j < |all|
          ensures all[i] != all[j]
        {
          assert all[i] == ([c] + all)[i + 1] && all[j] == ([c] + all)[j + 1];
        }
        Repr := Repr - {c};
      } else {
        NoDupMove(c, chunks, freeList);
        assert chunks + ([c] + freeList) == chunks + [c] + freeList;
        forall i | 0 <= i < |all| + 1
          ensures (chunks + [c] + freeList)[i] in Repr
        {
          if i < |chunks| {
            assert (chunks + [c] + freeList)[i] == before[i + 1];
          } else if i > |chunks| {
            assert (chunks + [c] + freeList)[i] == before[i];
          } else {
            assert c == before[0];
          }
        }
        freeList := [c] + freeList;
        freeCount := freeCount + 1;
      }
    }

    /**
     * Unlinks the drained head chunk and recycles it: onto the free list,
     * or released when the free list is full.
     */
    method DropHead()
      requires Shape() && chunkCount > 1
      modifies this`readOffset, this`chunks, this`chunkCount, this`freeList, this`freeCount, this`Repr
      ensures Shape() && Repr <= old(Repr)
      ensures Contents() == old(Contents())[size - old(readOffset)..]
      ensures chunks == old(chunks)[1..] && chunkCount == old(chunkCount) - 1 && readOffset == 0
      ensures freeCount == Min(maxFreeChunks, old(freeCount) + 1)
      ensures old(freeList) == freeList[freeCount - old(freeCount)..]
    {
      var c := chunks[0];
      assert [c] + chunks[1..] + freeList == chunks + freeList;
      Unlink();
      Recycle(c);
      assert freeList[freeCount - old(freeCount)..] == old(freeList);
    }

    /** Reading a single chunk to its end empties the stream. */
    method Reset()
      requires Chain() && chunkCount == 1
      modifies this`readOffset, this`writeOffset
      ensures Chain() && readOffset == 0 && writeOffset == 0 && Contents() == []
    {
      readOffset := 0;
      writeOffset := 0;
    }

    /** A read that ends inside the head chunk: copy, then move the read offset. */
    method ReadWithinHead(dst: array<byte>, at: int, k: int)
      requires Chain() && dst !in chunks
      requires 0 < k < size - readOffset && k <= |Contents()|
      requires 0 <= at && at + k <= dst.Length
      modifies dst, this`readOffset
      ensures Chain()
      ensures dst[..at] == old(dst[..at]) && dst[at + k..] == old(dst[at + k..])
      ensures dst[at..at + k] == old(Contents())[..k]
      ensures Contents() == old(Contents())[k..]
    {
      ghost var unread := Contents();
      CopyFromHead(dst, at, k);
      assert Contents() == unread;
      Advance(k);
    }

    /**
     * A read that drains the head chunk: copy its unread bytes, then unlink
     * and recycle it, or, when it is the only chunk, start it over empty.
     */
    method ReadHead(dst: array<byte>, at: int) returns (k: int)
      requires Shape() && dst !in Repr && size - readOffset <= |Contents()|
      requires 0 <= at && at + size - readOffset <= dst.Length
      modifies dst, this`readOffset, this`writeOffset, this`chunks, this`chunkCount
      modifies this`freeList, this`freeCount, this`Repr
      ensures Shape() && Repr <= old(Repr)
      ensures k == old(size - readOffset)
      ensures old(chunkCount) == 1 ==> k == old(|Contents()|)
      ensures old(chunkCount) > 1 ==> chunkCount == old(chunkCount) - 1 && writeOffset == old(writeOffset)
      ensures old(chunkCount) == 1 ==> readOffset == 0 && writeOffset == 0 && chunks == old(chunks)
      ensures dst[..at] == old(dst[..at]) && dst[at + k..] == old(dst[at + k..])
      ensures dst[at..at + k] == old(Contents())[..k]
      ensures Contents() == old(Contents())[k..]
      ensures Recycled(old(chunks), old(freeList), chunks, freeList, maxFreeChunks)
    {
      ChainShape();
      ghost var unread := Contents();
      k := size - readOffset;
      CopyFromHead(dst, at, k);
      assert Contents() == unread;
      if chunkCount != 1 {
        DropHead();
      } else {
        Reset();
        DropIsSuffix(chunks, 0);
        DropIsSuffix(freeList, 0);
      }
    }

    /**
     * One pass of the read loop: copies to `dst` at `at` the unread bytes of
     * the head chunk, at most `remaining` of them, and unlinks the head
     * chunk when it is drained and is not the only one. Returns the number
     * of bytes copied; the loop goes on only after unlinking a chunk.
     */
    method ReadStep(dst: array<byte>, at: int, remaining: int) returns (k: int)
      requires Shape() && dst !in Repr && 0 < remaining <= |Contents()|
      requires 0 <= at && at + remaining <= dst.Length
      modifies dst, this`readOffset, this`writeOffset, this`chunks, this`chunkCount
      modifies this`freeList, this`freeCount, this`Repr
      ensures Shape() && Repr <= old(Repr)
      ensures 0 < k <= remaining
      ensures k < remaining ==> k == old(size - readOffset) && chunkCount == old(chunkCount) - 1
      ensures Rewound(old(writeOffset) == size && k == old(|Contents()|), old(writeOffset), chunkCount, readOffset, writeOffset)
      ensures dst[..at] == old(dst[..at]) && dst[at + k..] == old(dst[at + k..])
      ensures dst[at..at + k] == old(Contents())[..k]
      ensures Contents() == old(Contents())[k..]
      ensures Recycled(old(chunks), old(freeList), chunks, freeList, maxFreeChunks)
    {
      ChainShape();
      if size - readOffset > remaining {
        ReadWithinHead(dst, at, remaining);
        DropIsSuffix(chunks, 0);
        DropIsSuffix(freeList, 0);
        return remaining;
      }
      k := ReadHead(dst, at);
    }

    /**
     * The body of the read loop, from `at` of the `n` bytes to deliver
     * already in `dst`: one `ReadStep` for the rest. The ghost parameters
     * are the state before the loop, against which the loop's invariant is
     * stated.
     */
    method ReadFrom(dst: array<byte>, at: int, n: int, ghost start: seq<byte>, ghost orig: seq<byte>,
                    ghost chunks0: seq<array<byte>>, ghost freeList0: seq<array<byte>>, ghost w0: int) returns (k: int)
      requires Shape() && dst !in Repr && 0 <= at < n <= dst.Length == |orig| && n <= |start|
      requires Contents() == start[at..]
      requires dst[..][..at] == start[..at] && dst[..][n..] == orig[n..]
      requires |freeList0| <= maxFreeChunks && Recycled(chunks0, freeList0, chunks, freeList, maxFreeChunks)
      requires writeOffset == w0
      modifies dst, this`readOffset, this`writeOffset, this`chunks, this`chunkCount
      modifies this`freeList, this`freeCount, this`Repr
      ensures Shape() && Repr <= old(Repr)
      ensures 0 < k <= n - at && Contents() == start[at + k..]
      ensures Rewound(w0 == size && 0 < at + k == |start|, w0, chunkCount, readOffset, writeOffset)
      ensures dst[..][..at + k] == start[..at + k] && dst[..][n..] == orig[n..]
      ensures Recycled(chunks0, freeList0, chunks, freeList, maxFreeChunks)
    {
      ghost var chunks1, freeList1, out0 := chunks, freeList, dst[..];
      k := ReadStep(dst, at, n - at);
      ghost var out := dst[..];
      assert out[..at] == dst[..at];
      assert out[at + k..] == dst[at + k..];
      assert out[at..at + k] == dst[at..at + k];
      DeliveredJoin(start, out0, out, orig, at, k, n);
      DropDrop(start, at, k);
      RecycledTrans(chunks0, freeList0, chunks1, freeList1, chunks, freeList, maxFreeChunks);
    }

    /**
     * The read loop: moves the first `n` unread bytes to `dst`, recycling
     * every chunk it drains.
     */
    method Drain(dst: array<byte>, n: int)
      requires Shape() && dst !in Repr && 0 <= n <= |Contents()| && n <= dst.Length
      modifies dst, this`readOffset, this`writeOffset, this`chunks, this`chunkCount
      modifies this`freeList, this`freeCount, this`Repr
      ensures Shape() && Repr <= old(Repr)
      ensures dst[..n] == old(Contents())[..n] && dst[n..] == old(dst[n..])
      ensures Contents() == old(Contents())[n..]
      ensures Rewound(old(writeOffset) == size && 0 < n == old(|Contents()|), old(writeOffset), chunkCount, readOffset, writeOffset)
      ensures Recycled(old(chunks), old(freeList), chunks, freeList, maxFreeChunks)
    {
      ghost var start := Contents();
      ghost var orig := dst[..];
      var bytesRead := 0;
      DropIsSuffix(chunks, 0);
      DropIsSuffix(freeList, 0);
      while bytesRead < n
        invariant 0 <= bytesRead <= n
        invariant Shape() && Repr <= old(Repr)
        invariant Contents() == start[bytesRead..]
        invariant dst[..][..bytesRead] == start[..bytesRead] && dst[..][n..] == orig[n..]
        invariant Recycled(old(chunks), old(freeList), chunks, freeList, maxFreeChunks)
        invariant Rewound(old(writeOffset) == size && 0 < bytesRead == |start|, old(writeOffset), chunkCount, readOffset, writeOffset)
        decreases n - bytesRead
      {
        var k := ReadFrom(dst, bytesRead, n, start, orig, old(chunks), old(freeList), old(writeOffset));
        bytesRead := bytesRead + k;
      }
      assert dst[..n] == dst[..][..n];
      assert dst[n..] == dst[..][n..];
    }

    /**
     * Read: moves up to `length` unread bytes (no more than `Length`) to
     * `buffer` and returns how many it moved. A negative length is rejected
     * and changes nothing.
     */
    method Read(buffer: array<byte>, length: int) returns (r: Result<int>)
      requires Valid() && buffer !in Repr && Min(length, this.length) <= buffer.Length
      modifies Repr, buffer
      ensures Valid() && Repr <= old(Repr)
      ensures length < 0 ==> r == Err(ArgumentOutOfRange("length")) && unchanged(this) && unchanged(buffer)
      ensures length < 0 ==> Contents() == old(Contents())
      ensures length >= 0 ==> r == Ok(Min(length, old(this.length)))
      ensures length >= 0 ==> buffer[..r.value] == old(Contents())[..r.value]
      ensures length >= 0 ==> buffer[r.value..] == old(buffer[r.value..])
      ensures length >= 0 ==> Contents() == old(Contents())[r.value..]
      ensures length >= 0 ==> this.length == old(this.length) - r.value
      ensures length >= 0 ==> Rewound(old(writeOffset) == size && 0 < r.value == old(this.length), old(writeOffset), chunkCount, readOffset, writeOffset)
      ensures Recycled(old(chunks), old(freeList), chunks, freeList, maxFreeChunks)
    {
      if length < 0 {
        assert chunks[chunkCount - chunkCount..] == chunks && freeList[freeCount - freeCount..] == freeList;
        return Err(ArgumentOutOfRange("length"));
      }
      var n := length;
      if n > this.length {
        n := this.length;
      }
      Drain(buffer, n);
      this.length := this.length - n;
      return Ok(n);
    }

    /** Allocates a spare chunk and puts it on the front of the free list. */
    method PushSpare()
      requires Shape() && freeCount < maxFreeChunks
      modifies this`freeList, this`freeCount, this`Repr
      ensures Shape() && fresh(Repr - old(Repr))
      ensures freeCount == old(freeCount) + 1 && freeList[1..] == old(freeList) && fresh(freeList[0])
    {
      var chunk := new byte[size];
      var all := chunks + freeList;
      NoDupCons(chunk, all);
      assert [chunk] + all == [chunk] + chunks + freeList;
      NoDupMove(chunk, chunks, freeList);
      var next := chunks + [chunk] + freeList;
      assert next == chunks + ([chunk] + freeList);
      forall i | 0 <= i < |next|
        ensures next[i] in Repr + {chunk}
      {
        if i < |chunks| {
          assert next[i] == all[i];
        } else if i > |chunks| {
          assert next[i] == all[i - 1];
        }
      }
      freeList := [chunk] + freeList;
      freeCount := freeCount + 1;
      Repr := Repr + {chunk};
    }

    /**
     * EnsureCapacity: allocates spare chunks until the free list holds
     * `capacity` of them, but never more than `MaxFreeChunks`, and returns
     * the number of spare chunks. A negative capacity is rejected.
     */
    method EnsureCapacity(capacity: int) returns (r: Result<int>)
      requires Valid()
      modifies this`freeList, this`freeCount, this`Repr
      ensures Valid() && fresh(Repr - old(Repr))
      ensures Contents() == old(Contents()) && length == old(length)
      ensures capacity < 0 ==> r == Err(ArgumentOutOfRange("capacity")) && freeCount == old(freeCount)
      ensures capacity >= 0 ==> r == Ok(freeCount)
      ensures capacity >= 0 ==> freeCount == Max(old(freeCount), Min(capacity, maxFreeChunks))
      ensures freeList[freeCount - old(freeCount)..] == old(freeList)
    {
      if capacity < 0 {
        assert freeList[0..] == freeList;
        return Err(ArgumentOutOfRange("capacity"));
      }
      var target := capacity;
      if target > maxFreeChunks {
        target := maxFreeChunks;
      }
      while freeCount < target
        invariant Valid() && fresh(Repr - old(Repr))
        invariant old(freeCount) <= freeCount <= Max(old(freeCount), target)
        invariant freeList[freeCount - old(freeCount)..] == old(freeList)
        decreases target - freeCount
      {
        PushSpare();
        DropDrop(freeList, 1, freeCount - 1 - old(freeCount));
      }
      return Ok(freeCount);
    }

    /**
     * Frees spare chunks from the front of the free list until at most
     * `capacity` of them are left.
     */
    method ReleaseSpares(capacity: int)
      requires Valid() && capacity >= 0
      modifies this`freeList, this`freeCount, this`Repr
      ensures Valid() && Repr <= old(Repr)
      ensures freeCount == Min(old(freeCount), capacity)
      ensures freeList == old(freeList)[old(freeCount) - freeCount..]
      ensures forall i | 0 <= i < old(freeCount) - freeCount :: old(freeList)[i] !in Repr
    {
      var node := freeList;
      while freeCount > capacity
        invariant Min(old(freeCount), capacity) <= freeCount == |node| <= old(freeCount)
        invariant node == old(freeList)[old(freeCount) - freeCount..]
        invariant freeList == old(freeList)
        invariant this in Repr && Repr <= old(Repr)
        invariant Owned(chunks + node, Repr) && NoDup(chunks + node)
        invariant forall i | 0 <= i < old(freeCount) - freeCount :: old(freeList)[i] !in Repr
        decreases freeCount
      {
        ReleaseFirst(chunks, node, Repr);
        DropDrop(old(freeList), old(freeCount) - freeCount, 1);
        freeCount := freeCount - 1;
        var temp := node[0];
        node := node[1..];
        Repr := Repr - {temp};
      }
      freeList := node;
    }

    /** TrimExcess: frees every spare chunk. */
    method TrimExcess()
      requires Valid()
      modifies this`freeList, this`freeCount, this`Repr
      ensures Valid() && Repr <= old(Repr)
      ensures Contents() == old(Contents()) && length == old(length)
      ensures freeList == [] && freeCount == 0
      ensures forall i | 0 <= i < |old(freeList)| :: old(freeList)[i] !in Repr
    {
      ReleaseSpares(0);
    }

    /**
     * TrimExcess(capacity): frees spare chunks, newest first, until at most
     * `capacity` are left, and returns the number left. A negative capacity
     * is rejected.
     */
    method TrimExcessTo(capacity: int) returns (r: Result<int>)
      requires Valid()
      modifies this`freeList, this`freeCount, this`Repr
      ensures Valid() && Repr <= old(Repr)
      ensures Contents() == old(Contents()) && length == old(length)
      ensures capacity < 0 ==> r == Err(ArgumentOutOfRange("capacity")) && freeList == old(freeList) && Repr == old(Repr)
      ensures capacity >= 0 ==> r == Ok(freeCount) && freeCount == Min(old(freeCount), capacity)
      ensures capacity >= 0 ==> freeList == old(freeList)[old(freeCount) - freeCount..]
      ensures forall i | 0 <= i < old(freeCount) - freeCount :: old(freeList)[i] !in Repr
    {
      if capacity < 0 {
        return Err(ArgumentOutOfRange("capacity"));
      }
      ReleaseSpares(capacity);
      return Ok(freeCount);
    }

    /**
     * The constructor's argument checks: `size` must be positive and
     * `maxFreeChunks` not negative.
     */
    static method Create(size: int, maxFreeChunks: int) returns (r: Result<Stream>)
      ensures size <= 0 ==> r == Err(ArgumentOutOfRange("size"))
      ensures size > 0 && maxFreeChunks < 0 ==> r == Err(ArgumentOutOfRange("maxFreeChunks"))
      ensures size > 0 && maxFreeChunks >= 0 ==> r.Ok? && r.value.Valid() && fresh(r.value.Repr)
      ensures size > 0 && maxFreeChunks >= 0 ==> r.value.size == size && r.value.maxFreeChunks == maxFreeChunks
      ensures size > 0 && maxFreeChunks >= 0 ==> r.value.Contents() == [] && r.value.length == 0
    {
      if size <= 0 {
        return Err(ArgumentOutOfRange("size"));
      }
      if maxFreeChunks < 0 {
        return Err(ArgumentOutOfRange("maxFreeChunks"));
      }
      var s := new Stream(size, maxFreeChunks);
      return Ok(s);
    }
  }

  /**
   * The FIFO round trip: writing `data` and then reading everything yields
   * the bytes that were already unread followed by `data`, in order, and
   * leaves the stream empty.
   */
  method WriteThenRead(s: Stream, data: seq<byte>, buffer: array<byte>) returns (r: Result<int>)
    requires s.Valid() && buffer !in s.Repr && s.length + |data| <= buffer.Length
    modifies s.Repr, buffer
    ensures s.Valid() && r == Ok(old(s.length) + |data|)
    ensures buffer[..r.value] == old(s.Contents()) + data
    ensures s.length == 0 && s.Contents() == []
  {
    var w := s.Write(data, |data|);
    assert data[..|data|] == data;
    r := s.Read(buffer, s.length);
  }
}
