/**
 * The physical layout of the 4096-byte arena managed by my_heap.c, as a
 * value: the sequence of chunks in address order, each with the offset of
 * its header, its payload size and its free flag.  This module states what
 * heap_init, heap_alloc and heap_free do to that layout, independently of
 * the intrusive free list through which the C code reaches the chunks, and
 * proves the invariants the allocator keeps.
 */
module Layout {

  datatype Option<T> = None | Some(value: T)

  /** HEAP_SIZE: the capacity of the arena in bytes. */
  const HEAP_SIZE: nat := 4096
  /** sizeof(chunk) on an LP64 target: a uint32_t, a bool, padding, a pointer. */
  const H: nat := 16
  /** sizeof(void *): every request is rounded up to a multiple of it. */
  const WORD: nat := 8

  /** A chunk as the physical walk sees it: header offset, payload size, state. */
  datatype Block = Block(addr: nat, size: nat, free: bool)

  /** The offset just past the chunk's payload, where the next header starts. */
  function End(b: Block): nat { b.addr + H + b.size }

  // ---------------------------------------------------------------------
  // Layout invariants
  // ---------------------------------------------------------------------

  /** Each chunk's header sits right after the previous chunk's payload. */
  predicate Contiguous(bs: seq<Block>) {
    forall i :: 0 <= i < |bs| - 1 ==> bs[i + 1].addr == End(bs[i])
  }

  /** The chunks cover the byte range [a, e) exactly, without gap or overlap. */
  predicate Covers(bs: seq<Block>, a: nat, e: nat) {
    |bs| > 0 && bs[0].addr == a && Contiguous(bs) && End(bs[|bs| - 1]) == e
  }

  /** The chunks tile the whole arena. */
  predicate Tiles(bs: seq<Block>) { Covers(bs, 0, HEAP_SIZE) }

  /** No two physically adjacent chunks are both free. */
  predicate Coalesced(bs: seq<Block>) {
    forall i :: 0 <= i < |bs| - 1 ==> !(bs[i].free && bs[i + 1].free)
  }

  /** Every payload size is a multiple of the word size. */
  predicate Aligned(bs: seq<Block>) {
    forall i :: 0 <= i < |bs| ==> bs[i].size % WORD == 0
  }

  /** The invariant heap_init establishes and heap_alloc and heap_free keep. */
  predicate Inv(bs: seq<Block>) { Tiles(bs) && Coalesced(bs) && Aligned(bs) }

  /** Chunks are in strictly ascending address order and do not overlap. */
  predicate Ordered(bs: seq<Block>) {
    forall i, j :: 0 <= i < j < |bs| ==> End(bs[i]) <= bs[j].addr
  }

  // ---------------------------------------------------------------------
  // Views of a layout
  // ---------------------------------------------------------------------

  /** The free chunks in address order: what the free list must hold. */
  function FreeList(bs: seq<Block>): (fl: seq<Block>)
    ensures |fl| <= |bs|
  {
    if bs == [] then [] else (if bs[0].free then [bs[0]] else []) + FreeList(bs[1..])
  }

  /** The allocated chunks. */
  function Allocated(bs: seq<Block>): set<Block> {
    if bs == [] then {} else (if bs[0].free then {} else {bs[0]}) + Allocated(bs[1..])
  }

  /** Bytes the chunks occupy, headers included. */
  function Span(bs: seq<Block>): (n: nat)
    ensures bs != [] ==> n >= H + bs[0].size
  {
    if bs == [] then 0 else bs[0].size + H + Span(bs[1..])
  }

  /** Bytes held by free chunks, headers included: what `avail` counts. */
  function Avail(bs: seq<Block>): nat {
    if bs == [] then 0 else (if bs[0].free then bs[0].size + H else 0) + Avail(bs[1..])
  }

  /** The layout heap_init lays down: one free chunk spanning the arena. */
  function Initial(): (bs: seq<Block>)
    ensures Inv(bs) && Avail(bs) == HEAP_SIZE && FreeList(bs) == bs
  {
    [Block(0, HEAP_SIZE - H, true)]
  }

  // ---------------------------------------------------------------------
  // heap_alloc on the layout
  // ---------------------------------------------------------------------

  /** The request rounded up to the least multiple of the word size. */
  function RoundUp(n: nat): (r: nat)
    ensures r % WORD == 0 && n <= r < n + WORD
  {
    if n % WORD != 0 then n + WORD - n % WORD else n
  }

  predicate Fits(b: Block, s: nat) { b.free && b.size >= s }

  /** First fit: the lowest-addressed free chunk with payload at least s. */
  function FirstFit(bs: seq<Block>, s: nat): (r: Option<nat>)
    ensures r.Some? ==> r.value < |bs| && Fits(bs[r.value], s)
    ensures r.Some? ==> forall j :: 0 <= j < r.value ==> !Fits(bs[j], s)
    ensures r.None? ==> forall j :: 0 <= j < |bs| ==> !Fits(bs[j], s)
  {
    if bs == [] then None
    else if Fits(bs[0], s) then Some(0)
    else match FirstFit(bs[1..], s)
      case None => None
      case Some(i) => Some(i + 1)
  }

  /**
   * What becomes of the chosen chunk b for a rounded request s: an allocated
   * chunk of exactly s bytes followed by a free remainder when the rest can
   * hold a header and more, otherwise the whole chunk allocated.
   */
  function Split(b: Block, s: nat): (m: seq<Block>)
    requires b.size >= s
    ensures 1 <= |m| <= 2 && m[0].addr == b.addr && !m[0].free
    ensures |m| == 2 <==> b.size - s > H
    ensures End(m[|m| - 1]) == End(b)
  {
    if b.size - s > H then [Block(b.addr, s, false), Block(b.addr + H + s, b.size - s - H, true)]
    else [b.(free := false)]
  }

  /** The layout after chunk i is chosen for a rounded request s. */
  function Carve(bs: seq<Block>, i: nat, s: nat): seq<Block>
    requires i < |bs| && bs[i].size >= s
  {
    bs[..i] + Split(bs[i], s) + bs[i + 1..]
  }

  /** The payload offset returned to the caller, and the layout afterwards. */
  datatype AllocResult = AllocResult(layout: seq<Block>, ptr: Option<nat>)

  function Alloc(bs: seq<Block>, n: nat): AllocResult {
    if n == 0 then AllocResult(bs, None)
    else
      var s := RoundUp(n);
      match FirstFit(bs, s)
      case None => AllocResult(bs, None)
      case Some(i) => AllocResult(Carve(bs, i, s), Some(bs[i].addr + H))
  }

  // ---------------------------------------------------------------------
  // heap_free on the layout
  // ---------------------------------------------------------------------

  /** p is the payload offset of a chunk of the layout. */
  predicate IsPayload(bs: seq<Block>, p: nat) {
    exists i :: 0 <= i < |bs| && bs[i].addr + H == p
  }

  /** The index of the first chunk whose header is at a, or |bs| when none is. */
  function IndexOf(bs: seq<Block>, a: nat): (i: nat)
    ensures i <= |bs|
    ensures i < |bs| ==> bs[i].addr == a
    ensures i == |bs| ==> forall j :: 0 <= j < |bs| ==> bs[j].addr != a
  {
    if bs == [] then 0 else if bs[0].addr == a then 0 else 1 + IndexOf(bs[1..], a)
  }

  /** The first chunk of the merged run: the left neighbour when it is free. */
  function Lo(bs: seq<Block>, i: nat): nat
    requires i < |bs|
  {
    if i > 0 && bs[i - 1].free then i - 1 else i
  }

  /** One past the last chunk of the merged run: past the right neighbour when it is free. */
  function Hi(bs: seq<Block>, i: nat): nat
    requires i < |bs|
  {
    if i + 1 < |bs| && bs[i + 1].free then i + 2 else i + 1
  }

  /**
   * Releasing chunk i: nothing happens when it is already free; otherwise it
   * and its free physical neighbours become one free chunk that occupies all
   * their bytes but one header, at the lowest of their addresses.
   */
  function Release(bs: seq<Block>, i: nat): seq<Block>
    requires i < |bs|
  {
    if bs[i].free then bs
    else
      var lo, hi := Lo(bs, i), Hi(bs, i);
      bs[..lo] + [Block(bs[lo].addr, Span(bs[lo..hi]) - H, true)] + bs[hi..]
  }

  /** heap_free: None plays the role of a NULL pointer. */
  function Free(bs: seq<Block>, ptr: Option<nat>): seq<Block>
    requires ptr.Some? ==> IsPayload(bs, ptr.value)
  {
    match ptr
    case None => bs
    case Some(p) => Release(bs, IndexOf(bs, p - H))
  }

  // ---------------------------------------------------------------------
  // Lemmas about sequences of chunks
  // ---------------------------------------------------------------------

  lemma {:induction false} EndBefore(bs: seq<Block>, i: nat, j: nat)
    requires Contiguous(bs) && i < j < |bs|
    ensures End(bs[i]) <= bs[j].addr
    decreases j - i
  {
    if j > i + 1 {
      EndBefore(bs, i, j - 1);
    }
  }

  /** Contiguous chunks are ordered, and a covering stays inside its range. */
  lemma {:induction false} CoversOrdered(bs: seq<Block>, a: nat, e: nat)
    requires Covers(bs, a, e)
    ensures Ordered(bs)
    ensures forall i :: 0 <= i < |bs| ==> a <= bs[i].addr && End(bs[i]) <= e
  {
    forall i, j | 0 <= i < j < |bs| ensures End(bs[i]) <= bs[j].addr {
      EndBefore(bs, i, j);
    }
    forall i | 0 <= i < |bs| ensures a <= bs[i].addr && End(bs[i]) <= e {
      if i > 0 { EndBefore(bs, 0, i); }
      if i < |bs| - 1 { EndBefore(bs, i, |bs| - 1); }
    }
  }

  /** The free list holds exactly the chunks marked free. */
  lemma {:induction false} FreeListMembers(bs: seq<Block>)
    ensures forall b :: b in FreeList(bs) <==> b in bs && b.free
  {
    if bs != [] {
      FreeListMembers(bs[1..]);
      assert bs == [bs[0]] + bs[1..];
    }
  }

  /** The allocated chunks are exactly those not marked free. */
  lemma {:induction false} AllocatedMembers(bs: seq<Block>)
    ensures forall b :: b in Allocated(bs) <==> b in bs && !b.free
  {
    if bs != [] {
      AllocatedMembers(bs[1..]);
      assert bs == [bs[0]] + bs[1..];
    }
  }

  lemma {:induction false} FreeListConcat(a: seq<Block>, b: seq<Block>)
    ensures FreeList(a + b) == FreeList(a) + FreeList(b)
  {
    if a == [] {
      assert a + b == b;
    } else {
      var ab := a + b;
      assert ab[0] == a[0] && ab[1..] == a[1..] + b;
      FreeListConcat(a[1..], b);
      var x := if a[0].free then [a[0]] else [];
      assert FreeList(ab) == x + (FreeList(a[1..]) + FreeList(b));
      assert FreeList(a) == x + FreeList(a[1..]);
    }
  }

  lemma {:induction false} AllocatedConcat(a: seq<Block>, b: seq<Block>)
    ensures Allocated(a + b) == Allocated(a) + Allocated(b)
  {
    if a == [] {
      assert a + b == b;
    } else {
      var ab := a + b;
      assert ab[0] == a[0] && ab[1..] == a[1..] + b;
      AllocatedConcat(a[1..], b);
      var x := if a[0].free then {} else {a[0]};
      assert Allocated(ab) == x + (Allocated(a[1..]) + Allocated(b));
      assert Allocated(a) == x + Allocated(a[1..]);
    }
  }

  lemma {:induction false} SpanConcat(a: seq<Block>, b: seq<Block>)
    ensures Span(a + b) == Span(a) + Span(b)
  {
    if a == [] {
      assert a + b == b;
    } else {
      var ab := a + b;
      assert ab[0] == a[0] && ab[1..] == a[1..] + b;
      SpanConcat(a[1..], b);
      var x := a[0].size + H;
      assert Span(ab) == x + (Span(a[1..]) + Span(b));
      assert Span(a) == x + Span(a[1..]);
    }
  }

  lemma {:induction false} AvailConcat(a: seq<Block>, b: seq<Block>)
    ensures Avail(a + b) == Avail(a) + Avail(b)
  {
    if a == [] {
      assert a + b == b;
    } else {
      var ab := a + b;
      assert ab[0] == a[0] && ab[1..] == a[1..] + b;
      AvailConcat(a[1..], b);
      var x := if a[0].free then a[0].size + H else 0;
      assert Avail(ab) == x + (Avail(a[1..]) + Avail(b));
      assert Avail(a) == x + Avail(a[1..]);
    }
  }

  /** The k-th chunk of the run is apart from the others: those before it end by its start, those after start at or past its end. */
  predicate Apart(bs: seq<Block>, k: nat) {
    k < |bs| &&
    (forall j :: 0 <= j < k ==> End(bs[j]) <= bs[k].addr) &&
    (forall j :: k < j < |bs| ==> End(bs[k]) <= bs[j].addr)
  }

  /** In a layout that tiles the arena, the k-th free chunk and the one before it are apart from the other free chunks. */
  lemma FreeListApart(bs: seq<Block>, k: nat)
    requires Tiles(bs) && k < |FreeList(bs)|
    ensures Apart(FreeList(bs), k) && (k > 0 ==> Apart(FreeList(bs), k - 1))
  {
    CoversOrdered(bs, 0, HEAP_SIZE);
    FreeListOrdered(bs);
  }

  /** The free list of a layout that tiles a range is ordered. */
  lemma TiledFreeListOrdered(bs: seq<Block>)
    requires Tiles(bs)
    ensures Ordered(FreeList(bs))
  {
    CoversOrdered(bs, 0, HEAP_SIZE);
    FreeListOrdered(bs);
  }

  /** The free list of an ordered layout is ordered: strictly ascending by address. */
  lemma {:induction false} FreeListOrdered(bs: seq<Block>)
    requires Ordered(bs)
    ensures Ordered(FreeList(bs))
  {
    if bs != [] {
      var t := bs[1..];
      assert Ordered(t) by {
        forall i, j | 0 <= i < j < |t| ensures End(t[i]) <= t[j].addr {
          assert t[i] == bs[i + 1] && t[j] == bs[j + 1];
        }
      }
      FreeListOrdered(t);
      var ft := FreeList(t);
      FreeListMembers(t);
      if bs[0].free {
        forall x | x in ft ensures End(bs[0]) <= x.addr {
          var m :| 0 <= m < |t| && t[m] == x;
          assert bs[m + 1] == x;
        }
        OrderedCons(bs[0], ft);
        assert FreeList(bs) == [bs[0]] + ft;
      } else {
        assert FreeList(bs) == ft;
      }
    }
  }

  /** A chunk that ends before every chunk of an ordered sequence can go in front of it. */
  lemma OrderedCons(b: Block, s: seq<Block>)
    requires Ordered(s) && forall x :: x in s ==> End(b) <= x.addr
    ensures Ordered([b] + s)
  {
    var r := [b] + s;
    forall i, j | 0 <= i < j < |r| ensures End(r[i]) <= r[j].addr {
      assert r[j] == s[j - 1];
      if i > 0 {
        assert r[i] == s[i - 1];
      } else {
        assert s[j - 1] in s;
      }
    }
  }

  /** A covered range is exactly as long as the bytes its chunks occupy. */
  lemma {:induction false} CoversSpan(bs: seq<Block>, a: nat, e: nat)
    requires Covers(bs, a, e)
    ensures Span(bs) == e - a
    decreases |bs|
  {
    if |bs| == 1 {
      assert bs[1..] == [];
    } else {
      var t := bs[1..];
      assert Covers(t, End(bs[0]), e) by {
        forall i | 0 <= i < |t| - 1 ensures t[i + 1].addr == End(t[i]) {
          assert t[i] == bs[i + 1] && t[i + 1] == bs[i + 2];
        }
      }
      CoversSpan(t, End(bs[0]), e);
    }
  }

  lemma {:induction false} SpanAligned(bs: seq<Block>)
    requires forall i :: 0 <= i < |bs| ==> bs[i].size % WORD == 0
    ensures Span(bs) % WORD == 0
  {
    if bs != [] {
      var t := bs[1..];
      assert forall i :: 0 <= i < |t| ==> t[i].size % WORD == 0 by {
        forall i | 0 <= i < |t| ensures t[i].size % WORD == 0 { assert t[i] == bs[i + 1]; }
      }
      SpanAligned(t);
      assert Span(bs) == bs[0].size + H + Span(t);
      AlignedSum(bs[0].size, Span(t));
    }
  }

  /** A header between two word multiples keeps the sum a word multiple. */
  lemma AlignedSum(x: nat, y: nat)
    requires x % WORD == 0 && y % WORD == 0
    ensures (x + H + y) % WORD == 0
  {
    assert x + H + y == WORD * (x / WORD + 2 + y / WORD);
  }

  /** Free chunks hold at most the bytes all chunks occupy. */
  lemma {:induction false} AvailAtMostSpan(bs: seq<Block>)
    ensures Avail(bs) <= Span(bs)
    ensures Avail(bs) == Span(bs) <==> Allocated(bs) == {}
  {
    if bs != [] {
      AvailAtMostSpan(bs[1..]);
      if !bs[0].free {
        assert bs[0] in Allocated(bs);
      } else if Allocated(bs[1..]) != {} {
        var b :| b in Allocated(bs[1..]);
        assert b in Allocated(bs);
      }
    }
  }

  /** Every header offset of a tiled, aligned layout is word-aligned. */
  lemma {:induction false} AddrAligned(bs: seq<Block>, i: nat)
    requires Inv(bs) && i < |bs|
    ensures bs[i].addr % WORD == 0
  {
    if i > 0 {
      AddrAligned(bs, i - 1);
      assert bs[i].addr == bs[i - 1].addr + H + bs[i - 1].size;
    }
  }

  /** The first chunk of an ordered run is the only one that starts at its address. */
  lemma {:induction false} Around(bs: seq<Block>, i: nat)
    requires Ordered(bs) && i < |bs|
    ensures forall b :: b in bs[..i] ==> End(b) <= bs[i].addr
    ensures forall b :: b in bs[i + 1..] ==> End(bs[i]) <= b.addr
  {
    forall b | b in bs[..i] ensures End(b) <= bs[i].addr {
      var m :| 0 <= m < i && bs[..i][m] == b;
      assert bs[m] == b;
    }
    forall b | b in bs[i + 1..] ensures End(bs[i]) <= b.addr {
      var m :| 0 <= m < |bs| - i - 1 && bs[i + 1..][m] == b;
      assert bs[i + 1 + m] == b;
    }
  }

  // ---------------------------------------------------------------------
  // Replacing a run of chunks by chunks that cover the same bytes
  // ---------------------------------------------------------------------

  /** Replacing bs[lo..hi] by chunks covering the same bytes keeps the covering. */
  lemma {:induction false} SpliceCovers(bs: seq<Block>, a: nat, e: nat, lo: nat, hi: nat, m: seq<Block>)
    requires Covers(bs, a, e) && lo < hi <= |bs|
    requires Covers(m, bs[lo].addr, End(bs[hi - 1]))
    ensures Covers(bs[..lo] + m + bs[hi..], a, e)
  {
    var r := bs[..lo] + m + bs[hi..];
    var d := |m| - (hi - lo);
    assert |r| == |bs| + d;
    forall j | 0 <= j < |r| - 1 ensures r[j + 1].addr == End(r[j]) {
      if j + 1 < lo {
        assert r[j] == bs[j] && r[j + 1] == bs[j + 1];
      } else if j + 1 == lo {
        assert r[j] == bs[j] && r[j + 1] == m[0];
      } else if j + 1 < lo + |m| {
        assert r[j] == m[j - lo] && r[j + 1] == m[j + 1 - lo];
      } else if j + 1 == lo + |m| {
        assert r[j] == m[|m| - 1] && r[j + 1] == bs[hi];
      } else {
        assert r[j] == bs[j - d] && r[j + 1] == bs[j + 1 - d];
      }
    }
    if lo == 0 {
      assert r[0] == m[0];
    } else {
      assert r[0] == bs[0];
    }
    if hi == |bs| {
      assert r[|r| - 1] == m[|m| - 1];
    } else {
      assert r[|r| - 1] == bs[|bs| - 1];
    }
  }

  /** The replacement keeps no two adjacent free chunks when its borders do. */
  lemma {:induction false} SpliceCoalesced(bs: seq<Block>, lo: nat, hi: nat, m: seq<Block>)
    requires Coalesced(bs) && Coalesced(m) && lo < hi <= |bs| && m != []
    requires lo > 0 && m[0].free ==> !bs[lo - 1].free
    requires hi < |bs| && m[|m| - 1].free ==> !bs[hi].free
    ensures Coalesced(bs[..lo] + m + bs[hi..])
  {
    var r := bs[..lo] + m + bs[hi..];
    var d := |m| - (hi - lo);
    forall j | 0 <= j < |r| - 1 ensures !(r[j].free && r[j + 1].free) {
      if j + 1 < lo {
        assert r[j] == bs[j] && r[j + 1] == bs[j + 1];
      } else if j + 1 == lo {
        assert r[j] == bs[j] && r[j + 1] == m[0];
      } else if j + 1 < lo + |m| {
        assert r[j] == m[j - lo] && r[j + 1] == m[j + 1 - lo];
      } else if j + 1 == lo + |m| {
        assert r[j] == m[|m| - 1] && r[j + 1] == bs[hi];
      } else {
        assert r[j] == bs[j - d] && r[j + 1] == bs[j + 1 - d];
      }
    }
  }

  lemma {:induction false} SpliceAligned(bs: seq<Block>, lo: nat, hi: nat, m: seq<Block>)
    requires Aligned(bs) && Aligned(m) && lo <= hi <= |bs|
    ensures Aligned(bs[..lo] + m + bs[hi..])
  {
    var r := bs[..lo] + m + bs[hi..];
    forall j | 0 <= j < |r| ensures r[j].size % WORD == 0 {
      if j < lo {
        assert r[j] == bs[j];
      } else if j < lo + |m| {
        assert r[j] == m[j - lo];
      } else {
        assert r[j] == bs[j - lo - |m| + hi];
      }
    }
  }

  // ---------------------------------------------------------------------
  // heap_init
  // ---------------------------------------------------------------------

  /** Only the initial layout tiles the arena with nothing allocated. */
  lemma {:induction false} AllFreeIsInitial(bs: seq<Block>)
    requires Inv(bs) && Allocated(bs) == {}
    ensures bs == Initial()
  {
    AllocatedMembers(bs);
  }

  // ---------------------------------------------------------------------
  // heap_alloc
  // ---------------------------------------------------------------------

  /** Carving a rounded request out of a free chunk keeps the invariant. */
  lemma {:induction false} CarveInv(bs: seq<Block>, i: nat, s: nat)
    requires Inv(bs) && i < |bs| && Fits(bs[i], s) && s % WORD == 0
    ensures Inv(Carve(bs, i, s))
  {
    var b := bs[i];
    var m := Split(b, s);
    assert Covers(m, b.addr, End(b));
    SpliceCovers(bs, 0, HEAP_SIZE, i, i + 1, m);
    assert i > 0 ==> !bs[i - 1].free;
    assert i + 1 < |bs| ==> !bs[i + 1].free;
    SpliceCoalesced(bs, i, i + 1, m);
    assert Aligned(m) by {
      if b.size - s > H {
        assert (b.size - s - H) % WORD == 0;
      }
    }
    SpliceAligned(bs, i, i + 1, m);
  }

  /** The split of a chunk is the committed chunk followed by the free tail, if any. */
  lemma SplitParts(b: Block, s: nat)
    requires b.size >= s
    ensures var m := Split(b, s);
      |m| >= 1 && !m[0].free && m == [m[0]] + m[1..] &&
      m[1..] == (if b.size - s > H then [Block(b.addr + H + s, b.size - s - H, true)] else [])
  {
  }

  /** Carving chunk i, the k-th free chunk, puts the split's free tail in its place in the free list. */
  lemma CarveFreeList(bs: seq<Block>, i: nat, k: nat, s: nat)
    requires i < |bs| && Fits(bs[i], s) && k <= |FreeList(bs)|
    requires FreeList(bs[..i]) == FreeList(bs)[..k]
    requires k + 1 <= |FreeList(bs)| && FreeList(bs[i + 1..]) == FreeList(bs)[k + 1..]
    ensures FreeList(Carve(bs, i, s)) == FreeList(bs)[..k] + Split(bs[i], s)[1..] + FreeList(bs)[k + 1..]
  {
    var m := Split(bs[i], s);
    SplitParts(bs[i], s);
    var pre, tail, post := bs[..i], m[1..], bs[i + 1..];
    assert FreeList(m) == tail by {
      FreeListConcat([m[0]], tail);
      assert [m[0]][1..] == [];
      if tail != [] {
        assert tail[1..] == [];
      }
    }
    assert Carve(bs, i, s) == (pre + m) + post;
    FreeListConcat(pre + m, post);
    FreeListConcat(pre, m);
  }

  /** A three-way split of a layout adds up part by part. */
  lemma Parts(a: seq<Block>, m: seq<Block>, c: seq<Block>)
    ensures Avail(a + m + c) == Avail(a) + Avail(m) + Avail(c)
    ensures Allocated(a + m + c) == Allocated(a) + Allocated(m) + Allocated(c)
  {
    AvailConcat(a + m, c);
    AvailConcat(a, m);
    AllocatedConcat(a + m, c);
    AllocatedConcat(a, m);
  }

  /** Splitting a free chunk commits its first part and leaves the rest free. */
  lemma SplitAccounting(b: Block, s: nat)
    requires Fits(b, s)
    ensures var m := Split(b, s);
      Allocated(m) == {m[0]} && Avail(m) + m[0].size + H == b.size + H
  {
    var m := Split(b, s);
    if |m| == 2 {
      assert m == [m[0]] + [m[1]];
      AvailConcat([m[0]], [m[1]]);
      AllocatedConcat([m[0]], [m[1]]);
    }
  }

  /**
   * Carving commits one chunk to the caller, at the chosen chunk's address,
   * of at least s bytes and at most s + H bytes (s exactly when the chunk is
   * split, the whole chunk otherwise); everything else that was allocated stays
   * allocated; the free bytes drop by exactly what the committed chunk occupies.
   */
  lemma {:induction false} CarveAccounting(bs: seq<Block>, i: nat, s: nat)
    requires i < |bs| && Fits(bs[i], s)
    ensures var r := Carve(bs, i, s);
      var c := r[i];
      c == Split(bs[i], s)[0] &&
      c.addr == bs[i].addr && !c.free && s <= c.size <= s + H &&
      (c.size == s || c.size == bs[i].size) &&
      Allocated(r) == Allocated(bs) + {c} &&
      Avail(r) + c.size + H == Avail(bs)
  {
    var b := bs[i];
    var m := Split(b, s);
    assert bs == bs[..i] + [b] + bs[i + 1..];
    Parts(bs[..i], [b], bs[i + 1..]);
    Parts(bs[..i], m, bs[i + 1..]);
    SplitAccounting(b, s);
    assert Avail([b]) == b.size + H;
    assert Allocated([b]) == {};
    assert Carve(bs, i, s)[i] == m[0];
  }

  /** heap_alloc keeps the layout invariant. */
  lemma {:induction false} AllocKeepsInv(bs: seq<Block>, n: nat)
    requires Inv(bs)
    ensures Inv(Alloc(bs, n).layout)
  {
    if n > 0 && FirstFit(bs, RoundUp(n)).Some? {
      CarveInv(bs, FirstFit(bs, RoundUp(n)).value, RoundUp(n));
    }
  }

  /** The committed chunk of a successful allocation, seen in the new layout. */
  lemma {:induction false} CommittedChunk(bs: seq<Block>, i: nat, s: nat)
    requires Inv(bs) && i < |bs| && Fits(bs[i], s) && s % WORD == 0
    ensures var r := Carve(bs, i, s);
      var c := r[i];
      c in r && c.addr == bs[i].addr && c.addr % WORD == 0 && End(c) <= HEAP_SIZE
  {
    CarveInv(bs, i, s);
    var r := Carve(bs, i, s);
    CoversOrdered(r, 0, HEAP_SIZE);
    AddrAligned(bs, i);
    assert r[i] == Split(bs[i], s)[0];
  }

  /**
   * heap_alloc succeeds exactly when the request is non-zero and some free
   * chunk can hold it rounded up; on failure nothing changes.  On success it
   * returns the word-aligned payload offset of a newly allocated chunk of at
   * least n bytes that lies inside the arena, keeps every other allocation,
   * and lowers the free byte count by what the new chunk occupies.
   */
  lemma {:induction false} AllocCorrect(bs: seq<Block>, n: nat)
    requires Inv(bs)
    ensures var r := Alloc(bs, n);
      (r.ptr.Some? <==> n > 0 && exists j :: 0 <= j < |bs| && Fits(bs[j], RoundUp(n))) &&
      (r.ptr.None? ==> r.layout == bs) &&
      (r.ptr.Some? ==>
         r.ptr.value % WORD == 0 &&
         exists c :: c in r.layout && c.addr + H == r.ptr.value && !c.free &&
           n <= c.size && End(c) <= HEAP_SIZE &&
           Allocated(r.layout) == Allocated(bs) + {c} &&
           Avail(r.layout) + c.size + H == Avail(bs))
  {
    if n > 0 && FirstFit(bs, RoundUp(n)).Some? {
      var s := RoundUp(n);
      var i := FirstFit(bs, s).value;
      CarveAccounting(bs, i, s);
      CommittedChunk(bs, i, s);
      var c := Carve(bs, i, s)[i];
      assert c.addr + H == Alloc(bs, n).ptr.value;
    }
  }

  /** Any request larger than the arena fails, whatever the layout. */
  lemma {:induction false} HugeRequestFails(bs: seq<Block>, n: nat)
    requires Tiles(bs) && n > HEAP_SIZE
    ensures Alloc(bs, n).ptr.None?
  {
    CoversOrdered(bs, 0, HEAP_SIZE);
  }

  // ---------------------------------------------------------------------
  // heap_free
  // ---------------------------------------------------------------------

  /**
   * The merged chunk's payload is the freed chunk's payload plus, per free
   * neighbour absorbed, that neighbour's header and payload.
   */
  lemma {:induction false} ReleaseShape(bs: seq<Block>, i: nat)
    requires i < |bs| && !bs[i].free
    ensures var lo, hi := Lo(bs, i), Hi(bs, i);
      Release(bs, i) == bs[..lo] + [Block(bs[lo].addr,
          (if lo < i then bs[i - 1].size + H else 0) + bs[i].size +
          (if hi > i + 1 then H + bs[i + 1].size else 0), true)] + bs[hi..]
  {
    var lo, hi := Lo(bs, i), Hi(bs, i);
    var left := bs[lo..i];
    var right := bs[i + 1..hi];
    assert bs[lo..hi] == left + [bs[i]] + right;
    SpanConcat(left + [bs[i]], right);
    SpanConcat(left, [bs[i]]);
    SpanOne(bs[i]);
    if lo < i {
      assert left == [bs[i - 1]];
      SpanOne(bs[i - 1]);
    }
    if hi > i + 1 {
      assert right == [bs[i + 1]];
      SpanOne(bs[i + 1]);
    }
  }

  lemma SpanOne(b: Block)
    ensures Span([b]) == b.size + H
  {
    assert [b][1..] == [];
  }

  /** The merged chunk sits at index Lo(bs, i) of the released layout. */
  lemma ReleasedChunk(bs: seq<Block>, i: nat)
    requires i < |bs| && !bs[i].free
    ensures var lo, hi := Lo(bs, i), Hi(bs, i);
      lo < |Release(bs, i)| &&
      Release(bs, i)[lo] == Block(bs[lo].addr,
          (if lo < i then bs[i - 1].size + H else 0) + bs[i].size +
          (if hi > i + 1 then H + bs[i + 1].size else 0), true)
  {
    ReleaseShape(bs, i);
  }

  /** Freeing a chunk whose two neighbours are free leaves one chunk for all three. */
  lemma {:induction false} CoalesceBoth(bs: seq<Block>, i: nat)
    requires 0 < i && i + 1 < |bs| && !bs[i].free && bs[i - 1].free && bs[i + 1].free
    ensures |Release(bs, i)| == |bs| - 2
    ensures Release(bs, i)[i - 1] ==
      Block(bs[i - 1].addr, bs[i - 1].size + bs[i].size + bs[i + 1].size + 2 * H, true)
  {
    ReleaseShape(bs, i);
  }

  /** A run of contiguous chunks occupies exactly the bytes between its ends. */
  lemma RunSpan(bs: seq<Block>, lo: nat, hi: nat)
    requires Contiguous(bs) && lo < hi <= |bs|
    ensures Span(bs[lo..hi]) == End(bs[hi - 1]) - bs[lo].addr
  {
    var run := bs[lo..hi];
    assert Covers(run, bs[lo].addr, End(bs[hi - 1])) by {
      forall j | 0 <= j < |run| - 1 ensures run[j + 1].addr == End(run[j]) {
        assert run[j] == bs[lo + j] && run[j + 1] == bs[lo + j + 1];
      }
    }
    CoversSpan(run, bs[lo].addr, End(bs[hi - 1]));
  }

  lemma RunAligned(bs: seq<Block>, lo: nat, hi: nat)
    requires Aligned(bs) && lo <= hi <= |bs|
    ensures Span(bs[lo..hi]) % WORD == 0
  {
    var run := bs[lo..hi];
    forall j | 0 <= j < |run| ensures run[j].size % WORD == 0 {
      assert run[j] == bs[lo + j];
    }
    SpanAligned(run);
  }

  /** The merged chunk covers exactly the bytes of the run it replaces. */
  lemma ReleaseTiles(bs: seq<Block>, i: nat)
    requires Tiles(bs) && i < |bs| && !bs[i].free
    ensures Tiles(Release(bs, i))
  {
    var lo, hi := Lo(bs, i), Hi(bs, i);
    var run := bs[lo..hi];
    RunSpan(bs, lo, hi);
    assert run[0] == bs[lo] && Span(run) >= H;
    var mb := Block(bs[lo].addr, Span(run) - H, true);
    assert End(mb) == End(bs[hi - 1]);
    assert Covers([mb], bs[lo].addr, End(bs[hi - 1])) by {
      assert Contiguous([mb]);
    }
    SpliceCovers(bs, 0, HEAP_SIZE, lo, hi, [mb]);
    assert Release(bs, i) == bs[..lo] + [mb] + bs[hi..];
  }

  /** The merged chunk has no free neighbour: the run took in every free one. */
  lemma ReleaseCoalesced(bs: seq<Block>, i: nat)
    requires Coalesced(bs) && i < |bs| && !bs[i].free
    ensures Coalesced(Release(bs, i))
  {
    var lo, hi := Lo(bs, i), Hi(bs, i);
    var mb := Block(bs[lo].addr, Span(bs[lo..hi]) - H, true);
    assert lo > 0 ==> !bs[lo - 1].free;
    assert hi < |bs| ==> !bs[hi].free;
    SpliceCoalesced(bs, lo, hi, [mb]);
  }

  /** heap_free keeps the layout invariant, coalescing included. */
  lemma {:induction false} ReleaseInv(bs: seq<Block>, i: nat)
    requires Inv(bs) && i < |bs|
    ensures Inv(Release(bs, i))
  {
    if !bs[i].free {
      var lo, hi := Lo(bs, i), Hi(bs, i);
      assert Tiles(Release(bs, i)) by {
        ReleaseTiles(bs, i);
      }
      assert Coalesced(Release(bs, i)) by {
        ReleaseCoalesced(bs, i);
      }
      assert Aligned(Release(bs, i)) by {
        var run := bs[lo..hi];
        RunAligned(bs, lo, hi);
        assert run[0] == bs[lo];
        AlignedLessHeader(Span(run));
        var mb := Block(bs[lo].addr, Span(run) - H, true);
        assert Aligned([mb]);
        SpliceAligned(bs, lo, hi, [mb]);
        assert Release(bs, i) == bs[..lo] + [mb] + bs[hi..];
      }
    }
  }

  lemma AlignedLessHeader(x: nat)
    requires x % WORD == 0 && x >= H
    ensures (x - H) % WORD == 0
  {
    assert x - H == WORD * (x / WORD - 2);
  }

  /** The run Release merges holds one allocated chunk, the one being freed. */
  lemma RunAccounting(bs: seq<Block>, i: nat)
    requires i < |bs| && !bs[i].free
    ensures var run := bs[Lo(bs, i)..Hi(bs, i)];
      Allocated(run) == {bs[i]} && Avail(run) + bs[i].size + H == Span(run)
  {
    var lo, hi := Lo(bs, i), Hi(bs, i);
    var left, right := bs[lo..i], bs[i + 1..hi];
    assert bs[lo..hi] == left + [bs[i]] + right;
    Parts(left, [bs[i]], right);
    SpanConcat(left + [bs[i]], right);
    SpanConcat(left, [bs[i]]);
    assert Allocated([bs[i]]) == {bs[i]} && Avail([bs[i]]) == 0;
    if lo < i {
      assert left == [bs[i - 1]];
    }
    if hi > i + 1 {
      assert right == [bs[i + 1]];
    }
  }

  /**
   * Releasing an allocated chunk removes exactly it from the allocated
   * chunks and adds exactly its bytes to the free byte count.
   */
  lemma {:induction false} ReleaseAccounting(bs: seq<Block>, i: nat)
    requires Ordered(bs) && i < |bs| && !bs[i].free
    ensures Allocated(Release(bs, i)) == Allocated(bs) - {bs[i]}
    ensures Avail(Release(bs, i)) == Avail(bs) + bs[i].size + H
  {
    var lo, hi := Lo(bs, i), Hi(bs, i);
    var x := bs[i];
    var pre, run, post := bs[..lo], bs[lo..hi], bs[hi..];
    var mb := Block(bs[lo].addr, Span(run) - H, true);
    assert bs == pre + run + post;
    assert Release(bs, i) == pre + [mb] + post;
    assert Allocated(Release(bs, i)) == Allocated(bs) - {x} by {
      Parts(pre, run, post);
      Parts(pre, [mb], post);
      RunAccounting(bs, i);
      assert Allocated([mb]) == {};
      FreedNotElsewhere(bs, i);
    }
    assert Avail(Release(bs, i)) == Avail(bs) + x.size + H by {
      Parts(pre, run, post);
      Parts(pre, [mb], post);
      RunAccounting(bs, i);
      assert Avail([mb]) == Span(run);
    }
  }

  /** The freed chunk occurs nowhere outside the merged run. */
  lemma FreedNotElsewhere(bs: seq<Block>, i: nat)
    requires Ordered(bs) && i < |bs| && !bs[i].free
    ensures bs[i] !in Allocated(bs[..Lo(bs, i)]) && bs[i] !in Allocated(bs[Hi(bs, i)..])
  {
    var lo, hi, x := Lo(bs, i), Hi(bs, i), bs[i];
    var pre, post := bs[..lo], bs[hi..];
    forall m | 0 <= m < |pre| ensures pre[m] != x {
      assert pre[m] == bs[m];
    }
    forall m | 0 <= m < |post| ensures post[m] != x {
      assert post[m] == bs[hi + m];
    }
    AllocatedMembers(pre);
    AllocatedMembers(post);
  }

  /**
   * heap_free: a NULL pointer and the payload of a chunk already free leave
   * the layout as it is; freeing an allocated chunk removes exactly that
   * allocation, returns its bytes to the free count, and leaves every other
   * allocation where it was.
   */
  lemma {:induction false} FreeCorrect(bs: seq<Block>, ptr: Option<nat>)
    requires Inv(bs) && (ptr.Some? ==> IsPayload(bs, ptr.value))
    ensures Inv(Free(bs, ptr))
    ensures ptr.None? ==> Free(bs, ptr) == bs
    ensures ptr.Some? ==> var i := IndexOf(bs, ptr.value - H);
      i < |bs| &&
      (bs[i].free ==> Free(bs, ptr) == bs) &&
      (!bs[i].free ==> Allocated(Free(bs, ptr)) == Allocated(bs) - {bs[i]} &&
                       Avail(Free(bs, ptr)) == Avail(bs) + bs[i].size + H)
  {
    if ptr.Some? {
      var i := IndexOf(bs, ptr.value - H);
      ReleaseInv(bs, i);
      if !bs[i].free {
        CoversOrdered(bs, 0, HEAP_SIZE);
        ReleaseAccounting(bs, i);
      }
    }
  }

  // ---------------------------------------------------------------------
  // Freeing every outstanding allocation
  // ---------------------------------------------------------------------

  /** The payload offsets of a set of chunks. */
  function Payloads(s: set<Block>): set<nat> {
    set b | b in s :: b.addr + H
  }

  predicate Distinct(ps: seq<nat>) {
    forall j, k :: 0 <= j < k < |ps| ==> ps[j] != ps[k]
  }

  lemma NoPayloads(s: set<Block>)
    requires Payloads(s) == {}
    ensures s == {}
  {
    if s != {} {
      var b :| b in s;
      PayloadMember(s, b);
      assert false;
    }
  }

  lemma PayloadMember(s: set<Block>, b: Block)
    requires b in s
    ensures b.addr + H in Payloads(s)
  {
  }

  /** Distinct chunks of an ordered layout start at distinct offsets. */
  lemma UniqueAddr(bs: seq<Block>, i: nat, j: nat)
    requires Ordered(bs) && i < |bs| && j < |bs|
    ensures i != j ==> bs[i].addr != bs[j].addr
  {
  }

  /** The payload of an allocated chunk locates that chunk. */
  lemma PayloadChunk(bs: seq<Block>, p: nat)
    requires Ordered(bs) && p in Payloads(Allocated(bs))
    ensures IsPayload(bs, p)
    ensures IndexOf(bs, p - H) < |bs| && !bs[IndexOf(bs, p - H)].free
  {
    AllocatedMembers(bs);
    var b :| b in Allocated(bs) && b.addr + H == p;
    var j :| 0 <= j < |bs| && bs[j] == b;
    var i := IndexOf(bs, p - H);
    UniqueAddr(bs, i, j);
  }

  /** Dropping one chunk drops exactly its payload offset. */
  lemma PayloadsRemove(bs: seq<Block>, i: nat)
    requires Ordered(bs) && i < |bs|
    ensures Payloads(Allocated(bs) - {bs[i]}) == Payloads(Allocated(bs)) - {bs[i].addr + H}
  {
    AllocatedMembers(bs);
    forall q | q in Payloads(Allocated(bs)) - {bs[i].addr + H}
      ensures q in Payloads(Allocated(bs) - {bs[i]})
    {
      var c :| c in Allocated(bs) && c.addr + H == q;
      assert c != bs[i];
    }
    forall q | q in Payloads(Allocated(bs) - {bs[i]})
      ensures q != bs[i].addr + H
    {
      var c :| c in Allocated(bs) - {bs[i]} && c.addr + H == q;
      var j :| 0 <= j < |bs| && bs[j] == c;
      UniqueAddr(bs, i, j);
    }
  }

  /** Releasing an allocated chunk takes exactly its payload off the outstanding payloads. */
  lemma PayloadFreed(bs: seq<Block>, p: nat)
    requires Ordered(bs) && IsPayload(bs, p)
    requires var i := IndexOf(bs, p - H); i < |bs| && !bs[i].free
    ensures Payloads(Allocated(Free(bs, Some(p)))) == Payloads(Allocated(bs)) - {p}
  {
    var i := IndexOf(bs, p - H);
    assert Allocated(Free(bs, Some(p))) == Allocated(bs) - {bs[i]} by {
      ReleaseAccounting(bs, i);
    }
    PayloadsRemove(bs, i);
  }

  /** Freeing one outstanding payload leaves the others outstanding. */
  lemma {:induction false} FreeStep(bs: seq<Block>, ps: seq<nat>)
    requires Inv(bs) && Distinct(ps) && ps != []
    requires forall j :: 0 <= j < |ps| ==> ps[j] in Payloads(Allocated(bs))
    ensures IsPayload(bs, ps[0])
    ensures Inv(Free(bs, Some(ps[0])))
    ensures Distinct(ps[1..])
    ensures Payloads(Allocated(Free(bs, Some(ps[0])))) == Payloads(Allocated(bs)) - {ps[0]}
    ensures forall j :: 0 <= j < |ps| - 1 ==> ps[1..][j] in Payloads(Allocated(Free(bs, Some(ps[0]))))
  {
    var p := ps[0];
    CoversOrdered(bs, 0, HEAP_SIZE);
    PayloadChunk(bs, p);
    var nb := Free(bs, Some(p));
    assert Inv(nb) by {
      FreeCorrect(bs, Some(p));
    }
    PayloadFreed(bs, p);
    RestOutstanding(ps, Payloads(Allocated(bs)), Payloads(Allocated(nb)));
  }

  /** Taking the first of distinct outstanding values off the outstanding set leaves the rest in it. */
  lemma RestOutstanding(ps: seq<nat>, s: set<nat>, t: set<nat>)
    requires Distinct(ps) && ps != [] && (forall j :: 0 <= j < |ps| ==> ps[j] in s) && t == s - {ps[0]}
    ensures Distinct(ps[1..]) && forall j :: 0 <= j < |ps| - 1 ==> ps[1..][j] in t
  {
    forall j | 0 <= j < |ps| - 1
      ensures ps[1..][j] in t
    {
      assert ps[1..][j] == ps[j + 1] != ps[0];
    }
  }

  /** The layout after freeing the payloads ps one after another. */
  ghost function FreeEach(bs: seq<Block>, ps: seq<nat>): seq<Block>
    requires Inv(bs) && Distinct(ps)
    requires forall j :: 0 <= j < |ps| ==> ps[j] in Payloads(Allocated(bs))
    decreases |ps|
  {
    if ps == [] then bs
    else
      FreeStep(bs, ps);
      FreeEach(Free(bs, Some(ps[0])), ps[1..])
  }

  /**
   * Freeing every outstanding allocation, in any order, restores the layout
   * heap_init laid down, with all of the arena available again.
   */
  lemma {:induction false} FreeAllRestores(bs: seq<Block>, ps: seq<nat>)
    requires Inv(bs) && Distinct(ps)
    requires forall j :: 0 <= j < |ps| ==> ps[j] in Payloads(Allocated(bs))
    requires forall p :: p in Payloads(Allocated(bs)) ==> p in ps
    ensures FreeEach(bs, ps) == Initial()
    ensures Avail(FreeEach(bs, ps)) == HEAP_SIZE
    decreases |ps|
  {
    if ps == [] {
      assert Payloads(Allocated(bs)) == {};
      NoPayloads(Allocated(bs));
      AllFreeIsInitial(bs);
    } else {
      FreeStep(bs, ps);
      var next := Free(bs, Some(ps[0]));
      forall p | p in Payloads(Allocated(next)) ensures p in ps[1..] {
        var j :| 0 <= j < |ps| && ps[j] == p;
        assert ps[1..][j - 1] == p;
      }
      FreeAllRestores(next, ps[1..]);
    }
  }

  // ---------------------------------------------------------------------
  // The demonstration sequence of my_heap.c
  // ---------------------------------------------------------------------

  // The chunks of the driver's sequence: A, B, C and D as allocated.
  const CHUNK_A := Block(0, 104, false)
  const CHUNK_B := Block(120, 504, false)
  const CHUNK_C := Block(640, 200, false)
  const CHUNK_D := Block(0, 600, false)

  /** A(100) is rounded to 104 bytes and split off the front of the arena. */
  lemma DriverAllocA()
    ensures Alloc(Initial(), 100) == AllocResult([CHUNK_A, Block(120, 3960, true)], Some(16))
  {
    assert Initial()[1..] == [];
    assert FirstFit(Initial(), 104) == Some(0);
  }

  /** B(500) is rounded to 504 bytes and split off the tail chunk. */
  lemma DriverAllocB()
    ensures Alloc([CHUNK_A, Block(120, 3960, true)], 500) ==
      AllocResult([CHUNK_A, CHUNK_B, Block(640, 3440, true)], Some(136))
  {
    var t := [CHUNK_A, Block(120, 3960, true)];
    assert t[1..][1..] == [];
    assert FirstFit(t, 504) == Some(1);
    assert Carve(t, 1, 504) == [CHUNK_A, CHUNK_B, Block(640, 3440, true)];
  }

  /** C(200) is split off the tail chunk too. */
  lemma DriverAllocC()
    ensures Alloc([CHUNK_A, CHUNK_B, Block(640, 3440, true)], 200) ==
      AllocResult([CHUNK_A, CHUNK_B, CHUNK_C, Block(856, 3224, true)], Some(656))
  {
    var t := [CHUNK_A, CHUNK_B, Block(640, 3440, true)];
    assert t[1..][1..] == t[2..] && FirstFit(t[2..], 200) == Some(0);
    assert FirstFit(t[1..], 200) == Some(1);
    assert FirstFit(t, 200) == Some(2);
    assert Carve(t, 2, 200) == [CHUNK_A, CHUNK_B, CHUNK_C, Block(856, 3224, true)];
  }

  /** Freeing B, between the allocated A and C, leaves an isolated hole. */
  lemma DriverFreeB()
    ensures var t := [CHUNK_A, CHUNK_B, CHUNK_C, Block(856, 3224, true)];
      IsPayload(t, 136) &&
      Free(t, Some(136)) == [CHUNK_A, Block(120, 504, true), CHUNK_C, Block(856, 3224, true)]
  {
    var t := [CHUNK_A, CHUNK_B, CHUNK_C, Block(856, 3224, true)];
    assert t[1].addr + H == 136;
    assert IndexOf(t, 120) == 1;
    assert t[1..2] == [CHUNK_B] && [CHUNK_B][1..] == [] && Span([CHUNK_B]) == 504 + H;
    assert Release(t, 1) == t[..1] + [Block(120, 504, true)] + t[2..];
  }

  /** Freeing A merges it with the hole B left, at A's address. */
  lemma DriverFreeA()
    ensures var t := [CHUNK_A, Block(120, 504, true), CHUNK_C, Block(856, 3224, true)];
      IsPayload(t, 16) &&
      Free(t, Some(16)) == [Block(0, 104 + H + 504, true), CHUNK_C, Block(856, 3224, true)]
  {
    var t := [CHUNK_A, Block(120, 504, true), CHUNK_C, Block(856, 3224, true)];
    assert t[0].addr + H == 16;
    assert [t[1]][1..] == [] && Span([t[1]]) == 504 + H && [CHUNK_A, t[1]][1..] == [t[1]];
    assert t[0..2] == [CHUNK_A, t[1]] && Span(t[0..2]) == 104 + H + 504 + H;
  }

  /** D(600) is placed in the merged chunk, at A's old address, and split. */
  lemma DriverAllocD()
    ensures Alloc([Block(0, 104 + H + 504, true), CHUNK_C, Block(856, 3224, true)], 600) ==
      AllocResult([CHUNK_D, Block(616, 8, true), CHUNK_C, Block(856, 3224, true)], Some(16))
  {
    var t := [Block(0, 104 + H + 504, true), CHUNK_C, Block(856, 3224, true)];
    assert FirstFit(t, 600) == Some(0);
    assert Carve(t, 0, 600) == [CHUNK_D, Block(616, 8, true), CHUNK_C, Block(856, 3224, true)];
  }

  /** Freeing C merges it with both of its free neighbours. */
  lemma DriverFreeC()
    ensures var t := [CHUNK_D, Block(616, 8, true), CHUNK_C, Block(856, 3224, true)];
      IsPayload(t, 656) &&
      Free(t, Some(656)) == [CHUNK_D, Block(616, 8 + H + 200 + H + 3224, true)]
  {
    var t := [CHUNK_D, Block(616, 8, true), CHUNK_C, Block(856, 3224, true)];
    assert t[2].addr + H == 656;
    assert IndexOf(t, 640) == 2;
    assert [t[3]][1..] == [] && Span([t[3]]) == 3224 + H;
    assert [CHUNK_C, t[3]][1..] == [t[3]] && Span([CHUNK_C, t[3]]) == 200 + H + 3224 + H;
    assert [t[1], CHUNK_C, t[3]][1..] == [CHUNK_C, t[3]];
    assert t[1..4] == [t[1], CHUNK_C, t[3]];
  }

  /** Freeing D merges it with the rest of the arena. */
  lemma DriverFreeD()
    ensures var t := [CHUNK_D, Block(616, 8 + H + 200 + H + 3224, true)];
      IsPayload(t, 16) && Free(t, Some(16)) == Initial()
  {
    var t := [CHUNK_D, Block(616, 8 + H + 200 + H + 3224, true)];
    assert t[0].addr + H == 16;
    assert [t[1]][1..] == [] && Span([t[1]]) == 3464 + H && [CHUNK_D, t[1]][1..] == [t[1]];
    assert t[0..2] == [CHUNK_D, t[1]] && Span(t[0..2]) == 600 + H + 3464 + H;
  }

  /**
   * The driver's sequence: A(100), B(500) and C(200) are carved in turn from
   * the tail chunk; freeing B leaves a hole between A and C; freeing A merges
   * it with that hole into one chunk of 104 + H + 504 bytes; D(600) is placed
   * in that chunk, at A's old address; freeing C and then D gives back the
   * single free chunk of heap_init, with all 4096 bytes available.
   */
  lemma DriverScenario()
    ensures var s1 := Alloc(Initial(), 100);
      var s2 := Alloc(s1.layout, 500);
      var s3 := Alloc(s2.layout, 200);
      s1.ptr == Some(16) && s2.ptr == Some(136) && s3.ptr == Some(656) &&
      IsPayload(s3.layout, 136) &&
      var s4 := Free(s3.layout, Some(136));
      IsPayload(s4, 16) &&
      var s5 := Free(s4, Some(16));
      s5 == [Block(0, 104 + H + 504, true), CHUNK_C, Block(856, 3224, true)] &&
      var s6 := Alloc(s5, 600);
      s6.ptr == s1.ptr && IsPayload(s6.layout, 656) &&
      var s7 := Free(s6.layout, Some(656));
      IsPayload(s7, 16) &&
      var s8 := Free(s7, Some(16));
      s8 == Initial() && Avail(s8) == HEAP_SIZE
  {
    DriverAllocA();
    DriverAllocB();
    DriverAllocC();
    DriverFreeB();
    DriverFreeA();
    DriverAllocD();
    DriverFreeC();
    DriverFreeD();
  }

  // ---------------------------------------------------------------------
  // The rounding step as written, with uint32_t arithmetic
  // ---------------------------------------------------------------------

  /** Line 48's rounding with the wrap-around of a uint32_t addition. */
  function RoundUpAsWritten(n: nat): (r: nat)
    requires n < 0x1_0000_0000
    ensures r < 0x1_0000_0000 && r % WORD == 0
  {
    if n % WORD != 0 then (n + WORD - n % WORD) % 0x1_0000_0000 else n
  }

  /**
   * The largest uint32_t request rounds to 0, so the search accepts the first
   * free chunk and the caller gets a pointer to a zero-byte payload.
   */
  lemma RoundUpAsWrittenWraps()
    ensures RoundUpAsWritten(0xFFFF_FFFF) == 0
    ensures FirstFit(Initial(), RoundUpAsWritten(0xFFFF_FFFF)) == Some(0)
    ensures Carve(Initial(), 0, RoundUpAsWritten(0xFFFF_FFFF))[0] == Block(0, 0, false)
  {
    assert Initial()[1..] == [];
  }
}
