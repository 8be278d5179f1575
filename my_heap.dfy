/**
 * The allocator of my_heap.c as it runs: chunk headers stored at their
 * offsets in the arena, the `avail` counter and the head of the intrusive,
 * singly-linked free list, all updated in place by heap_init, heap_alloc and
 * heap_free.  The ghost field `blocks` is the physical layout (module
 * Layout) that the headers describe; Valid() ties the two together, and each
 * operation is proved to change `blocks` as the matching Layout function says.
 */
module MyHeap {
  import opened Layout

  /** struct chunk: the header at the start of every chunk. */
  datatype Chunk = Chunk(size: nat, free: bool, nextFree: Option<nat>)

  /** Every chunk of the layout has its header, with its size and state, at its offset. */
  predicate HeadersMatch(hdr: map<nat, Chunk>, bs: seq<Block>) {
    forall b :: b in bs ==> b.addr in hdr && hdr[b.addr].size == b.size && hdr[b.addr].free == b.free
  }

  /** The link due after position j - 1 of the list fl: its j-th chunk, or NULL. */
  function Link(fl: seq<Block>, j: nat): Option<nat> {
    if j < |fl| then Some(fl[j].addr) else None
  }

  /** head and the next_free fields thread exactly the chunks fl, in order, ending in NULL. */
  predicate Threads(hdr: map<nat, Chunk>, head: Option<nat>, fl: seq<Block>) {
    head == Link(fl, 0) &&
    (forall j :: 0 <= j < |fl| ==> fl[j].addr in hdr) &&
    forall j {:trigger hdr[fl[j].addr]} :: 0 <= j < |fl| ==> hdr[fl[j].addr].nextFree == Link(fl, j + 1)
  }

  /**
   * The headers, the avail counter and the free-list head describe the
   * layout bs: it keeps the layout invariant, avail counts its free bytes,
   * every chunk has its header, and the list threads its free chunks.
   */
  ghost predicate Consistent(hdr: map<nat, Chunk>, avail: nat, head: Option<nat>, bs: seq<Block>) {
    Inv(bs) && avail == Avail(bs) && HeadersMatch(hdr, bs) && Threads(hdr, head, FreeList(bs))
  }

  /**
   * heap_free's walk has stopped for the chunk b, layout index i, at the k-th
   * slot of the free list: after exactly the free chunks below b, with prev
   * the node before that slot and current the node at it.
   */
  ghost predicate WalkedTo(bs: seq<Block>, i: nat, k: nat, b: nat, prev: Option<nat>, current: Option<nat>) {
    var fl := FreeList(bs);
    i < |bs| && b == bs[i].addr &&
    k == |FreeList(bs[..i])| && fl == FreeList(bs[..i]) + FreeList(bs[i + 1..]) &&
    (forall j :: 0 <= j < k ==> fl[j].addr < b) && (k < |fl| ==> fl[k].addr > b) &&
    prev == (if k == 0 then None else Some(fl[k - 1].addr)) && current == Link(fl, k)
  }

  // ---------------------------------------------------------------------
  // What the free-list walks find
  // ---------------------------------------------------------------------

  /** The k-th node of the free list is a chunk of the layout, with the k nodes before it below it. */
  lemma {:induction false} FreeAt(bs: seq<Block>, k: nat) returns (i: nat)
    requires k < |FreeList(bs)|
    ensures i < |bs| && bs[i] == FreeList(bs)[k] && bs[i].free
    ensures FreeList(bs[..i]) == FreeList(bs)[..k]
    ensures FreeList(bs[i + 1..]) == FreeList(bs)[k + 1..]
  {
    var t := bs[1..];
    assert bs == [bs[0]] + t;
    if bs[0].free && k == 0 {
      i := 0;
      assert bs[i + 1..] == t;
    } else {
      var k' := if bs[0].free then k - 1 else k;
      var i' := FreeAt(t, k');
      i := i' + 1;
      assert bs[..i] == [bs[0]] + t[..i'];
      assert bs[i + 1..] == t[i' + 1..];
      FreeListConcat([bs[0]], t[..i']);
      FreeListConcat([bs[0]], t);
    }
  }

  /**
   * When the walk has passed k free-list nodes, all too small, and these are
   * the free chunks below chunk i, then no chunk below i fits; so i is the
   * first fit when it fits, and nothing fits when i is the end.
   */
  lemma FirstFitAt(bs: seq<Block>, s: nat, k: nat, i: nat)
    requires i <= |bs| && k <= |FreeList(bs)|
    requires FreeList(bs[..i]) == FreeList(bs)[..k]
    requires forall j :: 0 <= j < k ==> FreeList(bs)[j].size < s
    ensures i < |bs| && Fits(bs[i], s) ==> FirstFit(bs, s) == Some(i)
    ensures i == |bs| ==> FirstFit(bs, s) == None
  {
    var fl := FreeList(bs);
    FreeListMembers(bs[..i]);
    forall m | 0 <= m < i ensures !Fits(bs[m], s) {
      if bs[m].free {
        assert bs[m] == bs[..i][m];
        assert bs[m] in fl[..k];
        var j :| 0 <= j < k && fl[..k][j] == bs[m];
        assert fl[j] == bs[m];
      }
    }
  }

  /**
   * heap_alloc's search has stopped at chunk i, the k-th node of the free
   * list: the first fit, with the free chunks below it before it in the list
   * and those above it after it.
   */
  ghost predicate FoundAt(bs: seq<Block>, size: nat, i: nat, k: nat) {
    k < |FreeList(bs)| && i < |bs| && FreeList(bs)[k] == bs[i] && FirstFit(bs, size) == Some(i) &&
    FreeList(bs[..i]) == FreeList(bs)[..k] && FreeList(bs[i + 1..]) == FreeList(bs)[k + 1..]
  }

  /**
   * One step of heap_alloc's search, at the k-th node when all nodes before
   * it were too small: the node's header gives its size and successor, and
   * when it is large enough it is the first fit, chunk i.
   */
  lemma SearchStep(hdr: map<nat, Chunk>, av: nat, head: Option<nat>, bs: seq<Block>, size: nat, k: nat)
    returns (i: nat)
    requires Consistent(hdr, av, head, bs)
    requires k < |FreeList(bs)| && forall j :: 0 <= j < k ==> FreeList(bs)[j].size < size
    ensures FreeList(bs)[k].addr in hdr
    ensures hdr[FreeList(bs)[k].addr].size == FreeList(bs)[k].size
    ensures hdr[FreeList(bs)[k].addr].nextFree == Link(FreeList(bs), k + 1)
    ensures hdr[FreeList(bs)[k].addr].size >= size ==> FoundAt(bs, size, i, k)
    ensures hdr[FreeList(bs)[k].addr].size < size ==> forall j :: 0 <= j < k + 1 ==> FreeList(bs)[j].size < size
  {
    i := FreeAt(bs, k);
    ChosenHeader(hdr, head, bs, i, k);
    if bs[i].size >= size {
      FirstFitAt(bs, size, k, i);
    }
  }

  /** When the search has passed every free-list node, all too small, nothing fits. */
  lemma SearchExhausted(bs: seq<Block>, size: nat, k: nat)
    requires k == |FreeList(bs)| && forall j :: 0 <= j < k ==> FreeList(bs)[j].size < size
    ensures FirstFit(bs, size) == None
  {
    assert FreeList(bs)[..k] == FreeList(bs) && bs[..|bs|] == bs;
    FirstFitAt(bs, size, k, |bs|);
  }

  /**
   * heap_free's walk stops at the first node at or above the freed chunk i:
   * after exactly the free chunks below it, which are followed in the list
   * by exactly the free chunks above it.
   */
  lemma FreeSlot(bs: seq<Block>, i: nat, k: nat)
    requires Ordered(bs) && i < |bs| && !bs[i].free
    requires k <= |FreeList(bs)|
    requires forall j :: 0 <= j < k ==> FreeList(bs)[j].addr < bs[i].addr
    requires k < |FreeList(bs)| ==> FreeList(bs)[k].addr >= bs[i].addr
    ensures k == |FreeList(bs[..i])|
    ensures FreeList(bs) == FreeList(bs[..i]) + FreeList(bs[i + 1..])
    ensures k < |FreeList(bs)| ==> FreeList(bs)[k].addr > bs[i].addr
  {
    var p, q := FreeList(bs[..i]), FreeList(bs[i + 1..]);
    assert bs == bs[..i] + ([bs[i]] + bs[i + 1..]);
    FreeListConcat(bs[..i], [bs[i]] + bs[i + 1..]);
    FreeListConcat([bs[i]], bs[i + 1..]);
    var fl := FreeList(bs);
    assert fl == p + q;
    forall j | 0 <= j < |p| ensures fl[j].addr < bs[i].addr {
      assert fl[j] == p[j] && p[j] in p;
      FreeListMembers(bs[..i]);
      Around(bs, i);
    }
    if |fl| > |p| {
      assert fl[|p|] == q[0] && q[0] in q;
      FreeListMembers(bs[i + 1..]);
      Around(bs, i);
      assert fl[|p|].addr > bs[i].addr;
    }
  }

  /** The walk passes node k when it lies below b, so the first k + 1 nodes lie below b. */
  lemma BelowExtends(fl: seq<Block>, k: nat, b: nat)
    requires k < |fl| && (forall j :: 0 <= j < k ==> fl[j].addr < b)
    ensures fl[k].addr < b ==> forall j :: 0 <= j < k + 1 ==> fl[j].addr < b
  {
  }

  /** Where heap_free's walk leaves prev and current when it stops short of the freed chunk i. */
  lemma WalkStops(bs: seq<Block>, i: nat, k: nat, prev: Option<nat>, current: Option<nat>)
    requires Tiles(bs) && i < |bs| && !bs[i].free
    requires k <= |FreeList(bs)| && current == Link(FreeList(bs), k)
    requires prev == if k == 0 then None else Some(FreeList(bs)[k - 1].addr)
    requires forall j :: 0 <= j < k ==> FreeList(bs)[j].addr < bs[i].addr
    requires !(current.Some? && current.value < bs[i].addr)
    ensures WalkedTo(bs, i, k, bs[i].addr, prev, current)
  {
    CoversOrdered(bs, 0, HEAP_SIZE);
    FreeSlot(bs, i, k);
  }

  /** The last free chunk below i ends where i starts exactly when i's left neighbour is free. */
  lemma LeftNeighbour(bs: seq<Block>, i: nat)
    requires Tiles(bs) && i < |bs|
    ensures var p := FreeList(bs[..i]);
      (p != [] && End(p[|p| - 1]) == bs[i].addr) <==> (i > 0 && bs[i - 1].free)
    ensures var p := FreeList(bs[..i]);
      i > 0 && bs[i - 1].free ==> p != [] && p[|p| - 1] == bs[i - 1] && FreeList(bs[..i - 1]) == p[..|p| - 1]
  {
    if i > 0 {
      var p := FreeList(bs[..i]);
      assert bs[..i] == bs[..i - 1] + [bs[i - 1]];
      FreeListConcat(bs[..i - 1], [bs[i - 1]]);
      if !bs[i - 1].free && p != [] {
        CoversOrdered(bs, 0, HEAP_SIZE);
        Around(bs, i - 1);
        FreeListMembers(bs[..i - 1]);
        assert p[|p| - 1] in FreeList(bs[..i - 1]);
      }
    }
  }

  /** The first free chunk above i starts where i ends exactly when i's right neighbour is free. */
  lemma RightNeighbour(bs: seq<Block>, i: nat)
    requires Tiles(bs) && i < |bs|
    ensures var q := FreeList(bs[i + 1..]);
      (q != [] && q[0].addr == End(bs[i])) <==> (i + 1 < |bs| && bs[i + 1].free)
    ensures var q := FreeList(bs[i + 1..]);
      i + 1 < |bs| && bs[i + 1].free ==> q != [] && q[0] == bs[i + 1] && FreeList(bs[i + 2..]) == q[1..]
  {
    if i + 1 < |bs| {
      var q := FreeList(bs[i + 1..]);
      assert bs[i + 1..] == [bs[i + 1]] + bs[i + 2..];
      FreeListConcat([bs[i + 1]], bs[i + 2..]);
      if !bs[i + 1].free && q != [] {
        CoversOrdered(bs, 0, HEAP_SIZE);
        Around(bs, i + 1);
        FreeListMembers(bs[i + 2..]);
        assert q[0] in FreeList(bs[i + 2..]);
      }
    }
  }

  /**
   * Rewriting the headers of the chunks bs[lo..hi] as the chunks m, and no
   * header outside the range those chunks occupy, leaves the headers matching
   * the spliced layout.
   */
  lemma HeadersSplice(hdr: map<nat, Chunk>, hdr': map<nat, Chunk>, bs: seq<Block>, lo: nat, hi: nat, m: seq<Block>)
    requires Ordered(bs) && lo < hi <= |bs| && HeadersMatch(hdr, bs) && HeadersMatch(hdr', m)
    requires forall a :: a in hdr && !(bs[lo].addr <= a < End(bs[hi - 1])) ==>
      a in hdr' && hdr'[a].size == hdr[a].size && hdr'[a].free == hdr[a].free
    ensures HeadersMatch(hdr', bs[..lo] + m + bs[hi..])
  {
    Around(bs, lo);
    Around(bs, hi - 1);
    forall b | b in bs[..lo] + m + bs[hi..]
      ensures b.addr in hdr' && hdr'[b.addr].size == b.size && hdr'[b.addr].free == b.free
    {
      if b in bs[..lo] {
        assert b in bs;
      } else if b in bs[hi..] {
        assert b in bs;
        assert bs[hi..] == bs[hi - 1 + 1..];
      }
    }
  }

  /** Outside the window kl..kr and the node before it, the merge step leaves every link as it was. */
  lemma FreeOthersKeepLinks(h0: map<nat, Chunk>, h1: map<nat, Chunk>, fl: seq<Block>, k: nat, kl: nat, kr: nat, b: nat)
    requires k <= |fl| && (forall j :: 0 <= j < |fl| ==> fl[j].addr in h0)
    requires kl == k || (kl == k - 1 && k > 0)
    requires kr == k || (kr == k + 1 && k < |fl|)
    requires (k > 0 ==> Apart(fl, k - 1)) && (k < |fl| ==> Apart(fl, k))
    requires (forall j :: 0 <= j < k ==> fl[j].addr < b) && (k < |fl| ==> fl[k].addr > b)
    requires forall a :: a in h0 && a != b && (k > 0 ==> a != fl[k - 1].addr) ==>
      a in h1 && h1[a].nextFree == h0[a].nextFree
    ensures forall j :: 0 <= j < |fl| && (j + 1 < kl || kr <= j) ==>
      fl[j].addr in h1 && h1[fl[j].addr].nextFree == h0[fl[j].addr].nextFree
  {
    forall j | 0 <= j < |fl| && (j + 1 < kl || kr <= j)
      ensures fl[j].addr in h1 && h1[fl[j].addr].nextFree == h0[fl[j].addr].nextFree
    {
      var a := fl[j].addr;
      if j < k {
        assert a < b;
        assert End(fl[j]) <= fl[k - 1].addr;
      } else {
        if j > k {
          assert End(fl[k]) <= a;
        }
        assert a > b;
        if k > 0 {
          assert End(fl[k - 1]) <= a;
        }
      }
      assert a in h0 && a != b && (k > 0 ==> a != fl[k - 1].addr);
    }
  }

  /**
   * Relinking: replacing the nodes fl[lo..hi] by at most one node y keeps the
   * list threaded when the node before the window, or the head, now leads to
   * y (or past the window), y leads past the window, and no other node's
   * link changed.
   */
  lemma ThreadsSplice(hdr: map<nat, Chunk>, head: Option<nat>, fl: seq<Block>, lo: nat, hi: nat,
                      y: seq<Block>, hdr': map<nat, Chunk>, head': Option<nat>)
    requires Threads(hdr, head, fl) && lo <= hi <= |fl| && |y| <= 1
    requires forall j :: 0 <= j < |fl| && (j + 1 < lo || hi <= j) ==>
      fl[j].addr in hdr' && hdr'[fl[j].addr].nextFree == hdr[fl[j].addr].nextFree
    requires var succ := if y == [] then Link(fl, hi) else Some(y[0].addr);
      (lo > 0 ==> fl[lo - 1].addr in hdr' && hdr'[fl[lo - 1].addr].nextFree == succ) &&
      head' == if lo == 0 then succ else head
    requires y != [] ==> y[0].addr in hdr' && hdr'[y[0].addr].nextFree == Link(fl, hi)
    ensures Threads(hdr', head', fl[..lo] + y + fl[hi..])
  {
    var r := fl[..lo] + y + fl[hi..];
    var succ := if y == [] then Link(fl, hi) else Some(y[0].addr);
    var m := lo + |y|;
    assert r[m..] == fl[hi..] && r[..lo] == fl[..lo];
    assert Link(r, lo) == succ by {
      if y == [] && hi < |fl| {
        assert r[lo] == fl[hi];
      }
    }
    if lo > 0 {
      assert Link(r, 0) == Link(fl, 0);
      assert r[lo - 1] == fl[lo - 1];
      assert LinkedAt(hdr', r, lo - 1);
      ThreadsKeptPrefix(hdr, head, fl, lo, r, hdr');
    }
    if y != [] {
      assert r[lo] == y[0];
      assert Link(r, lo + 1) == Link(fl, hi) by {
        if hi < |fl| {
          assert r[m] == fl[hi];
        }
      }
      assert LinkedAt(hdr', r, lo);
    }
    ThreadsKeptSuffix(hdr, head, fl, hi, r, m, hdr');
    forall j | 0 <= j < |r| ensures LinkedAt(hdr', r, j) {
      if j + 1 < lo {
      } else if j + 1 == lo {
      } else if j < m {
        assert j == lo;
      } else {
      }
    }
    ThreadsFromLinks(hdr', head', r);
  }

  /** Position j of r is linked in hdr to the chunk after it, or to NULL at the end. */
  ghost predicate LinkedAt(hdr: map<nat, Chunk>, r: seq<Block>, j: nat) {
    j < |r| && r[j].addr in hdr && hdr[r[j].addr].nextFree == Link(r, j + 1)
  }

  lemma ThreadsFromLinks(hdr: map<nat, Chunk>, head: Option<nat>, r: seq<Block>)
    requires head == Link(r, 0) && forall j :: 0 <= j < |r| ==> LinkedAt(hdr, r, j)
    ensures Threads(hdr, head, r)
  {
    forall j | 0 <= j < |r| ensures r[j].addr in hdr && hdr[r[j].addr].nextFree == Link(r, j + 1) {
      assert LinkedAt(hdr, r, j);
    }
  }

  /** Links kept from fl among its first n chunks stay links in r, which starts with those chunks. */
  lemma ThreadsKeptPrefix(hdr: map<nat, Chunk>, head: Option<nat>, fl: seq<Block>, n: nat,
                          r: seq<Block>, hdr': map<nat, Chunk>)
    requires Threads(hdr, head, fl) && 0 < n <= |fl| && n <= |r| && r[..n] == fl[..n]
    requires forall j :: 0 <= j < |fl| && j + 1 < n ==>
      fl[j].addr in hdr' && hdr'[fl[j].addr].nextFree == hdr[fl[j].addr].nextFree
    ensures forall j :: 0 <= j < n - 1 ==> LinkedAt(hdr', r, j)
  {
    forall j | 0 <= j < n - 1 ensures LinkedAt(hdr', r, j) {
      assert r[j] == r[..n][j] == fl[..n][j] == fl[j];
      assert r[j + 1] == r[..n][j + 1] == fl[..n][j + 1] == fl[j + 1];
      assert hdr[fl[j].addr].nextFree == Link(fl, j + 1);
    }
  }

  /** Links kept from fl past position hi stay links in r, which ends with those chunks from m on. */
  lemma ThreadsKeptSuffix(hdr: map<nat, Chunk>, head: Option<nat>, fl: seq<Block>, hi: nat,
                          r: seq<Block>, m: nat, hdr': map<nat, Chunk>)
    requires Threads(hdr, head, fl) && hi <= |fl| && m <= |r| && r[m..] == fl[hi..]
    requires forall j :: 0 <= j < |fl| && hi <= j ==>
      fl[j].addr in hdr' && hdr'[fl[j].addr].nextFree == hdr[fl[j].addr].nextFree
    ensures forall j :: m <= j < |r| ==> LinkedAt(hdr', r, j)
  {
    forall j | m <= j < |r| ensures LinkedAt(hdr', r, j) {
      var t := j - m;
      assert r[j] == r[m..][t] == fl[hi..][t] == fl[hi + t];
      if j + 1 < |r| {
        assert r[j + 1] == r[m..][t + 1] == fl[hi..][t + 1] == fl[hi + t + 1];
      }
      assert hdr[fl[hi + t].addr].nextFree == Link(fl, hi + t + 1);
    }
  }

  // ---------------------------------------------------------------------
  // What heap_alloc's commit step does to the headers and the list
  // ---------------------------------------------------------------------

  /** The header of the k-th free-list node, chunk i, records its size, its free state and its successor. */
  lemma ChosenHeader(hdr: map<nat, Chunk>, head: Option<nat>, bs: seq<Block>, i: nat, k: nat)
    requires Tiles(bs) && HeadersMatch(hdr, bs) && Threads(hdr, head, FreeList(bs))
    requires i < |bs| && k < |FreeList(bs)| && FreeList(bs)[k] == bs[i]
    ensures bs[i].addr in hdr && hdr[bs[i].addr] == Chunk(bs[i].size, bs[i].free, Link(FreeList(bs), k + 1))
    ensures k > 0 ==> FreeList(bs)[k - 1].addr in hdr && FreeList(bs)[k - 1].addr < bs[i].addr
  {
    CoversOrdered(bs, 0, HEAP_SIZE);
    FreeListOrdered(bs);
    assert bs[i] in bs;
    var fl := FreeList(bs);
    assert hdr[fl[k].addr].nextFree == Link(fl, k + 1);
    if k > 0 {
      assert hdr[fl[k - 1].addr].nextFree == Link(fl, k);
    }
  }

  /**
   * After the commit step the headers match the carved layout, provided the
   * chosen chunk's header says in use and holds the committed size, the tail's
   * header (when split) is free with the tail's size, and no other header's
   * size or state changed.
   */
  lemma CommitHeaders(h0: map<nat, Chunk>, h1: map<nat, Chunk>, bs: seq<Block>, i: nat, s: nat, nc: nat)
    requires Inv(bs) && HeadersMatch(h0, bs) && i < |bs| && Fits(bs[i], s) && nc == bs[i].addr + H + s
    requires var c, split := bs[i].addr, bs[i].size - s > H;
      c in h1 && !h1[c].free && h1[c].size == (if split then s else bs[i].size) &&
      (split ==> nc in h1 && h1[nc].free && h1[nc].size == bs[i].size - s - H) &&
      forall a :: a in h0 && a != c && (split ==> a != nc) ==>
        a in h1 && h1[a].size == h0[a].size && h1[a].free == h0[a].free
    ensures HeadersMatch(h1, Carve(bs, i, s))
  {
    CoversOrdered(bs, 0, HEAP_SIZE);
    var m := Split(bs[i], s);
    assert HeadersMatch(h1, m);
    assert bs[i..i + 1] == [bs[i]];
    HeadersSplice(h0, h1, bs, i, i + 1, m);
  }

  /** Only the chosen node, the tail and the node before the chosen one change links. */
  lemma OthersKeepLinks(h0: map<nat, Chunk>, h1: map<nat, Chunk>, fl: seq<Block>, k: nat, t: Option<nat>)
    requires Apart(fl, k) && (k > 0 ==> Apart(fl, k - 1)) && forall j :: 0 <= j < |fl| ==> fl[j].addr in h0
    requires t.Some? ==> fl[k].addr < t.value < End(fl[k])
    requires forall a :: a in h0 && a != fl[k].addr && t != Some(a) && (k > 0 ==> a != fl[k - 1].addr) ==>
      a in h1 && h1[a].nextFree == h0[a].nextFree
    ensures forall j :: 0 <= j < |fl| && (j + 1 < k || k + 1 <= j) ==>
      fl[j].addr in h1 && h1[fl[j].addr].nextFree == h0[fl[j].addr].nextFree
  {
    forall j | 0 <= j < |fl| && (j + 1 < k || k + 1 <= j)
      ensures fl[j].addr in h1 && h1[fl[j].addr].nextFree == h0[fl[j].addr].nextFree
    {
      if j < k {
        assert End(fl[j]) <= fl[k].addr;
        assert End(fl[j]) <= fl[k - 1].addr;
      } else {
        assert End(fl[k]) <= fl[j].addr;
      }
    }
  }

  /**
   * After the commit step the list threads the free list with its k-th node
   * replaced by the free tail of its split, provided the node before it (or
   * the head) now leads to the tail, or past the k-th node when there is no
   * tail, the tail leads past the k-th node, and no other next_free changed.
   */
  lemma CommitThreads(h0: map<nat, Chunk>, h1: map<nat, Chunk>, head0: Option<nat>, head1: Option<nat>,
                      fl: seq<Block>, k: nat, s: nat, nc: nat)
    requires Apart(fl, k) && (k > 0 ==> Apart(fl, k - 1)) && Threads(h0, head0, fl) && fl[k].size >= s
    requires nc == fl[k].addr + H + s
    requires var c, split := fl[k].addr, fl[k].size - s > H;
      var succ := if split then Some(nc) else Link(fl, k + 1);
      (split ==> nc in h1 && h1[nc].nextFree == Link(fl, k + 1)) &&
      (k > 0 ==> fl[k - 1].addr in h1 && h1[fl[k - 1].addr].nextFree == succ) &&
      head1 == (if k == 0 then succ else head0) &&
      forall a :: a in h0 && a != c && (split ==> a != nc) && (k > 0 ==> a != fl[k - 1].addr) ==>
        a in h1 && h1[a].nextFree == h0[a].nextFree
    ensures Threads(h1, head1, fl[..k] + Split(fl[k], s)[1..] + fl[k + 1..])
  {
    SplitParts(fl[k], s);
    var y := Split(fl[k], s)[1..];
    if fl[k].size - s > H {
      assert y != [] && y[0].addr == nc;
    } else {
      assert y == [];
    }
    OthersKeepLinks(h0, h1, fl, k, if y == [] then None else Some(y[0].addr));
    ThreadsSplice(h0, head0, fl, k, k + 1, y, h1, head1);
  }

  /**
   * The commit step as a whole: when the chosen chunk's header is rewritten
   * as in use (with the committed size), the tail's header written at
   * nc when the chunk is split, the link into the chosen chunk
   * redirected to the tail or past the chosen chunk, and nothing else
   * touched, the headers and the list describe the carved layout.
   */
  lemma CommitKeeps(h0: map<nat, Chunk>, h1: map<nat, Chunk>, head0: Option<nat>, head1: Option<nat>,
                    bs: seq<Block>, i: nat, k: nat, s: nat, nc: nat)
    requires Inv(bs) && HeadersMatch(h0, bs) && Threads(h0, head0, FreeList(bs))
    requires i < |bs| && Fits(bs[i], s) && nc == bs[i].addr + H + s
    requires k < |FreeList(bs)| && FreeList(bs)[k] == bs[i]
    requires FreeList(bs[..i]) == FreeList(bs)[..k]
    requires FreeList(bs[i + 1..]) == FreeList(bs)[k + 1..]
    requires CommitWritten(h0, h1, head0, head1, FreeList(bs), k, bs[i].addr, bs[i].size, s)
    ensures HeadersMatch(h1, Carve(bs, i, s)) && Threads(h1, head1, FreeList(Carve(bs, i, s)))
  {
    var fl := FreeList(bs);
    FreeListApart(bs, k);
    CommitThreads(h0, h1, head0, head1, fl, k, s, nc);
    CarveFreeList(bs, i, k, s);
    CommitHeaders(h0, h1, bs, i, s, nc);
  }

  /**
   * The header writes of heap_alloc's commit step, read against the free
   * list fl whose k-th node is the chosen chunk c (payload sz, s bytes
   * committed): c's header says in use, with s bytes when split and sz
   * otherwise; a split writes the tail's free header at c + H + s; the node
   * before c, or the head, leads to the tail or to c's successor; every other
   * header stays as it was.
   */
  ghost predicate CommitWritten(h0: map<nat, Chunk>, h1: map<nat, Chunk>, head0: Option<nat>, head1: Option<nat>,
                                fl: seq<Block>, k: nat, c: nat, sz: nat, s: nat)
  {
    var split, nc := sz - s > H, c + H + s;
    var nxt := Link(fl, k + 1);
    var succ := if split then Some(nc) else nxt;
    k < |fl| && c in h1 && h1[c] == Chunk(if split then s else sz, false, nxt) &&
    (split ==> nc in h1 && h1[nc] == Chunk(sz - s - H, true, nxt)) &&
    (k > 0 ==> fl[k - 1].addr in h0 && fl[k - 1].addr in h1 && h1[fl[k - 1].addr] == h0[fl[k - 1].addr].(nextFree := succ)) &&
    head1 == (if k == 0 then succ else head0) &&
    forall a :: a in h0 && a != c && (split ==> a != nc) && (k > 0 ==> a != fl[k - 1].addr) ==>
      a in h1 && h1[a] == h0[a]
  }

  /**
   * heap_alloc's commit step as the code writes it, on the headers alone:
   * with rem the chosen chunk's spare payload, a split writes the tail's
   * header at nc and shrinks the chunk; the node before the chunk (or the
   * head) is pointed at the tail or at the chunk's successor; the chunk is
   * marked in use.  The result is CommitWritten.
   */
  lemma CommitWrites(h0: map<nat, Chunk>, h1: map<nat, Chunk>, head0: Option<nat>, head1: Option<nat>,
                     fl: seq<Block>, k: nat, c: nat, s: nat, prev: Option<nat>, sz: nat)
    requires k < |fl| && c in h0 && h0[c] == Chunk(sz, true, Link(fl, k + 1)) && sz >= s
    requires prev == (if k == 0 then None else Some(fl[k - 1].addr))
    requires prev.Some? ==> prev.value in h0 && prev.value < c
    requires var rem: int, nc: nat := h0[c].size - s, c + H + s;
      var hs: map<nat, Chunk> := if rem > H then h0[nc := Chunk(rem - H, true, h0[c].nextFree)][c := h0[c].(size := s)] else h0;
      var succ: Option<nat> := if rem > H then Some(nc) else h0[c].nextFree;
      var hp: map<nat, Chunk> := if prev.Some? then hs[prev.value := hs[prev.value].(nextFree := succ)] else hs;
      c in hp && h1 == hp[c := hp[c].(free := false)] && head1 == (if prev.Some? then head0 else succ)
    ensures CommitWritten(h0, h1, head0, head1, fl, k, c, sz, s)
  { }

  /**
   * heap_alloc's commit step as the code writes it: with rem the chosen
   * chunk's spare payload, a split writes the tail's header at nc and
   * shrinks the chunk; the node before the chunk (or the head) is pointed at
   * the tail or at the chunk's successor; the chunk is marked in use. The
   * resulting headers, list and free total describe the carved layout.
   */
  lemma CommitEffect(h0: map<nat, Chunk>, h1: map<nat, Chunk>, head0: Option<nat>, head1: Option<nat>,
                     bs: seq<Block>, i: nat, k: nat, s: nat, c: nat, prev: Option<nat>)
    requires Inv(bs) && HeadersMatch(h0, bs) && Threads(h0, head0, FreeList(bs))
    requires i < |bs| && Fits(bs[i], s) && s % WORD == 0 && c == bs[i].addr
    requires k < |FreeList(bs)| && FreeList(bs)[k] == bs[i]
    requires FreeList(bs[..i]) == FreeList(bs)[..k]
    requires FreeList(bs[i + 1..]) == FreeList(bs)[k + 1..]
    requires prev == if k == 0 then None else Some(FreeList(bs)[k - 1].addr)
    requires c in h0 && (prev.Some? ==> prev.value in h0)
    requires var rem: int, nc: nat := h0[c].size - s, c + H + s;
      var hs: map<nat, Chunk> := if rem > H then h0[nc := Chunk(rem - H, true, h0[c].nextFree)][c := h0[c].(size := s)] else h0;
      var succ: Option<nat> := if rem > H then Some(nc) else h0[c].nextFree;
      var hp: map<nat, Chunk> := if prev.Some? then hs[prev.value := hs[prev.value].(nextFree := succ)] else hs;
      c in hp && h1 == hp[c := hp[c].(free := false)] && head1 == (if prev.Some? then head0 else succ)
    ensures var r := Carve(bs, i, s);
      Inv(r) && HeadersMatch(h1, r) && Threads(h1, head1, FreeList(r)) &&
      c in h1 && Avail(r) + h1[c].size + H == Avail(bs)
  {
    ChosenHeader(h0, head0, bs, i, k);
    CommitWrites(h0, h1, head0, head1, FreeList(bs), k, c, s, prev, bs[i].size);
    CommitKeeps(h0, h1, head0, head1, bs, i, k, s, c + H + s);
    SplitParts(bs[i], s);
    CarveAccounting(bs, i, s);
    CarveInv(bs, i, s);
  }

  // ---------------------------------------------------------------------
  // What heap_free's merge step does to the headers and the list
  // ---------------------------------------------------------------------

  /** The header of the j-th free-list node records its size, says free, and links to the next node. */
  lemma NodeHeader(hdr: map<nat, Chunk>, head: Option<nat>, bs: seq<Block>, j: nat)
    requires HeadersMatch(hdr, bs) && Threads(hdr, head, FreeList(bs)) && j < |FreeList(bs)|
    ensures var fl := FreeList(bs);
      fl[j].addr in hdr && hdr[fl[j].addr] == Chunk(fl[j].size, true, Link(fl, j + 1))
  {
    var fl := FreeList(bs);
    FreeListMembers(bs);
    assert fl[j] in fl;
    assert hdr[fl[j].addr].nextFree == Link(fl, j + 1);
  }

  /**
   * What heap_free's header writes leave behind, on the headers alone: with
   * left when the node before (at prev) ends where the freed chunk b starts,
   * and right when the resulting chunk ends where current starts, the header
   * at the start of the merged chunk says free, holds the merged size and
   * takes over the link of the last absorbed chunk; the node before, when
   * not absorbed, leads to b (or the head does); no other header changed.
   */
  ghost predicate Merged(h0: map<nat, Chunk>, h1: map<nat, Chunk>, head0: Option<nat>, head1: Option<nat>,
                         b: nat, prev: Option<nat>, current: Option<nat>)
  {
    b in h0 && (prev.Some? ==> prev.value in h0) && (current.Some? ==> current.value in h0) &&
    var left := prev.Some? && prev.value + H + h0[prev.value].size == b;
    var right := current.Some? && b + H + h0[b].size == current.value;
    var m := if left then prev.value else b;
    m in h1 && h1[m] == Chunk((if left then h0[prev.value].size + H else 0) + h0[b].size +
                              (if right then H + h0[current.value].size else 0), true,
                              if right then h0[current.value].nextFree
                              else if left then h0[prev.value].nextFree else current) &&
    (prev.Some? && !left ==> prev.value in h1 && h1[prev.value] == h0[prev.value].(nextFree := Some(b))) &&
    head1 == (if prev.None? then Some(b) else head0) &&
    forall a :: a in h0 && a != b && (prev.Some? ==> a != prev.value) ==> a in h1 && h1[a] == h0[a]
  }

  /** The free list of the released layout: the free chunks before the run, the merged chunk, those after. */
  lemma ReleaseFreeListShape(bs: seq<Block>, i: nat)
    requires i < |bs| && !bs[i].free
    ensures var lo, hi := Lo(bs, i), Hi(bs, i);
      lo < |Release(bs, i)| &&
      FreeList(Release(bs, i)) == FreeList(bs[..lo]) + [Release(bs, i)[lo]] + FreeList(bs[hi..])
  {
    var lo, hi := Lo(bs, i), Hi(bs, i);
    ReleaseShape(bs, i);
    var mb := Release(bs, i)[lo];
    assert Release(bs, i) == bs[..lo] + [mb] + bs[hi..];
    FreeListConcat(bs[..lo] + [mb], bs[hi..]);
    FreeListConcat(bs[..lo], [mb]);
    assert FreeList([mb]) == [mb];
  }

  /** The free chunks before the merged run are the first kl free-list nodes. */
  lemma FreeListBefore(bs: seq<Block>, i: nat, k: nat)
    requires Tiles(bs) && i < |bs|
    requires k == |FreeList(bs[..i])| && FreeList(bs) == FreeList(bs[..i]) + FreeList(bs[i + 1..])
    ensures var fl, kl := FreeList(bs), if Lo(bs, i) < i then k - 1 else k;
      0 <= kl <= k <= |fl| && FreeList(bs[..Lo(bs, i)]) == fl[..kl] &&
      (Lo(bs, i) < i ==> fl[k - 1] == bs[i - 1])
  {
    var fl, p := FreeList(bs), FreeList(bs[..i]);
    assert p == fl[..k];
    LeftNeighbour(bs, i);
    if Lo(bs, i) < i {
      assert p[..k - 1] == fl[..k - 1];
      assert p[k - 1] == fl[k - 1];
    }
  }

  /** The free chunks after the merged run are the free-list nodes from kr on. */
  lemma FreeListAfter(bs: seq<Block>, i: nat, k: nat)
    requires Tiles(bs) && i < |bs|
    requires k == |FreeList(bs[..i])| && FreeList(bs) == FreeList(bs[..i]) + FreeList(bs[i + 1..])
    ensures var fl, kr := FreeList(bs), if Hi(bs, i) > i + 1 then k + 1 else k;
      k <= kr <= |fl| && FreeList(bs[Hi(bs, i)..]) == fl[kr..] &&
      (Hi(bs, i) > i + 1 ==> fl[k] == bs[i + 1])
  {
    var fl, q := FreeList(bs), FreeList(bs[i + 1..]);
    assert q == fl[k..];
    RightNeighbour(bs, i);
    if Hi(bs, i) > i + 1 {
      assert q[1..] == fl[k + 1..];
      assert q[0] == fl[k];
    }
  }

  /**
   * Freeing chunk i, the k-th slot of the free list, replaces the free-list
   * nodes of the absorbed neighbours (none, one or two, around slot k) by the
   * merged chunk.
   */
  lemma ReleaseFreeList(bs: seq<Block>, i: nat, k: nat)
    requires Tiles(bs) && i < |bs| && !bs[i].free
    requires k == |FreeList(bs[..i])| && FreeList(bs) == FreeList(bs[..i]) + FreeList(bs[i + 1..])
    ensures var fl, lo, hi := FreeList(bs), Lo(bs, i), Hi(bs, i);
      var kl, kr := (if lo < i then k - 1 else k), (if hi > i + 1 then k + 1 else k);
      kl <= k <= kr <= |fl| && (lo < i ==> 0 < k && fl[k - 1] == bs[i - 1]) && (hi > i + 1 ==> fl[k] == bs[i + 1]) &&
      FreeList(Release(bs, i)) == fl[..kl] + [Release(bs, i)[lo]] + fl[kr..]
  {
    ReleaseFreeListShape(bs, i);
    FreeListBefore(bs, i, k);
    FreeListAfter(bs, i, k);
  }

  /**
   * The headers after the merge step match the released layout when the
   * merged chunk's header records its size and says free, and no other
   * header changed its size or state.
   */
  lemma FreeHeaders(h0: map<nat, Chunk>, h1: map<nat, Chunk>, bs: seq<Block>, i: nat)
    requires Ordered(bs) && HeadersMatch(h0, bs) && i < |bs| && !bs[i].free
    requires var mb := Release(bs, i)[Lo(bs, i)];
      mb.addr in h1 && h1[mb.addr].size == mb.size && h1[mb.addr].free
    requires forall a :: a in h0 && a != bs[i].addr && a != bs[Lo(bs, i)].addr ==>
      a in h1 && h1[a].size == h0[a].size && h1[a].free == h0[a].free
    ensures HeadersMatch(h1, Release(bs, i))
  {
    var lo, hi := Lo(bs, i), Hi(bs, i);
    ReleaseShape(bs, i);
    var mb := Release(bs, i)[lo];
    assert bs[lo].addr <= bs[i].addr < End(bs[i]) <= End(bs[hi - 1]);
    HeadersSplice(h0, h1, bs, lo, hi, [mb]);
  }

  /**
   * The links after the merge step thread the free list with the slots
   * kl..kr (the absorbed neighbours) replaced by the merged chunk mb: mb
   * leads past them, the node before the freed chunk b leads to b when it
   * is not absorbed (or the head does), and no other link changed.
   */
  lemma FreeThreads(h0: map<nat, Chunk>, h1: map<nat, Chunk>, head0: Option<nat>, head1: Option<nat>,
                    fl: seq<Block>, k: nat, kl: nat, kr: nat, mb: Block, b: nat)
    requires Threads(h0, head0, fl) && k <= |fl|
    requires kl == k || (kl == k - 1 && k > 0)
    requires kr == k || (kr == k + 1 && k < |fl|)
    requires (k > 0 ==> Apart(fl, k - 1)) && (k < |fl| ==> Apart(fl, k))
    requires (forall j :: 0 <= j < k ==> fl[j].addr < b) && (k < |fl| ==> fl[k].addr > b)
    requires mb.addr == if kl < k then fl[k - 1].addr else b
    requires mb.addr in h1 && h1[mb.addr].nextFree == Link(fl, kr)
    requires k > 0 && kl == k ==> fl[k - 1].addr in h1 && h1[fl[k - 1].addr].nextFree == Some(b)
    requires head1 == (if k == 0 then Some(b) else head0)
    requires forall a :: a in h0 && a != b && (k > 0 ==> a != fl[k - 1].addr) ==>
      a in h1 && h1[a].nextFree == h0[a].nextFree
    ensures Threads(h1, head1, fl[..kl] + [mb] + fl[kr..])
  {
    FreeOthersKeepLinks(h0, h1, fl, k, kl, kr, b);
    if kl < k && kl > 0 {
      assert h0[fl[kl - 1].addr].nextFree == Link(fl, k - 1);
    }
    ThreadsSplice(h0, head0, fl, kl, kr, [mb], h1, head1);
  }

  /**
   * The merge step in terms of the layout: freeing chunk i, the k-th slot of
   * the free list. When the header of the merged chunk (at the start of the
   * run Release merges) records the run's size, says free and leads past the
   * absorbed right neighbour; the node before the freed chunk, when it is not
   * absorbed, leads to the freed chunk (or the head does); and nothing else
   * changed, the headers and the list describe the released layout.
   */
  lemma FreeKeeps(h0: map<nat, Chunk>, h1: map<nat, Chunk>, head0: Option<nat>, head1: Option<nat>,
                  bs: seq<Block>, i: nat, k: nat)
    requires Tiles(bs) && HeadersMatch(h0, bs) && Threads(h0, head0, FreeList(bs))
    requires i < |bs| && !bs[i].free
    requires k == |FreeList(bs[..i])| && FreeList(bs) == FreeList(bs[..i]) + FreeList(bs[i + 1..])
    requires forall j :: 0 <= j < k ==> FreeList(bs)[j].addr < bs[i].addr
    requires k < |FreeList(bs)| ==> FreeList(bs)[k].addr > bs[i].addr
    requires var fl, b, lo, hi := FreeList(bs), bs[i].addr, Lo(bs, i), Hi(bs, i);
      var kr := if hi > i + 1 then k + 1 else k;
      var mb := Release(bs, i)[lo];
      mb.addr in h1 && h1[mb.addr] == Chunk(mb.size, true, Link(fl, kr)) &&
      (k > 0 && lo == i ==> fl[k - 1].addr in h1 && h1[fl[k - 1].addr] == h0[fl[k - 1].addr].(nextFree := Some(b))) &&
      head1 == (if k == 0 then Some(b) else head0) &&
      forall a :: a in h0 && a != b && (k > 0 ==> a != fl[k - 1].addr) ==> a in h1 && h1[a] == h0[a]
    ensures HeadersMatch(h1, Release(bs, i)) && Threads(h1, head1, FreeList(Release(bs, i)))
  {
    assert HeadersMatch(h1, Release(bs, i)) by {
      CoversOrdered(bs, 0, HEAP_SIZE);
      ReleaseShape(bs, i);
      FreeHeaders(h0, h1, bs, i);
    }
    FreeKeepsThreads(h0, h1, head0, head1, bs, i, k);
  }

  /**
   * Where the released layout's free list differs from the old one: the
   * merged chunk takes the slots kl..kr, which hold the absorbed free
   * neighbours, and starts where the left neighbour did when it was absorbed.
   */
  lemma ReleaseSplice(bs: seq<Block>, i: nat, k: nat)
    requires Tiles(bs) && i < |bs| && !bs[i].free
    requires k == |FreeList(bs[..i])| && FreeList(bs) == FreeList(bs[..i]) + FreeList(bs[i + 1..])
    ensures var fl, b, lo, hi := FreeList(bs), bs[i].addr, Lo(bs, i), Hi(bs, i);
      var kl := if lo < i then k - 1 else k;
      var kr := if hi > i + 1 then k + 1 else k;
      var mb := Release(bs, i)[lo];
      (kl == k || (kl == k - 1 && k > 0)) && (kr == k || (kr == k + 1 && k < |fl|)) &&
      (k > 0 ==> Apart(fl, k - 1)) && (k < |fl| ==> Apart(fl, k)) &&
      mb.addr == (if kl < k then fl[k - 1].addr else b) &&
      FreeList(Release(bs, i)) == fl[..kl] + [mb] + fl[kr..]
  {
    var fl := FreeList(bs);
    ReleaseFreeList(bs, i, k);
    if k > 0 {
      FreeListApart(bs, k - 1);
    }
    if k < |fl| {
      FreeListApart(bs, k);
    }
    ReleasedChunk(bs, i);
  }

  /** The link half of FreeKeeps: the list threads the released layout's free chunks. */
  lemma FreeKeepsThreads(h0: map<nat, Chunk>, h1: map<nat, Chunk>, head0: Option<nat>, head1: Option<nat>,
                         bs: seq<Block>, i: nat, k: nat)
    requires Tiles(bs) && Threads(h0, head0, FreeList(bs))
    requires i < |bs| && !bs[i].free
    requires k == |FreeList(bs[..i])| && FreeList(bs) == FreeList(bs[..i]) + FreeList(bs[i + 1..])
    requires forall j :: 0 <= j < k ==> FreeList(bs)[j].addr < bs[i].addr
    requires k < |FreeList(bs)| ==> FreeList(bs)[k].addr > bs[i].addr
    requires var fl, b, lo, hi := FreeList(bs), bs[i].addr, Lo(bs, i), Hi(bs, i);
      var kr := if hi > i + 1 then k + 1 else k;
      var mb := Release(bs, i)[lo];
      mb.addr in h1 && h1[mb.addr].nextFree == Link(fl, kr) &&
      (k > 0 && lo == i ==> fl[k - 1].addr in h1 && h1[fl[k - 1].addr].nextFree == Some(b)) &&
      head1 == (if k == 0 then Some(b) else head0) &&
      forall a :: a in h0 && a != b && (k > 0 ==> a != fl[k - 1].addr) ==> a in h1 && h1[a].nextFree == h0[a].nextFree
    ensures Threads(h1, head1, FreeList(Release(bs, i)))
  {
    var fl, b, lo, hi := FreeList(bs), bs[i].addr, Lo(bs, i), Hi(bs, i);
    var kl := if lo < i then k - 1 else k;
    var kr := if hi > i + 1 then k + 1 else k;
    var mb := Release(bs, i)[lo];
    ReleaseSplice(bs, i, k);
    FreeThreads(h0, h1, head0, head1, fl, k, kl, kr, mb, b);
  }

  /**
   * What heap_free's merge step tests, read off the layout: prev's chunk ends
   * where b starts exactly when the left neighbour is free (and then is that
   * neighbour), and b's chunk ends where current starts exactly when the
   * right neighbour is free (and then current is that neighbour).
   */
  lemma MergeConditions(h0: map<nat, Chunk>, head0: Option<nat>, bs: seq<Block>, i: nat, k: nat,
                        b: nat, prev: Option<nat>, current: Option<nat>)
    requires Tiles(bs) && HeadersMatch(h0, bs) && Threads(h0, head0, FreeList(bs))
    requires WalkedTo(bs, i, k, b, prev, current)
    ensures b in h0 && h0[b].size == bs[i].size && h0[b].free == bs[i].free
    ensures prev.Some? ==> prev.value in h0 && h0[prev.value].free && prev.value < b
    ensures current.Some? ==> current.value in h0 && b < current.value
    ensures (prev.Some? && prev.value + H + h0[prev.value].size == b) == (Lo(bs, i) < i)
    ensures (current.Some? && b + H + h0[b].size == current.value) == (Hi(bs, i) > i + 1)
    ensures Lo(bs, i) < i ==>
      prev == Some(bs[i - 1].addr) && h0[prev.value] == Chunk(bs[i - 1].size, true, Link(FreeList(bs), k))
    ensures Hi(bs, i) > i + 1 ==>
      current == Some(bs[i + 1].addr) && h0[current.value] == Chunk(bs[i + 1].size, true, Link(FreeList(bs), k + 1))
  {
    var fl := FreeList(bs);
    assert bs[i] in bs;
    if k > 0 {
      NodeHeader(h0, head0, bs, k - 1);
    }
    if k < |fl| {
      NodeHeader(h0, head0, bs, k);
    }
    var p, q := FreeList(bs[..i]), FreeList(bs[i + 1..]);
    assert p == fl[..k] && q == fl[k..];
    LeftNeighbour(bs, i);
    RightNeighbour(bs, i);
    if k > 0 {
      assert p[|p| - 1] == fl[k - 1];
    }
    if k < |fl| {
      assert q[0] == fl[k];
    }
  }

  /**
   * heap_free's merge step as the code writes it, applied to the chunk b of
   * layout index i, with the walk stopped at the k-th free-list slot (prev
   * the node before it, current the node at it): the resulting headers and
   * list describe the released layout.
   */
  lemma FreeMerge(h0: map<nat, Chunk>, h1: map<nat, Chunk>, head0: Option<nat>, head1: Option<nat>,
                   bs: seq<Block>, i: nat, k: nat, b: nat, prev: Option<nat>, current: Option<nat>)
    requires Tiles(bs) && HeadersMatch(h0, bs) && Threads(h0, head0, FreeList(bs))
    requires WalkedTo(bs, i, k, b, prev, current) && !bs[i].free
    requires Merged(h0, h1, head0, head1, b, prev, current)
    ensures HeadersMatch(h1, Release(bs, i)) && Threads(h1, head1, FreeList(Release(bs, i)))
  {
    var lo, hi := Lo(bs, i), Hi(bs, i);
    MergeConditions(h0, head0, bs, i, k, b, prev, current);
    ReleasedChunk(bs, i);
    FreeKeeps(h0, h1, head0, head1, bs, i, k);
  }

  /**
   * heap_free's merge step as the code writes it, applied to the chunk b of
   * layout index i, with the walk stopped at the k-th free-list slot (prev
   * the node before it, current the node at it): the resulting headers, list
   * and free total describe the released layout.
   */
  lemma FreeEffect(h0: map<nat, Chunk>, h1: map<nat, Chunk>, head0: Option<nat>, head1: Option<nat>,
                   av: nat, bs: seq<Block>, i: nat, k: nat, b: nat, prev: Option<nat>, current: Option<nat>)
    requires Consistent(h0, av, head0, bs)
    requires WalkedTo(bs, i, k, b, prev, current) && !bs[i].free
    requires Merged(h0, h1, head0, head1, b, prev, current)
    ensures b in h0 && Consistent(h1, av + h0[b].size + H, head1, Release(bs, i))
  {
    FreeMerge(h0, h1, head0, head1, bs, i, k, b, prev, current);
    assert bs[i] in bs;
    ReleaseInv(bs, i);
    CoversOrdered(bs, 0, HEAP_SIZE);
    ReleaseAccounting(bs, i);
  }

  // ---------------------------------------------------------------------
  // The heap
  // ---------------------------------------------------------------------

  /** struct heap_info, with the arena's headers in place of the raw buffer. */
  class Heap {
    /** The chunk headers written into the arena, keyed by offset. */
    var hdr: map<nat, Chunk>
    var avail: nat
    var freeListHead: Option<nat>
    /** The physical layout the headers describe. */
    ghost var blocks: seq<Block>

    ghost predicate Valid()
      reads this
    {
      Consistent(hdr, avail, freeListHead, blocks)
    }

    /** heap_init: one free chunk spanning the arena, at the head of the free list. */
    constructor Init()
      ensures Valid() && blocks == Initial()
      ensures hdr == map[0 := Chunk(HEAP_SIZE - H, true, None)]
      ensures avail == HEAP_SIZE && freeListHead == Some(0)
    {
      avail := HEAP_SIZE;
      hdr := map[0 := Chunk(HEAP_SIZE - H, true, None)];
      freeListHead := Some(0);
      blocks := Initial();
    }

    /**
     * heap_alloc: first fit along the free list, splitting the chosen chunk
     * when the remainder can hold a header and more.
     */
    method Alloc(n: nat) returns (ptr: Option<nat>)
      requires Valid() && n < 0x1_0000_0000
      modifies this
      ensures Valid()
      ensures blocks == Layout.Alloc(old(blocks), n).layout
      ensures ptr == Layout.Alloc(old(blocks), n).ptr
      ensures ptr.None? ==> hdr == old(hdr) && avail == old(avail) && freeListHead == old(freeListHead)
    {
      if n == 0 {
        return None;
      }
      var size := n;
      if size % WORD != 0 {
        size := size + WORD - size % WORD;
      }
      assert size == RoundUp(n);
      var c: Option<nat>, prev: Option<nat>;
      ghost var i: nat, k: nat;
      c, prev, i, k := Search(size);
      if c.None? {
        return None;
      }
      assert Layout.Alloc(blocks, n) == AllocResult(Carve(blocks, i, size), Some(c.value + H));
      Commit(c.value, size, prev, i, k);
      return Some(c.value + H);
    }

    /**
     * heap_alloc's search: follow the free list from its head to the first
     * node whose payload holds size bytes, remembering the node before it.
     * The node found is the first fit of the layout, chunk i, reached as the
     * k-th node of the free list; no node means that nothing fits.
     */
    method Search(size: nat) returns (c: Option<nat>, prev: Option<nat>, ghost i: nat, ghost k: nat)
      requires Valid()
      ensures c.None? ==> FirstFit(blocks, size) == None
      ensures c.Some? ==> FoundAt(blocks, size, i, k) && c.value == blocks[i].addr
      ensures c.Some? ==> prev == if k == 0 then None else Some(FreeList(blocks)[k - 1].addr)
    {
      ghost var bs := blocks;
      ghost var fl := FreeList(bs);
      var current := freeListHead;
      prev := None;
      k := 0;
      while current.Some?
        invariant k <= |fl| && current == Link(fl, k)
        invariant prev == if k == 0 then None else Some(fl[k - 1].addr)
        invariant forall j :: 0 <= j < k ==> fl[j].size < size
        decreases |fl| - k
      {
        var cur := current.value;
        i := SearchStep(hdr, avail, freeListHead, bs, size, k);
        if hdr[cur].size >= size {
          return current, prev, i, k;
        }
        assert fl[k].size < size;
        prev := current;
        current := hdr[cur].nextFree;
        k := k + 1;
      }
      SearchExhausted(bs, size, k);
      return None, prev, 0, k;
    }
    /**
     * The commit step of heap_alloc, once the walk has stopped at the k-th
     * free-list node, chunk i at offset c, with the node before it at prev:
     * split off the tail when it can hold a header and more, put the tail (or
     * the chunk's successor) in the chunk's place in the list, and mark the
     * chunk in use.
     */
    method Commit(c: nat, size: nat, prev: Option<nat>, ghost i: nat, ghost k: nat)
      requires Valid()
      requires i < |blocks| && Fits(blocks[i], size) && size % WORD == 0 && c == blocks[i].addr
      requires k < |FreeList(blocks)| && FreeList(blocks)[k] == blocks[i]
      requires FreeList(blocks[..i]) == FreeList(blocks)[..k]
      requires FreeList(blocks[i + 1..]) == FreeList(blocks)[k + 1..]
      requires prev == if k == 0 then None else Some(FreeList(blocks)[k - 1].addr)
      modifies this
      ensures Valid() && blocks == Carve(old(blocks), i, size)
      ensures c in hdr && avail == old(avail) - (hdr[c].size + H)
    {
      ghost var bs, h0, head0 := blocks, hdr, freeListHead;
      ChosenHeader(hdr, freeListHead, bs, i, k);
      var h: map<nat, Chunk>, head: Option<nat> := hdr, freeListHead;
      var remaining := h[c].size - size;
      if remaining > H {
        var nc: nat := c + H + size;
        h := h[nc := Chunk(remaining - H, true, h[c].nextFree)];
        h := h[c := h[c].(size := size)];
        if prev.Some? {
          h := h[prev.value := h[prev.value].(nextFree := Some(nc))];
        } else {
          head := Some(nc);
        }
      } else {
        if prev.Some? {
          h := h[prev.value := h[prev.value].(nextFree := h[c].nextFree)];
        } else {
          head := h[c].nextFree;
        }
      }
      h := h[c := h[c].(free := false)];
      CommitEffect(h0, h, head0, head, bs, i, k, size, c, prev);
      hdr, freeListHead, avail, blocks := h, head, avail - (h[c].size + H), Carve(bs, i, size);
    }

    /**
     * heap_free: NULL and the payload of a chunk already free change nothing;
     * otherwise the chunk is marked free and its size added to avail, the
     * walk finds the nodes around it in the address-ordered list, and it is
     * merged into a free left neighbour (or linked in after the node before
     * it) and then absorbs a free right neighbour.
     */
    method Free(ptr: Option<nat>)
      requires Valid() && (ptr.Some? ==> IsPayload(blocks, ptr.value))
      modifies this
      ensures Valid() && blocks == Layout.Free(old(blocks), ptr)
      ensures ptr.None? ==> unchanged(this)
      ensures ptr.Some? && old(blocks[IndexOf(blocks, ptr.value - H)].free) ==> unchanged(this)
      ensures ptr.Some? && !old(blocks[IndexOf(blocks, ptr.value - H)].free) ==>
        avail == old(avail + blocks[IndexOf(blocks, ptr.value - H)].size + H)
    {
      if ptr.None? {
        return;
      }
      var b: nat := ptr.value - H;
      ghost var i := IndexOf(blocks, b);
      assert blocks[i] in blocks;
      if hdr[b].free {
        return;
      }
      Release(b, i);
    }

    /**
     * heap_free past its checks: chunk i, at offset b, is in use. Walk to
     * its place in the list, count its bytes, mark it free and merge.
     */
    method Release(b: nat, ghost i: nat)
      requires Valid() && i < |blocks| && blocks[i].addr == b && !blocks[i].free
      modifies this
      ensures Valid() && blocks == Layout.Release(old(blocks), i)
      ensures avail == old(avail) + old(blocks[i].size) + H
    {
      ghost var bs, h0, head0 := blocks, hdr, freeListHead;
      var current: Option<nat>, prev: Option<nat>;
      ghost var k: nat;
      current, prev, k := FreeWalk(b, i);
      assert b in hdr && hdr[b].size == bs[i].size &&
             (prev.Some? ==> prev.value in hdr && hdr[prev.value].free && prev.value < b) &&
             (current.Some? ==> current.value in hdr && b < current.value) by {
        MergeConditions(h0, head0, bs, i, k, b, prev, current);
      }
      var av := avail + hdr[b].size + H;
      Merge(b, prev, current);
      ghost var h1, head1, nb := hdr, freeListHead, Layout.Release(bs, i);
      FreeEffect(h0, h1, head0, head1, old(avail), bs, i, k, b, prev, current);
      avail, blocks := av, nb;
    }

    /**
     * heap_free's header writes, once the walk has found the nodes prev and
     * current around the chunk b being freed: mark b free; merge it into
     * prev when prev ends where b starts, or else link it in after prev (or
     * at the head) leading to current; then let the result absorb current
     * when it ends where current starts.
     */
    method Merge(b: nat, prev: Option<nat>, current: Option<nat>)
      requires b in hdr
      requires prev.Some? ==> prev.value in hdr && hdr[prev.value].free && prev.value < b
      requires current.Some? ==> current.value in hdr && b < current.value
      modifies this
      ensures Merged(old(hdr), hdr, old(freeListHead), freeListHead, b, prev, current)
      ensures avail == old(avail) && blocks == old(blocks)
    {
      hdr := hdr[b := hdr[b].(free := true)];
      var blk := b;
      if prev.Some? && prev.value + H + hdr[prev.value].size == blk {
        hdr := hdr[prev.value := hdr[prev.value].(size := hdr[prev.value].size + H + hdr[blk].size)];
        blk := prev.value;
      } else {
        if prev.Some? {
          hdr := hdr[prev.value := hdr[prev.value].(nextFree := Some(blk))];
        } else {
          freeListHead := Some(blk);
        }
        hdr := hdr[blk := hdr[blk].(nextFree := current)];
      }
      if current.Some? && blk + H + hdr[blk].size == current.value {
        hdr := hdr[blk := hdr[blk].(size := hdr[blk].size + H + hdr[current.value].size,
                                    nextFree := hdr[current.value].nextFree)];
      }
    }

    /**
     * print_heap_state's walk: start at the header at offset 0 and step over
     * each header and its payload, reading the chunk's size and state, until
     * the end of the arena.  It meets exactly the chunks of the layout, in
     * address order, and its last step lands exactly on HEAP_SIZE.
     */
    method Walk() returns (view: seq<Block>)
      requires Valid()
      ensures view == blocks
    {
      CoversOrdered(blocks, 0, HEAP_SIZE);
      var cur: nat := 0;
      view := [];
      while cur < HEAP_SIZE
        invariant |view| <= |blocks| && view == blocks[..|view|]
        invariant cur == if |view| < |blocks| then blocks[|view|].addr else HEAP_SIZE
        decreases HEAP_SIZE - cur
      {
        assert blocks[|view|] in blocks;
        var c := hdr[cur];
        view := view + [Block(cur, c.size, c.free)];
        cur := cur + H + c.size;
      }
      assert view == blocks[..|blocks|] == blocks;
    }

    /**
     * heap_free's walk: follow the list while the nodes lie below the chunk
     * being freed, chunk i at offset b, remembering the node before. It stops
     * after exactly the free chunks below chunk i, at the first one above it.
     */
    method FreeWalk(b: nat, ghost i: nat) returns (current: Option<nat>, prev: Option<nat>, ghost k: nat)
      requires Valid() && i < |blocks| && blocks[i].addr == b && !blocks[i].free
      ensures WalkedTo(blocks, i, k, b, prev, current)
    {
      ghost var fl := FreeList(blocks);
      current := freeListHead;
      prev := None;
      k := 0;
      while current.Some? && current.value < b
        invariant k <= |fl| && current == Link(fl, k)
        invariant prev == if k == 0 then None else Some(fl[k - 1].addr)
        invariant forall j :: 0 <= j < k ==> fl[j].addr < b
        decreases |fl| - k
      {
        BelowExtends(fl, k, b);
        prev := current;
        current := hdr[current.value].nextFree;
        k := k + 1;
      }
      WalkStops(blocks, i, k, prev, current);
    }
  }
}
