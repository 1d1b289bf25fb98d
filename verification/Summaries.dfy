/** Summarising a range of addresses by blocks: the greedy loop of `summarize_address_range`
    and why its result is the smallest one. */
module Summaries {
  import opened Common
  import opened Prefixes

  // ---- The largest block at an address ---------------------------------------------

  function BitLength(n: nat): nat
  {
    if n == 0 then 0 else 1 + BitLength(n / 2)
  }

  lemma {:induction false} BitLengthBounds(n: nat)
    requires n > 0
    ensures BitLength(n) >= 1 && Pow2(BitLength(n) - 1) <= n < Pow2(BitLength(n))
  {
    if n > 1 {
      BitLengthBounds(n / 2);
    } else {
      assert BitLength(n) == 1 + BitLength(0) && Pow2(1) == 2 * Pow2(0);
    }
  }

  function TrailingZeros(n: nat, bits: nat): nat
  {
    if n == 0 then bits else if n % 2 == 1 then 0 else 1 + TrailingZeros(n / 2, bits)
  }

  lemma DoubleMod(n: nat, p: nat)
    requires p >= 1
    ensures (2 * n) % (2 * p) == 2 * (n % p)
  {
    DivMod(n, p);
    var k, r := n / p, n % p;
    assert 2 * n == (2 * p) * k + 2 * r by { Associate(2, p, k); }
    ModUnique(2 * n, 2 * p, k, 2 * r);
  }

  lemma ModUnique(n: nat, p: nat, k: nat, r: nat)
    requires n == p * k + r && r < p
    ensures n % p == r
  {
    DivMod(n, p);
    var k' := n / p;
    assert p * (k' + 1) == p * k' + p && p * (k + 1) == p * k + p;
    if k' < k {
      MulLe(p, k' + 1, k);
    } else if k < k' {
      MulLe(p, k + 1, k');
    }
  }

  lemma {:induction false} TrailingZerosDivides(n: nat, bits: nat, j: nat)
    requires n > 0
    ensures n % Pow2(j) == 0 <==> j <= TrailingZeros(n, bits)
  {
    if j > 0 {
      DivMod(n, 2);
      if n % 2 == 1 {
        OddMod(n, Pow2(j - 1));
      } else {
        DoubleMod(n / 2, Pow2(j - 1));
        TrailingZerosDivides(n / 2, bits, j - 1);
      }
    } else {
      assert n % 1 == 0;
    }
  }

  lemma OddMod(n: nat, p: nat)
    requires n % 2 == 1 && p >= 1
    ensures n % (2 * p) != 0
  {
    DivMod(n, 2 * p);
    var k := n / (2 * p);
    assert (2 * p) * k == 2 * (p * k) by { Associate(2, p, k); }
  }

  /** The number of host bits of the block the loop takes at `first`. */
  function HostBits(first: nat, last: nat, width: nat): int
    requires first <= last
  {
    Min(TrailingZeros(first, width), BitLength(last - first + 1) - 1)
  }

  predicate FitsAt(first: nat, last: nat, j: nat)
  {
    first % Pow2(j) == 0 && first + Pow2(j) <= last + 1
  }

  /** It is the largest aligned block that starts at `first` and ends by `last`. */
  lemma HostBitsLargest(first: nat, last: nat, width: nat, j: nat)
    requires first <= last < Pow2(width)
    ensures 0 <= HostBits(first, last, width) <= width
    ensures FitsAt(first, last, j) <==> j <= HostBits(first, last, width)
  {
    hide Pow2, BitLength, TrailingZeros;
    var count := last - first + 1;
    BitLengthBounds(count);
    var b := BitLength(count) - 1;
    if b > width { Pow2Monotone(width, b); }
    if j <= b { Pow2Monotone(j, b); } else { Pow2Monotone(b + 1, j); }
    if first > 0 {
      TrailingZerosDivides(first, width, j);
    } else {
      ZeroMod(j);
      ZeroTrailing(width);
    }
    assert Pow2(j) <= count <==> j <= b;
    if first > 0 {
      assert FitsAt(first, last, j) <==> j <= HostBits(first, last, width);
    }
  }

  lemma ZeroMod(j: nat)
    ensures 0 % Pow2(j) == 0
  {
  }

  lemma ZeroTrailing(width: nat)
    ensures TrailingZeros(0, width) == width
  {
  }

  // ---- The greedy loop -------------------------------------------------------------

  predicate InSpace(v: Version, last: int)
  {
    last < Pow2(Width(v))
  }

  /** The blocks the loop yields from `first` on. */
  function Summarize(v: Version, first: nat, last: int): seq<Block>
    requires InSpace(v, last)
    decreases last - first + 1
  {
    if first > last then []
    else
      HostBitsLargest(first, last, Width(v), 0);
      var k := HostBits(first, last, Width(v));
      [Block(v, first, Width(v) - k)] + Summarize(v, first + Pow2(k), last)
  }

  /** `blocks` are canonical and follow one another from `first` through `last`, without gap or overlap. */
  predicate Tiles(blocks: seq<Block>, v: Version, first: int, last: int)
  {
    if blocks == [] then first == last + 1
    else
      && blocks[0].version == v && Canonical(blocks[0]) && blocks[0].base == first
      && Tiles(blocks[1..], v, first + Size(blocks[0]), last)
  }

  lemma FirstBlock(v: Version, first: nat, last: nat)
    requires first <= last && InSpace(v, last)
    ensures 0 <= HostBits(first, last, Width(v)) <= Width(v)
    ensures var k := HostBits(first, last, Width(v));
            var b := Block(v, first, Width(v) - k);
            && Canonical(b) && Size(b) == Pow2(k) && first + Size(b) <= last + 1
            && Summarize(v, first, last) == [b] + Summarize(v, first + Size(b), last)
  {
    hide Pow2, HostBits;
    HostBitsLargest(first, last, Width(v), 0);
    HostBitsLargest(first, last, Width(v), HostBits(first, last, Width(v)));
  }

  /** The loop's blocks tile the range. */
  lemma {:induction false} SummarizeTiles(v: Version, first: nat, last: int)
    requires InSpace(v, last) && first <= last + 1
    ensures Tiles(Summarize(v, first, last), v, first, last)
    decreases last - first + 1
  {
    hide HostBits, Pow2;
    if first <= last {
      FirstBlock(v, first, last);
      var k := HostBits(first, last, Width(v));
      SummarizeTiles(v, first + Pow2(k), last);
    }
  }

  /** In a tiling every address of the range is in exactly one block, and no other address in any. */
  lemma {:induction false} TilesPartition(blocks: seq<Block>, v: Version, first: int, last: int, a: Addr)
    requires Tiles(blocks, v, first, last) && a.version == v
    ensures forall i :: 0 <= i < |blocks| ==> Canonical(blocks[i]) && blocks[i].base >= first
    ensures first <= a.n <= last <==> exists i :: 0 <= i < |blocks| && Contains(blocks[i], a)
    ensures forall i, j :: 0 <= i < j < |blocks| ==> !(Contains(blocks[i], a) && Contains(blocks[j], a))
    ensures first <= last + 1
  {
    if blocks != [] {
      var rest := blocks[1..];
      TilesPartition(rest, v, first + Size(blocks[0]), last, a);
      assert forall i :: 1 <= i < |blocks| ==> blocks[i] == rest[i - 1];
      if first <= a.n <= last {
        if a.n < first + Size(blocks[0]) {
          assert Contains(blocks[0], a);
        } else {
          var i :| 0 <= i < |rest| && Contains(rest[i], a);
          assert Contains(blocks[i + 1], a);
        }
      }
    }
  }

  // ---- No smaller cover ------------------------------------------------------------

  /** The blocks together hold exactly the addresses from `first` through `last`. */
  ghost predicate Covers(blocks: set<Block>, v: Version, first: int, last: int)
  {
    && (forall b :: b in blocks ==> b.version == v && Canonical(b) && first <= b.base && b.base + Size(b) <= last + 1)
    && (forall n: nat :: first <= n <= last ==> HasBlock(blocks, v, n))
  }

  ghost predicate HasBlock(blocks: set<Block>, v: Version, n: nat)
  {
    exists b :: b in blocks && b.version == v && Canonical(b) && Contains(b, Addr(v, n))
  }

  /** A block of the cover that reaches past the greedy block starts past it. */
  lemma PastGreedy(v: Version, first: nat, last: nat, b: Block, n: nat)
    requires first <= last && InSpace(v, last)
    requires b.version == v && Canonical(b) && first <= b.base && b.base + Size(b) <= last + 1
    requires Contains(b, Addr(v, n))
    requires var k := HostBits(first, last, Width(v)); 0 <= k <= Width(v) && n >= first + Pow2(k)
    ensures b.base >= first + Pow2(HostBits(first, last, Width(v)))
  {
    hide HostBits, Pow2;
    FirstBlock(v, first, last);
    var k := HostBits(first, last, Width(v));
    var g := Block(v, first, Width(v) - k);
    if b.len <= g.len {
      NestedOrDisjoint(b, g);
      if b.base == first {
        HostBitsLargest(first, last, Width(v), Width(v) - b.len);
      }
    } else {
      NestedOrDisjoint(g, b);
    }
  }

  /** No set of blocks that holds exactly the range, disjoint or not, is smaller than the greedy result. */
  lemma {:induction false} GreedyIsMinimal(v: Version, first: nat, last: int, cover: set<Block>)
    requires InSpace(v, last) && Covers(cover, v, first, last)
    ensures |Summarize(v, first, last)| <= |cover|
    decreases last - first + 1
  {
    if first <= last {
      hide HostBits, Pow2;
      FirstBlock(v, first, last);
      var next := first + Pow2(HostBits(first, last, Width(v)));
      var later := set b | b in cover && b.base >= next;
      forall n: nat | next <= n <= last ensures HasBlock(later, v, n) {
        assert HasBlock(cover, v, n);
        var b :| b in cover && b.version == v && Canonical(b) && Contains(b, Addr(v, n));
        PastGreedy(v, first, last, b, n);
        assert b in later;
      }
      GreedyIsMinimal(v, next, last, later);
      assert HasBlock(cover, v, first);
      var b0 :| b0 in cover && b0.version == v && Canonical(b0) && Contains(b0, Addr(v, first));
      assert b0 !in later && later + {b0} <= cover;
      SubsetSize(later + {b0}, cover);
      assert |later + {b0}| == |later| + 1;
    }
  }

  lemma SubsetSize<T>(a: set<T>, b: set<T>)
    requires a <= b
    ensures |a| <= |b|
  {
    assert b == a + (b - a);
    assert |b| == |a| + |b - a|;
  }

  // ---- How many blocks at most -----------------------------------------------------

  function BlockSet(blocks: seq<Block>): set<Block>
  {
    set b | b in blocks
  }

  lemma {:induction false} BlockSetSize(blocks: seq<Block>)
    ensures |BlockSet(blocks)| <= |blocks|
  {
    if blocks != [] {
      BlockSetSize(blocks[1..]);
      assert BlockSet(blocks) == BlockSet(blocks[1..]) + {blocks[0]};
    }
  }

  lemma {:induction false} TilesCover(blocks: seq<Block>, v: Version, first: int, last: int)
    requires Tiles(blocks, v, first, last)
    ensures first <= last + 1 && Covers(BlockSet(blocks), v, first, last)
  {
    if blocks != [] {
      var rest, next := blocks[1..], first + Size(blocks[0]);
      TilesCover(rest, v, next, last);
      assert BlockSet(blocks) == BlockSet(rest) + {blocks[0]};
      forall n: nat | first <= n <= last ensures HasBlock(BlockSet(blocks), v, n) {
        if n < next {
          assert Contains(blocks[0], Addr(v, n));
        } else {
          assert HasBlock(BlockSet(rest), v, n);
        }
      }
    }
  }

  /** Summarising in two pieces takes at least as many blocks. */
  lemma Subadditive(v: Version, first: nat, mid: nat, last: int)
    requires InSpace(v, last) && first <= mid <= last + 1
    ensures |Summarize(v, first, last)| <= |Summarize(v, first, mid - 1)| + |Summarize(v, mid, last)|
  {
    hide Summarize, Covers, Tiles;
    var l, r := Summarize(v, first, mid - 1), Summarize(v, mid, last);
    SummarizeTiles(v, first, mid - 1);
    SummarizeTiles(v, mid, last);
    TilesCover(l, v, first, mid - 1);
    TilesCover(r, v, mid, last);
    CoversUnion(BlockSet(l), BlockSet(r), v, first, mid, last);
    GreedyIsMinimal(v, first, last, BlockSet(l) + BlockSet(r));
    BlockSetSize(l);
    BlockSetSize(r);
  }

  lemma CoversUnion(l: set<Block>, r: set<Block>, v: Version, first: nat, mid: nat, last: int)
    requires first <= mid <= last + 1 && Covers(l, v, first, mid - 1) && Covers(r, v, mid, last)
    ensures Covers(l + r, v, first, last)
  {
    forall n: nat | first <= n <= last ensures HasBlock(l + r, v, n) {
      assert HasBlock(l, v, n) || HasBlock(r, v, n);
    }
  }

  /** One aligned block needs one block. */
  lemma WholeBlock(v: Version, first: nat, k: nat)
    requires k <= Width(v) && first % Pow2(k) == 0 && InSpace(v, first + Pow2(k) - 1)
    ensures Summarize(v, first, first + Pow2(k) - 1) == [Block(v, first, Width(v) - k)]
  {
    hide Pow2, HostBits;
    var last := first + Pow2(k) - 1;
    HostBitsLargest(first, last, Width(v), k);
    FirstBlock(v, first, last);
    Pow2Monotone(k, HostBits(first, last, Width(v)));
    assert Summarize(v, last + 1, last) == [];
  }

  lemma HalfAligned(first: nat, k: nat)
    requires k >= 1 && first % Pow2(k) == 0
    ensures first % Pow2(k - 1) == 0 && (first + Pow2(k - 1)) % Pow2(k - 1) == 0
  {
    hide Pow2;
    var p, h := Pow2(k), Pow2(k - 1);
    assert p == 2 * h by { Pow2Double(k); }
    DivMod(first, p);
    assert first == h * (2 * (first / p)) + 0 by { Associate(h, 2, first / p); }
    ModUnique(first, h, 2 * (first / p), 0);
    assert first + h == h * (2 * (first / p) + 1) + 0;
    ModUnique(first + h, h, 2 * (first / p) + 1, 0);
  }

  lemma Pow2Double(k: nat)
    requires k >= 1
    ensures Pow2(k) == 2 * Pow2(k - 1)
  {
  }

  /** A range that starts at a multiple of 2^k and is shorter than that needs at most k blocks. */
  lemma {:induction false} PrefixBound(v: Version, first: nat, count: nat, k: nat)
    requires k <= Width(v) && first % Pow2(k) == 0 && count < Pow2(k) && InSpace(v, first + count - 1)
    ensures |Summarize(v, first, first + count - 1)| <= k
    decreases k
  {
    hide Summarize;
    if count == 0 {
      NoBlocks(v, first);
    } else {
      Pow2Double(k);
      HalfAligned(first, k);
      var h := Pow2(k - 1);
      if count < h {
        PrefixBound(v, first, count, k - 1);
      } else {
        Subadditive(v, first, first + h, first + count - 1);
        WholeBlock(v, first, k - 1);
        PrefixBound(v, first + h, count - h, k - 1);
      }
    }
  }

  lemma NoBlocks(v: Version, first: nat)
    requires InSpace(v, first - 1)
    ensures Summarize(v, first, first - 1) == []
  {
  }

  /** So does one that ends just before a multiple of 2^k. */
  lemma {:induction false} SuffixBound(v: Version, first: nat, count: nat, k: nat)
    requires k <= Width(v) && first % Pow2(k) == 0 && count < Pow2(k) && InSpace(v, first + Pow2(k) - 1)
    ensures |Summarize(v, first + Pow2(k) - count, first + Pow2(k) - 1)| <= k
    decreases k
  {
    hide Summarize;
    if count == 0 {
      NoBlocks(v, first + Pow2(k));
    } else {
      Pow2Double(k);
      HalfAligned(first, k);
      var h := Pow2(k - 1);
      if count < h {
        SuffixBound(v, first + h, count, k - 1);
      } else {
        Subadditive(v, first + Pow2(k) - count, first + h, first + Pow2(k) - 1);
        WholeBlock(v, first + h, k - 1);
        SuffixBound(v, first, count - h, k - 1);
      }
    }
  }

  /** A range inside an aligned block of 2^k addresses. */
  lemma {:induction false} InnerBound(v: Version, base: nat, k: nat, first: nat, last: nat)
    requires k <= Width(v) && base % Pow2(k) == 0 && base <= first <= last < base + Pow2(k)
        && InSpace(v, base + Pow2(k) - 1)
    ensures |Summarize(v, first, last)| <= Max(1, 2 * (k - 1))
    decreases k
  {
    hide Summarize;
    if first == base && last == base + Pow2(k) - 1 {
      WholeBlock(v, base, k);
    } else {
      assert k > 0 by { assert Pow2(0) == 1; }
      Pow2Double(k);
      HalfAligned(base, k);
      var h := Pow2(k - 1);
      if last < base + h {
        InnerBound(v, base, k - 1, first, last);
      } else if first >= base + h {
        InnerBound(v, base + h, k - 1, first, last);
      } else {
        HalvesBound(v, base, k, first, last);
      }
    }
  }

  lemma HalvesBound(v: Version, base: nat, k: nat, first: nat, last: nat)
    requires 0 < k <= Width(v) && base % Pow2(k) == 0 && InSpace(v, base + Pow2(k) - 1)
    requires base <= first < base + Pow2(k - 1) <= last < base + Pow2(k)
    requires first != base || last != base + Pow2(k) - 1
    ensures |Summarize(v, first, last)| <= Max(1, 2 * (k - 1))
  {
    hide Summarize;
    Pow2Double(k);
    HalfAligned(base, k);
    var h := Pow2(k - 1);
    var mid := base + h;
    assert k >= 2 by { assert Pow2(0) == 1; }
    Subadditive(v, first, mid, last);
    if first == base {
      WholeBlock(v, base, k - 1);
    } else {
      SuffixBound(v, base, mid - first, k - 1);
    }
    if last == mid + h - 1 {
      WholeBlock(v, mid, k - 1);
    } else {
      PrefixBound(v, mid, last - mid + 1, k - 1);
    }
  }

  /** At most 62 blocks for any IPv4 range, 254 for any IPv6 range. */
  lemma AtMost62(v: Version, first: nat, last: int)
    requires InSpace(v, last)
    ensures |Summarize(v, first, last)| <= if v.V4? then 62 else 254
  {
    if first <= last {
      ZeroMod(Width(v));
      hide Pow2, Summarize;
      InnerBound(v, 0, Width(v), first, last);
    }
  }

  // ---- The library function --------------------------------------------------------

  /** The blocks, the TypeError for mixed versions, or the ValueError for a reversed range. */
  datatype Summary = Blocks(blocks: seq<Block>) | MixedVersions | Reversed

  method SummarizeAddressRange(first: Addr, last: Addr) returns (r: Summary)
    requires ValidAddr(first) && ValidAddr(last)
    ensures r.MixedVersions? <==> first.version != last.version
    ensures r.Reversed? <==> first.version == last.version && first.n > last.n
    ensures r.Blocks? ==> r.blocks == Summarize(first.version, first.n, last.n)
  {
    if first.version != last.version {
      return MixedVersions;
    }
    if first.n > last.n {
      return Reversed;
    }
    hide *;
    var v, next, blocks := first.version, first.n, [];
    LastInSpace(last);
    ghost var all := Summarize(v, next, last.n);
    assert [] + all == all;
    while next <= last.n
      invariant InSpace(v, last.n) && blocks + Summarize(v, next, last.n) == all
      decreases last.n - next + 1
    {
      var k := LoopStep(v, next, last.n, blocks);
      blocks := blocks + [Block(v, next, Width(v) - k)];
      next := next + Pow2(k);
      if next == Pow2(Width(v)) {
        break;
      }
    }
    SpaceEnds(v, last.n, next);
    r := Blocks(blocks);
  }

  lemma LastInSpace(last: Addr)
    requires ValidAddr(last)
    ensures InSpace(last.version, last.n)
  {
  }

  /** After the loop, by its guard or by the break, nothing of the range is left. */
  lemma SpaceEnds(v: Version, last: int, next: nat)
    requires InSpace(v, last) && (next > last || next == Pow2(Width(v)))
    ensures Summarize(v, next, last) == []
    ensures forall blocks: seq<Block> :: blocks + [] == blocks
  {
  }

  method LoopStep(v: Version, next: nat, last: nat, ghost blocks: seq<Block>) returns (k: nat)
    requires next <= last && InSpace(v, last)
    ensures k == HostBits(next, last, Width(v)) && k <= Width(v) && Pow2(k) >= 1
    ensures blocks + Summarize(v, next, last)
        == (blocks + [Block(v, next, Width(v) - k)]) + Summarize(v, next + Pow2(k), last)
  {
    hide Pow2, HostBits;
    FirstBlock(v, next, last);
    k := HostBits(next, last, Width(v));
    hide Summarize;
    ghost var b, rest := Block(v, next, Width(v) - k), Summarize(v, next + Pow2(k), last);
    assert blocks + ([b] + rest) == (blocks + [b]) + rest;
  }

  /** What the provider promises of the blocks of a range: they tile it, no cover of it by
      blocks is smaller, and there are at most 62 (IPv4) or 254 (IPv6). */
  lemma MinimalTiling(v: Version, first: nat, last: nat)
    requires first <= last && InSpace(v, last)
    ensures Tiles(Summarize(v, first, last), v, first, last)
    ensures forall cover :: Covers(cover, v, first, last) ==> |Summarize(v, first, last)| <= |cover|
    ensures |Summarize(v, first, last)| <= if v.V4? then 62 else 254
  {
    SummarizeTiles(v, first, last);
    AtMost62(v, first, last);
    forall cover | Covers(cover, v, first, last) ensures |Summarize(v, first, last)| <= |cover| {
      GreedyIsMinimal(v, first, last, cover);
    }
  }

  /** The first block is the largest that starts the range, and is the whole range exactly when
      the range is one aligned block. */
  lemma FirstIsWhole(v: Version, first: nat, last: nat)
    requires first <= last && InSpace(v, last)
    ensures Summarize(v, first, last) != []
    ensures var b := Summarize(v, first, last)[0];
      && Canonical(b) && b.version == v && b.base == first && first + Size(b) <= last + 1
      && (forall c :: Canonical(c) && c.version == v && c.base == first && first + Size(c) <= last + 1 ==>
           Size(c) <= Size(b))
      && (first + Size(b) == last + 1 <==>
           exists c :: Canonical(c) && c.version == v && c.base == first && first + Size(c) == last + 1)
  {
    hide HostBits, Pow2;
    FirstBlock(v, first, last);
    var k := HostBits(first, last, Width(v));
    var b := Summarize(v, first, last)[0];
    forall c | Canonical(c) && c.version == v && c.base == first && first + Size(c) <= last + 1
        ensures Size(c) <= Size(b) {
      HostBitsLargest(first, last, Width(v), Width(v) - c.len);
      Pow2Monotone(Width(v) - c.len, k);
    }
    assert Canonical(b);
  }
}
