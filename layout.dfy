/**
 * Boundary-tag layout of the explicit-list allocator.
 *
 * Every block of the heap is a header (size, state, list links), a payload of
 * `size` bytes and a footer repeating the size. Memory is modelled as two maps
 * from byte addresses to the header and footer records stored there; pointer
 * arithmetic is integer arithmetic on those addresses.
 */
module Layout {

  /** A byte address; raw pointers become integer offsets. */
  type Addr = int

  /** sizeof(el_blockhead_t): a size_t size, a state byte padded to eight bytes, two pointers. */
  const HEAD_SIZE: int := 32
  /** sizeof(el_blockfoot_t): one size_t size. */
  const FOOT_SIZE: int := 8
  /** EL_BLOCK_OVERHEAD: the header and footer bytes every block costs. */
  const OVERHEAD: int := HEAD_SIZE + FOOT_SIZE
  /** The null pointer; no heap address is NULL. */
  const NULL: Addr := 0
  /** EL_UNINITIALIZED, the size stored in list sentinels; no block has a negative size. */
  const UNINITIALIZED: int := -1

  /** The state tag of a header: EL_AVAILABLE, EL_USED, the two sentinel tags, or a zero byte. */
  datatype State = Available | Used | BeginBlock | EndBlock | Unset

  /** el_blockhead_t. */
  datatype BlockHead = BlockHead(size: int, state: State, prev: Addr, next: Addr)

  /** What freshly mapped (zero-filled) memory holds where no header was ever written. */
  const ZERO_HEAD: BlockHead := BlockHead(0, Unset, NULL, NULL)

  /** Header records by address, and footer sizes (el_blockfoot_t) by address. */
  type Heads = map<Addr, BlockHead>
  type Foots = map<Addr, int>

  /** The header record stored at `a`; memory where no header was written reads as zeros. */
  function HeadAt(h: Heads, a: Addr): BlockHead
  {
    if a in h then h[a] else ZERO_HEAD
  }

  /** The footer size stored at `a`; memory where no footer was written reads as zero. */
  function FootAt(f: Foots, a: Addr): int
  {
    if a in f then f[a] else 0
  }

  /** Stores into one field of the header at `a` (`a->size = v` and so on). */
  function SetSize(h: Heads, a: Addr, v: int): Heads
  {
    h[a := HeadAt(h, a).(size := v)]
  }

  function SetState(h: Heads, a: Addr, v: State): Heads
  {
    h[a := HeadAt(h, a).(state := v)]
  }

  function SetPrev(h: Heads, a: Addr, v: Addr): Heads
  {
    h[a := HeadAt(h, a).(prev := v)]
  }

  function SetNext(h: Heads, a: Addr, v: Addr): Heads
  {
    h[a := HeadAt(h, a).(next := v)]
  }

  function FooterAddr(head: Addr, size: int): Addr
  {
    head + HEAD_SIZE + size
  }

  function HeaderAddr(foot: Addr, size: int): Addr
  {
    foot - size - HEAD_SIZE
  }

  /** The first address past a block: its header address plus its whole footprint. */
  function End(h: Heads, b: Addr): Addr
  {
    b + HeadAt(h, b).size + OVERHEAD
  }

  /** el_get_footer: the footer lies past the header and `size` payload bytes. */
  function GetFooter(h: Heads, head: Addr): (foot: Addr)
    ensures HeaderAddr(foot, HeadAt(h, head).size) == head
  {
    FooterAddr(head, HeadAt(h, head).size)
  }

  /** el_get_header: the header lies `size` payload bytes and a header below the footer. */
  function GetHeader(f: Foots, foot: Addr): (head: Addr)
    ensures FooterAddr(head, FootAt(f, foot)) == foot
  {
    HeaderAddr(foot, FootAt(f, foot))
  }

  /** el_block_above: the header one footprint higher, or NULL when that is past the heap. */
  function BlockAbove(h: Heads, heapEnd: Addr, b: Addr): Addr
  {
    var higher := b + HeadAt(h, b).size + OVERHEAD;
    if higher >= heapEnd then NULL else higher
  }

  /** el_block_below: the header recovered from the footer just below `b`, or NULL below the heap. */
  function BlockBelow(f: Foots, heapStart: Addr, b: Addr): Addr
  {
    var prevFoot := b - FOOT_SIZE;
    if prevFoot < heapStart then NULL else GetHeader(f, prevFoot)
  }

  /** Footer/header round trip: a footer whose size matches its header leads back to it. */
  lemma HeaderOfFooter(h: Heads, f: Foots, head: Addr)
    requires FootAt(f, GetFooter(h, head)) == HeadAt(h, head).size
    ensures GetHeader(f, GetFooter(h, head)) == head
  {
  }

  /** Positions i and j of `s` hold different addresses. */
  ghost predicate Apart(s: seq<Addr>, i: int, j: int)
    requires 0 <= i < |s| && 0 <= j < |s|
  {
    s[i] != s[j]
  }

  /** No address occurs twice in `s`. */
  ghost predicate Distinct(s: seq<Addr>)
  {
    forall i, j :: 0 <= i < j < |s| ==> Apart(s, i, j)
  }

  lemma DistinctAt(s: seq<Addr>, i: int, j: int)
    requires Distinct(s) && 0 <= i < |s| && 0 <= j < |s| && i != j
    ensures s[i] != s[j]
  {
    if i < j {
      assert Apart(s, i, j);
    } else {
      assert Apart(s, j, i);
    }
  }

  lemma DistinctTail(s: seq<Addr>)
    requires Distinct(s) && |s| > 0
    ensures Distinct(s[1..]) && s[0] !in s[1..]
  {
    forall i, j | 0 <= i < j < |s| - 1
      ensures Apart(s[1..], i, j)
    {
      assert Apart(s, i + 1, j + 1);
    }
    forall j | 0 <= j < |s| - 1
      ensures s[1..][j] != s[0]
    {
      assert Apart(s, 0, j + 1);
    }
  }

  /**
   * The blocks `bl`, in address order, tile [start, end): each starts where the
   * previous one ends, each has a non-negative size, and each footer repeats its
   * header's size.
   */
  ghost predicate Tiles(h: Heads, f: Foots, start: Addr, end: Addr, bl: seq<Addr>)
  {
    && |bl| > 0
    && bl[0] == start
    && (forall i :: 0 <= i < |bl| ==> TagsAgree(h, f, bl[i]))
    && (forall i :: 0 <= i < |bl| - 1 ==> Abuts(h, bl, i))
    && bl[|bl| - 1] in h && End(h, bl[|bl| - 1]) == end
  }

  /** Block i + 1 starts where block i ends. */
  ghost predicate Abuts(h: Heads, bl: seq<Addr>, i: int)
    requires 0 <= i < |bl| - 1
  {
    bl[i] in h && bl[i + 1] == End(h, bl[i])
  }

  /** Header and footer of the block at `b` exist and record the same size. */
  ghost predicate TagsAgree(h: Heads, f: Foots, b: Addr)
  {
    b in h && h[b].size >= 0 && GetFooter(h, b) in f && f[GetFooter(h, b)] == h[b].size
  }

  lemma {:induction false} TilesStep(h: Heads, f: Foots, start: Addr, end: Addr, bl: seq<Addr>, i: nat, j: nat)
    requires Tiles(h, f, start, end, bl)
    requires i < j < |bl|
    ensures End(h, bl[i]) <= bl[j]
    decreases j - i
  {
    assert Abuts(h, bl, j - 1);
    if i + 1 < j {
      TilesStep(h, f, start, end, bl, i, j - 1);
      assert TagsAgree(h, f, bl[j - 1]);
    }
  }

  /** Tiled blocks are strictly ordered, lie within [start, end), and are therefore distinct. */
  lemma TilesOrdered(h: Heads, f: Foots, start: Addr, end: Addr, bl: seq<Addr>)
    requires Tiles(h, f, start, end, bl)
    ensures forall i, j :: 0 <= i < j < |bl| ==> End(h, bl[i]) <= bl[j]
    ensures forall i :: 0 <= i < |bl| ==> start <= bl[i] < End(h, bl[i]) <= end
    ensures Distinct(bl)
  {
    forall i, j | 0 <= i < j < |bl|
      ensures End(h, bl[i]) <= bl[j]
    {
      TilesStep(h, f, start, end, bl, i, j);
    }
    forall i | 0 <= i < |bl|
      ensures start <= bl[i] < End(h, bl[i]) <= end
    {
      assert TagsAgree(h, f, bl[i]) && TagsAgree(h, f, bl[0]);
      if i < |bl| - 1 {
        assert End(h, bl[i]) <= bl[|bl| - 1];
        assert TagsAgree(h, f, bl[|bl| - 1]);
      }
    }
    forall i, j | 0 <= i < j < |bl|
      ensures Apart(bl, i, j)
    {
      assert bl[i] < End(h, bl[i]) <= bl[j];
    }
  }

  /** No header of a tiled block lies strictly inside another block. */
  lemma TilesNoInterior(h: Heads, f: Foots, start: Addr, end: Addr, bl: seq<Addr>, k: nat, a: Addr)
    requires Tiles(h, f, start, end, bl) && k < |bl|
    requires bl[k] < a < End(h, bl[k])
    ensures a !in bl
  {
    TilesOrdered(h, f, start, end, bl);
    forall j | 0 <= j < |bl|
      ensures bl[j] != a
    {
      if j < k {
        assert End(h, bl[j]) <= bl[k];
      } else if j > k {
        assert End(h, bl[k]) <= bl[j];
      }
    }
  }

  /** el_block_above on a tiled block finds the next block, and NULL for the last one. */
  lemma AboveInTiling(h: Heads, f: Foots, start: Addr, end: Addr, bl: seq<Addr>, k: nat)
    requires Tiles(h, f, start, end, bl) && k < |bl|
    ensures bl[k] in h
    ensures BlockAbove(h, end, bl[k]) == if k + 1 < |bl| then bl[k + 1] else NULL
  {
    TilesOrdered(h, f, start, end, bl);
    if k + 1 < |bl| {
      assert Abuts(h, bl, k);
    }
  }

  /** el_block_below on a tiled block finds the previous block, and NULL for the first one. */
  lemma BelowInTiling(h: Heads, f: Foots, start: Addr, end: Addr, bl: seq<Addr>, k: nat)
    requires Tiles(h, f, start, end, bl) && k < |bl|
    ensures BlockBelow(f, start, bl[k]) == if k > 0 then bl[k - 1] else NULL
  {
    TilesOrdered(h, f, start, end, bl);
    if k > 0 {
      assert TagsAgree(h, f, bl[k - 1]) && Abuts(h, bl, k - 1);
      assert bl[k] - FOOT_SIZE == GetFooter(h, bl[k - 1]);
    }
  }

  /** Going one block up and then one block down returns to the starting block. */
  lemma BelowOfAbove(h: Heads, f: Foots, start: Addr, end: Addr, bl: seq<Addr>, k: nat)
    requires Tiles(h, f, start, end, bl) && k < |bl|
    requires BlockAbove(h, end, bl[k]) != NULL
    ensures BlockBelow(f, start, BlockAbove(h, end, bl[k])) == bl[k]
  {
    AboveInTiling(h, f, start, end, bl, k);
    BelowInTiling(h, f, start, end, bl, k + 1);
  }

  /** The header map after el_split_block shrinks `b` to `n` and writes the remainder header. */
  function SplitHeads(h: Heads, b: Addr, n: int): Heads
  {
    SetSize(SetSize(h, b, n), b + n + OVERHEAD, HeadAt(h, b).size - n - OVERHEAD)
  }

  /**
   * el_split_block writes only sizes: every state tag and link is kept; `b` gets
   * size `n`; the returned header is the block right above `b` when it lies in the
   * heap; and the two footprints add up to the old one.
   */
  lemma SplitSizesOnly(h: Heads, heapEnd: Addr, b: Addr, n: int)
    requires 0 <= n
    ensures var h2 := SplitHeads(h, b, n);
            forall a :: HeadAt(h2, a).state == HeadAt(h, a).state && HeadAt(h2, a).prev == HeadAt(h, a).prev
                        && HeadAt(h2, a).next == HeadAt(h, a).next
    ensures var h2 := SplitHeads(h, b, n);
            var nh := b + n + OVERHEAD;
            && HeadAt(h2, b).size == n
            && (nh < heapEnd ==> BlockAbove(h2, heapEnd, b) == nh)
            && (HeadAt(h2, b).size + OVERHEAD) + (HeadAt(h2, nh).size + OVERHEAD) == HeadAt(h, b).size + OVERHEAD
  {
  }

  /** The footer map after el_split_block writes the new footer of `b` and rewrites the old one. */
  function SplitFoots(h: Heads, f: Foots, b: Addr, n: int): Foots
  {
    f[FooterAddr(b, n) := n][GetFooter(h, b) := HeadAt(h, b).size - n - OVERHEAD]
  }

  /** Preconditions shared by the split lemmas. */
  ghost predicate SplitFits(h: Heads, f: Foots, start: Addr, end: Addr, bl: seq<Addr>, k: nat, n: int)
  {
    Tiles(h, f, start, end, bl) && k < |bl| && 0 <= n && bl[k] in h && n + OVERHEAD <= h[bl[k]].size
  }

  lemma SplitTagsAt(h: Heads, f: Foots, start: Addr, end: Addr, bl: seq<Addr>, k: nat, n: int, i: nat)
    requires SplitFits(h, f, start, end, bl, k, n) && i < |bl| + 1
    requires forall i, j :: 0 <= i < j < |bl| ==> End(h, bl[i]) <= bl[j]
    requires bl[k] + n + OVERHEAD !in bl
    ensures TagsAgree(SplitHeads(h, bl[k], n), SplitFoots(h, f, bl[k], n), (bl[..k] + [bl[k], bl[k] + n + OVERHEAD] + bl[k + 1..])[i])
  {
    var b := bl[k];
    var h2 := SplitHeads(h, b, n);
    var f2 := SplitFoots(h, f, b, n);
    var bl' := bl[..k] + [b, b + n + OVERHEAD] + bl[k + 1..];
    if i < k {
      assert bl'[i] == bl[i] && TagsAgree(h, f, bl[i]);
      assert End(h, bl[i]) <= b;
    } else if i == k {
      assert bl'[i] == b;
    } else if i == k + 1 {
      assert bl'[i] == b + n + OVERHEAD;
      assert TagsAgree(h, f, b);
    } else {
      assert bl'[i] == bl[i - 1] && TagsAgree(h, f, bl[i - 1]);
      assert TagsAgree(h, f, b);
      assert End(h, b) <= bl[i - 1];
    }
  }

  lemma SplitChainAt(h: Heads, f: Foots, start: Addr, end: Addr, bl: seq<Addr>, k: nat, n: int, i: nat)
    requires SplitFits(h, f, start, end, bl, k, n) && i < |bl|
    requires forall i, j :: 0 <= i < j < |bl| ==> End(h, bl[i]) <= bl[j]
    requires bl[k] + n + OVERHEAD !in bl
    ensures var bl' := bl[..k] + [bl[k], bl[k] + n + OVERHEAD] + bl[k + 1..];
            var h2 := SplitHeads(h, bl[k], n);
            Abuts(h2, bl', i)
  {
    var b := bl[k];
    var bl' := bl[..k] + [b, b + n + OVERHEAD] + bl[k + 1..];
    if i < k {
      assert bl'[i] == bl[i] && bl'[i + 1] == bl[i + 1];
      assert End(h, bl[i]) <= b && Abuts(h, bl, i);
    } else if i == k {
    } else if i == k + 1 {
      assert bl'[i + 1] == bl[k + 1] && Abuts(h, bl, k);
    } else {
      assert bl'[i] == bl[i - 1] && bl'[i + 1] == bl[i];
      assert End(h, b) <= bl[i - 1] && Abuts(h, bl, i - 1);
    }
  }

  /**
   * Splitting block k at `n` (el_split_block): shrinking it to n, writing its new
   * footer, carving a header of the remainder right after it and rewriting the old
   * footer gives a tiling with the new block inserted after block k. The new header
   * is not an existing block, lies inside the heap, and the two footprints add up to
   * the old one.
   */
  lemma TilesSplit(h: Heads, f: Foots, start: Addr, end: Addr, bl: seq<Addr>, k: nat, n: int)
    requires SplitFits(h, f, start, end, bl, k, n)
    ensures var b := bl[k];
            var nh := b + n + OVERHEAD;
            var h2 := SplitHeads(h, b, n);
            && nh !in bl && nh != b && start < nh < end
            && h2[b].size == n && h2[nh].size == h[b].size - n - OVERHEAD
            && (h2[b].size + OVERHEAD) + (h2[nh].size + OVERHEAD) == h[b].size + OVERHEAD
            && Tiles(h2, SplitFoots(h, f, b, n), start, end, bl[..k] + [b, nh] + bl[k + 1..])
  {
    TilesOrdered(h, f, start, end, bl);
    var b := bl[k];
    var nh := b + n + OVERHEAD;
    var h2 := SplitHeads(h, b, n);
    var f2 := SplitFoots(h, f, b, n);
    TilesNoInterior(h, f, start, end, bl, k, nh);
    var bl' := bl[..k] + [b, nh] + bl[k + 1..];
    assert |bl'| == |bl| + 1;
    forall i | 0 <= i < |bl'|
      ensures TagsAgree(h2, f2, bl'[i])
    {
      SplitTagsAt(h, f, start, end, bl, k, n, i);
    }
    forall i | 0 <= i < |bl'| - 1
      ensures Abuts(h2, bl', i)
    {
      SplitChainAt(h, f, start, end, bl, k, n, i);
    }
    assert bl'[0] == start by {
      if k > 0 {
        assert bl'[0] == bl[0];
      }
    }
    var last := bl[|bl| - 1];
    if k < |bl| - 1 {
      assert bl'[|bl'| - 1] == last;
      assert End(h, b) <= last && last != nh;
      assert HeadAt(h2, last) == HeadAt(h, last);
      assert End(h2, last) == end;
    } else {
      assert bl'[|bl'| - 1] == nh;
      assert End(h2, nh) == end;
    }
  }

  /** The payload of `lo` merged with `hi`: both payloads and the reclaimed overhead. */
  function MergedSize(h: Heads, lo: Addr, hi: Addr): int
  {
    HeadAt(h, lo).size + HeadAt(h, hi).size + OVERHEAD
  }

  /** The header map after el_merge_block_with_above gives `lo` the merged size. */
  function MergeHeads(h: Heads, lo: Addr, hi: Addr): Heads
  {
    SetSize(h, lo, MergedSize(h, lo, hi))
  }

  /** The footer map after el_merge_block_with_above writes the merged size into the footer of `hi`. */
  function MergeFoots(h: Heads, f: Foots, lo: Addr, hi: Addr): Foots
  {
    f[GetFooter(h, hi) := MergedSize(h, lo, hi)]
  }

  lemma MergeTagsAt(h: Heads, f: Foots, start: Addr, end: Addr, bl: seq<Addr>, k: nat, i: nat)
    requires Tiles(h, f, start, end, bl) && k + 1 < |bl| && i < |bl| - 1
    requires forall i, j :: 0 <= i < j < |bl| ==> End(h, bl[i]) <= bl[j]
    requires forall i :: 0 <= i < |bl| ==> start <= bl[i] < End(h, bl[i]) <= end
    ensures TagsAgree(MergeHeads(h, bl[k], bl[k + 1]), MergeFoots(h, f, bl[k], bl[k + 1]), (bl[..k] + [bl[k]] + bl[k + 2..])[i])
  {
    var lo, hi := bl[k], bl[k + 1];
    var bl' := bl[..k] + [lo] + bl[k + 2..];
    assert TagsAgree(h, f, lo) && TagsAgree(h, f, hi) && Abuts(h, bl, k);
    if i < k {
      assert bl'[i] == bl[i] && TagsAgree(h, f, bl[i]);
      assert End(h, bl[i]) <= lo;
    } else if i == k {
      assert bl'[i] == lo;
    } else {
      assert bl'[i] == bl[i + 1] && TagsAgree(h, f, bl[i + 1]);
      assert End(h, hi) <= bl[i + 1];
    }
  }

  lemma MergeChainAt(h: Heads, f: Foots, start: Addr, end: Addr, bl: seq<Addr>, k: nat, i: nat)
    requires Tiles(h, f, start, end, bl) && k + 1 < |bl| && i < |bl| - 2
    requires forall i, j :: 0 <= i < j < |bl| ==> End(h, bl[i]) <= bl[j]
    ensures var bl' := bl[..k] + [bl[k]] + bl[k + 2..];
            var h1 := MergeHeads(h, bl[k], bl[k + 1]);
            Abuts(h1, bl', i)
  {
    var lo := bl[k];
    var bl' := bl[..k] + [lo] + bl[k + 2..];
    if i < k {
      assert bl'[i] == bl[i] && bl'[i + 1] == bl[i + 1];
      assert End(h, bl[i]) <= lo && Abuts(h, bl, i);
    } else if i == k {
      assert bl'[i + 1] == bl[k + 2] && Abuts(h, bl, k) && Abuts(h, bl, k + 1);
    } else {
      assert bl'[i] == bl[i + 1] && bl'[i + 1] == bl[i + 2];
      assert End(h, lo) <= bl[i + 1] && Abuts(h, bl, i + 1);
    }
  }

  /**
   * Merging block k with block k + 1 (el_merge_block_with_above): the lower header
   * takes both payloads and the reclaimed overhead, and the upper footer records the
   * same size; what remains tiles the heap with block k + 1 dropped.
   */
  lemma TilesMerge(h: Heads, f: Foots, start: Addr, end: Addr, bl: seq<Addr>, k: nat)
    requires Tiles(h, f, start, end, bl) && k + 1 < |bl|
    ensures bl[k] in h && bl[k + 1] in h
    ensures var h1 := MergeHeads(h, bl[k], bl[k + 1]);
            && End(h1, bl[k]) == End(h, bl[k + 1])
            && Tiles(h1, MergeFoots(h, f, bl[k], bl[k + 1]), start, end, bl[..k] + [bl[k]] + bl[k + 2..])
  {
    TilesOrdered(h, f, start, end, bl);
    var lo := bl[k];
    var hi := bl[k + 1];
    var h1 := MergeHeads(h, lo, hi);
    var f1 := MergeFoots(h, f, lo, hi);
    var bl' := bl[..k] + [lo] + bl[k + 2..];
    assert |bl'| == |bl| - 1 && Abuts(h, bl, k);
    forall i | 0 <= i < |bl'|
      ensures TagsAgree(h1, f1, bl'[i])
    {
      MergeTagsAt(h, f, start, end, bl, k, i);
    }
    forall i | 0 <= i < |bl'| - 1
      ensures Abuts(h1, bl', i)
    {
      MergeChainAt(h, f, start, end, bl, k, i);
    }
    assert bl'[0] == start by {
      if k > 0 {
        assert bl'[0] == bl[0];
      }
    }
    var last := bl[|bl| - 1];
    if k + 2 < |bl| {
      assert bl'[|bl'| - 1] == last && last != lo;
      assert HeadAt(h1, last) == HeadAt(h, last);
      assert End(h1, last) == end;
    } else {
      assert bl'[|bl'| - 1] == lo && last == hi;
      assert End(h1, lo) == end;
    }
  }

  /** Tiling depends only on the sizes of the tiled headers and on the footers. */
  lemma TilesFrame(h: Heads, h': Heads, f: Foots, start: Addr, end: Addr, bl: seq<Addr>)
    requires Tiles(h, f, start, end, bl)
    requires forall i :: 0 <= i < |bl| ==> bl[i] in h' && h'[bl[i]].size == HeadAt(h, bl[i]).size
    ensures Tiles(h', f, start, end, bl)
  {
    forall i | 0 <= i < |bl|
      ensures TagsAgree(h', f, bl[i])
    {
      assert TagsAgree(h, f, bl[i]);
    }
    forall i | 0 <= i < |bl| - 1
      ensures Abuts(h', bl, i)
    {
      assert Abuts(h, bl, i);
    }
  }

  /** Tiling survives a change of state tag. */
  lemma TilesRetag(h: Heads, f: Foots, start: Addr, end: Addr, bl: seq<Addr>, x: Addr, st: State)
    requires Tiles(h, f, start, end, bl)
    ensures Tiles(SetState(h, x, st), f, start, end, bl)
  {
    forall i | 0 <= i < |bl|
      ensures bl[i] in SetState(h, x, st) && SetState(h, x, st)[bl[i]].size == HeadAt(h, bl[i]).size
    {
      assert TagsAgree(h, f, bl[i]);
    }
    TilesFrame(h, SetState(h, x, st), f, start, end, bl);
  }
}
