/**
 * The contracts of the public operations of el_malloc.c on the value model:
 * what el_malloc and el_free compute, and that both keep the heap valid
 * (well-formed lists, a tiling of the heap, balanced counters, the
 * available/used partition and coalescing).
 */
module HeapOps {
  import opened Layout
  import opened BlockLists
  import opened BlockStates
  import opened HeapState
  import opened HeapSteps

  /**
   * el_init on a heap of `heapBytes` bytes at `heapStart`: it records the heap
   * bounds, and it fails with -1, changing nothing else, exactly when the heap
   * cannot hold one block's overhead; otherwise it returns 0.
   */
  lemma InitSpec(m: Mem, heapStart: Addr, heapBytes: nat)
    ensures var (m', rc) := InitMem(m, heapStart, heapBytes);
            && m'.heapStart == heapStart && m'.heapEnd == heapStart + heapBytes && m'.heapBytes == heapBytes
            && (rc == 0 <==> heapBytes >= OVERHEAD) && (rc == -1 <==> heapBytes < OVERHEAD)
            && (heapBytes < OVERHEAD ==> m' == m.(heapStart := heapStart, heapEnd := heapStart + heapBytes, heapBytes := heapBytes))
  {
  }

  /**
   * When el_init succeeds on a heap above NULL, the heap is valid and is one
   * available block spanning all of it, the only member of the available list,
   * with the used list empty.
   */
  lemma InitValid(m: Mem, heapStart: Addr, heapBytes: nat)
    requires NULL < heapStart && heapBytes >= OVERHEAD
    ensures var m' := InitMem(m, heapStart, heapBytes).0;
            && Valid(m') && m'.blocks == [heapStart]
            && m'.availMembers == [heapStart] && m'.usedMembers == []
            && IsAvail(m'.heads, heapStart) && HeadAt(m'.heads, heapStart).size == heapBytes - OVERHEAD
            && m'.avail.length == 1 && m'.avail.bytes == heapBytes
            && m'.used.length == 0 && m'.used.bytes == 0
  {
    var m1 := m.(heapBytes := heapBytes, heapStart := heapStart, heapEnd := heapStart + heapBytes);
    InitListsOk(m1);
    var m2 := InitBlocklistMem(InitBlocklistMem(m1, AvailList), UsedList);
    InitMemAt(m, heapStart, heapBytes);
    FirstBlockValid(m2, heapStart, heapBytes - OVERHEAD);
  }

  /**
   * What el_malloc does when it hands out available block `b` for `n` bytes:
   * it returns the payload of `b`, which now has size `n`, is used and heads the
   * used list; the remainder `nh` right above it is available, has the rest of the
   * old payload less one overhead, and heads the available list; no other state
   * changes; the counters move one footprint of `n` from the available list to the
   * used list.
   */
  ghost predicate HandsOut(m: Mem, n: int, b: Addr, m': Mem, p: Addr)
  {
    var nh := b + n + OVERHEAD;
    && p == b + HEAD_SIZE
    && (exists q :: 0 <= q < |m.blocks| && m.blocks[q] == b && m'.blocks == m.blocks[..q] + [b, nh] + m.blocks[q + 1..])
    && IsUsed(m'.heads, b) && HeadAt(m'.heads, b).size == n
    && IsAvail(m'.heads, nh) && HeadAt(m'.heads, nh).size == HeadAt(m.heads, b).size - n - OVERHEAD
    && StatesKept(m.heads, m'.heads, b, nh)
    && m'.usedMembers == [b] + m.usedMembers
    && m'.availMembers == [nh] + Without(m.availMembers, {b})
    && m'.used.length == m.used.length + 1 && m'.used.bytes == m.used.bytes + (n + OVERHEAD)
    && m'.avail.length == m.avail.length && m'.avail.bytes == m.avail.bytes - (n + OVERHEAD)
    && m'.heapStart == m.heapStart && m'.heapEnd == m.heapEnd && m'.heapBytes == m.heapBytes
  }

  /** el_malloc when the first fitting available block is block q: it hands that block out. */
  lemma MallocAt(m: Mem, n: nat, q: nat, b: Addr)
    requires Valid(m) && q < |m.blocks| && m.blocks[q] == b && b in m.availMembers
    requires FindFirstAvailMem(m, n) == b && Fits(HeadAt(m.heads, b).size, n)
    ensures Valid(MallocMem(m, n).0) && HandsOut(m, n, b, MallocMem(m, n).0, MallocMem(m, n).1)
  {
    var nh := b + n + OVERHEAD;
    CarveKeeps(m, q, n);
    var m1 := RemoveBlockMem(m, AvailList, b);
    var (m2, second) := SplitBlockMem(m1, b, n);
    MallocLink(m2, b, nh);
    var (m', p) := MallocMem(m, n);
    TilesOrdered(m.heads, m.foots, m.heapStart, m.heapEnd, m.blocks);
    assert IsAvail(m.heads, b);
    PartitionSplit(m.heads, m'.heads, m.blocks, q, nh, m.availMembers, m.usedMembers);
    CoalescedSplit(m.heads, m'.heads, m.blocks, q, nh);
  }

  /** el_malloc when some available block fits: it hands out the first one. */
  lemma MallocHit(m: Mem, n: nat)
    requires Valid(m) && FirstFit(m.heads, m.availMembers, n) < |m.availMembers|
    ensures var b := m.availMembers[FirstFit(m.heads, m.availMembers, n)];
            Valid(MallocMem(m, n).0) && HandsOut(m, n, b, MallocMem(m, n).0, MallocMem(m, n).1)
  {
    var am := m.availMembers;
    var b := am[FirstFit(m.heads, am, n)];
    FindFirstAvailSpec(m, n);
    assert b in am;
    assert b in m.blocks;
    var q :| 0 <= q < |m.blocks| && m.blocks[q] == b;
    MallocAt(m, n, q, b);
  }

  /**
   * el_malloc: with no available block of payload at least n + EL_BLOCK_OVERHEAD
   * it returns NULL and changes nothing; otherwise it hands out the first such
   * block of the available list, shrunk to `n`, and the heap stays valid with
   * its counters still adding up to the heap size.
   */
  lemma MallocSpec(m: Mem, n: nat)
    requires Valid(m)
    ensures var (m', p) := MallocMem(m, n);
            var am := m.availMembers;
            var k := FirstFit(m.heads, am, n);
            && Valid(m') && m'.avail.bytes + m'.used.bytes == m.heapBytes
            && (k == |am| ==> p == NULL && m' == m)
            && (k < |am| ==> HandsOut(m, n, am[k], m', p))
  {
    if FirstFit(m.heads, m.availMembers, n) < |m.availMembers| {
      MallocHit(m, n);
    } else {
      FindFirstAvailSpec(m, n);
    }
  }

  /** el_malloc returns NULL exactly when no available block fits the request. */
  lemma MallocNullIff(m: Mem, n: nat)
    requires Valid(m)
    ensures var am := m.availMembers;
            MallocMem(m, n).1 == NULL <==> forall i :: 0 <= i < |am| ==> !Fits(HeadAt(m.heads, am[i]).size, n)
  {
    var am := m.availMembers;
    var k := FirstFit(m.heads, am, n);
    MallocSpec(m, n);
    if k < |am| {
      MemberAboveNull(m, AvailList, am[k]);
    }
  }

  /**
   * el_merge_block_with_above on block k when it and block k + 1 are both
   * available: block k + 1 disappears into block k, which takes both payloads and
   * the reclaimed overhead and heads the available list; the available list is one
   * block shorter with the same byte count; the used list and every state tag stay;
   * and the heap stays sound.
   */
  lemma MergeKeeps(m: Mem, k: nat)
    requires Sound(m) && k + 1 < |m.blocks| && IsAvail(m.heads, m.blocks[k]) && IsAvail(m.heads, m.blocks[k + 1])
    ensures Sound(MergeMem(m, m.blocks[k]))
    ensures MergeMem(m, m.blocks[k]).blocks == m.blocks[..k] + [m.blocks[k]] + m.blocks[k + 2..]
    ensures SameStates(m.heads, MergeMem(m, m.blocks[k]).heads)
    ensures HeadAt(MergeMem(m, m.blocks[k]).heads, m.blocks[k]).size == MergedSize(m.heads, m.blocks[k], m.blocks[k + 1])
    ensures MergeMem(m, m.blocks[k]).availMembers == [m.blocks[k]] + Without(Without(m.availMembers, {m.blocks[k + 1]}), {m.blocks[k]})
    ensures MergeMem(m, m.blocks[k]).avail.length == m.avail.length - 1
    ensures MergeMem(m, m.blocks[k]).avail.bytes == m.avail.bytes
    ensures MergeMem(m, m.blocks[k]).used == m.used && MergeMem(m, m.blocks[k]).usedMembers == m.usedMembers
    ensures MergeMem(m, m.blocks[k]).heapBytes == m.heapBytes
  {
    var lo, hi := m.blocks[k], m.blocks[k + 1];
    assert lo in m.blocks && hi in m.blocks;
    MergeLists(m, k, lo, hi);
    MergeTiles(m, k, lo, hi);
    TilesDistinct(m.heads, m.foots, m.heapStart, m.heapEnd, m.blocks);
    PartitionMerge(m.heads, MergeMem(m, lo).heads, m.blocks, k, m.availMembers, m.usedMembers);
  }

  /**
   * The relinking in el_free of used block q: the heap stays sound, block q is
   * now available and every pair away from it is still coalesced; the block's
   * footprint moves from the used to the available counters.
   */
  lemma FreeRelinkSound(m: Mem, q: nat)
    requires Valid(m) && q < |m.blocks| && IsUsed(m.heads, m.blocks[q])
    ensures Sound(FreeRelinkMem(m, m.blocks[q]))
    ensures CoalescedExcept(FreeRelinkMem(m, m.blocks[q]).heads, m.blocks, m.blocks[q])
    ensures FreeRelinkMem(m, m.blocks[q]).blocks == m.blocks
    ensures IsAvail(FreeRelinkMem(m, m.blocks[q]).heads, m.blocks[q])
    ensures StatesKept(m.heads, FreeRelinkMem(m, m.blocks[q]).heads, m.blocks[q], m.blocks[q])
    ensures FreeRelinkMem(m, m.blocks[q]).used == Shrunk(m.used, HeadAt(m.heads, m.blocks[q]).size)
    ensures FreeRelinkMem(m, m.blocks[q]).usedMembers == Without(m.usedMembers, {m.blocks[q]})
    ensures FreeRelinkMem(m, m.blocks[q]).avail == Grown(m.avail, HeadAt(m.heads, m.blocks[q]).size)
    ensures FreeRelinkMem(m, m.blocks[q]).heapBytes == m.heapBytes
  {
    var x := m.blocks[q];
    assert x in m.blocks;
    FreeRelinkKeeps(m, x);
    var m3 := FreeRelinkMem(m, x);
    PartitionFree(m.heads, m3.heads, m.blocks, m.availMembers, m.usedMembers, x);
    CoalescedRetag(m.heads, m3.heads, m.blocks, x);
  }

  /** 1 when block q + 1 exists and is available, else 0. */
  ghost function AvailAbove(h: Heads, bl: seq<Addr>, q: nat): nat
  {
    if q + 1 < |bl| && IsAvail(h, bl[q + 1]) then 1 else 0
  }

  /** 1 when block q - 1 exists and is available, else 0. */
  ghost function AvailBelow(h: Heads, bl: seq<Addr>, q: nat): nat
  {
    if 0 < q <= |bl| && IsAvail(h, bl[q - 1]) then 1 else 0
  }

  /** Retagging only block q leaves the neighbours' availability alone. */
  lemma NeighboursKept(h: Heads, h': Heads, bl: seq<Addr>, q: nat)
    requires Distinct(bl) && q < |bl| && StatesKept(h, h', bl[q], bl[q])
    ensures AvailAbove(h', bl, q) == AvailAbove(h, bl, q) && AvailBelow(h', bl, q) == AvailBelow(h, bl, q)
  {
    if q + 1 < |bl| {
      DistinctAt(bl, q, q + 1);
    }
    if q > 0 {
      DistinctAt(bl, q - 1, q);
    }
  }

  /** The merge with the block above in el_free, on the just-freed block q, keeps the heap sound. */
  lemma FreeAboveSound(m: Mem, q: nat)
    requires Sound(m) && q < |m.blocks| && IsAvail(m.heads, m.blocks[q])
    ensures Sound(MergeMem(m, m.blocks[q]))
  {
    if q + 1 < |m.blocks| && IsAvail(m.heads, m.blocks[q + 1]) {
      MergeKeeps(m, q);
    } else {
      MergeNothing(m, q);
    }
  }

  /**
   * After that merge block q is still at position q and available, and it is
   * coalesced with what is now above it; every other pair is still coalesced.
   */
  lemma FreeAboveCoalesced(m: Mem, q: nat)
    requires Sound(m) && q < |m.blocks| && IsAvail(m.heads, m.blocks[q])
    requires CoalescedExcept(m.heads, m.blocks, m.blocks[q])
    ensures CoalescedExcept(MergeMem(m, m.blocks[q]).heads, MergeMem(m, m.blocks[q]).blocks, m.blocks[q])
    ensures q < |MergeMem(m, m.blocks[q]).blocks| && MergeMem(m, m.blocks[q]).blocks[q] == m.blocks[q]
    ensures IsAvail(MergeMem(m, m.blocks[q]).heads, m.blocks[q])
    ensures q + 1 < |MergeMem(m, m.blocks[q]).blocks| ==> PairOk(MergeMem(m, m.blocks[q]).heads, MergeMem(m, m.blocks[q]).blocks, q)
  {
    var bl := m.blocks;
    TilesDistinct(m.heads, m.foots, m.heapStart, m.heapEnd, bl);
    if q + 1 < |bl| && IsAvail(m.heads, bl[q + 1]) {
      MergeKeeps(m, q);
      CoalescedMerge(m.heads, MergeMem(m, bl[q]).heads, bl, q);
    } else {
      MergeNothing(m, q);
      if q + 1 < |bl| {
        assert PairOk(m.heads, bl, q);
      }
    }
  }

  /**
   * The blocks after that merge: the heap loses one block exactly when the block
   * above was available, and the blocks below block q are untouched.
   */
  lemma FreeAboveShape(m: Mem, q: nat)
    requires Sound(m) && q < |m.blocks| && IsAvail(m.heads, m.blocks[q])
    ensures |MergeMem(m, m.blocks[q]).blocks| == |m.blocks| - AvailAbove(m.heads, m.blocks, q)
    ensures q < |MergeMem(m, m.blocks[q]).blocks| && MergeMem(m, m.blocks[q]).blocks[..q + 1] == m.blocks[..q + 1]
    ensures q > 0 ==> MergeMem(m, m.blocks[q]).blocks[q - 1] == m.blocks[q - 1]
    ensures AvailBelow(MergeMem(m, m.blocks[q]).heads, MergeMem(m, m.blocks[q]).blocks, q) == AvailBelow(m.heads, m.blocks, q)
  {
    var bl := m.blocks;
    if q + 1 < |bl| && IsAvail(m.heads, bl[q + 1]) {
      MergeKeeps(m, q);
    } else {
      MergeNothing(m, q);
    }
    DropAboveShape(m.heads, MergeMem(m, bl[q]).heads, bl, MergeMem(m, bl[q]).blocks, q);
  }

  /** Dropping the block above block q, when it is available, shifts nothing below q. */
  lemma DropAboveShape(h: Heads, h': Heads, bl: seq<Addr>, bl': seq<Addr>, q: nat)
    requires q < |bl| && SameStates(h, h')
    requires bl' == if q + 1 < |bl| && IsAvail(h, bl[q + 1]) then bl[..q] + [bl[q]] + bl[q + 2..] else bl
    ensures |bl'| == |bl| - AvailAbove(h, bl, q)
    ensures q < |bl'| && bl'[..q + 1] == bl[..q + 1]
    ensures q > 0 ==> bl'[q - 1] == bl[q - 1]
    ensures AvailBelow(h', bl', q) == AvailBelow(h, bl, q)
  {
    if q + 1 < |bl| && IsAvail(h, bl[q + 1]) {
      assert bl'[..q + 1] == bl[..q] + [bl[q]] == bl[..q + 1];
    }
    if q > 0 {
      assert bl'[q - 1] == bl[q - 1];
    }
  }

  /**
   * The counters after that merge: the available list loses one entry exactly
   * when the block above was available; its bytes and the used list stay.
   */
  lemma FreeAboveCounts(m: Mem, q: nat)
    requires Sound(m) && q < |m.blocks| && IsAvail(m.heads, m.blocks[q])
    ensures MergeMem(m, m.blocks[q]).avail.length == m.avail.length - AvailAbove(m.heads, m.blocks, q)
    ensures MergeMem(m, m.blocks[q]).avail.bytes == m.avail.bytes
    ensures MergeMem(m, m.blocks[q]).used == m.used && MergeMem(m, m.blocks[q]).usedMembers == m.usedMembers
    ensures MergeMem(m, m.blocks[q]).heapBytes == m.heapBytes
  {
    var bl := m.blocks;
    if q + 1 < |bl| && IsAvail(m.heads, bl[q + 1]) {
      MergeKeeps(m, q);
    } else {
      MergeNothing(m, q);
    }
  }

  /**
   * el_merge_block_with_above on NULL takes its `lower == NULL` early return and
   * changes nothing. The C reads through NULL in el_block_above before that
   * test; here unwritten memory reads as a zero record. el_free never passes
   * NULL: this lemma only lets its `before != NULL` guard be folded into an
   * unconditional merge.
   */
  lemma MergeNull(m: Mem)
    ensures MergeMem(m, NULL) == m
  {
  }

  /**
   * el_merge_block_with_above on block q changes nothing when block q itself is
   * not available or no available block lies above it.
   */
  lemma MergeNothing(m: Mem, q: nat)
    requires Tiled(m) && q < |m.blocks|
    requires !IsAvail(m.heads, m.blocks[q]) || !(q + 1 < |m.blocks| && IsAvail(m.heads, m.blocks[q + 1]))
    ensures MergeMem(m, m.blocks[q]) == m
  {
    AboveInTiling(m.heads, m.foots, m.heapStart, m.heapEnd, m.blocks, q);
  }

  /**
   * The merge of the block below with the just-freed block q in el_free,
   * `before` being block q - 1 or NULL: the heap ends up valid.
   */
  lemma FreeBelowValid(m: Mem, q: nat, before: Addr)
    requires Sound(m) && q < |m.blocks| && IsAvail(m.heads, m.blocks[q])
    requires CoalescedExcept(m.heads, m.blocks, m.blocks[q])
    requires q + 1 < |m.blocks| ==> PairOk(m.heads, m.blocks, q)
    requires before == if q > 0 then m.blocks[q - 1] else NULL
    ensures Valid(MergeMem(m, before))
  {
    var bl := m.blocks;
    TilesDistinct(m.heads, m.foots, m.heapStart, m.heapEnd, bl);
    if q > 0 && IsAvail(m.heads, bl[q - 1]) {
      MergeKeeps(m, q - 1);
      CoalescedMergeBelow(m.heads, MergeMem(m, before).heads, bl, q - 1);
    } else {
      if q > 0 {
        assert PairOk(m.heads, bl, q - 1);
      }
      CoalescedClose(m.heads, bl, q);
    }
  }

  /**
   * The counters after that merge: the heap and the available list are one
   * block shorter exactly when block q - 1 was available; the available bytes
   * and the used list stay.
   */
  lemma FreeBelowCounts(m: Mem, q: nat, before: Addr)
    requires Sound(m) && q < |m.blocks| && IsAvail(m.heads, m.blocks[q])
    requires before == if q > 0 then m.blocks[q - 1] else NULL
    ensures |MergeMem(m, before).blocks| == |m.blocks| - AvailBelow(m.heads, m.blocks, q)
    ensures MergeMem(m, before).avail.length == m.avail.length - AvailBelow(m.heads, m.blocks, q)
    ensures MergeMem(m, before).avail.bytes == m.avail.bytes
    ensures MergeMem(m, before).used == m.used && MergeMem(m, before).usedMembers == m.usedMembers
    ensures MergeMem(m, before).heapBytes == m.heapBytes
  {
    if q > 0 && IsAvail(m.heads, m.blocks[q - 1]) {
      MergeKeeps(m, q - 1);
    }
  }

  /**
   * What el_free does to used block q: the block leaves the used list, whose
   * counters lose its footprint; the available list gains the same bytes; every
   * available neighbour is merged in, so the heap and the available list lose one
   * block per available neighbour.
   */
  ghost predicate Releases(m: Mem, q: nat, m': Mem)
    requires q < |m.blocks|
  {
    var x := m.blocks[q];
    var merged := AvailAbove(m.heads, m.blocks, q) + AvailBelow(m.heads, m.blocks, q);
    && m'.usedMembers == Without(m.usedMembers, {x})
    && m'.used == Shrunk(m.used, HeadAt(m.heads, x).size)
    && m'.avail.bytes == m.avail.bytes + (OVERHEAD + HeadAt(m.heads, x).size)
    && m'.avail.length == m.avail.length + 1 - merged
    && |m'.blocks| == |m.blocks| - merged
    && m'.heapBytes == m.heapBytes
    && Absorbs(m, q, m')
  }

  /**
   * The layout el_free leaves behind for used block q: with `lo` the lowest and
   * `hi` the highest of block q and its available neighbours, blocks lo + 1 to hi
   * disappear into block lo, which is available, reaches the end of block hi and
   * heads the available list, followed by the old available list without the
   * absorbed neighbours; block q is the only block whose state changes.
   */
  ghost predicate Absorbs(m: Mem, q: nat, m': Mem)
    requires q < |m.blocks|
  {
    var bl := m.blocks;
    var lo := q - AvailBelow(m.heads, bl, q);
    var hi := q + AvailAbove(m.heads, bl, q);
    && m'.blocks == bl[..lo] + [bl[lo]] + bl[hi + 1..]
    && IsAvail(m'.heads, bl[lo])
    && HeadAt(m'.heads, bl[lo]).size == End(m.heads, bl[hi]) - bl[lo] - OVERHEAD
    && m'.availMembers == [bl[lo]] + Without(m.availMembers, {bl[lo], bl[hi]})
    && StatesKept(m.heads, m'.heads, bl[q], bl[q])
  }

  /**
   * The merging branch of el_merge_block_with_above on blocks k and k + 1, in
   * terms of the layout: block k + 1 disappears, block k reaches the end of
   * block k + 1 and heads the available list, which no longer holds block k + 1.
   */
  lemma MergeAbsorbs(m: Mem, k: nat, m': Mem)
    requires Sound(m) && k + 1 < |m.blocks| && IsAvail(m.heads, m.blocks[k]) && IsAvail(m.heads, m.blocks[k + 1])
    requires m' == MergeMem(m, m.blocks[k])
    ensures m'.blocks == m.blocks[..k] + [m.blocks[k]] + m.blocks[k + 1 + 1..]
    ensures End(m'.heads, m.blocks[k]) == End(m.heads, m.blocks[k + 1])
    ensures m'.availMembers == [m.blocks[k]] + Without(m.availMembers, {m.blocks[k], m.blocks[k + 1]})
    ensures SameStates(m.heads, m'.heads)
  {
    var bl := m.blocks;
    MergeKeeps(m, k);
    assert Abuts(m.heads, bl, k);
    DropTwo(m.availMembers, bl[k], bl[k + 1]);
  }

  /** A sequence is what lies before position i, its element there, and what lies after. */
  lemma Reassembled(s: seq<Addr>, i: nat)
    requires i < |s|
    ensures s[..i] + [s[i]] + s[i + 1..] == s
  {
  }

  /** The head of a well-formed available list followed by the rest is the list itself. */
  lemma AvailHead(m: Mem)
    requires ListsOk(m) && |m.availMembers| > 0
    ensures m.availMembers == [m.availMembers[0]] + Without(m.availMembers, {m.availMembers[0]})
  {
    var am := m.availMembers;
    MembersDistinct(m.heads, m.avail, am);
    WithoutAt(am, 0);
    assert [am[0]] + am[1..] == am;
  }

  /**
   * The merge with the block above in el_free, on available block q at the head
   * of the available list, `hi` being q + 1 when that block is available and q
   * otherwise: the blocks after q up to hi disappear, block q reaches the end of
   * block hi, block hi leaves the available list, and no state tag changes.
   */
  lemma AbsorbAbove(m: Mem, q: nat, hi: nat, m': Mem)
    requires Sound(m) && q < |m.blocks| && IsAvail(m.heads, m.blocks[q])
    requires |m.availMembers| > 0 && m.availMembers[0] == m.blocks[q]
    requires hi == q + AvailAbove(m.heads, m.blocks, q)
    requires m' == MergeMem(m, m.blocks[q])
    ensures hi < |m.blocks|
    ensures m'.blocks == m.blocks[..q] + [m.blocks[q]] + m.blocks[hi + 1..]
    ensures End(m'.heads, m.blocks[q]) == End(m.heads, m.blocks[hi])
    ensures m'.availMembers == [m.blocks[q]] + Without(m.availMembers, {m.blocks[q], m.blocks[hi]})
    ensures SameStates(m.heads, m'.heads)
  {
    var bl := m.blocks;
    if hi == q + 1 {
      MergeAbsorbs(m, q, m');
    } else {
      assert hi == q;
      MergeNothing(m, q);
      assert m' == m;
      AvailHead(m);
      assert {bl[q], bl[hi]} == {bl[q]};
      Reassembled(bl, q);
    }
  }

  /**
   * The merge of the block below with available block q at the head of the
   * available list, `before` being block q - 1 or NULL and `lo` being q - 1 when
   * that block is available and q otherwise: the blocks after lo up to q
   * disappear, block lo is available and reaches the end of block q, block q
   * leaves the available list behind block lo, and no state tag changes.
   */
  lemma AbsorbBelow(m: Mem, q: nat, before: Addr, lo: nat, m': Mem)
    requires Sound(m) && q < |m.blocks| && IsAvail(m.heads, m.blocks[q])
    requires |m.availMembers| > 0 && m.availMembers[0] == m.blocks[q]
    requires before == if q > 0 then m.blocks[q - 1] else NULL
    requires lo == q - AvailBelow(m.heads, m.blocks, q)
    requires m' == MergeMem(m, before)
    ensures m'.blocks == m.blocks[..lo] + [m.blocks[lo]] + m.blocks[q + 1..]
    ensures IsAvail(m'.heads, m.blocks[lo])
    ensures End(m'.heads, m.blocks[lo]) == End(m.heads, m.blocks[q])
    ensures m'.availMembers == [m.blocks[lo]] + Without(m.availMembers, {m.blocks[lo], m.blocks[q]})
    ensures SameStates(m.heads, m'.heads)
  {
    if q > 0 && IsAvail(m.heads, m.blocks[q - 1]) {
      AbsorbBelowMerged(m, q, q - 1, m');
    } else {
      AbsorbBelowKept(m, q, before, lo, m');
    }
  }

  /** AbsorbBelow when block lo = q - 1 is available and takes block q in. */
  lemma AbsorbBelowMerged(m: Mem, q: nat, lo: nat, m': Mem)
    requires Sound(m) && lo + 1 < |m.blocks| && IsAvail(m.heads, m.blocks[lo]) && IsAvail(m.heads, m.blocks[lo + 1])
    requires q == lo + 1
    requires m' == MergeMem(m, m.blocks[lo])
    ensures m'.blocks == m.blocks[..lo] + [m.blocks[lo]] + m.blocks[q + 1..]
    ensures IsAvail(m'.heads, m.blocks[lo])
    ensures End(m'.heads, m.blocks[lo]) == End(m.heads, m.blocks[q])
    ensures m'.availMembers == [m.blocks[lo]] + Without(m.availMembers, {m.blocks[lo], m.blocks[q]})
    ensures SameStates(m.heads, m'.heads)
  {
    MergeAbsorbs(m, lo, m');
  }

  /** AbsorbBelow when there is no available block below block q: nothing changes. */
  lemma AbsorbBelowKept(m: Mem, q: nat, before: Addr, lo: nat, m': Mem)
    requires Sound(m) && q < |m.blocks| && IsAvail(m.heads, m.blocks[q])
    requires |m.availMembers| > 0 && m.availMembers[0] == m.blocks[q]
    requires before == if q > 0 then m.blocks[q - 1] else NULL
    requires lo == q - AvailBelow(m.heads, m.blocks, q)
    requires m' == MergeMem(m, before)
    requires lo == q
    ensures m'.blocks == m.blocks[..lo] + [m.blocks[lo]] + m.blocks[q + 1..]
    ensures IsAvail(m'.heads, m.blocks[lo])
    ensures End(m'.heads, m.blocks[lo]) == End(m.heads, m.blocks[q])
    ensures m'.availMembers == [m.blocks[lo]] + Without(m.availMembers, {m.blocks[lo], m.blocks[q]})
    ensures SameStates(m.heads, m'.heads)
  {
    if q > 0 {
      MergeNothing(m, q - 1);
    } else {
      MergeNull(m);
    }
    assert m' == m;
    AvailHead(m);
    assert {m.blocks[lo], m.blocks[q]} == {m.blocks[q]};
    Reassembled(m.blocks, q);
  }

  /**
   * The first two steps of el_free on used block q, relinking it and merging it
   * with the block above: block q, now available and at the head of the
   * available list, reaches the end of block hi; the block below keeps its state.
   */
  lemma FreeAboveAbsorbs(m: Mem, q: nat, hi: nat, m4: Mem)
    requires Valid(m) && q < |m.blocks| && IsUsed(m.heads, m.blocks[q])
    requires hi == q + AvailAbove(m.heads, m.blocks, q)
    requires m4 == MergeMem(FreeRelinkMem(m, m.blocks[q]), m.blocks[q])
    ensures Sound(m4) && hi < |m.blocks|
    ensures m4.blocks == m.blocks[..q] + [m.blocks[q]] + m.blocks[hi + 1..]
    ensures q < |m4.blocks| && m4.blocks[q] == m.blocks[q] && (q > 0 ==> m4.blocks[q - 1] == m.blocks[q - 1])
    ensures IsAvail(m4.heads, m.blocks[q]) && StatesKept(m.heads, m4.heads, m.blocks[q], m.blocks[q])
    ensures End(m4.heads, m.blocks[q]) == End(m.heads, m.blocks[hi])
    ensures m4.availMembers == [m.blocks[q]] + Without(m.availMembers, {m.blocks[q], m.blocks[hi]})
    ensures AvailBelow(m4.heads, m4.blocks, q) == AvailBelow(m.heads, m.blocks, q)
  {
    var m3 := FreeRelinkMem(m, m.blocks[q]);
    RelinkNeighbours(m, q, m3);
    FreeAboveSound(m3, q);
    FreeAboveShape(m3, q);
    AbsorbAbove(m3, q, hi, m4);
  }

  /**
   * The relinking in el_free in the terms the merges need: block q, now
   * available, heads the available list in front of the old one, every size
   * stays, and both neighbours keep their availability.
   */
  lemma RelinkNeighbours(m: Mem, q: nat, m3: Mem)
    requires Valid(m) && q < |m.blocks| && IsUsed(m.heads, m.blocks[q])
    requires m3 == FreeRelinkMem(m, m.blocks[q])
    ensures Sound(m3) && m3.blocks == m.blocks && IsAvail(m3.heads, m.blocks[q])
    ensures StatesKept(m.heads, m3.heads, m.blocks[q], m.blocks[q])
    ensures |m3.availMembers| > 0 && m3.availMembers[0] == m.blocks[q]
    ensures forall xs :: Without(m3.availMembers, {m.blocks[q]} + xs) == Without(m.availMembers, {m.blocks[q]} + xs)
    ensures forall a :: End(m3.heads, a) == End(m.heads, a)
    ensures AvailAbove(m3.heads, m.blocks, q) == AvailAbove(m.heads, m.blocks, q)
    ensures AvailBelow(m3.heads, m.blocks, q) == AvailBelow(m.heads, m.blocks, q)
  {
    var bl, am := m.blocks, m.availMembers;
    var x := bl[q];
    TilesDistinct(m.heads, m.foots, m.heapStart, m.heapEnd, bl);
    assert x in bl;
    FreeRelinkKeeps(m, x);
    FreeRelinkSound(m, q);
    NeighboursKept(m.heads, m3.heads, bl, q);
    forall xs: set<Addr>
      ensures Without(m3.availMembers, {x} + xs) == Without(am, {x} + xs)
    {
      assert ([x] + am)[1..] == am;
    }
  }

  /**
   * The two merges of el_free put together: block q absorbing the blocks up to
   * hi, then block lo absorbing block q, give the layout that Absorbs describes.
   */
  lemma AbsorbsCompose(m: Mem, q: nat, lo: nat, hi: nat, m4: Mem, m5: Mem)
    requires q < |m.blocks| && m.blocks[q] !in m.availMembers
    requires lo == q - AvailBelow(m.heads, m.blocks, q) && hi == q + AvailAbove(m.heads, m.blocks, q)
    requires m4.blocks == m.blocks[..q] + [m.blocks[q]] + m.blocks[hi + 1..]
    requires End(m4.heads, m.blocks[q]) == End(m.heads, m.blocks[hi])
    requires m4.availMembers == [m.blocks[q]] + Without(m.availMembers, {m.blocks[q], m.blocks[hi]})
    requires StatesKept(m.heads, m4.heads, m.blocks[q], m.blocks[q])
    requires m5.blocks == m4.blocks[..lo] + [m4.blocks[lo]] + m4.blocks[q + 1..]
    requires IsAvail(m5.heads, m4.blocks[lo]) && End(m5.heads, m4.blocks[lo]) == End(m4.heads, m4.blocks[q])
    requires m5.availMembers == [m4.blocks[lo]] + Without(m4.availMembers, {m4.blocks[lo], m4.blocks[q]})
    requires SameStates(m4.heads, m5.heads)
    ensures Absorbs(m, q, m5)
  {
    var bl, am := m.blocks, m.availMembers;
    var x := bl[q];
    assert m4.blocks[..lo] == bl[..lo] && m4.blocks[lo] == bl[lo] && m4.blocks[q] == x;
    assert m4.blocks[q + 1..] == bl[hi + 1..];
    assert Without(m4.availMembers, {bl[lo], x}) == Without(Without(am, {x, bl[hi]}), {bl[lo], x}) by {
      assert m4.availMembers[1..] == Without(am, {x, bl[hi]});
    }
    WithoutWithout(am, {x, bl[hi]}, {bl[lo], x});
    assert {x, bl[hi]} + {bl[lo], x} == {bl[lo], bl[hi]} + {x};
    WithoutAbsent(am, {bl[lo], bl[hi]}, x);
  }

  /** el_free of used block q leaves the layout that Absorbs describes. */
  lemma FreeShape(m: Mem, q: nat)
    requires Valid(m) && q < |m.blocks| && IsUsed(m.heads, m.blocks[q])
    ensures Absorbs(m, q, FreeMem(m, m.blocks[q] + HEAD_SIZE))
  {
    var bl := m.blocks;
    var x := bl[q];
    assert x in bl && !IsAvail(m.heads, x);
    FreeMemAt(m, x);
    var hi := q + AvailAbove(m.heads, bl, q);
    var m4 := MergeMem(FreeRelinkMem(m, x), x);
    FreeAboveAbsorbs(m, q, hi, m4);
    BelowInTiling(m.heads, m.foots, m.heapStart, m.heapEnd, bl, q);
    var before := BlockBelow(m.foots, m.heapStart, x);
    var lo := q - AvailBelow(m.heads, bl, q);
    var m5 := MergeMem(m4, before);
    AbsorbBelow(m4, q, before, lo, m5);
    AbsorbsCompose(m, q, lo, hi, m4, m5);
  }

  /** el_free of used block q keeps the heap valid and releases the block. */
  lemma FreeUsed(m: Mem, q: nat)
    requires Valid(m) && q < |m.blocks| && IsUsed(m.heads, m.blocks[q])
    ensures Valid(FreeMem(m, m.blocks[q] + HEAD_SIZE)) && Releases(m, q, FreeMem(m, m.blocks[q] + HEAD_SIZE))
  {
    var bl := m.blocks;
    var x := bl[q];
    FreeMemAt(m, x);
    FreeRelinkSound(m, q);
    var m3 := FreeRelinkMem(m, x);
    FreeAboveSound(m3, q);
    FreeAboveCoalesced(m3, q);
    FreeAboveShape(m3, q);
    FreeAboveCounts(m3, q);
    var m4 := MergeMem(m3, x);
    BelowInTiling(m.heads, m.foots, m.heapStart, m.heapEnd, bl, q);
    var before := BlockBelow(m.foots, m.heapStart, x);
    FreeBelowValid(m4, q, before);
    FreeBelowCounts(m4, q, before);
    TilesDistinct(m.heads, m.foots, m.heapStart, m.heapEnd, bl);
    NeighboursKept(m.heads, m3.heads, bl, q);
    FreeShape(m, q);
  }

  /**
   * el_free: freeing the payload of an available block changes nothing; freeing
   * that of a used block releases it; either way the heap stays valid and its
   * counters still add up to the heap size.
   */
  lemma FreeSpec(m: Mem, ptr: Addr)
    requires Valid(m) && ptr - HEAD_SIZE in m.blocks
    ensures Valid(FreeMem(m, ptr)) && FreeMem(m, ptr).avail.bytes + FreeMem(m, ptr).used.bytes == m.heapBytes
    ensures IsAvail(m.heads, ptr - HEAD_SIZE) ==> FreeMem(m, ptr) == m
    ensures forall q :: 0 <= q < |m.blocks| && m.blocks[q] == ptr - HEAD_SIZE && !IsAvail(m.heads, ptr - HEAD_SIZE)
              ==> Releases(m, q, FreeMem(m, ptr))
  {
    var x := ptr - HEAD_SIZE;
    if !IsAvail(m.heads, x) {
      var q :| 0 <= q < |m.blocks| && m.blocks[q] == x;
      assert IsAvail(m.heads, m.blocks[q]) || IsUsed(m.heads, m.blocks[q]);
      FreeUsed(m, q);
      TilesDistinct(m.heads, m.foots, m.heapStart, m.heapEnd, m.blocks);
      forall q' | 0 <= q' < |m.blocks| && m.blocks[q'] == x
        ensures q' == q
      {
        if q' != q {
          DistinctAt(m.blocks, q, q');
        }
      }
    }
  }
}
