/**
 * The allocator's control record el_ctl together with the memory it manages,
 * as one value, and one step function per operation of el_malloc.c. Each step
 * function performs the source's reads and writes in the source's order; the
 * invariants the operations keep are defined at the end of this module.
 */
module HeapState {
  import opened Layout
  import opened BlockLists
  import opened BlockStates

  /** Which of the two lists of el_ctl an operation works on. */
  datatype ListId = AvailList | UsedList

  /** The four sentinels live in el_ctl, outside the heap: negative addresses here. */
  const AVAIL_BEG: Addr := -1
  const AVAIL_END: Addr := -2
  const USED_BEG: Addr := -3
  const USED_END: Addr := -4

  function BegOf(id: ListId): Addr
  {
    if id == AvailList then AVAIL_BEG else USED_BEG
  }

  function EndOf(id: ListId): Addr
  {
    if id == AvailList then AVAIL_END else USED_END
  }

  /** One past the largest size_t; size_t arithmetic is modulo this. */
  const SIZE_T_RANGE: int := 0x1_0000_0000_0000_0000

  /**
   * el_ctl and memory: heap bounds, the two lists, and the header and footer
   * records. `blocks` lists the blocks in address order, `availMembers` and
   * `usedMembers` the members of each list in list order; the allocator itself
   * never stores these, they name what its pointers describe.
   */
  datatype Mem = Mem(
    heapStart: Addr, heapEnd: Addr, heapBytes: int,
    avail: BlockList, used: BlockList,
    heads: Heads, foots: Foots,
    blocks: seq<Addr>, availMembers: seq<Addr>, usedMembers: seq<Addr>)
  {
    function List(id: ListId): BlockList
    {
      if id == AvailList then avail else used
    }

    function Members(id: ListId): seq<Addr>
    {
      if id == AvailList then availMembers else usedMembers
    }

    function WithList(id: ListId, l: BlockList, s: seq<Addr>): Mem
    {
      if id == AvailList then this.(avail := l, availMembers := s) else this.(used := l, usedMembers := s)
    }
  }

  /** `el_ctl_t el_ctl = {}`: everything zero before el_init. */
  const EMPTY_LIST: BlockList := BlockList(NULL, NULL, 0, 0)
  const EMPTY: Mem := Mem(NULL, NULL, 0, EMPTY_LIST, EMPTY_LIST, map[], map[], [], [], [])

  /** A block of payload `size` can hold `n` bytes and still be split: size >= n + EL_BLOCK_OVERHEAD. */
  predicate Fits(size: int, n: int)
  {
    size >= n + OVERHEAD
  }

  /** The same test with the addition done in 64-bit size_t, which wraps. */
  predicate FitsAsWritten(size: int, n: int)
  {
    size >= (n + OVERHEAD) % SIZE_T_RANGE
  }

  /**
   * For a request within EL_BLOCK_OVERHEAD of the largest size_t the wrapped sum
   * is tiny, so the guard as written passes blocks smaller than the request.
   */
  lemma WrapAdmitsSmallBlock(size: int, n: int)
    requires 0 <= n < SIZE_T_RANGE <= n + OVERHEAD
    requires n + OVERHEAD - SIZE_T_RANGE <= size < n
    ensures FitsAsWritten(size, n) && !Fits(size, n)
  {
    assert (n + OVERHEAD) % SIZE_T_RANGE == n + OVERHEAD - SIZE_T_RANGE;
  }

  /** el_malloc(SIZE_MAX) with a 64-byte available block: the block passes the guard as written. */
  lemma WrapExample()
    ensures FitsAsWritten(64, SIZE_T_RANGE - 1) && !Fits(64, SIZE_T_RANGE - 1)
  {
    WrapAdmitsSmallBlock(64, SIZE_T_RANGE - 1);
  }

  /** Away from the wrap the guard as written and the intended one agree. */
  lemma FitsAgree(size: int, n: int)
    requires 0 <= n && n + OVERHEAD < SIZE_T_RANGE
    ensures FitsAsWritten(size, n) <==> Fits(size, n)
  {
  }

  /** el_init_blocklist: both sentinels tagged and sized, linked to each other, counters zero. */
  function InitBlocklistMem(m: Mem, id: ListId): Mem
  {
    var beg, end := BegOf(id), EndOf(id);
    var h1 := SetSize(SetState(m.heads, beg, BeginBlock), beg, UNINITIALIZED);
    var h2 := SetSize(SetState(h1, end, EndBlock), end, UNINITIALIZED);
    var h3 := SetPrev(SetNext(h2, beg, end), beg, NULL);
    var h4 := SetPrev(SetNext(h3, end, NULL), end, beg);
    m.(heads := h4).WithList(id, BlockList(beg, end, 0, 0), [])
  }

  /** el_add_block_front: `x` linked in after the begin sentinel, counters grown by its footprint. */
  function AddBlockFrontMem(m: Mem, id: ListId, x: Addr): Mem
  {
    var h := LinkFront(m.heads, m.List(id).beg, x);
    m.(heads := h).WithList(id, Grown(m.List(id), HeadAt(h, x).size), [x] + m.Members(id))
  }

  /** el_remove_block: `x` unlinked, counters shrunk by its footprint. */
  function RemoveBlockMem(m: Mem, id: ListId, x: Addr): Mem
  {
    var h := Unlink(m.heads, x);
    m.(heads := h).WithList(id, Shrunk(m.List(id), HeadAt(h, x).size), Without(m.Members(id), {x}))
  }

  /**
   * el_init on a heap of `heapBytes` bytes mapped at `heapStart`: sets the heap
   * bounds, then fails with -1 when the heap cannot hold one block's overhead, and
   * otherwise makes both lists empty and the whole heap one available block.
   */
  function InitMem(m: Mem, heapStart: Addr, heapBytes: int): (Mem, int)
  {
    var m1 := m.(heapBytes := heapBytes, heapStart := heapStart, heapEnd := heapStart + heapBytes);
    if heapBytes < OVERHEAD then (m1, -1)
    else
      var m2 := InitBlocklistMem(InitBlocklistMem(m1, AvailList), UsedList);
      var size := heapBytes - OVERHEAD;
      var a := heapStart;
      var h := SetState(SetSize(m2.heads, a, size), a, Available);
      var f := m2.foots[GetFooter(h, a) := size];
      (AddBlockFrontMem(m2.(heads := h, foots := f, blocks := [a]), AvailList, a), 0)
  }

  /** The loop of el_find_first_avail from `start` with `count` iterations left. */
  function FirstAvailFrom(h: Heads, start: Addr, count: int, n: int): Addr
    decreases count
  {
    if count <= 0 then NULL
    else if Fits(HeadAt(h, start).size, n) then start
    else FirstAvailFrom(h, HeadAt(h, start).next, count - 1, n)
  }

  /** el_find_first_avail: walk `length` links from the begin sentinel of the available list. */
  function FindFirstAvailMem(m: Mem, n: int): Addr
  {
    FirstAvailFrom(m.heads, HeadAt(m.heads, m.avail.beg).next, m.avail.length, n)
  }

  /** The position of the first member of `s` from position `j` on that fits `n`, or |s| when none does. */
  function FirstFitFrom(h: Heads, s: seq<Addr>, j: nat, n: int): (k: nat)
    requires j <= |s|
    ensures j <= k <= |s|
    ensures forall i :: j <= i < k ==> !Fits(HeadAt(h, s[i]).size, n)
    ensures k < |s| ==> Fits(HeadAt(h, s[k]).size, n)
    decreases |s| - j
  {
    if j == |s| then |s|
    else if Fits(HeadAt(h, s[j]).size, n) then j
    else FirstFitFrom(h, s, j + 1, n)
  }

  /** First fit over the whole list. */
  function FirstFit(h: Heads, s: seq<Addr>, n: int): (k: nat)
    ensures k <= |s|
  {
    FirstFitFrom(h, s, 0, n)
  }

  /** `bl` with `nh` placed right after the first occurrence of `b`. */
  function InsertAfter(bl: seq<Addr>, b: Addr, nh: Addr): seq<Addr>
  {
    if bl == [] then []
    else if bl[0] == b then [b, nh] + bl[1..]
    else [bl[0]] + InsertAfter(bl[1..], b, nh)
  }

  /**
   * el_split_block: unless block `b` is too small (or NULL), shrink it to `n`,
   * write its new footer, carve a header for the remainder right after it and
   * rewrite the old footer; returns the remainder header, or NULL.
   */
  function SplitBlockMem(m: Mem, b: Addr, n: int): (Mem, Addr)
  {
    if !Fits(HeadAt(m.heads, b).size, n) || b == NULL then (m, NULL)
    else
      var nh := b + n + FOOT_SIZE + HEAD_SIZE;
      (m.(heads := SplitHeads(m.heads, b, n), foots := SplitFoots(m.heads, m.foots, b, n),
          blocks := InsertAfter(m.blocks, b, nh)), nh)
  }

  /**
   * el_malloc: find the first fitting available block; if there is none, return
   * NULL; otherwise unlink it, split it, put the front part on the used list and
   * the remainder on the available list, and return the front part's payload.
   */
  function MallocMem(m: Mem, n: int): (Mem, Addr)
  {
    var first := FindFirstAvailMem(m, n);
    if first == NULL then (m, NULL)
    else
      var m1 := RemoveBlockMem(m, AvailList, first);
      var (m2, second) := SplitBlockMem(m1, first, n);
      var m3 := AddBlockFrontMem(m2, UsedList, first);
      var m4 := m3.(heads := SetState(m3.heads, first, Used));
      var m5 := AddBlockFrontMem(m4, AvailList, second);
      var m6 := m5.(heads := SetState(m5.heads, second, Available));
      (m6, first + HEAD_SIZE)
  }

  /**
   * el_merge_block_with_above: when `lower` and the block above it are both
   * available, unlink both, give `lower` both payloads and the reclaimed overhead,
   * record the same size in the upper footer, and put `lower` back in front.
   */
  function MergeMem(m: Mem, lower: Addr): Mem
  {
    var above := BlockAbove(m.heads, m.heapEnd, lower);
    if lower == NULL || HeadAt(m.heads, lower).state != Available
       || above == NULL || HeadAt(m.heads, above).state != Available then m
    else
      var sizeLower := HeadAt(m.heads, lower).size;
      var sizeAbove := HeadAt(m.heads, above).size;
      var total := sizeLower + sizeAbove;
      var aboveFoot := GetFooter(m.heads, above);
      var m1 := RemoveBlockMem(m, AvailList, above);
      var m2 := RemoveBlockMem(m1, AvailList, lower);
      var m3 := m2.(heads := SetSize(m2.heads, lower, total + OVERHEAD),
                    foots := m2.foots[aboveFoot := total + OVERHEAD],
                    blocks := Without(m2.blocks, {above}));
      AddBlockFrontMem(m3, AvailList, lower)
  }

  /**
   * el_free of payload pointer `ptr`: nothing when its block is already
   * available; otherwise note the block below, move the block from the used to the
   * available list, and merge it with the block above and then the block below
   * with it.
   */
  function FreeMem(m: Mem, ptr: Addr): Mem
  {
    var x := ptr - HEAD_SIZE;
    if HeadAt(m.heads, x).state == Available then m
    else
      var before := BlockBelow(m.foots, m.heapStart, x);
      var m3 := FreeRelinkMem(m, x);
      var m4 := MergeMem(m3, x);
      if before != NULL then MergeMem(m4, before) else m4
  }

  /** The middle of el_free: `x` leaves the used list, is tagged available and joins the available list. */
  function FreeRelinkMem(m: Mem, x: Addr): Mem
  {
    var m1 := RemoveBlockMem(m, UsedList, x);
    var m2 := m1.(heads := SetState(m1.heads, x, Available));
    AddBlockFrontMem(m2, AvailList, x)
  }

  /** The lists use the four sentinels of el_ctl. */
  ghost predicate Sentinels(m: Mem)
  {
    && m.avail.beg == AVAIL_BEG && m.avail.end == AVAIL_END
    && m.used.beg == USED_BEG && m.used.end == USED_END
  }

  /** Both lists are well formed and share no block. */
  ghost predicate ListsOk(m: Mem)
  {
    Sentinels(m) && ListsApart(m.heads, m.avail, m.availMembers, m.used, m.usedMembers)
  }

  /** The blocks tile the heap [heapStart, heapEnd), which lies above NULL. */
  ghost predicate Tiled(m: Mem)
  {
    && NULL < m.heapStart && m.heapEnd == m.heapStart + m.heapBytes
    && Tiles(m.heads, m.foots, m.heapStart, m.heapEnd, m.blocks)
  }

  /** The byte counters of the two lists add up to the whole heap. */
  ghost predicate Balanced(m: Mem)
  {
    m.avail.bytes + m.used.bytes == m.heapBytes
  }

  /** Everything el_malloc.c relies on, except coalescing. */
  ghost predicate Sound(m: Mem)
  {
    && ListsOk(m) && Tiled(m) && Balanced(m)
    && Partitioned(m.heads, m.blocks, m.availMembers, m.usedMembers)
  }

  /** The heap between operations: sound, with no two adjacent available blocks. */
  ghost predicate Valid(m: Mem)
  {
    Sound(m) && Coalesced(m.heads, m.blocks)
  }
}
