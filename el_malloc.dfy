/**
 * The allocator of el_malloc.c as the program runs it: one control record whose
 * fields the operations update statement by statement. Each method performs the
 * source's stores in the source's order and is proved to land exactly on the
 * step function of the value model (module HeapState); what those step
 * functions guarantee is proved in modules HeapSteps and HeapOps and carried
 * over here for el_init, el_malloc and el_free.
 */
module ElMalloc {
  import opened Layout
  import opened BlockLists
  import opened BlockStates
  import opened HeapState
  import opened HeapSteps
  import opened HeapOps

  /**
   * el_ctl together with the header and footer records in memory. The ghost
   * fields name what the pointers describe: the blocks in address order and the
   * members of each list in list order.
   */
  class Heap {
    var heapStart: Addr
    var heapEnd: Addr
    var heapBytes: int
    var avail: BlockList
    var used: BlockList
    var heads: Heads
    var foots: Foots
    ghost var blocks: seq<Addr>
    ghost var availMembers: seq<Addr>
    ghost var usedMembers: seq<Addr>

    /** The whole state as one value of the model. */
    ghost function State(): Mem
      reads this
    {
      Mem(heapStart, heapEnd, heapBytes, avail, used, heads, foots, blocks, availMembers, usedMembers)
    }

    /** `el_ctl_t el_ctl = {}`: the control record before el_init, with nothing written to memory. */
    constructor ()
      ensures State() == EMPTY
    {
      heapStart, heapEnd, heapBytes := NULL, NULL, 0;
      avail, used := EMPTY_LIST, EMPTY_LIST;
      heads, foots := map[], map[];
      blocks, availMembers, usedMembers := [], [], [];
    }

    /** Replaces list `id` and its members. */
    method SetList(id: ListId, l: BlockList, ghost s: seq<Addr>)
      modifies this`avail, this`used, this`availMembers, this`usedMembers
      ensures State() == old(State()).WithList(id, l, s)
    {
      if id == AvailList {
        avail, availMembers := l, s;
      } else {
        used, usedMembers := l, s;
      }
    }

    /** el_init_blocklist: both sentinels of list `id` linked to each other, counters zero. */
    method InitBlocklist(id: ListId)
      modifies this`heads, this`avail, this`used, this`availMembers, this`usedMembers
      ensures State() == InitBlocklistMem(old(State()), id)
    {
      var beg, end := BegOf(id), EndOf(id);
      heads := SetState(heads, beg, BeginBlock);
      heads := SetSize(heads, beg, UNINITIALIZED);
      heads := SetState(heads, end, EndBlock);
      heads := SetSize(heads, end, UNINITIALIZED);
      heads := SetNext(heads, beg, end);
      heads := SetPrev(heads, beg, NULL);
      heads := SetNext(heads, end, NULL);
      heads := SetPrev(heads, end, beg);
      SetList(id, BlockList(beg, end, 0, 0), []);
    }

    /**
     * el_init on the `heapBytes` bytes mapped at `heapStart`. On a heap above
     * NULL that can hold one block's overhead it returns 0 and leaves a valid heap
     * of one available block; otherwise it returns -1.
     */
    method Init(start: Addr, bytes: nat) returns (rc: int)
      modifies this
      ensures State() == InitMem(old(State()), start, bytes).0 && rc == InitMem(old(State()), start, bytes).1
      ensures rc == 0 <==> bytes >= OVERHEAD
      ensures NULL < start && rc == 0 ==> Valid(State()) && availMembers == [start] && usedMembers == []
    {
      ghost var m0 := State();
      heapBytes := bytes;
      heapStart := start;
      heapEnd := heapStart + heapBytes;
      ghost var m1 := State();
      assert m1 == m0.(heapBytes := bytes, heapStart := start, heapEnd := start + bytes);
      if heapBytes < OVERHEAD {
        InitFails(m0, m1, start, bytes);
        return -1;
      }
      InitBlocklists();
      ghost var m2 := State();
      FirstBlock();
      InitSteps(m0, m1, m2, State(), start, bytes);
      rc := 0;
      if NULL < start {
        InitStepsValid(m1, m2, State(), start, bytes);
      }
    }

    /** The two el_init_blocklist calls of el_init. */
    method InitBlocklists()
      modifies this`heads, this`avail, this`used, this`availMembers, this`usedMembers
      ensures State() == InitBlocklistMem(InitBlocklistMem(old(State()), AvailList), UsedList)
    {
      InitBlocklist(AvailList);
      InitBlocklist(UsedList);
    }

    /**
     * The end of el_init: the whole heap becomes one block, tagged available,
     * with a matching footer, at the front of the available list.
     */
    method FirstBlock()
      modifies this`heads, this`foots, this`blocks, this`avail, this`used, this`availMembers, this`usedMembers
      ensures State() == FirstBlockMem(old(State()), old(State()).heapStart, old(State()).heapBytes - OVERHEAD)
    {
      var size := heapBytes - OVERHEAD;
      var ablock := heapStart;
      heads := SetSize(heads, ablock, size);
      heads := SetState(heads, ablock, Available);
      var afoot := GetFooter(heads, ablock);
      foots := foots[afoot := size];
      blocks := [ablock];
      AddBlockFront(AvailList, ablock);
    }

    /** el_add_block_front: `x` linked in after the begin sentinel of list `id`, counters grown. */
    method AddBlockFront(id: ListId, x: Addr)
      modifies this`heads, this`avail, this`used, this`availMembers, this`usedMembers
      ensures State() == AddBlockFrontMem(old(State()), id, x)
    {
      var l := if id == AvailList then avail else used;
      heads := SetPrev(heads, x, l.beg);
      heads := SetNext(heads, x, HeadAt(heads, l.beg).next);
      heads := SetNext(heads, HeadAt(heads, x).prev, x);
      heads := SetPrev(heads, HeadAt(heads, x).next, x);
      l := l.(length := l.length + 1, bytes := l.bytes + (OVERHEAD + HeadAt(heads, x).size));
      SetList(id, l, [x] + (if id == AvailList then availMembers else usedMembers));
    }

    /** el_remove_block: the neighbours of `x` pointed at each other, counters shrunk. */
    method RemoveBlock(id: ListId, x: Addr)
      modifies this`heads, this`avail, this`used, this`availMembers, this`usedMembers
      ensures State() == RemoveBlockMem(old(State()), id, x)
    {
      var l := if id == AvailList then avail else used;
      heads := SetNext(heads, HeadAt(heads, x).prev, HeadAt(heads, x).next);
      heads := SetPrev(heads, HeadAt(heads, x).next, HeadAt(heads, x).prev);
      l := l.(length := l.length - 1, bytes := l.bytes - (OVERHEAD + HeadAt(heads, x).size));
      SetList(id, l, Without(if id == AvailList then availMembers else usedMembers, {x}));
    }

    /**
     * el_find_first_avail: walks `length` links from the begin sentinel of the
     * available list; on well-formed lists that is the first member of the
     * available list with room for `n` bytes and a split, or NULL.
     */
    method FindFirstAvail(n: int) returns (r: Addr)
      ensures r == FindFirstAvailMem(State(), n)
      ensures ListsOk(State()) ==>
                var k := FirstFit(heads, availMembers, n);
                r == if k < |availMembers| then availMembers[k] else NULL
    {
      var total := avail.length;
      var start := HeadAt(heads, avail.beg).next;
      var i := 0;
      while i < total
        invariant FirstAvailFrom(heads, start, total - i, n) == FindFirstAvailMem(State(), n)
        decreases total - i
      {
        if Fits(HeadAt(heads, start).size, n) {
          r := start;
          break;
        }
        start := HeadAt(heads, start).next;
        i := i + 1;
      }
      if i >= total {
        r := NULL;
      }
      if ListsOk(State()) {
        FindFirstAvailSpec(State(), n);
      }
    }

    /**
     * el_split_block: unless block `b` lacks room for `n` bytes and a new
     * overhead (or is NULL), shrinks it to `n` and carves the rest into a new
     * block right above it; returns that block, or NULL.
     */
    method SplitBlock(b: Addr, n: int) returns (nh: Addr)
      modifies this`heads, this`foots, this`blocks
      ensures (State(), nh) == SplitBlockMem(old(State()), b, n)
    {
      if HeadAt(heads, b).size < n + OVERHEAD || b == NULL {
        return NULL;
      }
      var size := HeadAt(heads, b).size;
      var splitFoot := GetFooter(heads, b);
      var newHead := b + n + FOOT_SIZE + HEAD_SIZE;
      var newFoot := b + n + HEAD_SIZE;
      heads := SetSize(heads, b, n);
      foots := foots[newFoot := n];
      heads := SetSize(heads, newHead, size - n - OVERHEAD);
      foots := foots[splitFoot := size - n - OVERHEAD];
      blocks := InsertAfter(blocks, b, newHead);
      nh := newHead;
    }

    /**
     * el_malloc: on a valid heap, either returns NULL and changes nothing, when no
     * available block fits, or hands out the first fitting block (see
     * HeapOps.MallocSpec); the heap stays valid.
     */
    method Malloc(n: nat) returns (p: Addr)
      modifies this
      ensures (State(), p) == MallocMem(old(State()), n)
      ensures Valid(old(State())) ==> Valid(State()) && avail.bytes + used.bytes == heapBytes
    {
      ghost var m0 := State();
      if Valid(m0) {
        MallocSpec(m0, n);
      }
      var first := FindFirstAvail(n);
      if first == NULL {
        return NULL;
      }
      RemoveBlock(AvailList, first);
      ghost var m1 := State();
      var second := SplitBlock(first, n);
      ghost var m2 := State();
      AddBlockFront(UsedList, first);
      heads := SetState(heads, first, Used);
      ghost var m4 := State();
      AddBlockFront(AvailList, second);
      heads := SetState(heads, second, Available);
      p := first + HEAD_SIZE;
      MallocSteps(m0, m1, m2, m4, State(), first, second, n);
    }

    /**
     * el_merge_block_with_above: when `lower` and the block above it are both
     * available, they become one available block at `lower`, at the front of the
     * available list; otherwise nothing changes.
     */
    method MergeWithAbove(lower: Addr)
      modifies this`heads, this`foots, this`blocks, this`avail, this`used, this`availMembers, this`usedMembers
      ensures State() == MergeMem(old(State()), lower)
    {
      ghost var m0 := State();
      var above := BlockAbove(heads, heapEnd, lower);
      if lower == NULL || HeadAt(heads, lower).state != Available
         || above == NULL || HeadAt(heads, above).state != Available {
        return;
      }
      var sizeLower := HeadAt(heads, lower).size;
      var sizeAbove := HeadAt(heads, above).size;
      var total := sizeLower + sizeAbove;
      var aboveFoot := GetFooter(heads, above);
      RemoveBlock(AvailList, above);
      RemoveBlock(AvailList, lower);
      ghost var m2 := State();
      assert m2 == RemoveBlockMem(RemoveBlockMem(m0, AvailList, above), AvailList, lower);
      heads := SetSize(heads, lower, total + OVERHEAD);
      foots := foots[aboveFoot := total + OVERHEAD];
      blocks := Without(blocks, {above});
      assert State() == m2.(heads := SetSize(m2.heads, lower, total + OVERHEAD),
                            foots := m2.foots[aboveFoot := total + OVERHEAD], blocks := Without(m2.blocks, {above}));
      MergeResizedAt(m0, m2, lower, above, total, aboveFoot);
      AddBlockFront(AvailList, lower);
      MergeMemAt(m0, lower, above);
    }

    /**
     * el_free: on a valid heap and the payload of one of its blocks, the heap
     * stays valid; an available block is left alone and a used one is released
     * (see HeapOps.FreeSpec).
     */
    method Free(ptr: Addr)
      modifies this
      ensures State() == FreeMem(old(State()), ptr)
      ensures Valid(old(State())) && ptr - HEAD_SIZE in old(blocks) ==> Valid(State()) && avail.bytes + used.bytes == heapBytes
    {
      ghost var m0 := State();
      if Valid(m0) && ptr - HEAD_SIZE in m0.blocks {
        FreeSpec(m0, ptr);
      }
      var x := ptr - HEAD_SIZE;
      if HeadAt(heads, x).state == Available {
        return;
      }
      var before := BlockBelow(foots, heapStart, x);
      RemoveBlock(UsedList, x);
      heads := SetState(heads, x, Available);
      AddBlockFront(AvailList, x);
      MergeWithAbove(x);
      if before != NULL {
        MergeWithAbove(before);
      }
    }
  }
}
