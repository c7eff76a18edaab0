/**
 * What each step of el_malloc.c keeps: the list operations keep both lists well
 * formed and apart, the header writes keep the tiling, and the walk of
 * el_find_first_avail finds the first fitting member of the available list.
 */
module HeapSteps {
  import opened Layout
  import opened BlockLists
  import opened BlockStates
  import opened HeapState

  /** The two lists of a remove or add-front step are apart seen from the other list too; a separate lemma keeps those proofs cheap. */
  lemma ApartFromOtherList(h: Heads, l1: BlockList, s1: seq<Addr>, l2: BlockList, s2: seq<Addr>)
    requires ListsApart(h, l1, s1, l2, s2)
    ensures ListsApart(h, l2, s2, l1, s1)
  {
  }

  /** A member of either list is a header address above NULL. */
  lemma MemberAboveNull(m: Mem, id: ListId, x: Addr)
    requires ListsOk(m) && x in m.Members(id)
    ensures NULL < x && x in m.heads && x !in m.Members(if id == AvailList then UsedList else AvailList)
  {
    var s := m.Members(id);
    var i :| 0 <= i < |s| && s[i] == x;
    MembersDistinct(m.heads, m.List(id), s);
  }

  /**
   * el_remove_block on a member of list `id` keeps both lists well formed and
   * apart and keeps every size and state tag.
   */
  lemma RemoveKeeps(m: Mem, id: ListId, x: Addr)
    requires ListsOk(m) && x in m.Members(id)
    ensures var m' := RemoveBlockMem(m, id, x);
            && ListsOk(m') && SameTags(m.heads, m'.heads)
            && m'.List(id) == Shrunk(m.List(id), HeadAt(m.heads, x).size)
  {
    var h := m.heads;
    if id == AvailList {
      UnlinkOk(h, m.avail, m.availMembers, m.used, m.usedMembers, x);
    } else {
      ApartFromOtherList(h, m.avail, m.availMembers, m.used, m.usedMembers);
      UnlinkOk(h, m.used, m.usedMembers, m.avail, m.availMembers, x);
      ApartFromOtherList(Unlink(h, x), Shrunk(m.used, HeadAt(h, x).size), Without(m.usedMembers, {x}), m.avail, m.availMembers);
    }
    SameTagsHeadAt(h, Unlink(h, x));
  }

  /**
   * el_add_block_front of a header on neither list keeps both lists well formed
   * and apart and keeps every size and state tag.
   */
  lemma AddFrontKeeps(m: Mem, id: ListId, x: Addr)
    requires ListsOk(m) && x in m.heads && NULL < x && x !in m.availMembers && x !in m.usedMembers
    ensures var m' := AddBlockFrontMem(m, id, x);
            && ListsOk(m') && SameTags(m.heads, m'.heads)
            && m'.List(id) == Grown(m.List(id), HeadAt(m.heads, x).size)
  {
    var h := m.heads;
    var h' := LinkFront(h, m.List(id).beg, x);
    if id == AvailList {
      LinkFrontOk(h, m.avail, m.availMembers, m.used, m.usedMembers, x);
    } else {
      ApartFromOtherList(h, m.avail, m.availMembers, m.used, m.usedMembers);
      LinkFrontOk(h, m.used, m.usedMembers, m.avail, m.availMembers, x);
      ApartFromOtherList(h', Grown(m.used, HeadAt(h, x).size), [x] + m.usedMembers, m.avail, m.availMembers);
    }
    SameTagsHeadAt(h, h');
  }

  /** A new state tag keeps both lists well formed and apart. */
  lemma RetagKeeps(m: Mem, x: Addr, st: State)
    requires ListsOk(m)
    ensures ListsOk(m.(heads := SetState(m.heads, x, st)))
  {
    ListsApartRetag(m.heads, m.avail, m.availMembers, m.used, m.usedMembers, x, st);
  }

  /** Equal tags mean equal state tags everywhere. */
  lemma TagsStates(h: Heads, h': Heads)
    requires SameTags(h, h')
    ensures SameStates(h, h')
  {
    SameTagsHeadAt(h, h');
  }

  /**
   * The loop of el_find_first_avail, started at member j (or at the end sentinel
   * when j == |s|) with |s| - j iterations left, returns the first fitting member
   * from position j on, or NULL.
   */
  lemma {:induction false} FirstAvailWalk(h: Heads, l: BlockList, s: seq<Addr>, j: nat, n: int)
    requires Linked(h, Chain(l, s)) && j <= |s|
    ensures var k := FirstFitFrom(h, s, j, n);
            FirstAvailFrom(h, Chain(l, s)[j + 1], |s| - j, n) == if k < |s| then s[k] else NULL
    decreases |s| - j
  {
    var c := Chain(l, s);
    if j < |s| {
      assert c[j + 1] == s[j];
      if !Fits(HeadAt(h, s[j]).size, n) {
        assert LinkedAt(h, c, j + 1);
        FirstAvailWalk(h, l, s, j + 1, n);
      }
    }
  }

  /** el_find_first_avail returns the first member of the available list that fits, or NULL. */
  lemma FindFirstAvailSpec(m: Mem, n: int)
    requires ListsOk(m)
    ensures var am := m.availMembers;
            var k := FirstFit(m.heads, am, n);
            FindFirstAvailMem(m, n) == if k < |am| then am[k] else NULL
  {
    var c := Chain(m.avail, m.availMembers);
    assert LinkedAt(m.heads, c, 0);
    FirstAvailWalk(m.heads, m.avail, m.availMembers, 0, n);
  }

  /** In a sequence without repetitions, inserting after element q puts the new element at q + 1. */
  lemma {:induction false} InsertAfterAt(bl: seq<Addr>, q: nat, nh: Addr)
    requires Distinct(bl) && q < |bl|
    ensures InsertAfter(bl, bl[q], nh) == bl[..q] + [bl[q], nh] + bl[q + 1..]
  {
    DistinctTail(bl);
    if q > 0 {
      assert bl[0] != bl[q] by {
        DistinctAt(bl, 0, q);
      }
      InsertAfterAt(bl[1..], q - 1, nh);
      assert bl[1..][q - 1] == bl[q];
      assert bl[1..][..q - 1] + [bl[q], nh] + bl[1..][q..] == bl[1..q] + [bl[q], nh] + bl[q + 1..];
      assert [bl[0]] + bl[1..q] == bl[..q];
    }
  }

  /**
   * el_split_block of block q, on no list, with room for `n`: both lists stay
   * well formed and apart, the blocks still tile the heap with the remainder
   * inserted after block q, and no state tag changes.
   */
  lemma SplitKeeps(m: Mem, q: nat, n: nat)
    requires ListsOk(m) && Tiled(m) && q < |m.blocks| && NULL < m.blocks[q]
    requires m.blocks[q] !in m.availMembers && m.blocks[q] !in m.usedMembers
    requires forall a :: a in m.availMembers || a in m.usedMembers ==> a in m.blocks
    requires Fits(HeadAt(m.heads, m.blocks[q]).size, n)
    ensures var b := m.blocks[q];
            var (m2, nh) := SplitBlockMem(m, b, n);
            && nh == b + n + OVERHEAD && b < nh && nh !in m.blocks
            && ListsOk(m2) && Tiled(m2) && SameStates(m.heads, m2.heads)
            && m2.blocks == m.blocks[..q] + [b, nh] + m.blocks[q + 1..]
            && b in m2.heads && nh in m2.heads
            && HeadAt(m2.heads, b).size == n
            && HeadAt(m2.heads, nh).size == HeadAt(m.heads, b).size - n - OVERHEAD
            && m2.avail == m.avail && m2.used == m.used
            && m2.availMembers == m.availMembers && m2.usedMembers == m.usedMembers
  {
    var b := m.blocks[q];
    var nh := b + n + OVERHEAD;
    SplitTiled(m, q, n);
    var h2 := SplitHeads(m.heads, b, n);
    assert nh !in m.availMembers && nh !in m.usedMembers;
    ListsApartAvoiding(m.heads, h2, m.avail, m.availMembers, m.used, m.usedMembers, b, nh);
  }

  /** The header and footer writes of el_split_block on tiled block q keep the tiling. */
  lemma SplitTiled(m: Mem, q: nat, n: nat)
    requires Tiled(m) && q < |m.blocks| && Fits(HeadAt(m.heads, m.blocks[q]).size, n) && 0 <= n
    ensures var b := m.blocks[q];
            var nh := b + n + OVERHEAD;
            var h2 := SplitHeads(m.heads, b, n);
            var bl2 := InsertAfter(m.blocks, b, nh);
            && b < nh && nh !in m.blocks && m.heapStart <= b
            && bl2 == m.blocks[..q] + [b, nh] + m.blocks[q + 1..]
            && Tiles(h2, SplitFoots(m.heads, m.foots, b, n), m.heapStart, m.heapEnd, bl2)
  {
    var b := m.blocks[q];
    var h, f, bl := m.heads, m.foots, m.blocks;
    TilesOrdered(h, f, m.heapStart, m.heapEnd, bl);
    InsertAfterAt(bl, q, b + n + OVERHEAD);
    TilesSplit(h, f, m.heapStart, m.heapEnd, bl, q, n);
  }

  /**
   * el_remove_block and then el_split_block of available block q with room for
   * `n`: both lists stay well formed and apart, the blocks still tile the heap
   * with the remainder inserted after block q, and no state tag changes.
   */
  lemma CarveKeeps(m: Mem, q: nat, n: nat)
    requires Sound(m) && q < |m.blocks| && m.blocks[q] in m.availMembers
    requires Fits(HeadAt(m.heads, m.blocks[q]).size, n)
    ensures var b := m.blocks[q];
            var m1 := RemoveBlockMem(m, AvailList, b);
            var (m2, nh) := SplitBlockMem(m1, b, n);
            && nh == b + n + OVERHEAD && NULL < b < nh && nh !in m.blocks
            && ListsOk(m2) && Tiled(m2) && SameStates(m.heads, m2.heads)
            && m2.blocks == m.blocks[..q] + [b, nh] + m.blocks[q + 1..]
            && b in m2.heads && nh in m2.heads
            && HeadAt(m2.heads, b).size == n
            && HeadAt(m2.heads, nh).size == HeadAt(m.heads, b).size - n - OVERHEAD
            && m2.avail == Shrunk(m.avail, HeadAt(m.heads, b).size) && m2.used == m.used
            && m2.availMembers == Without(m.availMembers, {b}) && m2.usedMembers == m.usedMembers
            && b !in m2.availMembers && b !in m2.usedMembers
            && nh !in m2.availMembers && nh !in m2.usedMembers
  {
    var b := m.blocks[q];
    var h := m.heads;
    MemberAboveNull(m, AvailList, b);
    RemoveKeeps(m, AvailList, b);
    var m1 := RemoveBlockMem(m, AvailList, b);
    SameTagsHeadAt(h, m1.heads);
    TagsStates(h, m1.heads);
    TilesSameTags(h, m1.heads, m.foots, m.heapStart, m.heapEnd, m.blocks);
    WithoutMembers(m.availMembers, {b});
    assert forall a :: a in m1.availMembers || a in m1.usedMembers ==> a in m1.blocks;
    SplitKeeps(m1, q, n);
  }

  /**
   * el_add_block_front of a header on neither list followed by tagging it `st`:
   * both lists stay well formed and apart, the tiling and every size stay, and
   * only the state of `x` changes.
   */
  lemma AddTaggedKeeps(m: Mem, id: ListId, x: Addr, st: State)
    requires ListsOk(m) && Tiled(m) && x in m.heads && NULL < x && x !in m.availMembers && x !in m.usedMembers
    ensures var m1 := AddBlockFrontMem(m, id, x);
            var m2 := m1.(heads := SetState(m1.heads, x, st));
            && ListsOk(m2) && Tiled(m2)
            && HeadAt(m2.heads, x).state == st && StatesKept(m.heads, m2.heads, x, x)
            && (forall a :: HeadAt(m2.heads, a).size == HeadAt(m.heads, a).size)
            && m2.List(id) == Grown(m.List(id), HeadAt(m.heads, x).size)
            && m2 == m.(heads := m2.heads).WithList(id, m2.List(id), [x] + m.Members(id))
  {
    var m1 := AddBlockFrontMem(m, id, x);
    AddFrontKeeps(m, id, x);
    SameTagsHeadAt(m.heads, m1.heads);
    TilesSameTags(m.heads, m1.heads, m.foots, m.heapStart, m.heapEnd, m.blocks);
    RetagKeeps(m1, x, st);
    TilesRetag(m1.heads, m1.foots, m1.heapStart, m1.heapEnd, m1.blocks, x, st);
    var h2 := SetState(m1.heads, x, st);
    forall a
      ensures HeadAt(h2, a).size == HeadAt(m.heads, a).size
      ensures a != x ==> HeadAt(h2, a).state == HeadAt(m.heads, a).state
    {
      assert HeadAt(m1.heads, a).size == HeadAt(m.heads, a).size;
    }
  }

  /**
   * The rest of el_malloc after the split: the front block `b` joins the used
   * list and is tagged used, the remainder `nh` joins the available list and is
   * tagged available. Both lists stay well formed and apart, the tiling and every
   * size stay, and only the states of `b` and `nh` change.
   */
  lemma MallocLink(m2: Mem, b: Addr, nh: Addr)
    requires ListsOk(m2) && Tiled(m2) && b in m2.heads && nh in m2.heads && NULL < b < nh
    requires b !in m2.availMembers && b !in m2.usedMembers && nh !in m2.availMembers && nh !in m2.usedMembers
    ensures var m3 := AddBlockFrontMem(m2, UsedList, b);
            var m4 := m3.(heads := SetState(m3.heads, b, Used));
            var m5 := AddBlockFrontMem(m4, AvailList, nh);
            var m6 := m5.(heads := SetState(m5.heads, nh, Available));
            && ListsOk(m6) && Tiled(m6)
            && IsUsed(m6.heads, b) && IsAvail(m6.heads, nh) && StatesKept(m2.heads, m6.heads, b, nh)
            && HeadAt(m6.heads, b).size == HeadAt(m2.heads, b).size
            && HeadAt(m6.heads, nh).size == HeadAt(m2.heads, nh).size
            && m6.used == Grown(m2.used, HeadAt(m2.heads, b).size)
            && m6.avail == Grown(m2.avail, HeadAt(m2.heads, nh).size)
            && m6.usedMembers == [b] + m2.usedMembers && m6.availMembers == [nh] + m2.availMembers
            && m6.blocks == m2.blocks && m6.foots == m2.foots
            && m6.heapStart == m2.heapStart && m6.heapEnd == m2.heapEnd && m6.heapBytes == m2.heapBytes
  {
    var m3 := AddBlockFrontMem(m2, UsedList, b);
    var m4 := m3.(heads := SetState(m3.heads, b, Used));
    AddTaggedKeeps(m2, UsedList, b, Used);
    AddTaggedKeeps(m4, AvailList, nh, Available);
  }

  /**
   * The two el_remove_block calls of el_merge_block_with_above, upper block
   * first: both lists stay well formed and apart, no tag changes, and the
   * available list loses both blocks and their footprints.
   */
  lemma MergeUnlink(m: Mem, lo: Addr, hi: Addr)
    requires ListsOk(m) && lo in m.availMembers && hi in m.availMembers && lo != hi
    ensures var m2 := RemoveBlockMem(RemoveBlockMem(m, AvailList, hi), AvailList, lo);
            && ListsOk(m2) && SameTags(m.heads, m2.heads)
            && m2.avail == Shrunk(Shrunk(m.avail, HeadAt(m.heads, hi).size), HeadAt(m.heads, lo).size)
            && m2.availMembers == Without(Without(m.availMembers, {hi}), {lo})
            && m2 == m.(heads := m2.heads, avail := m2.avail, availMembers := m2.availMembers)
            && NULL < lo && lo in m.heads && lo !in m2.availMembers && lo !in m2.usedMembers
  {
    var m1 := RemoveBlockMem(m, AvailList, hi);
    MemberAboveNull(m, AvailList, lo);
    RemoveKeeps(m, AvailList, hi);
    WithoutMembers(m.availMembers, {hi});
    RemoveKeeps(m1, AvailList, lo);
    WithoutMembers(m1.availMembers, {lo});
    SameTagsHeadAt(m.heads, m1.heads);
    SameTagsTrans(m.heads, m1.heads, RemoveBlockMem(m1, AvailList, lo).heads);
  }

  /**
   * The header and footer writes of el_merge_block_with_above on tiled blocks k
   * and k + 1, made on a header map with the same tags: the blocks with k + 1
   * dropped tile the heap.
   */
  lemma MergeTiled(m: Mem, k: nat, lo: Addr, hi: Addr)
    requires Tiled(m) && k + 1 < |m.blocks| && m.blocks[k] == lo && m.blocks[k + 1] == hi
    requires SameTags(m.heads, RemoveBlockMem(RemoveBlockMem(m, AvailList, hi), AvailList, lo).heads)
    ensures Tiles(MergeResized(m, lo, hi).heads, MergeResized(m, lo, hi).foots, m.heapStart, m.heapEnd, MergeResized(m, lo, hi).blocks)
    ensures MergeResized(m, lo, hi).blocks == m.blocks[..k] + [lo] + m.blocks[k + 2..]
    ensures HeadAt(MergeResized(m, lo, hi).heads, lo).size == MergedSize(m.heads, lo, hi)
    ensures SameStates(m.heads, MergeResized(m, lo, hi).heads)
  {
    var h2 := RemoveBlockMem(RemoveBlockMem(m, AvailList, hi), AvailList, lo).heads;
    MergeTiledAt(m.heads, h2, m.foots, m.heapStart, m.heapEnd, m.blocks, k);
    TagsStates(m.heads, h2);
  }

  lemma MergeTiledAt(h: Heads, h2: Heads, f: Foots, start: Addr, end: Addr, bl: seq<Addr>, k: nat)
    requires Tiles(h, f, start, end, bl) && k + 1 < |bl| && SameTags(h, h2)
    ensures Without(bl, {bl[k + 1]}) == bl[..k] + [bl[k]] + bl[k + 2..]
    ensures Tiles(SetSize(h2, bl[k], MergedSize(h, bl[k], bl[k + 1])), f[GetFooter(h, bl[k + 1]) := MergedSize(h, bl[k], bl[k + 1])],
                  start, end, Without(bl, {bl[k + 1]}))
  {
    var v := MergedSize(h, bl[k], bl[k + 1]);
    TilesDistinct(h, f, start, end, bl);
    DropAbove(bl, k);
    MergeSizeKeepsTags(h, h2, bl[k], v);
    TilesMerge(h, f, start, end, bl, k);
    MergedTilingWithout(MergeHeads(h, bl[k], bl[k + 1]), MergeFoots(h, f, bl[k], bl[k + 1]), start, end, bl[..k] + [bl[k]] + bl[k + 2..], Without(bl, {bl[k + 1]}));
    TilesSameTags(MergeHeads(h, bl[k], bl[k + 1]), SetSize(h2, bl[k], v), f[GetFooter(h, bl[k + 1]) := v], start, end, Without(bl, {bl[k + 1]}));
  }

  /** Dropping element k + 1 of a sequence without repetitions leaves the elements before it, element k, and those after. */
  lemma DropAbove(bl: seq<Addr>, k: nat)
    requires Distinct(bl) && k + 1 < |bl|
    ensures Without(bl, {bl[k + 1]}) == bl[..k] + [bl[k]] + bl[k + 2..]
  {
    WithoutAt(bl, k + 1);
    assert bl[..k] + [bl[k]] == bl[..k + 1];
  }

  /** Tiled blocks are distinct. */
  lemma TilesDistinct(h: Heads, f: Foots, start: Addr, end: Addr, bl: seq<Addr>)
    requires Tiles(h, f, start, end, bl)
    ensures Distinct(bl)
  {
    TilesOrdered(h, f, start, end, bl);
  }

  /**
   * The same size store into two header maps with equal tags keeps their tags
   * equal; stated apart so that MergeTiledAt need not unfold SameTags.
   */
  lemma MergeSizeKeepsTags(h: Heads, h2: Heads, a: Addr, v: int)
    requires SameTags(h, h2)
    ensures SameTags(SetSize(h, a, v), SetSize(h2, a, v))
  {
  }

  /** The merged tiling restated for the block sequence without the upper block; it spares the solver from matching the two terms itself. */
  lemma MergedTilingWithout(h: Heads, f: Foots, start: Addr, end: Addr, bl: seq<Addr>, bl': seq<Addr>)
    requires Tiles(h, f, start, end, bl) && bl == bl'
    ensures Tiles(h, f, start, end, bl')
  {
  }

  /**
   * The list work of el_merge_block_with_above on tiled available blocks `lo` =
   * block k and `hi` = block k + 1, both on the available list: `hi` and `lo` are
   * unlinked, `lo` is resized, and relinking `lo` in front keeps both lists well
   * formed and apart and every tag.
   */
  lemma MergeRelink(m: Mem, k: nat, lo: Addr, hi: Addr, m3: Mem)
    requires ListsOk(m) && Tiled(m) && k + 1 < |m.blocks| && m.blocks[k] == lo && m.blocks[k + 1] == hi
    requires lo in m.availMembers && hi in m.availMembers
    requires IsAvail(m.heads, lo) && IsAvail(m.heads, hi)
    requires m3 == MergeResized(m, lo, hi)
    ensures MergeMem(m, lo) == AddBlockFrontMem(m3, AvailList, lo)
    ensures ListsOk(m3) && lo in m3.heads && NULL < lo && lo !in m3.availMembers && lo !in m3.usedMembers
    ensures SameTags(m.heads, RemoveBlockMem(RemoveBlockMem(m, AvailList, hi), AvailList, lo).heads)
    ensures m3.avail == Shrunk(Shrunk(m.avail, HeadAt(m.heads, hi).size), HeadAt(m.heads, lo).size)
    ensures m3.availMembers == Without(Without(m.availMembers, {hi}), {lo})
    ensures m3.used == m.used && m3.usedMembers == m.usedMembers
    ensures m3.heapStart == m.heapStart && m3.heapEnd == m.heapEnd && m3.heapBytes == m.heapBytes
  {
    AboveInTiling(m.heads, m.foots, m.heapStart, m.heapEnd, m.blocks, k);
    TilesDistinct(m.heads, m.foots, m.heapStart, m.heapEnd, m.blocks);
    DistinctAt(m.blocks, k, k + 1);
    var m2 := RemoveBlockMem(RemoveBlockMem(m, AvailList, hi), AvailList, lo);
    MergeUnlink(m, lo, hi);
    ListsApartAvoiding(m2.heads, m3.heads, m2.avail, m2.availMembers, m2.used, m2.usedMembers, lo, lo);
    MergeMemAt(m, lo, hi);
  }

  /**
   * el_merge_block_with_above on tiled available blocks `lo` = block k and
   * `hi` = block k + 1, both on the available list: both lists stay well formed
   * and apart, and `lo` heads the available list, which is one block shorter with
   * the same byte count.
   */
  lemma MergeLists(m: Mem, k: nat, lo: Addr, hi: Addr)
    requires ListsOk(m) && Tiled(m) && k + 1 < |m.blocks| && m.blocks[k] == lo && m.blocks[k + 1] == hi
    requires lo in m.availMembers && hi in m.availMembers
    requires IsAvail(m.heads, lo) && IsAvail(m.heads, hi)
    ensures ListsOk(MergeMem(m, lo))
    ensures MergeMem(m, lo).availMembers == [lo] + Without(Without(m.availMembers, {hi}), {lo})
    ensures MergeMem(m, lo).avail.length == m.avail.length - 1 && MergeMem(m, lo).avail.bytes == m.avail.bytes
    ensures MergeMem(m, lo).used == m.used && MergeMem(m, lo).usedMembers == m.usedMembers
    ensures MergeMem(m, lo).heapStart == m.heapStart && MergeMem(m, lo).heapEnd == m.heapEnd
    ensures MergeMem(m, lo).heapBytes == m.heapBytes
  {
    var m3 := MergeResized(m, lo, hi);
    MergeRelink(m, k, lo, hi, m3);
    AddFrontKeeps(m3, AvailList, lo);
  }

  /**
   * el_merge_block_with_above on tiled available blocks `lo` = block k and
   * `hi` = block k + 1, both on the available list: the blocks with `hi` dropped
   * tile the heap, `lo` takes the merged size, and no state tag changes.
   */
  lemma MergeTiles(m: Mem, k: nat, lo: Addr, hi: Addr)
    requires ListsOk(m) && Tiled(m) && k + 1 < |m.blocks| && m.blocks[k] == lo && m.blocks[k + 1] == hi
    requires lo in m.availMembers && hi in m.availMembers
    requires IsAvail(m.heads, lo) && IsAvail(m.heads, hi)
    ensures Tiled(MergeMem(m, lo)) && SameStates(m.heads, MergeMem(m, lo).heads)
    ensures MergeMem(m, lo).blocks == m.blocks[..k] + [lo] + m.blocks[k + 2..]
    ensures HeadAt(MergeMem(m, lo).heads, lo).size == MergedSize(m.heads, lo, hi)
  {
    var m3 := MergeResized(m, lo, hi);
    MergeRelink(m, k, lo, hi, m3);
    MergeTiled(m, k, lo, hi);
    var m4 := AddBlockFrontMem(m3, AvailList, lo);
    AddFrontKeeps(m3, AvailList, lo);
    TilesSameTags(m3.heads, m4.heads, m3.foots, m3.heapStart, m3.heapEnd, m3.blocks);
    TagsStates(m3.heads, m4.heads);
    SameTagsHeadAt(m3.heads, m4.heads);
  }

  /** The state of el_merge_block_with_above after unlinking both blocks and resizing `lo`. */
  function MergeResized(m: Mem, lo: Addr, hi: Addr): Mem
  {
    var m2 := RemoveBlockMem(RemoveBlockMem(m, AvailList, hi), AvailList, lo);
    var v := MergedSize(m.heads, lo, hi);
    m2.(heads := SetSize(m2.heads, lo, v), foots := m2.foots[GetFooter(m.heads, hi) := v],
        blocks := Without(m2.blocks, {hi}))
  }

  /** The merging branch of el_merge_block_with_above goes through the resized state. */
  lemma MergeMemAt(m: Mem, lo: Addr, hi: Addr)
    requires lo != NULL && IsAvail(m.heads, lo) && BlockAbove(m.heads, m.heapEnd, lo) == hi && hi != NULL && IsAvail(m.heads, hi)
    ensures MergeMem(m, lo) == AddBlockFrontMem(MergeResized(m, lo, hi), AvailList, lo)
  {
  }

  /** The first two steps of el_free's relinking: `x` off the used list, then tagged available. */
  function FreeRetagged(m: Mem, x: Addr): Mem
  {
    var m1 := RemoveBlockMem(m, UsedList, x);
    m1.(heads := SetState(m1.heads, x, Available))
  }

  lemma FreeRelinkAt(m: Mem, x: Addr)
    ensures FreeRelinkMem(m, x) == AddBlockFrontMem(FreeRetagged(m, x), AvailList, x)
  {
  }

  /** What unlinking from the used list and retagging leave alone. */
  lemma FreeRetagFields(m: Mem, x: Addr)
    ensures FreeRetagged(m, x).usedMembers == Without(m.usedMembers, {x})
    ensures FreeRetagged(m, x).avail == m.avail && FreeRetagged(m, x).availMembers == m.availMembers
    ensures FreeRetagged(m, x).blocks == m.blocks && FreeRetagged(m, x).foots == m.foots
    ensures FreeRetagged(m, x).heapStart == m.heapStart && FreeRetagged(m, x).heapEnd == m.heapEnd
    ensures FreeRetagged(m, x).heapBytes == m.heapBytes
  {
  }

  /** Unlinking used block `x` and tagging it available keeps the lists and the tiling. */
  lemma FreeRetagKeeps(m: Mem, x: Addr)
    requires ListsOk(m) && Tiled(m) && x in m.usedMembers
    ensures ListsOk(FreeRetagged(m, x)) && Tiled(FreeRetagged(m, x))
    ensures NULL < x && x in FreeRetagged(m, x).heads
    ensures x !in FreeRetagged(m, x).availMembers && x !in FreeRetagged(m, x).usedMembers
    ensures IsAvail(FreeRetagged(m, x).heads, x) && StatesKept(m.heads, FreeRetagged(m, x).heads, x, x)
    ensures forall a :: HeadAt(FreeRetagged(m, x).heads, a).size == HeadAt(m.heads, a).size
    ensures FreeRetagged(m, x).used == Shrunk(m.used, HeadAt(m.heads, x).size)
  {
    MemberAboveNull(m, UsedList, x);
    var m1 := RemoveBlockMem(m, UsedList, x);
    RemoveKeeps(m, UsedList, x);
    WithoutMembers(m.usedMembers, {x});
    SameTagsHeadAt(m.heads, m1.heads);
    TilesSameTags(m.heads, m1.heads, m.foots, m.heapStart, m.heapEnd, m.blocks);
    RetagKeeps(m1, x, Available);
    TilesRetag(m1.heads, m1.foots, m1.heapStart, m1.heapEnd, m1.blocks, x, Available);
  }

  /**
   * The middle of el_free on used block `x`: both lists stay well formed and
   * apart, the tiling and every size stay, only the state of `x` changes, to
   * available, and `x` moves with its footprint from the used to the available
   * list.
   */
  lemma FreeRelinkKeeps(m: Mem, x: Addr)
    requires ListsOk(m) && Tiled(m) && x in m.usedMembers
    ensures ListsOk(FreeRelinkMem(m, x)) && Tiled(FreeRelinkMem(m, x))
    ensures IsAvail(FreeRelinkMem(m, x).heads, x) && StatesKept(m.heads, FreeRelinkMem(m, x).heads, x, x)
    ensures forall a :: HeadAt(FreeRelinkMem(m, x).heads, a).size == HeadAt(m.heads, a).size
    ensures FreeRelinkMem(m, x).used == Shrunk(m.used, HeadAt(m.heads, x).size)
    ensures FreeRelinkMem(m, x).avail == Grown(m.avail, HeadAt(m.heads, x).size)
    ensures FreeRelinkMem(m, x).usedMembers == Without(m.usedMembers, {x})
    ensures FreeRelinkMem(m, x).availMembers == [x] + m.availMembers
    ensures FreeRelinkMem(m, x).blocks == m.blocks && FreeRelinkMem(m, x).foots == m.foots
    ensures FreeRelinkMem(m, x).heapStart == m.heapStart && FreeRelinkMem(m, x).heapEnd == m.heapEnd
    ensures FreeRelinkMem(m, x).heapBytes == m.heapBytes
  {
    FreeRelinkAt(m, x);
    FreeRetagKeeps(m, x);
    FreeRetagFields(m, x);
    var m2 := FreeRetagged(m, x);
    AddFrontKeeps(m2, AvailList, x);
    var m3 := AddBlockFrontMem(m2, AvailList, x);
    SameTagsHeadAt(m2.heads, m3.heads);
    TilesSameTags(m2.heads, m3.heads, m2.foots, m2.heapStart, m2.heapEnd, m2.blocks);
  }

  /** el_free of a block that is not available, as three steps; merging with NULL changes nothing. */
  lemma FreeMemAt(m: Mem, x: Addr)
    requires HeadAt(m.heads, x).state != Available
    ensures FreeMem(m, x + HEAD_SIZE) == MergeMem(MergeMem(FreeRelinkMem(m, x), x), BlockBelow(m.foots, m.heapStart, x))
  {
  }

  /** el_init's two calls of el_init_blocklist: both lists empty, well formed and apart. */
  lemma InitListsOk(m: Mem)
    ensures ListsOk(InitBlocklistMem(InitBlocklistMem(m, AvailList), UsedList))
    ensures InitBlocklistMem(InitBlocklistMem(m, AvailList), UsedList).availMembers == []
    ensures InitBlocklistMem(InitBlocklistMem(m, AvailList), UsedList).usedMembers == []
    ensures InitBlocklistMem(InitBlocklistMem(m, AvailList), UsedList).avail == BlockList(AVAIL_BEG, AVAIL_END, 0, 0)
    ensures InitBlocklistMem(InitBlocklistMem(m, AvailList), UsedList).used == BlockList(USED_BEG, USED_END, 0, 0)
    ensures var m2 := InitBlocklistMem(InitBlocklistMem(m, AvailList), UsedList);
            m2.heapStart == m.heapStart && m2.heapEnd == m.heapEnd && m2.heapBytes == m.heapBytes
  {
    var m2 := InitBlocklistMem(InitBlocklistMem(m, AvailList), UsedList);
    assert LinkedAt(m2.heads, Chain(m2.avail, []), 0);
    assert LinkedAt(m2.heads, Chain(m2.used, []), 0);
    assert Apart(Chain(m2.avail, []), 0, 1) && Apart(Chain(m2.used, []), 0, 1);
  }

  /** The end of el_init: block `a` of payload `size`, tagged available, as the only block and on the available list. */
  function FirstBlockMem(m2: Mem, a: Addr, size: int): Mem
  {
    var h := SetState(SetSize(m2.heads, a, size), a, Available);
    var f := m2.foots[GetFooter(h, a) := size];
    AddBlockFrontMem(m2.(heads := h, foots := f, blocks := [a]), AvailList, a)
  }

  lemma InitMemAt(m: Mem, heapStart: Addr, heapBytes: int)
    requires heapBytes >= OVERHEAD
    ensures InitMem(m, heapStart, heapBytes).0 ==
      FirstBlockMem(InitBlocklistMem(InitBlocklistMem(m.(heapBytes := heapBytes, heapStart := heapStart, heapEnd := heapStart + heapBytes), AvailList), UsedList),
                    heapStart, heapBytes - OVERHEAD)
  {
  }

  /** The first block of el_init on empty lists: the block tiles its own span and is the only available block. */
  lemma FirstBlockKeeps(m2: Mem, a: Addr, size: int)
    requires ListsOk(m2) && m2.availMembers == [] && m2.usedMembers == [] && NULL < a && 0 <= size
    ensures ListsOk(FirstBlockMem(m2, a, size))
    ensures Tiles(FirstBlockMem(m2, a, size).heads, FirstBlockMem(m2, a, size).foots, a, a + size + OVERHEAD, [a])
    ensures FirstBlockMem(m2, a, size).blocks == [a]
    ensures FirstBlockMem(m2, a, size).availMembers == [a] && FirstBlockMem(m2, a, size).usedMembers == []
    ensures IsAvail(FirstBlockMem(m2, a, size).heads, a) && HeadAt(FirstBlockMem(m2, a, size).heads, a).size == size
    ensures Partitioned(FirstBlockMem(m2, a, size).heads, [a], [a], []) && Coalesced(FirstBlockMem(m2, a, size).heads, [a])
    ensures FirstBlockMem(m2, a, size).avail == Grown(m2.avail, size) && FirstBlockMem(m2, a, size).used == m2.used
    ensures FirstBlockMem(m2, a, size).heapStart == m2.heapStart && FirstBlockMem(m2, a, size).heapEnd == m2.heapEnd
    ensures FirstBlockMem(m2, a, size).heapBytes == m2.heapBytes
  {
    var h := SetState(SetSize(m2.heads, a, size), a, Available);
    var f := m2.foots[GetFooter(h, a) := size];
    ListsApartAvoiding(m2.heads, h, m2.avail, [], m2.used, [], a, a);
    var m2' := m2.(heads := h, foots := f, blocks := [a]);
    AddFrontKeeps(m2', AvailList, a);
    var m3 := AddBlockFrontMem(m2', AvailList, a);
    SameTagsHeadAt(h, m3.heads);
    assert TagsAgree(m3.heads, f, a);
  }

  /** The first block of el_init over a heap above NULL, on empty lists, makes a valid one-block heap. */
  lemma FirstBlockValid(m2: Mem, a: Addr, size: int)
    requires ListsOk(m2) && m2.availMembers == [] && m2.usedMembers == [] && m2.avail.bytes == 0 && m2.used.bytes == 0
    requires NULL < a && 0 <= size && m2.heapStart == a && m2.heapBytes == size + OVERHEAD && m2.heapEnd == a + size + OVERHEAD
    ensures Valid(FirstBlockMem(m2, a, size))
    ensures FirstBlockMem(m2, a, size).blocks == [a]
    ensures FirstBlockMem(m2, a, size).availMembers == [a] && FirstBlockMem(m2, a, size).usedMembers == []
    ensures IsAvail(FirstBlockMem(m2, a, size).heads, a) && HeadAt(FirstBlockMem(m2, a, size).heads, a).size == size
    ensures FirstBlockMem(m2, a, size).avail.length == m2.avail.length + 1
    ensures FirstBlockMem(m2, a, size).avail.bytes == size + OVERHEAD && FirstBlockMem(m2, a, size).used == m2.used
  {
    FirstBlockKeeps(m2, a, size);
  }

  /** MergeResized spelled out as el_merge_block_with_above computes it. */
  lemma MergeResizedAt(m: Mem, m2: Mem, lo: Addr, hi: Addr, total: int, hiFoot: Addr)
    requires m2 == RemoveBlockMem(RemoveBlockMem(m, AvailList, hi), AvailList, lo)
    requires total == HeadAt(m.heads, lo).size + HeadAt(m.heads, hi).size && hiFoot == GetFooter(m.heads, hi)
    ensures m2.(heads := SetSize(m2.heads, lo, total + OVERHEAD), foots := m2.foots[hiFoot := total + OVERHEAD],
                blocks := Without(m2.blocks, {hi})) == MergeResized(m, lo, hi)
  {
  }

  /** el_init on a heap too small for one block's overhead: only the bounds are set. */
  lemma InitFails(m0: Mem, m1: Mem, heapStart: Addr, heapBytes: int)
    requires heapBytes < OVERHEAD
    requires m1 == m0.(heapBytes := heapBytes, heapStart := heapStart, heapEnd := heapStart + heapBytes)
    ensures InitMem(m0, heapStart, heapBytes) == (m1, -1)
  {
  }

  /** el_init as its three stages: the bounds, the two empty lists, the first block. */
  lemma InitSteps(m0: Mem, m1: Mem, m2: Mem, m3: Mem, heapStart: Addr, heapBytes: int)
    requires heapBytes >= OVERHEAD
    requires m1 == m0.(heapBytes := heapBytes, heapStart := heapStart, heapEnd := heapStart + heapBytes)
    requires m2 == InitBlocklistMem(InitBlocklistMem(m1, AvailList), UsedList)
    requires m3 == FirstBlockMem(m2, m2.heapStart, m2.heapBytes - OVERHEAD)
    ensures InitMem(m0, heapStart, heapBytes) == (m3, 0)
  {
    InitMemAt(m0, heapStart, heapBytes);
  }

  /** el_malloc past a successful search, as its stages: unlink, split, file the front part, file the rest. */
  lemma MallocSteps(m0: Mem, m1: Mem, m2: Mem, m4: Mem, m6: Mem, first: Addr, second: Addr, n: int)
    requires first == FindFirstAvailMem(m0, n) && first != NULL
    requires m1 == RemoveBlockMem(m0, AvailList, first)
    requires (m2, second) == SplitBlockMem(m1, first, n)
    requires m4 == AddBlockFrontMem(m2, UsedList, first).(heads := SetState(AddBlockFrontMem(m2, UsedList, first).heads, first, Used))
    requires m6 == AddBlockFrontMem(m4, AvailList, second).(heads := SetState(AddBlockFrontMem(m4, AvailList, second).heads, second, Available))
    ensures (m6, first + HEAD_SIZE) == MallocMem(m0, n)
  {
  }

  /** The same three stages on a heap above NULL end in a valid heap of one available block. */
  lemma InitStepsValid(m1: Mem, m2: Mem, m3: Mem, heapStart: Addr, heapBytes: int)
    requires NULL < heapStart && heapBytes >= OVERHEAD
    requires m1.heapBytes == heapBytes && m1.heapStart == heapStart && m1.heapEnd == heapStart + heapBytes
    requires m2 == InitBlocklistMem(InitBlocklistMem(m1, AvailList), UsedList)
    requires m3 == FirstBlockMem(m2, m2.heapStart, m2.heapBytes - OVERHEAD)
    ensures Valid(m3) && m3.availMembers == [heapStart] && m3.usedMembers == []
  {
    InitListsOk(m1);
    FirstBlockValid(m2, heapStart, heapBytes - OVERHEAD);
  }
}
