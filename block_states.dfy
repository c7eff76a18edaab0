/**
 * The state tags of the tiled blocks: which blocks are available and which are
 * used, how the two lists partition them, and the coalescing property that no
 * two address-adjacent blocks are both available.
 */
module BlockStates {
  import opened Layout
  import opened BlockLists

  ghost predicate IsAvail(h: Heads, a: Addr)
  {
    HeadAt(h, a).state == Available
  }

  ghost predicate IsUsed(h: Heads, a: Addr)
  {
    HeadAt(h, a).state == Used
  }

  /** Every state tag is the same in `h` and `h'`. */
  ghost predicate SameStates(h: Heads, h': Heads)
  {
    forall a :: HeadAt(h', a).state == HeadAt(h, a).state
  }

  /** Every state tag outside `x` and `y` is the same in `h` and `h'`. */
  ghost predicate StatesKept(h: Heads, h': Heads, x: Addr, y: Addr)
  {
    forall a :: a != x && a != y ==> HeadAt(h', a).state == HeadAt(h, a).state
  }

  /**
   * Every block is available or used; the available list holds exactly the
   * available blocks and the used list exactly the used ones.
   */
  ghost predicate Partitioned(h: Heads, bl: seq<Addr>, av: seq<Addr>, us: seq<Addr>)
  {
    && (forall i :: 0 <= i < |bl| ==> IsAvail(h, bl[i]) || IsUsed(h, bl[i]))
    && (forall a :: a in av <==> a in bl && IsAvail(h, a))
    && (forall a :: a in us <==> a in bl && IsUsed(h, a))
  }

  /** Blocks i and i + 1 are not both available. */
  ghost predicate PairOk(h: Heads, bl: seq<Addr>, i: int)
    requires 0 <= i < |bl| - 1
  {
    !(IsAvail(h, bl[i]) && IsAvail(h, bl[i + 1]))
  }

  /** No two address-adjacent blocks are both available. */
  ghost predicate Coalesced(h: Heads, bl: seq<Addr>)
  {
    forall i :: 0 <= i < |bl| - 1 ==> PairOk(h, bl, i)
  }

  /** Every adjacent pair not involving `x` is coalesced. */
  ghost predicate CoalescedExcept(h: Heads, bl: seq<Addr>, x: Addr)
  {
    forall i :: 0 <= i < |bl| - 1 && bl[i] != x && bl[i + 1] != x ==> PairOk(h, bl, i)
  }

  /** Partition after el_free retags used block `x` as available and moves it between the lists. */
  lemma PartitionFree(h: Heads, h': Heads, bl: seq<Addr>, av: seq<Addr>, us: seq<Addr>, x: Addr)
    requires Partitioned(h, bl, av, us) && x in bl && IsUsed(h, x)
    requires IsAvail(h', x) && StatesKept(h, h', x, x)
    ensures Partitioned(h', bl, [x] + av, Without(us, {x}))
  {
    forall i | 0 <= i < |bl|
      ensures IsAvail(h', bl[i]) || IsUsed(h', bl[i])
    {
      assert IsAvail(h, bl[i]) || IsUsed(h, bl[i]);
    }
    WithoutMembers(us, {x});
  }

  /** Coalescing away from the retagged block survives el_free's retagging. */
  lemma CoalescedRetag(h: Heads, h': Heads, bl: seq<Addr>, x: Addr)
    requires Coalesced(h, bl) && StatesKept(h, h', x, x)
    ensures CoalescedExcept(h', bl, x)
  {
    forall i | 0 <= i < |bl| - 1 && bl[i] != x && bl[i + 1] != x
      ensures PairOk(h', bl, i)
    {
      assert PairOk(h, bl, i);
    }
  }

  /**
   * Partition after el_malloc: block j becomes used and joins the used list; the
   * remainder header `nh`, placed right after it, is available and joins the
   * available list.
   */
  lemma PartitionSplit(h: Heads, h': Heads, bl: seq<Addr>, j: nat, nh: Addr, av: seq<Addr>, us: seq<Addr>)
    requires Partitioned(h, bl, av, us) && j < |bl| && nh !in bl && IsAvail(h, bl[j])
    requires IsUsed(h', bl[j]) && IsAvail(h', nh) && StatesKept(h, h', bl[j], nh)
    ensures Partitioned(h', bl[..j] + [bl[j], nh] + bl[j + 1..], [nh] + Without(av, {bl[j]}), [bl[j]] + us)
  {
    var bl' := bl[..j] + [bl[j], nh] + bl[j + 1..];
    assert bl == bl[..j] + [bl[j]] + bl[j + 1..];
    assert forall a :: a in bl' <==> a in bl || a == nh;
    WithoutMembers(av, {bl[j]});
    forall i | 0 <= i < |bl'|
      ensures IsAvail(h', bl'[i]) || IsUsed(h', bl'[i])
    {
      if bl'[i] != bl[j] && bl'[i] != nh {
        assert bl'[i] in bl;
        var i0 :| 0 <= i0 < |bl| && bl[i0] == bl'[i];
        assert IsAvail(h, bl[i0]) || IsUsed(h, bl[i0]);
      }
    }
  }

  /** Coalescing after el_malloc: the used block keeps its neighbours apart, and nothing else changes. */
  lemma CoalescedSplit(h: Heads, h': Heads, bl: seq<Addr>, j: nat, nh: Addr)
    requires Coalesced(h, bl) && Distinct(bl) && j < |bl| && nh !in bl && IsAvail(h, bl[j])
    requires IsUsed(h', bl[j]) && StatesKept(h, h', bl[j], nh)
    ensures Coalesced(h', bl[..j] + [bl[j], nh] + bl[j + 1..])
  {
    var bl' := bl[..j] + [bl[j], nh] + bl[j + 1..];
    assert |bl'| == |bl| + 1;
    forall i | 0 <= i < |bl'| - 1
      ensures PairOk(h', bl', i)
    {
      if i < j - 1 {
        assert bl'[i] == bl[i] && bl'[i + 1] == bl[i + 1] && PairOk(h, bl, i);
        DistinctAt(bl, i, j);
        DistinctAt(bl, i + 1, j);
      } else if i == j - 1 {
        assert bl'[i + 1] == bl[j];
      } else if i == j {
        assert bl'[i] == bl[j];
      } else if i == j + 1 {
        assert bl'[i + 1] == bl[j + 1] && PairOk(h, bl, j);
        DistinctAt(bl, j, j + 1);
      } else {
        assert bl'[i] == bl[i - 1] && bl'[i + 1] == bl[i] && PairOk(h, bl, i - 1);
        DistinctAt(bl, i - 1, j);
        DistinctAt(bl, i, j);
      }
    }
  }

  /** Partition after el_merge_block_with_above joins available blocks k and k + 1. */
  lemma PartitionMerge(h: Heads, h': Heads, bl: seq<Addr>, k: nat, av: seq<Addr>, us: seq<Addr>)
    requires Partitioned(h, bl, av, us) && Distinct(bl) && k + 1 < |bl|
    requires IsAvail(h, bl[k]) && IsAvail(h, bl[k + 1])
    requires SameStates(h, h')
    ensures Partitioned(h', bl[..k] + [bl[k]] + bl[k + 2..], [bl[k]] + Without(Without(av, {bl[k + 1]}), {bl[k]}), us)
  {
    var bl' := bl[..k] + [bl[k]] + bl[k + 2..];
    DropAboveMembers(bl, k);
    WithoutMembers(av, {bl[k + 1]});
    WithoutMembers(Without(av, {bl[k + 1]}), {bl[k]});
    forall i | 0 <= i < |bl'|
      ensures IsAvail(h', bl'[i]) || IsUsed(h', bl'[i])
    {
      var i0 := if i <= k then i else i + 1;
      assert bl'[i] == bl[i0];
      assert IsAvail(h, bl[i0]) || IsUsed(h, bl[i0]);
    }
  }

  /** Dropping block k + 1 of a sequence without repetitions keeps exactly the other blocks. */
  lemma DropAboveMembers(bl: seq<Addr>, k: nat)
    requires Distinct(bl) && k + 1 < |bl|
    ensures forall a :: a in bl[..k] + [bl[k]] + bl[k + 2..] <==> a in bl && a != bl[k + 1]
  {
    var bl' := bl[..k] + [bl[k]] + bl[k + 2..];
    assert bl == bl[..k] + [bl[k], bl[k + 1]] + bl[k + 2..];
    forall a | a in bl'
      ensures a != bl[k + 1]
    {
      var i :| 0 <= i < |bl'| && bl'[i] == a;
      var i0 := if i <= k then i else i + 1;
      assert bl'[i] == bl[i0];
      DistinctAt(bl, i0, k + 1);
    }
  }

  /**
   * Coalescing after merging available blocks k and k + 1: pairs away from the
   * merged block stay coalesced, the merged block's upper pair is coalesced, and its
   * lower pair is as coalesced as before.
   */
  lemma CoalescedMerge(h: Heads, h': Heads, bl: seq<Addr>, k: nat)
    requires k + 1 < |bl| && CoalescedExcept(h, bl, bl[k]) && Distinct(bl)
    requires IsAvail(h, bl[k + 1])
    requires SameStates(h, h')
    ensures var bl' := bl[..k] + [bl[k]] + bl[k + 2..];
            && CoalescedExcept(h', bl', bl[k])
            && (k + 1 < |bl'| ==> PairOk(h', bl', k))
            && (k > 0 ==> (PairOk(h, bl, k - 1) <==> PairOk(h', bl', k - 1)))
  {
    var bl' := bl[..k] + [bl[k]] + bl[k + 2..];
    forall i | 0 <= i < |bl'| - 1 && bl'[i] != bl[k] && bl'[i + 1] != bl[k]
      ensures PairOk(h', bl', i)
    {
      if i < k {
        assert bl'[i] == bl[i] && bl'[i + 1] == bl[i + 1] && PairOk(h, bl, i);
      } else {
        assert bl'[i] == bl[i + 1] && bl'[i + 1] == bl[i + 2];
        assert bl[i + 1] != bl[k] && bl[i + 2] != bl[k];
        assert PairOk(h, bl, i + 1);
      }
    }
    if k + 1 < |bl'| {
      assert bl'[k + 1] == bl[k + 2];
      DistinctAt(bl, k, k + 1);
      DistinctAt(bl, k, k + 2);
      assert PairOk(h, bl, k + 1);
    }
    if k > 0 {
      assert bl'[k - 1] == bl[k - 1] && bl'[k] == bl[k];
    }
  }

  /** Both pairs of the excepted block coalesced: the whole heap is coalesced. */
  lemma CoalescedClose(h: Heads, bl: seq<Addr>, m: nat)
    requires Distinct(bl) && m < |bl| && CoalescedExcept(h, bl, bl[m])
    requires m > 0 ==> PairOk(h, bl, m - 1)
    requires m + 1 < |bl| ==> PairOk(h, bl, m)
    ensures Coalesced(h, bl)
  {
    forall i | 0 <= i < |bl| - 1
      ensures PairOk(h, bl, i)
    {
      if i != m && i != m - 1 {
        DistinctAt(bl, i, m);
        DistinctAt(bl, i + 1, m);
      }
    }
  }

  /**
   * Merging available block k with the block k + 1 above it, when that one is
   * coalesced with what lies above it and every pair away from it is coalesced:
   * the whole heap becomes coalesced.
   */
  lemma CoalescedMergeBelow(h: Heads, h': Heads, bl: seq<Addr>, k: nat)
    requires Distinct(bl) && k + 1 < |bl| && CoalescedExcept(h, bl, bl[k + 1])
    requires IsAvail(h, bl[k]) && IsAvail(h, bl[k + 1])
    requires k + 2 < |bl| ==> PairOk(h, bl, k + 1)
    requires SameStates(h, h')
    ensures Coalesced(h', bl[..k] + [bl[k]] + bl[k + 2..])
  {
    var bl' := bl[..k] + [bl[k]] + bl[k + 2..];
    forall i | 0 <= i < |bl'| - 1
      ensures PairOk(h', bl', i)
    {
      if i < k {
        assert bl'[i] == bl[i] && bl'[i + 1] == bl[i + 1];
        DistinctAt(bl, i, k + 1);
        DistinctAt(bl, i + 1, k + 1);
        assert PairOk(h, bl, i);
      } else if i == k {
        assert bl'[i] == bl[k] && bl'[i + 1] == bl[k + 2];
        assert PairOk(h, bl, k + 1);
      } else {
        assert bl'[i] == bl[i + 1] && bl'[i + 1] == bl[i + 2];
        DistinctAt(bl, i + 1, k + 1);
        DistinctAt(bl, i + 2, k + 1);
        assert PairOk(h, bl, i + 1);
      }
    }
  }
}
