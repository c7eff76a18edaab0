/**
 * The doubly-linked block lists of the allocator. A list is bounded by a begin
 * and an end sentinel whose links live in the same header memory as the blocks,
 * and keeps a running count of its members and of their footprints.
 */
module BlockLists {
  import opened Layout

  /** el_blocklist_t: the sentinel addresses and the `length` and `bytes` counters. */
  datatype BlockList = BlockList(beg: Addr, end: Addr, length: int, bytes: int)

  /** The counters after one member of payload `size` joins the list. */
  function Grown(l: BlockList, size: int): BlockList
  {
    l.(length := l.length + 1, bytes := l.bytes + (OVERHEAD + size))
  }

  /** The counters after one member of payload `size` leaves the list. */
  function Shrunk(l: BlockList, size: int): BlockList
  {
    l.(length := l.length - 1, bytes := l.bytes - (OVERHEAD + size))
  }

  /** The sentinel-bounded chain of a list with members `s`, in list order. */
  function Chain(l: BlockList, s: seq<Addr>): (c: seq<Addr>)
    ensures |c| == |s| + 2 && c[0] == l.beg && c[|c| - 1] == l.end
  {
    [l.beg] + s + [l.end]
  }

  /** Element i of `c` points forward to element i + 1, which points back to it. */
  ghost predicate LinkedAt(h: Heads, c: seq<Addr>, i: int)
    requires 0 <= i < |c| - 1
  {
    c[i] in h && c[i + 1] in h && h[c[i]].next == c[i + 1] && h[c[i + 1]].prev == c[i]
  }

  /** The headers of `c` exist, are distinct, and each `next` link has a matching `prev` link. */
  ghost predicate Linked(h: Heads, c: seq<Addr>)
  {
    && (forall i :: 0 <= i < |c| ==> c[i] in h)
    && Distinct(c)
    && (forall i :: 0 <= i < |c| - 1 ==> LinkedAt(h, c, i))
  }

  /** The sum of `size + OVERHEAD` over the members `s`. */
  ghost function SumBytes(h: Heads, s: seq<Addr>): int
  {
    if s == [] then 0 else HeadAt(h, s[0]).size + OVERHEAD + SumBytes(h, s[1..])
  }

  /** The list's links run through exactly `s`, and its counters reflect exactly `s`. */
  ghost predicate ListOk(h: Heads, l: BlockList, s: seq<Addr>)
  {
    Linked(h, Chain(l, s)) && l.length == |s| && l.bytes == SumBytes(h, s)
  }

  /** The prev/next links at `a` are the same in `h` and `h'`. */
  ghost predicate SameLinks(h: Heads, h': Heads, a: Addr)
  {
    a in h && a in h' && h'[a].prev == h[a].prev && h'[a].next == h[a].next
  }

  /** `s` with every element of `xs` dropped, the rest kept in order. */
  function Without(s: seq<Addr>, xs: set<Addr>): seq<Addr>
  {
    if s == [] then []
    else if s[0] in xs then Without(s[1..], xs) else [s[0]] + Without(s[1..], xs)
  }

  /** Exactly the members outside `xs` survive. */
  lemma {:induction false} WithoutMembers(s: seq<Addr>, xs: set<Addr>)
    ensures forall a :: a in Without(s, xs) <==> a in s && a !in xs
    ensures |Without(s, xs)| <= |s|
  {
    if s != [] {
      WithoutMembers(s[1..], xs);
      assert s == [s[0]] + s[1..];
    }
  }

  lemma {:induction false} WithoutNothing(s: seq<Addr>, xs: set<Addr>)
    requires forall i :: 0 <= i < |s| ==> s[i] !in xs
    ensures Without(s, xs) == s
  {
    if s != [] {
      WithoutNothing(s[1..], xs);
      assert s == [s[0]] + s[1..];
    }
  }

  /** Dropping distributes over concatenation. */
  lemma {:induction false} WithoutAppend(a: seq<Addr>, b: seq<Addr>, xs: set<Addr>)
    ensures Without(a + b, xs) == Without(a, xs) + Without(b, xs)
  {
    if a == [] {
      assert a + b == b;
    } else {
      WithoutAppend(a[1..], b, xs);
      assert a + b != [] && (a + b)[0] == a[0] && (a + b)[1..] == a[1..] + b;
      if a[0] !in xs {
        var rest := Without(a[1..], xs);
        assert [a[0]] + (rest + Without(b, xs)) == ([a[0]] + rest) + Without(b, xs);
      }
    }
  }

  /** In a list without repetitions, dropping one member removes exactly its position. */
  lemma WithoutAt(s: seq<Addr>, i: nat)
    requires Distinct(s) && i < |s|
    ensures Without(s, {s[i]}) == s[..i] + s[i + 1..]
  {
    var xs := {s[i]};
    var front, back := s[..i], s[i + 1..];
    assert s == front + ([s[i]] + back);
    WithoutAppend(front, [s[i]] + back, xs);
    WithoutAppend([s[i]], back, xs);
    assert Without([s[i]], xs) == [] by {
      assert [s[i]][1..] == [];
    }
    forall j | 0 <= j < |front|
      ensures front[j] !in xs
    {
      assert front[j] == s[j];
      assert Apart(s, j, i);
    }
    WithoutNothing(front, xs);
    forall j | 0 <= j < |back|
      ensures back[j] !in xs
    {
      assert back[j] == s[i + 1 + j];
      assert Apart(s, i, i + 1 + j);
    }
    WithoutNothing(back, xs);
    assert Without(s, xs) == front + ([] + back);
    assert [] + back == back;
  }

  /** Dropping an address that is not in the list changes nothing. */
  lemma {:induction false} WithoutAbsent(s: seq<Addr>, xs: set<Addr>, y: Addr)
    requires y !in s
    ensures Without(s, xs + {y}) == Without(s, xs)
  {
    if s != [] {
      WithoutAbsent(s[1..], xs, y);
      assert s[0] != y;
    }
  }

  /** Dropping two sets one after the other drops their union. */
  lemma {:induction false} WithoutWithout(s: seq<Addr>, xs: set<Addr>, ys: set<Addr>)
    ensures Without(Without(s, xs), ys) == Without(s, xs + ys)
  {
    if s != [] {
      WithoutWithout(s[1..], xs, ys);
      if s[0] !in xs {
        assert Without(s, xs) == [s[0]] + Without(s[1..], xs);
        assert ([s[0]] + Without(s[1..], xs))[1..] == Without(s[1..], xs);
      }
    }
  }

  /** Dropping `y` and then `x` drops both at once. */
  lemma DropTwo(s: seq<Addr>, x: Addr, y: Addr)
    ensures Without(Without(s, {y}), {x}) == Without(s, {x, y})
  {
    WithoutWithout(s, {y}, {x});
    assert {y} + {x} == {x, y};
  }

  /** Removing one member of a list without repetitions takes its footprint out of the sum. */
  lemma {:induction false} SumBytesWithout(h: Heads, s: seq<Addr>, x: Addr)
    requires Distinct(s) && x in s
    ensures SumBytes(h, Without(s, {x})) == SumBytes(h, s) - HeadAt(h, x).size - OVERHEAD
  {
    DistinctTail(s);
    if s[0] == x {
      WithoutNothing(s[1..], {x});
    } else {
      SumBytesWithout(h, s[1..], x);
      assert ([s[0]] + Without(s[1..], {x}))[1..] == Without(s[1..], {x});
    }
  }

  /** The byte sum depends only on the sizes of the members. */
  lemma {:induction false} SumBytesFrame(h: Heads, h': Heads, s: seq<Addr>)
    requires forall i :: 0 <= i < |s| ==> HeadAt(h', s[i]).size == HeadAt(h, s[i]).size
    ensures SumBytes(h', s) == SumBytes(h, s)
  {
    if s != [] {
      assert HeadAt(h', s[0]).size == HeadAt(h, s[0]).size;
      SumBytesFrame(h, h', s[1..]);
    }
  }

  /** The linkage of a chain depends only on the links of its elements. */
  lemma LinkedFrame(h: Heads, h': Heads, c: seq<Addr>)
    requires Linked(h, c)
    requires forall i :: 0 <= i < |c| ==> SameLinks(h, h', c[i])
    ensures Linked(h', c)
  {
    forall i | 0 <= i < |c| - 1
      ensures LinkedAt(h', c, i)
    {
      assert LinkedAt(h, c, i);
      assert SameLinks(h, h', c[i]) && SameLinks(h, h', c[i + 1]);
    }
  }

  /** A list's bookkeeping depends only on the links and sizes of its chain. */
  lemma ListOkFrame(h: Heads, h': Heads, l: BlockList, s: seq<Addr>)
    requires ListOk(h, l, s)
    requires forall i :: 0 <= i < |Chain(l, s)| ==> SameLinks(h, h', Chain(l, s)[i])
    requires forall i :: 0 <= i < |s| ==> HeadAt(h', s[i]).size == HeadAt(h, s[i]).size
    ensures ListOk(h', l, s)
  {
    LinkedFrame(h, h', Chain(l, s));
    SumBytesFrame(h, h', s);
  }

  /** A list survives any change of memory that leaves the records of its chain alone. */
  lemma ListOkUnchanged(h: Heads, h': Heads, l: BlockList, s: seq<Addr>)
    requires ListOk(h, l, s)
    requires forall i :: 0 <= i < |Chain(l, s)| ==> HeadAt(h', Chain(l, s)[i]) == HeadAt(h, Chain(l, s)[i]) && Chain(l, s)[i] in h'
    ensures ListOk(h', l, s)
  {
    var c := Chain(l, s);
    forall i | 0 <= i < |c|
      ensures SameLinks(h, h', c[i])
    {
      assert c[i] in h;
    }
    forall i | 0 <= i < |s|
      ensures HeadAt(h', s[i]).size == HeadAt(h, s[i]).size
    {
      assert c[i + 1] == s[i];
    }
    ListOkFrame(h, h', l, s);
  }

  /**
   * Splicing `x` in right after the first element of a chain (el_add_block_front)
   * gives the chain with `x` in second place.
   */
  lemma LinkedInsertFront(h: Heads, h': Heads, c: seq<Addr>, x: Addr)
    requires Linked(h, c) && |c| >= 2 && x !in c
    requires x in h' && forall j :: 0 <= j < |c| ==> c[j] in h'
    requires h'[c[0]].next == x && h'[x].prev == c[0]
    requires h'[x].next == c[1] && h'[c[1]].prev == x && h'[c[1]].next == h[c[1]].next
    requires forall j :: 2 <= j < |c| ==> SameLinks(h, h', c[j])
    ensures Linked(h', [c[0], x] + c[1..])
  {
    var c' := [c[0], x] + c[1..];
    assert |c'| == |c| + 1;
    forall i | 0 <= i < |c'|
      ensures c'[i] in h'
    {
      if i >= 2 {
        assert c'[i] == c[i - 1];
      }
    }
    forall i | 0 <= i < |c'| - 1
      ensures LinkedAt(h', c', i)
    {
      if i == 1 {
        assert c'[2] == c[1];
      } else if i >= 2 {
        assert c'[i] == c[i - 1] && c'[i + 1] == c[i];
        assert LinkedAt(h, c, i - 1);
        assert SameLinks(h, h', c[i]);
        if i - 1 >= 2 {
          assert SameLinks(h, h', c[i - 1]);
        }
      }
    }
    forall i, j | 0 <= i < j < |c'|
      ensures Apart(c', i, j)
    {
      if j >= 2 {
        assert c'[j] == c[j - 1];
        if i >= 2 {
          assert c'[i] == c[i - 1];
          assert Apart(c, i - 1, j - 1);
        } else if i == 0 {
          assert Apart(c, 0, j - 1);
        }
      }
    }
  }

  /**
   * Unlinking the element at position i of a chain (el_remove_block), by pointing
   * its neighbours at each other, gives the chain without it.
   */
  lemma LinkedRemove(h: Heads, h': Heads, c: seq<Addr>, i: nat)
    requires Linked(h, c) && 0 < i < |c| - 1
    requires forall j :: 0 <= j < |c| ==> c[j] in h'
    requires h'[c[i - 1]].next == c[i + 1] && h'[c[i + 1]].prev == c[i - 1]
    requires h'[c[i - 1]].prev == h[c[i - 1]].prev && h'[c[i + 1]].next == h[c[i + 1]].next
    requires forall j :: 0 <= j < |c| && j != i - 1 && j != i + 1 ==> SameLinks(h, h', c[j])
    ensures Linked(h', c[..i] + c[i + 1..])
  {
    var c' := c[..i] + c[i + 1..];
    assert |c'| == |c| - 1;
    forall j | 0 <= j < |c'|
      ensures c'[j] in h'
    {
      if j >= i {
        assert c'[j] == c[j + 1];
      }
    }
    forall j | 0 <= j < |c'| - 1
      ensures LinkedAt(h', c', j)
    {
      if j < i - 1 {
        assert c'[j] == c[j] && c'[j + 1] == c[j + 1];
        assert LinkedAt(h, c, j);
        assert SameLinks(h, h', c[j]);
        if j + 1 != i - 1 {
          assert SameLinks(h, h', c[j + 1]);
        }
      } else if j == i - 1 {
        assert c'[j] == c[i - 1] && c'[j + 1] == c[i + 1];
      } else {
        assert c'[j] == c[j + 1] && c'[j + 1] == c[j + 2];
        assert LinkedAt(h, c, j + 1);
        assert SameLinks(h, h', c[j + 2]);
        if j + 1 != i + 1 {
          assert SameLinks(h, h', c[j + 1]);
        }
      }
    }
    forall j, k | 0 <= j < k < |c'|
      ensures Apart(c', j, k)
    {
      var j0 := if j < i then j else j + 1;
      var k0 := if k < i then k else k + 1;
      assert c'[j] == c[j0] && c'[k] == c[k0];
      assert Apart(c, j0, k0);
    }
  }

  /** Sizes and states agree everywhere in the two header maps. */
  ghost predicate SameTags(h: Heads, h': Heads)
  {
    && h'.Keys == h.Keys
    && forall a :: a in h ==> h'[a].size == h[a].size && h'[a].state == h[a].state
  }

  /** Equal tags seen through HeadAt, where unwritten memory reads as the zero record. */
  lemma SameTagsHeadAt(h: Heads, h': Heads)
    requires SameTags(h, h')
    ensures forall a :: HeadAt(h', a).size == HeadAt(h, a).size && HeadAt(h', a).state == HeadAt(h, a).state
  {
  }

  lemma SameTagsTrans(h1: Heads, h2: Heads, h3: Heads)
    requires SameTags(h1, h2) && SameTags(h2, h3)
    ensures SameTags(h1, h3)
  {
  }

  /** Tiling survives any change that keeps every size. */
  lemma TilesSameTags(h: Heads, h': Heads, f: Foots, start: Addr, end: Addr, bl: seq<Addr>)
    requires Tiles(h, f, start, end, bl) && SameTags(h, h')
    ensures Tiles(h', f, start, end, bl)
  {
    forall i | 0 <= i < |bl|
      ensures bl[i] in h' && h'[bl[i]].size == HeadAt(h, bl[i]).size
    {
      assert TagsAgree(h, f, bl[i]);
    }
    TilesFrame(h, h', f, start, end, bl);
  }

  /** The header map after el_add_block_front links `x` in right after the sentinel `beg`. */
  function LinkFront(h: Heads, beg: Addr, x: Addr): Heads
  {
    var h1 := SetPrev(h, x, beg);
    var h2 := SetNext(h1, x, HeadAt(h1, beg).next);
    var h3 := SetNext(h2, HeadAt(h2, x).prev, x);
    SetPrev(h3, HeadAt(h3, x).next, x)
  }

  /** The header map after el_remove_block points the neighbours of `x` at each other. */
  function Unlink(h: Heads, x: Addr): Heads
  {
    var h1 := SetNext(h, HeadAt(h, x).prev, HeadAt(h, x).next);
    SetPrev(h1, HeadAt(h1, x).next, HeadAt(h1, x).prev)
  }

  /** With distinct `beg`, `x` and first member, el_add_block_front's stores touch just those three. */
  lemma LinkFrontAt(h: Heads, beg: Addr, x: Addr, n: Addr)
    requires HeadAt(h, beg).next == n && beg != x && n != x && beg != n
    ensures LinkFront(h, beg, x) == h[x := HeadAt(h, x).(prev := beg, next := n)]
                                       [beg := HeadAt(h, beg).(next := x)]
                                       [n := HeadAt(h, n).(prev := x)]
  {
  }

  /** With distinct neighbours, el_remove_block's two stores are one store into each neighbour. */
  lemma UnlinkAt(h: Heads, x: Addr, p: Addr, n: Addr)
    requires HeadAt(h, x).prev == p && HeadAt(h, x).next == n && p != x && n != x && p != n
    ensures Unlink(h, x) == h[p := HeadAt(h, p).(next := n)][n := HeadAt(h, n).(prev := p)]
  {
  }

  /** A linked list has no repeated member, and every member has a header. */
  lemma MembersDistinct(h: Heads, l: BlockList, s: seq<Addr>)
    requires Linked(h, Chain(l, s))
    ensures Distinct(s) && forall i :: 0 <= i < |s| ==> s[i] in h
  {
    var c := Chain(l, s);
    forall p, q | 0 <= p < q < |s|
      ensures Apart(s, p, q)
    {
      assert c[p + 1] == s[p] && c[q + 1] == s[q];
      assert Apart(c, p + 1, q + 1);
    }
    forall p | 0 <= p < |s|
      ensures s[p] in h
    {
      assert c[p + 1] == s[p];
    }
  }

  /**
   * el_add_block_front on a well-formed list puts `x` first, grows the counters by
   * one member and its footprint, keeps all tags, and changes no record off the
   * chain except that of `x`.
   */
  lemma LinkFrontOwnList(h: Heads, l: BlockList, s: seq<Addr>, x: Addr)
    requires ListOk(h, l, s) && x in h && x !in Chain(l, s)
    ensures var h' := LinkFront(h, l.beg, x);
            && ListOk(h', Grown(l, HeadAt(h, x).size), [x] + s)
            && SameTags(h, h')
            && forall a :: a !in Chain(l, s) && a != x ==> HeadAt(h', a) == HeadAt(h, a)
  {
    var l' := Grown(l, HeadAt(h, x).size);
    LinkFrontMember(h, l, l', s, x);
    var h' := LinkFront(h, l.beg, x);
    SameTagsHeadAt(h, h');
    SumBytesFrame(h, h', s);
    assert ([x] + s)[1..] == s;
  }

  /** el_add_block_front relinks the chain of the list with `x` as its first member. */
  lemma LinkFrontMember(h: Heads, l: BlockList, l': BlockList, s: seq<Addr>, x: Addr)
    requires Linked(h, Chain(l, s)) && x in h && x !in Chain(l, s) && l'.beg == l.beg && l'.end == l.end
    ensures var h' := LinkFront(h, l.beg, x);
            && Linked(h', Chain(l', [x] + s)) && SameTags(h, h')
            && forall a :: a !in Chain(l, s) && a != x ==> HeadAt(h', a) == HeadAt(h, a)
  {
    var c := Chain(l, s);
    LinkFrontChain(h, c, x);
    assert c[0] in c && c[1] in c;
    ChainFront(l, l', s, x);
  }

  /** Putting `x` first among the members puts it second in the chain. */
  lemma ChainFront(l: BlockList, l': BlockList, s: seq<Addr>, x: Addr)
    requires l'.beg == l.beg && l'.end == l.end
    ensures Chain(l', [x] + s) == [Chain(l, s)[0], x] + Chain(l, s)[1..]
  {
    var c := Chain(l, s);
    assert c[1..] == s + [l.end];
    assert [l.beg, x] == [l.beg] + [x];
  }

  /** el_add_block_front after the first element of a linked chain puts `x` second and keeps all tags. */
  lemma LinkFrontChain(h: Heads, c: seq<Addr>, x: Addr)
    requires Linked(h, c) && |c| >= 2 && x in h && x !in c
    ensures var h' := LinkFront(h, c[0], x);
            && Linked(h', [c[0], x] + c[1..]) && SameTags(h, h')
            && forall a :: a != x && a != c[0] && a != c[1] ==> HeadAt(h', a) == HeadAt(h, a)
  {
    assert LinkedAt(h, c, 0);
    var n := c[1];
    assert Apart(c, 0, 1);
    assert c[0] in c && n in c;
    LinkFrontAt(h, c[0], x, n);
    var h' := LinkFront(h, c[0], x);
    forall j | 2 <= j < |c|
      ensures SameLinks(h, h', c[j])
    {
      DistinctAt(c, j, 0);
      DistinctAt(c, j, 1);
      assert c[j] in c && c[j] in h;
    }
    LinkedInsertFront(h, h', c, x);
  }

  /**
   * el_remove_block on a member of a well-formed list drops it from the list,
   * shrinks the counters by one member and its footprint, keeps all tags, and
   * changes only the records of its two chain neighbours.
   */
  lemma UnlinkOwnList(h: Heads, l: BlockList, s: seq<Addr>, x: Addr)
    requires ListOk(h, l, s) && x in s
    ensures x in h
    ensures var h' := Unlink(h, x);
            && ListOk(h', Shrunk(l, HeadAt(h, x).size), Without(s, {x}))
            && SameTags(h, h')
            && forall a :: a !in Chain(l, s) ==> HeadAt(h', a) == HeadAt(h, a)
  {
    var i :| 0 <= i < |s| && s[i] == x;
    MembersDistinct(h, l, s);
    WithoutAt(s, i);
    var l' := Shrunk(l, HeadAt(h, x).size);
    UnlinkMember(h, l, l', s, i);
    SumBytesWithout(h, s, x);
    var h' := Unlink(h, x);
    SameTagsHeadAt(h, h');
    SumBytesFrame(h, h', Without(s, {x}));
  }

  /** el_remove_block on member i relinks the chain of the list without it. */
  lemma UnlinkMember(h: Heads, l: BlockList, l': BlockList, s: seq<Addr>, i: nat)
    requires Linked(h, Chain(l, s)) && i < |s| && l'.beg == l.beg && l'.end == l.end
    ensures var h' := Unlink(h, s[i]);
            && Linked(h', Chain(l', s[..i] + s[i + 1..])) && SameTags(h, h')
            && forall a :: a !in Chain(l, s) ==> HeadAt(h', a) == HeadAt(h, a)
  {
    var c := Chain(l, s);
    assert c[i + 1] == s[i];
    UnlinkChain(h, c, i + 1);
    ChainWithout(l, l', s, i);
    assert c[i] in c && c[i + 2] in c;
  }

  /** el_remove_block on element i of a linked chain links the chain without it and keeps all tags. */
  lemma UnlinkChain(h: Heads, c: seq<Addr>, i: nat)
    requires Linked(h, c) && 0 < i < |c| - 1
    ensures var h' := Unlink(h, c[i]);
            && Linked(h', c[..i] + c[i + 1..]) && SameTags(h, h')
            && forall a :: a != c[i - 1] && a != c[i + 1] ==> HeadAt(h', a) == HeadAt(h, a)
  {
    var x, pr, nx := c[i], c[i - 1], c[i + 1];
    assert LinkedAt(h, c, i - 1) && LinkedAt(h, c, i);
    DistinctAt(c, i - 1, i + 1);
    DistinctAt(c, i - 1, i);
    DistinctAt(c, i, i + 1);
    UnlinkAt(h, x, pr, nx);
    var h' := Unlink(h, x);
    forall j | 0 <= j < |c| && j != i - 1 && j != i + 1
      ensures SameLinks(h, h', c[j])
    {
      DistinctAt(c, j, i - 1);
      DistinctAt(c, j, i + 1);
      assert c[j] in h;
    }
    LinkedRemove(h, h', c, i);
  }

  /** Dropping member i of a list drops element i + 1 of its chain. */
  lemma ChainWithout(l: BlockList, l': BlockList, s: seq<Addr>, i: nat)
    requires i < |s| && l'.beg == l.beg && l'.end == l.end
    ensures Chain(l, s)[..i + 1] + Chain(l, s)[i + 2..] == Chain(l', s[..i] + s[i + 1..])
  {
    var c := Chain(l, s);
    var w := s[..i] + s[i + 1..];
    var c' := Chain(l', w);
    var d := c[..i + 1] + c[i + 2..];
    assert |d| == |c'|;
    forall j | 0 <= j < |d|
      ensures d[j] == c'[j]
    {
      if j == 0 {
      } else if j <= i {
        assert d[j] == c[j] == s[j - 1] == w[j - 1];
      } else if j < |d| - 1 {
        assert d[j] == c[j + 1] == s[j] == w[j - 1];
      }
    }
  }

  /**
   * Two lists, each well formed, with sentinels below NULL, members above NULL,
   * and no address shared.
   */
  ghost predicate ListsApart(h: Heads, l1: BlockList, s1: seq<Addr>, l2: BlockList, s2: seq<Addr>)
  {
    && ListOk(h, l1, s1) && ListOk(h, l2, s2)
    && l1.beg < NULL && l1.end < NULL && l2.beg < NULL && l2.end < NULL
    && l1.beg != l2.beg && l1.beg != l2.end && l1.end != l2.beg && l1.end != l2.end
    && (forall i :: 0 <= i < |s1| ==> NULL < s1[i] && s1[i] !in s2)
    && (forall i :: 0 <= i < |s2| ==> NULL < s2[i] && s2[i] !in s1)
  }

  /** No element of the second chain lies on the first. */
  lemma ChainsApart(h: Heads, l1: BlockList, s1: seq<Addr>, l2: BlockList, s2: seq<Addr>)
    requires ListsApart(h, l1, s1, l2, s2)
    ensures forall j :: 0 <= j < |Chain(l2, s2)| ==> Chain(l2, s2)[j] !in Chain(l1, s1)
  {
    var c1, c2 := Chain(l1, s1), Chain(l2, s2);
    assert c1 == [l1.beg] + s1 + [l1.end];
    forall j | 0 <= j < |c2|
      ensures c2[j] !in c1
    {
      if 0 < j < |c2| - 1 {
        assert c2[j] == s2[j - 1];
      }
    }
  }

  /** Both lists survive any change confined to two addresses above NULL that are on neither list. */
  lemma ListsApartAvoiding(h: Heads, h': Heads, l1: BlockList, s1: seq<Addr>, l2: BlockList, s2: seq<Addr>, x: Addr, y: Addr)
    requires ListsApart(h, l1, s1, l2, s2)
    requires NULL < x && NULL < y && x !in s1 && x !in s2 && y !in s1 && y !in s2
    requires h.Keys <= h'.Keys
    requires forall a :: a != x && a != y ==> HeadAt(h', a) == HeadAt(h, a)
    ensures ListsApart(h', l1, s1, l2, s2)
  {
    ListOkAvoiding(h, h', l1, s1, x, y);
    ListOkAvoiding(h, h', l2, s2, x, y);
  }

  lemma ListOkAvoiding(h: Heads, h': Heads, l: BlockList, s: seq<Addr>, x: Addr, y: Addr)
    requires ListOk(h, l, s) && l.beg < NULL && l.end < NULL
    requires NULL < x && NULL < y && x !in s && y !in s
    requires h.Keys <= h'.Keys
    requires forall a :: a != x && a != y ==> HeadAt(h', a) == HeadAt(h, a)
    ensures ListOk(h', l, s)
  {
    var c := Chain(l, s);
    forall i | 0 <= i < |c|
      ensures HeadAt(h', c[i]) == HeadAt(h, c[i]) && c[i] in h'
    {
      assert c[i] in h;
      if 0 < i < |c| - 1 {
        assert c[i] == s[i - 1];
      }
    }
    ListOkUnchanged(h, h', l, s);
  }

  /** Both lists survive a change of the state of one record. */
  lemma ListsApartRetag(h: Heads, l1: BlockList, s1: seq<Addr>, l2: BlockList, s2: seq<Addr>, x: Addr, st: State)
    requires ListsApart(h, l1, s1, l2, s2)
    ensures ListsApart(SetState(h, x, st), l1, s1, l2, s2)
  {
    var h' := SetState(h, x, st);
    forall i | 0 <= i < |Chain(l1, s1)|
      ensures SameLinks(h, h', Chain(l1, s1)[i])
    {
      assert Chain(l1, s1)[i] in h;
    }
    forall i | 0 <= i < |Chain(l2, s2)|
      ensures SameLinks(h, h', Chain(l2, s2)[i])
    {
      assert Chain(l2, s2)[i] in h;
    }
    ListOkFrame(h, h', l1, s1);
    ListOkFrame(h, h', l2, s2);
  }

  /**
   * el_add_block_front keeps both lists apart and well formed, with `x` first in
   * its list and the counters grown by one member and its footprint.
   */
  lemma LinkFrontOk(h: Heads, l: BlockList, s: seq<Addr>, lo: BlockList, so: seq<Addr>, x: Addr)
    requires ListsApart(h, l, s, lo, so)
    requires x in h && NULL < x && x !in s && x !in so
    ensures var h' := LinkFront(h, l.beg, x);
            && ListsApart(h', Grown(l, HeadAt(h, x).size), [x] + s, lo, so)
            && SameTags(h, h')
  {
    var c := Chain(l, s);
    assert c == [l.beg] + s + [l.end];
    assert x !in c;
    LinkFrontOwnList(h, l, s, x);
    var h' := LinkFront(h, l.beg, x);
    OtherListKept(h, h', l, s, lo, so, {x});
    var s' := [x] + s;
    forall i | 0 <= i < |s'|
      ensures NULL < s'[i] && s'[i] !in so
    {
      if i > 0 {
        assert s'[i] == s[i - 1];
      }
    }
  }

  /**
   * The other list of an apart pair survives a change confined to the first
   * list's chain and to addresses off the other chain.
   */
  lemma OtherListKept(h: Heads, h': Heads, l: BlockList, s: seq<Addr>, lo: BlockList, so: seq<Addr>, extra: set<Addr>)
    requires ListsApart(h, l, s, lo, so)
    requires forall a :: a in extra ==> a !in Chain(lo, so)
    requires forall a :: a !in Chain(l, s) && a !in extra ==> HeadAt(h', a) == HeadAt(h, a)
    requires h'.Keys >= h.Keys
    ensures ListOk(h', lo, so)
  {
    ChainsApart(h, l, s, lo, so);
    var co := Chain(lo, so);
    forall j | 0 <= j < |co|
      ensures HeadAt(h', co[j]) == HeadAt(h, co[j]) && co[j] in h'
    {
      assert co[j] in h && co[j] in co;
      assert co[j] !in extra;
    }
    ListOkUnchanged(h, h', lo, so);
  }

  /**
   * el_remove_block keeps both lists apart and well formed, with `x` dropped from
   * its list, the others in order, and the counters reduced by one member and its
   * footprint.
   */
  lemma UnlinkOk(h: Heads, l: BlockList, s: seq<Addr>, lo: BlockList, so: seq<Addr>, x: Addr)
    requires ListsApart(h, l, s, lo, so) && x in s
    ensures x in h
    ensures var h' := Unlink(h, x);
            && ListsApart(h', Shrunk(l, HeadAt(h, x).size), Without(s, {x}), lo, so)
            && SameTags(h, h')
  {
    UnlinkOwnList(h, l, s, x);
    var h' := Unlink(h, x);
    OtherListKept(h, h', l, s, lo, so, {});
    WithoutApart(s, so, {x});
  }

  /** Members kept from a sequence apart from `so` stay apart from it. */
  lemma WithoutApart(s: seq<Addr>, so: seq<Addr>, xs: set<Addr>)
    requires forall i :: 0 <= i < |s| ==> NULL < s[i] && s[i] !in so
    requires forall i :: 0 <= i < |so| ==> so[i] !in s
    ensures var w := Without(s, xs);
            && (forall i :: 0 <= i < |w| ==> NULL < w[i] && w[i] !in so)
            && (forall i :: 0 <= i < |so| ==> so[i] !in w)
  {
    var w := Without(s, xs);
    WithoutMembers(s, xs);
    forall j | 0 <= j < |w|
      ensures NULL < w[j] && w[j] !in so
    {
      assert w[j] in w;
      var k :| 0 <= k < |s| && s[k] == w[j];
    }
  }
}
