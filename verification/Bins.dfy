/**
 The bins of dlmalloc: 32 small bins, rings of chunks of one size, and 32 tree bins, tries of
 larger chunks. Each kind has a bin map that marks the bins that are not empty.
 */
module Bins {
  import opened Bits
  import opened BinMap
  import opened Trie
  import opened Heap
  import opened TreeLinks
  import T = TreeIndex

  /** The heap lies above the malloc state, in which the bin headers are. */
  const LEAST_ADDR: nat := 4096

  function SmallBinAt(i: nat): Addr { 16 + 16 * i }

  function TreeBinAt(i: nat): Addr { 1024 + 8 * i }

  // ---- Small bins

  /**
   While bin i is unmarked its header's links are stale: unlink_small_chunk clears the mark
   and leaves them as they are.
   */
  ghost predicate SmallBin(m: Memory, s: seq<Addr>, i: nat) {
    && (s != [] ==> Ring(m, SmallBinAt(i), s))
    && DistinctSeq(s)
    && forall p: Addr :: p in s ==> p >= LEAST_ADDR && m.SizeAt(p) == 8 * i
  }

  ghost predicate SmallBins(m: Memory, bins: seq<seq<Addr>>) {
    && |bins| == NBINS
    && (forall i :: 0 <= i < NBINS ==> SmallBin(m, bins[i], i))
  }

  /** The map marks exactly the bins that are not empty. */
  ghost predicate SmallMap(smallmap: nat, bins: seq<seq<Addr>>) {
    && |bins| == NBINS && smallmap < Pow2(NBINS)
    && (forall i :: 0 <= i < NBINS ==> (IsMarked(smallmap, i) <==> bins[i] != []))
  }

  lemma SmallBinFrame(m: Memory, m': Memory, s: seq<Addr>, i: nat)
    requires SmallBin(m, s, i) && SameRing(m, m', SmallBinAt(i))
    requires forall p :: p in s ==> SameRing(m, m', p) && m.SizeAt(p) == m'.SizeAt(p)
    ensures SmallBin(m', s, i)
  {
    if s != [] {
      RingFrame(m, m', SmallBinAt(i), s);
    }
  }

  /** The stores of one bin operation leave the other bins alone. */
  lemma SmallBinsFrame(m: Memory, m': Memory, bins: seq<seq<Addr>>, i: nat, s: seq<Addr>)
    requires SmallBins(m, bins) && i < NBINS
    requires SmallBin(m', s, i)
    requires forall j, p :: 0 <= j < NBINS && j != i && p in bins[j]
                            ==> SameRing(m, m', p) && m.SizeAt(p) == m'.SizeAt(p)
    requires forall j :: 0 <= j < NBINS && j != i ==> SameRing(m, m', SmallBinAt(j))
    ensures SmallBins(m', bins[i := s])
  {
    forall j | 0 <= j < NBINS && j != i ensures SmallBin(m', bins[j], j) {
      SmallBinFrame(m, m', bins[j], j);
    }
  }

  lemma SmallBinsSame(m: Memory, m': Memory, bins: seq<seq<Addr>>)
    requires SmallBins(m, bins)
    requires forall j, p :: 0 <= j < NBINS && p in bins[j] ==> SameRing(m, m', p) && m.SizeAt(p) == m'.SizeAt(p)
    requires forall j :: 0 <= j < NBINS ==> SameRing(m, m', SmallBinAt(j))
    ensures SmallBins(m', bins)
  {
    forall j | 0 <= j < NBINS ensures SmallBin(m', bins[j], j) {
      SmallBinFrame(m, m', bins[j], j);
    }
  }

  /** Chunk x is in no small bin. */
  ghost predicate InNoSmallBin(bins: seq<seq<Addr>>, x: Addr) {
    forall j :: 0 <= j < |bins| ==> x !in bins[j]
  }

  lemma SmallHeadersApart(i: nat, j: nat)
    requires i < NBINS && j < NBINS
    ensures SmallBinAt(i) < LEAST_ADDR
    ensures SmallBinAt(i) == SmallBinAt(j) <==> i == j
  {
  }

  /** The small bins after chunk x has been linked in behind the header of bin i. */
  lemma SmallBinsInsert(m: Memory, bins: seq<seq<Addr>>, i: nat, x: Addr, f: Addr)
    requires SmallBins(m, bins) && i < NBINS && InNoSmallBin(bins, x) && x >= LEAST_ADDR && m.SizeAt(x) == 8 * i
    requires f == if bins[i] == [] then SmallBinAt(i) else m.Fd(SmallBinAt(i))
    ensures SmallBins(LinkAfter(m, SmallBinAt(i), f, x), bins[i := [x] + bins[i]])
    ensures forall p :: p != x && p != SmallBinAt(i) && p !in bins[i]
                        ==> SameNode(m, LinkAfter(m, SmallBinAt(i), f, x), p)
  {
    hide IsMarked;
    var h, s := SmallBinAt(i), bins[i];
    assert SmallBin(m, s, i);
    var m' := LinkAfter(m, h, f, x);
    if s == [] {
      LinkFirst(m, h, x);
    } else {
      LinkIntoRing(m, h, s, x);
    }
    assert f == h || f == s[0];
    forall p | p != x && p != h && p !in s ensures SameNode(m, m', p) { LinkAfterReads(m, h, f, x, p); }
    SmallBinGrows(m, m', s, i, x);
    forall j | 0 <= j < NBINS && j != i ensures SameRing(m, m', SmallBinAt(j)) {
      SmallHeadersApart(i, j);
      assert SameNode(m, m', SmallBinAt(j));
    }
    OtherSmallBins(m, bins, i);
    SmallBinsFrame(m, m', bins, i, [x] + s);
  }

  lemma SmallBinGrows(m: Memory, m': Memory, s: seq<Addr>, i: nat, x: Addr)
    requires SmallBin(m, s, i) && x !in s && x >= LEAST_ADDR && m.SizeAt(x) == 8 * i && m'.head == m.head
    requires Ring(m', SmallBinAt(i), [x] + s)
    ensures SmallBin(m', [x] + s, i)
  {
  }

  /** The members of different small bins differ, having different sizes, and are not headers. */
  lemma OtherSmallBins(m: Memory, bins: seq<seq<Addr>>, i: nat)
    requires SmallBins(m, bins) && i < NBINS
    ensures forall j, p :: 0 <= j < NBINS && j != i && p in bins[j] ==> p !in bins[i] && p != SmallBinAt(i)
  {
    assert SmallBin(m, bins[i], i);
    SmallHeadersApart(i, i);
    forall j, p | 0 <= j < NBINS && j != i && p in bins[j]
      ensures p !in bins[i] && p != SmallBinAt(i)
    {
      assert SmallBin(m, bins[j], j);
    }
  }

  lemma SmallMapInsert(smallmap: nat, smallmap': nat, bins: seq<seq<Addr>>, i: nat, x: Addr)
    requires SmallMap(smallmap, bins) && i < NBINS
    requires smallmap' == if IsMarked(smallmap, i) then smallmap else Mark(smallmap, i)
    ensures SmallMap(smallmap', bins[i := [x] + bins[i]])
  {
    MarkFits(smallmap, i);
    forall j | 0 <= j < NBINS ensures IsMarked(Mark(smallmap, i), j) <==> j == i || IsMarked(smallmap, j) {
      MarkSetsOneBit(smallmap, i, j);
    }
  }

  /** Member k leaves small bin i: its neighbours are joined, or the bin becomes empty with its links left stale. */
  lemma SmallBinsRemove(m: Memory, m': Memory, bins: seq<seq<Addr>>, i: nat, k: nat)
    requires SmallBins(m, bins) && i < NBINS && k < |bins[i]|
    requires m' == if |bins[i]| == 1 then m else Join(m, m.Fd(bins[i][k]), m.Bk(bins[i][k]))
    ensures SmallBins(m', bins[i := Without(bins[i], k)])
    ensures forall p :: p != SmallBinAt(i) && p !in bins[i] ==> SameNode(m, m', p)
  {
    var h, s := SmallBinAt(i), bins[i];
    assert SmallBin(m, s, i);
    var f, b := m.Fd(s[k]), m.Bk(s[k]);
    SmallHeadersApart(i, i);
    UnlinkFromRing(m, h, s, k);
    forall p | p != h && p !in s ensures SameNode(m, m', p) { JoinKeeps(m, f, b, p); }
    SmallBinShrinks(m, m', s, i, k);
    forall j | 0 <= j < NBINS && j != i ensures SameRing(m, m', SmallBinAt(j)) {
      SmallHeadersApart(i, j);
      SmallHeadersApart(j, j);
      assert SameNode(m, m', SmallBinAt(j));
    }
    OtherSmallBins(m, bins, i);
    SmallBinsFrame(m, m', bins, i, Without(s, k));
  }

  lemma SmallBinShrinks(m: Memory, m': Memory, s: seq<Addr>, i: nat, k: nat)
    requires SmallBin(m, s, i) && k < |s| && m'.head == m.head
    requires |s| > 1 ==> Ring(m', SmallBinAt(i), Without(s, k))
    ensures SmallBin(m', Without(s, k), i)
  {
    WithoutMembers(s, k, 0);
    forall p | p in Without(s, k) ensures p in s { WithoutMembers(s, k, p); }
  }

  lemma SmallMapRemove(smallmap: nat, smallmap': nat, bins: seq<seq<Addr>>, i: nat, k: nat)
    requires SmallMap(smallmap, bins) && i < NBINS && k < |bins[i]|
    requires smallmap' == if |bins[i]| == 1 then Clear(smallmap, i) else smallmap
    ensures SmallMap(smallmap', bins[i := Without(bins[i], k)])
  {
    MarkFits(smallmap, i);
    forall j | 0 <= j < NBINS ensures IsMarked(Clear(smallmap, i), j) <==> j != i && IsMarked(smallmap, j) {
      ClearDropsOneBit(smallmap, i, j);
    }
  }

  // ---- Tree bins

  ghost predicate TreeBin(m: Memory, root: Addr, t: Tree, i: nat) {
    && root == Root(t)
    && IsTrie(t, T.RootPrefix(i), T.RootBits(i))
    && IsDistinct(t)
    && TreeAt(m, t, TreeBinAt(i))
    && forall p: Addr :: Has(t, p) ==> p >= LEAST_ADDR && m.Index(p) == i && T.InTreeBin(m.SizeAt(p), i)
  }

  ghost predicate TreeBins(m: Memory, roots: seq<Addr>, trees: seq<Tree>) {
    && |roots| == NBINS && |trees| == NBINS
    && (forall i :: 0 <= i < NBINS ==> TreeBin(m, roots[i], trees[i], i))
  }

  ghost predicate TreeMap(treemap: nat, trees: seq<Tree>) {
    && |trees| == NBINS && treemap < Pow2(NBINS)
    && (forall i :: 0 <= i < NBINS ==> (IsMarked(treemap, i) <==> trees[i].Node?))
  }

  lemma TreeBinFrame(m: Memory, m': Memory, root: Addr, t: Tree, i: nat)
    requires TreeBin(m, root, t, i)
    requires forall p :: Has(t, p) ==> SameNode(m, m', p) && m.Index(p) == m'.Index(p)
    ensures TreeBin(m', root, t, i)
  {
    TreeFrame(m, m', t, TreeBinAt(i));
  }

  /** The stores of one bin operation leave the other bins alone. */
  lemma TreeBinsFrame(m: Memory, m': Memory, roots: seq<Addr>, trees: seq<Tree>, i: nat, root: Addr, t: Tree)
    requires TreeBins(m, roots, trees) && i < NBINS
    requires TreeBin(m', root, t, i)
    requires forall j, p :: 0 <= j < NBINS && j != i && Has(trees[j], p) ==>
               SameNode(m, m', p) && m.Index(p) == m'.Index(p)
    ensures TreeBins(m', roots[i := root], trees[i := t])
  {
    hide TreeBin, SameNode;
    forall j | 0 <= j < NBINS && j != i ensures TreeBin(m', roots[j], trees[j], j) {
      TreeBinFrame(m, m', roots[j], trees[j], j);
    }
  }

  lemma TreeBinsSame(m: Memory, m': Memory, roots: seq<Addr>, trees: seq<Tree>)
    requires TreeBins(m, roots, trees)
    requires forall j, p :: 0 <= j < NBINS && Has(trees[j], p) ==> SameNode(m, m', p) && m.Index(p) == m'.Index(p)
    ensures TreeBins(m', roots, trees)
  {
    hide TreeBin, SameNode;
    forall j | 0 <= j < NBINS ensures TreeBin(m', roots[j], trees[j], j) {
      TreeBinFrame(m, m', roots[j], trees[j], j);
    }
  }

  /** Chunk x is in no tree. */
  ghost predicate InNoTree(trees: seq<Tree>, x: Addr) {
    forall j :: 0 <= j < |trees| ==> !Has(trees[j], x)
  }

  /** Tree bin i after chunk x has been inserted. */
  lemma TreeBinInsert(m: Memory, m': Memory, root: Addr, t: Tree, i: nat, x: Addr, s: nat)
    requires TreeBin(m, root, t, i) && !Has(t, x) && x >= LEAST_ADDR
    requires s <= T.MAX_SIZE_T && T.InTreeBin(s, i)
    requires TreeAt(m', Insert(t, x, s, T.RootBits(i)), TreeBinAt(i))
    requires m'.Index(x) == i && forall p :: p != x ==> m'.Index(p) == m.Index(p)
    requires m'.head == m.head && m.SizeAt(x) == s
    ensures var t' := Insert(t, x, s, T.RootBits(i)); TreeBin(m', Root(t'), t', i)
  {
    hide IsTrie, IsDistinct, TreeAt, T.InTreeBin, Insert, T.RootPrefix, T.RootBits;
    var q, n := T.RootPrefix(i), T.RootBits(i);
    var t' := Insert(t, x, s, n);
    T.TreeBinPrefix(s, i);
    forall p ensures Has(t', p) <==> p == x || Has(t, p) { InsertAddsOne(t, x, s, q, n, p, s); }
    InsertKeepsTrie(t, x, s, q, n);
    InsertKeepsDistinct(t, x, s, q, n);
  }

  /** The tree bins after chunk x has been inserted in tree i. */
  lemma TreeBinsInsert(m: Memory, m': Memory, roots: seq<Addr>, trees: seq<Tree>, i: nat, x: Addr, s: nat)
    requires TreeBins(m, roots, trees) && i < NBINS
    requires x >= LEAST_ADDR && InNoTree(trees, x) && s <= T.MAX_SIZE_T && T.InTreeBin(s, i)
    requires TreeAt(m', Insert(trees[i], x, s, T.RootBits(i)), TreeBinAt(i))
    requires m'.Index(x) == i && forall p :: p != x ==> m'.Index(p) == m.Index(p)
    requires forall p :: p != x && !Has(trees[i], p) ==> SameNode(m, m', p)
    requires m'.head == m.head && m.SizeAt(x) == s
    ensures var t := Insert(trees[i], x, s, T.RootBits(i));
            TreeBins(m', roots[i := Root(t)], trees[i := t])
  {
    hide IsTrie, IsDistinct, TreeAt, T.InTreeBin, Insert, T.RootPrefix, T.RootBits, SameNode;
    TreeBinInsert(m, m', roots[i], trees[i], i, x, s);
    var t := Insert(trees[i], x, s, T.RootBits(i));
    forall j, p | 0 <= j < NBINS && j != i && Has(trees[j], p)
      ensures SameNode(m, m', p) && m.Index(p) == m'.Index(p)
    {
      assert TreeBin(m, roots[j], trees[j], j) && TreeBin(m, roots[i], trees[i], i);
    }
    TreeBinsFrame(m, m', roots, trees, i, Root(t), t);
  }

  lemma TreeMapInsert(treemap: nat, treemap': nat, trees: seq<Tree>, i: nat, t: Tree)
    requires TreeMap(treemap, trees) && i < NBINS && t.Node?
    requires treemap' == Mark(treemap, i) || (IsMarked(treemap, i) && treemap' == treemap)
    ensures TreeMap(treemap', trees[i := t])
  {
    MarkFits(treemap, i);
    forall j | 0 <= j < NBINS ensures IsMarked(treemap', j) <==> j == i || IsMarked(treemap, j) {
      MarkSetsOneBit(treemap, i, j);
    }
  }

  /** The stores of insert_large_chunk have turned tree t of bin i into t'. */
  ghost predicate Inserted(m: Memory, m': Memory, t: Tree, t': Tree, i: nat, x: Addr) {
    && TreeAt(m', t', TreeBinAt(i))
    && m'.head == m.head && m'.prevFoot == m.prevFoot && m'.index == m.index
    && forall p :: p != x && !Has(t, p) ==> SameNode(m, m', p)
  }

  /** The tree bins and their map after chunk x has been inserted in tree i. */
  lemma TreesInsert(m: Memory, m': Memory, roots: seq<Addr>, roots': seq<Addr>, treemap: nat, treemap': nat,
                    trees: seq<Tree>, i: nat, x: Addr, s: nat, t': Tree)
    requires TreeBins(m, roots, trees) && TreeMap(treemap, trees) && i < NBINS && InNoTree(trees, x)
    requires x >= LEAST_ADDR && s <= T.MAX_SIZE_T && T.InTreeBin(s, i) && m.SizeAt(x) == s && m.Index(x) == i
    requires t' == Insert(trees[i], x, s, T.RootBits(i)) && Inserted(m, m', trees[i], t', i, x)
    requires roots' == roots[i := Root(t')]
    requires treemap' == if IsMarked(treemap, i) then treemap else Mark(treemap, i)
    ensures TreeBins(m', roots', trees[i := t']) && TreeMap(treemap', trees[i := t'])
    ensures m'.head == m.head && m'.prevFoot == m.prevFoot
    ensures forall p :: p != x && !Has(trees[i], p) ==> SameNode(m, m', p)
  {
    assert t'.Node?;
    hide TreeBins, TreeMap, SameNode, TreeAt, Insert, T.InTreeBin, Has, IsMarked, Mark;
    TreeBinsInsert(m, m', roots, trees, i, x, s);
    TreeMapInsert(treemap, treemap', trees, i, t');
  }

  /** The words of a chunk that insert_large_chunk clears first. */
  function Prepare(m: Memory, x: Addr, i: nat): Memory {
    m.SetIndex(x, i).SetChild(x, false, 0).SetChild(x, true, 0)
  }

  lemma PrepareKeeps(m: Memory, x: Addr, i: nat, p: Addr)
    ensures var m' := Prepare(m, x, i);
            && SameRing(m, m', p) && (p != x ==> SameNode(m, m', p) && m'.Index(p) == m.Index(p))
            && m'.Index(x) == i && m'.Child(x, false) == 0 && m'.Child(x, true) == 0
            && m'.SizeAt(x) == m.SizeAt(x)
  {
  }

  lemma TreeBinsPrepared(m: Memory, x: Addr, i: nat, roots: seq<Addr>, trees: seq<Tree>)
    requires TreeBins(m, roots, trees) && InNoTree(trees, x)
    ensures TreeBins(Prepare(m, x, i), roots, trees)
  {
    forall j, p | 0 <= j < NBINS && Has(trees[j], p)
      ensures SameNode(m, Prepare(m, x, i), p) && Prepare(m, x, i).Index(p) == m.Index(p)
    {
      PrepareKeeps(m, x, i, p);
    }
    TreeBinsSame(m, Prepare(m, x, i), roots, trees);
  }

  /** The tree bins after chunk x has been removed from tree i. */
  lemma TreeBinsRemove(m: Memory, m': Memory, roots: seq<Addr>, trees: seq<Tree>, i: nat, path: Path, x: Addr)
    requires TreeBins(m, roots, trees) && i < NBINS && IsAt(trees[i], path, x)
    requires TreeAt(m', Remove(trees[i], path, x), TreeBinAt(i))
    requires m'.index == m.index && m'.head == m.head && forall p :: !Has(trees[i], p) ==> SameNode(m, m', p)
    ensures var t := Remove(trees[i], path, x); TreeBins(m', roots[i := Root(t)], trees[i := t])
  {
    hide IsTrie, IsDistinct, TreeAt, T.InTreeBin, Remove, T.RootPrefix, T.RootBits, SameNode;
    var t := Remove(trees[i], path, x);
    assert TreeBin(m, roots[i], trees[i], i);
    TreeBinRemove(m, m', roots[i], trees[i], i, path, x);
    forall j, p | 0 <= j < NBINS && j != i && Has(trees[j], p)
      ensures SameNode(m, m', p) && m.Index(p) == m'.Index(p)
    {
      assert TreeBin(m, roots[j], trees[j], j);
    }
    TreeBinsFrame(m, m', roots, trees, i, Root(t), t);
  }

  lemma TreeBinRemove(m: Memory, m': Memory, root: Addr, t: Tree, i: nat, path: Path, x: Addr)
    requires TreeBin(m, root, t, i) && IsAt(t, path, x)
    requires TreeAt(m', Remove(t, path, x), TreeBinAt(i)) && m'.index == m.index && m'.head == m.head
    ensures TreeBin(m', Root(Remove(t, path, x)), Remove(t, path, x), i)
  {
    hide IsTrie, IsDistinct, TreeAt, T.InTreeBin, Remove, T.RootPrefix, T.RootBits;
    RemoveKeepsTrie(t, path, x, T.RootPrefix(i), T.RootBits(i));
    RemoveKeepsDistinct(t, path, x);
    forall p | Has(Remove(t, path, x), p) ensures Has(t, p) { RemoveLosesOne(t, path, x, p, 0); }
  }

  lemma TreeMapRemove(treemap: nat, treemap': nat, trees: seq<Tree>, i: nat, path: Path, x: Addr)
    requires TreeMap(treemap, trees) && i < NBINS && IsAt(trees[i], path, x)
    requires treemap' == if Remove(trees[i], path, x) == Nil then Clear(treemap, i) else treemap
    ensures TreeMap(treemap', trees[i := Remove(trees[i], path, x)])
  {
    MarkFits(treemap, i);
    forall j | 0 <= j < NBINS ensures IsMarked(Clear(treemap, i), j) <==> j != i && IsMarked(treemap, j) {
      ClearDropsOneBit(treemap, i, j);
    }
    if path != [] || x != trees[i].head { }
  }
}
