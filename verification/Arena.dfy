/** The malloc state as a whole: the segment, the bins, and which chunk is in which bin. */
module Arena {
  import opened Bits
  import opened BinMap
  import opened Trie
  import opened Heap
  import opened TreeLinks
  import opened Bins
  import Tiling
  import BestFit
  import T = TreeIndex

  type Heads = Tiling.Heads

  // ---- The bins

  ghost predicate AllBins(m: Memory, smallmap: nat, treemap: nat, roots: seq<Addr>, bins: seq<seq<Addr>>,
                          trees: seq<Tree>) {
    SmallBins(m, bins) && SmallMap(smallmap, bins) && TreeBins(m, roots, trees) && TreeMap(treemap, trees)
  }

  /** Chunk p is free and belongs in a bin; the chunks of out (top, dv, chunks on the move) are in none. */
  ghost predicate Idle(c: set<Addr>, h: Heads, out: set<Addr>, p: Addr) {
    p in c && Tiling.Free(h, p) && p !in out
  }

  /** Chunk p is in the bin for chunks of size s. */
  ghost predicate HasBin(bins: seq<seq<Addr>>, trees: seq<Tree>, p: Addr, s: nat)
    requires |bins| == NBINS && |trees| == NBINS
  {
    if T.IsSmall(s) then p in bins[s / 8] else exists i :: 0 <= i < NBINS && T.InTreeBin(s, i) && Has(trees[i], p)
  }

  /** The bins hold exactly the idle chunks, each in the bin for its size. */
  ghost predicate Binned(c: set<Addr>, h: Heads, bins: seq<seq<Addr>>, trees: seq<Tree>, out: set<Addr>) {
    && |bins| == NBINS && |trees| == NBINS
    && (forall i, p :: 0 <= i < NBINS && p in bins[i] ==> Idle(c, h, out, p))
    && (forall i, p :: 0 <= i < NBINS && Has(trees[i], p) ==> Idle(c, h, out, p))
    && (forall p :: Idle(c, h, out, p) ==> HasBin(bins, trees, p, Tiling.Size(h, p)))
  }

  /** The heap lies above the malloc state and below the end of the address space. */
  ghost predicate IsArena(m: Memory, c: set<Addr>, base: Addr, top: Addr, limit: Addr,
                        smallmap: nat, treemap: nat, roots: seq<Addr>, bins: seq<seq<Addr>>, trees: seq<Tree>,
                        out: set<Addr>)
  {
    && LEAST_ADDR <= base && limit <= T.MAX_SIZE_T
    && Tiling.Segment(c, m.head, m.prevFoot, base, top, limit)
    && AllBins(m, smallmap, treemap, roots, bins, trees)
    && Binned(c, m.head, bins, trees, out)
    && top in out
  }

  // ---- Members of different kinds of bins

  lemma SmallMember(m: Memory, bins: seq<seq<Addr>>, i: nat, p: Addr)
    requires SmallBins(m, bins) && i < NBINS && p in bins[i]
    ensures p >= LEAST_ADDR && m.SizeAt(p) == 8 * i
  {
    assert SmallBin(m, bins[i], i);
  }

  lemma TreeMember(m: Memory, roots: seq<Addr>, trees: seq<Tree>, i: nat, p: Addr)
    requires TreeBins(m, roots, trees) && i < NBINS && Has(trees[i], p)
    ensures p >= LEAST_ADDR && T.InTreeBin(m.SizeAt(p), i) && m.SizeAt(p) >= T.MIN_LARGE_SIZE && m.Index(p) == i
  {
    assert TreeBin(m, roots[i], trees[i], i);
    assert m.SizeAt(p) >= T.MinSizeForTreeIndex(i);
    hide TreeBins, TreeBin, Has;
    LargeIsNotSmall(m.SizeAt(p), i);
  }

  /** No chunk is in a bin of each kind. */
  lemma SmallOrTree(m: Memory, roots: seq<Addr>, bins: seq<seq<Addr>>, trees: seq<Tree>, i: nat, j: nat, p: Addr)
    requires SmallBins(m, bins) && TreeBins(m, roots, trees) && i < NBINS && j < NBINS
    ensures p !in bins[i] || !Has(trees[j], p)
  {
    if p in bins[i] && Has(trees[j], p) {
      hide TreeBins, SmallBins, Has;
      SmallMember(m, bins, i, p);
      TreeMember(m, roots, trees, j, p);
    }
  }

  /** The members of tree bins are apart from those of small bins and from their headers. */
  lemma TreesApart(m: Memory, roots: seq<Addr>, bins: seq<seq<Addr>>, trees: seq<Tree>)
    requires SmallBins(m, bins) && TreeBins(m, roots, trees)
    ensures forall i, j, p :: 0 <= i < NBINS && 0 <= j < NBINS && p in bins[i] ==> !Has(trees[j], p)
    ensures forall i, j :: 0 <= i < NBINS && 0 <= j < NBINS ==> !Has(trees[j], SmallBinAt(i))
  {
    forall i, j, p | 0 <= i < NBINS && 0 <= j < NBINS && p in bins[i] ensures !Has(trees[j], p) {
      SmallOrTree(m, roots, bins, trees, i, j, p);
    }
    forall i, j | 0 <= i < NBINS && 0 <= j < NBINS ensures !Has(trees[j], SmallBinAt(i)) {
      HeaderNotInTree(m, roots, trees, j, i);
    }
  }

  lemma HeaderNotInTree(m: Memory, roots: seq<Addr>, trees: seq<Tree>, i: nat, j: nat)
    requires TreeBins(m, roots, trees) && i < NBINS && j < NBINS
    ensures !Has(trees[i], SmallBinAt(j))
  {
    assert TreeBin(m, roots[i], trees[i], i);
  }

  /** A chunk that is not idle is in no bin. */
  lemma NotBinned(c: set<Addr>, h: Heads, bins: seq<seq<Addr>>, trees: seq<Tree>, out: set<Addr>, p: Addr)
    requires Binned(c, h, bins, trees, out) && !Idle(c, h, out, p)
    ensures InNoSmallBin(bins, p) && InNoTree(trees, p)
  {
  }

  // ---- Bins whose links stay

  /** The sizes of all idle chunks are the same in both heaps. */
  ghost predicate SameIdle(c: set<Addr>, h: Heads, out: set<Addr>, c': set<Addr>, h': Heads, out': set<Addr>) {
    && (forall p :: Idle(c, h, out, p) ==> Idle(c', h', out', p) && Tiling.Size(h, p) == Tiling.Size(h', p))
    && (forall p :: Idle(c', h', out', p) ==> Idle(c, h, out, p))
  }

  lemma BinnedReheaded(c: set<Addr>, h: Heads, c': set<Addr>, h': Heads, bins: seq<seq<Addr>>, trees: seq<Tree>,
                       out: set<Addr>, out': set<Addr>)
    requires Binned(c, h, bins, trees, out) && SameIdle(c, h, out, c', h', out')
    ensures Binned(c', h', bins, trees, out')
  {
    hide Idle, HasBin, Tiling.Size, Has;
  }

  /** Stores to boundary tags of chunks that are in no bin. */
  lemma BinsReheaded(m: Memory, m': Memory, c: set<Addr>, c': set<Addr>, smallmap: nat, treemap: nat,
                     roots: seq<Addr>, bins: seq<seq<Addr>>, trees: seq<Tree>, out: set<Addr>, out': set<Addr>)
    requires AllBins(m, smallmap, treemap, roots, bins, trees) && Binned(c, m.head, bins, trees, out)
    requires SameIdle(c, m.head, out, c', m'.head, out') && m' == m.(head := m'.head, prevFoot := m'.prevFoot)
    ensures AllBins(m', smallmap, treemap, roots, bins, trees)
  {
    hide Idle, HasBin, Has, SmallMap, TreeMap, SmallBins, TreeBins;
    forall p
      ensures SameRing(m, m', p) && m.Index(p) == m'.Index(p)
      ensures Idle(c, m.head, out, p) ==> m.SizeAt(p) == m'.SizeAt(p) && SameNode(m, m', p)
    {
    }
    forall j, p | 0 <= j < NBINS && p in bins[j]
      ensures SameRing(m, m', p) && m.SizeAt(p) == m'.SizeAt(p)
    {
      assert Idle(c, m.head, out, p);
    }
    forall j, p | 0 <= j < NBINS && Has(trees[j], p)
      ensures SameNode(m, m', p) && m.Index(p) == m'.Index(p)
    {
      assert Idle(c, m.head, out, p);
    }
    hide SameRing, SameNode;
    SmallBinsSame(m, m', bins);
    TreeBinsSame(m, m', roots, trees);
  }

  /** A change of boundary tags keeps the arena when it keeps the segment and the idle chunks. */
  lemma ArenaReheaded(m: Memory, m': Memory, c: set<Addr>, c': set<Addr>, base: Addr, top: Addr, top': Addr,
                      limit: Addr, limit': Addr,
                      smallmap: nat, treemap: nat, roots: seq<Addr>, bins: seq<seq<Addr>>, trees: seq<Tree>,
                      out: set<Addr>, out': set<Addr>)
    requires IsArena(m, c, base, top, limit, smallmap, treemap, roots, bins, trees, out)
    requires Tiling.Segment(c', m'.head, m'.prevFoot, base, top', limit') && top' in out' && limit' <= T.MAX_SIZE_T
    requires SameIdle(c, m.head, out, c', m'.head, out') && m' == m.(head := m'.head, prevFoot := m'.prevFoot)
    ensures IsArena(m', c', base, top', limit', smallmap, treemap, roots, bins, trees, out')
  {
    hide Tiling.Segment, AllBins, Binned, SameIdle;
    BinnedReheaded(c, m.head, c', m'.head, bins, trees, out, out');
    BinsReheaded(m, m', c, c', smallmap, treemap, roots, bins, trees, out, out');
  }

  // ---- Allocating and freeing chunks

  /** Chunk p, taken out of its bin, is handed out whole. */
  lemma ArenaUse(m: Memory, m': Memory, c: set<Addr>, base: Addr, top: Addr, limit: Addr,
                 smallmap: nat, treemap: nat, roots: seq<Addr>, bins: seq<seq<Addr>>, trees: seq<Tree>, out: set<Addr>,
                 p: Addr)
    requires IsArena(m, c, base, top, limit, smallmap, treemap, roots, bins, trees, out)
    requires p in c && p in out && p != top && Tiling.Free(m.head, p)
    requires m' == m.(head := Tiling.UsedWhole(m.head, p))
    ensures IsArena(m', c, base, top, limit, smallmap, treemap, roots, bins, trees, out - {p})
    ensures m'.Cinuse(p) && m'.SizeAt(p) == m.SizeAt(p) && SameOthers(c, m, m', p)
  {
    Tiling.UseWhole(c, m.head, m.prevFoot, base, top, limit, p);
    hide Tiling.Segment, AllBins, Binned;
    assert SameIdle(c, m.head, out, c, m'.head, out - {p}) by {
      hide Tiling.UsedWhole;
      assert !Tiling.Free(m'.head, p) by { UsedIsUsed(m.head, p); }
    }
    UsedIsUsed(m.head, p);
    assert SameOthers(c, m, m', p) by {
      forall q | q in c && q != p ensures m'.SizeAt(q) == m.SizeAt(q) && m'.Cinuse(q) == m.Cinuse(q) {
        assert Tiling.Size(m'.head, q) == Tiling.Size(m.head, q) && Tiling.Free(m'.head, q) == Tiling.Free(m.head, q);
      }
    }
    hide SameIdle, SameOthers, Tiling.UsedWhole;
    ArenaReheaded(m, m', c, c, base, top, top, limit, limit, smallmap, treemap, roots, bins, trees, out, out - {p});
  }

  lemma UsedIsUsed(h: Heads, p: Addr)
    requires Tiling.Size(h, p) > 0
    ensures !Tiling.Free(Tiling.UsedWhole(h, p), p) && Tiling.Size(Tiling.UsedWhole(h, p), p) == Tiling.Size(h, p)
  {
  }

  /** Chunk p is cut into an allocated front of nb bytes and a free rest, which is then on the move. */
  lemma ArenaCut(m: Memory, m': Memory, c: set<Addr>, base: Addr, top: Addr, top': Addr, limit: Addr,
                 smallmap: nat, treemap: nat, roots: seq<Addr>, bins: seq<seq<Addr>>, trees: seq<Tree>, out: set<Addr>,
                 out': set<Addr>,
                 p: Addr, nb: nat, rest: nat)
    requires IsArena(m, c, base, top, limit, smallmap, treemap, roots, bins, trees, out)
    requires p in c && p in out && Tiling.Free(m.head, p) && nb >= 32 && nb % 8 == 0
    requires m.SizeAt(p) == nb + rest && rest > 0 && (p != top ==> rest >= 32)
    requires top' == (if p == top then p + nb else top) && out' == out - {p} + {p + nb}
    requires m' == m.(head := Tiling.CutHeads(m.head, p, nb, rest),
                      prevFoot := if p == top then m.prevFoot else m.prevFoot[p + nb + rest := rest])
    ensures IsArena(m', c + {p + nb}, base, top', limit, smallmap, treemap, roots, bins, trees, out')
    ensures p + nb !in c && m'.HeadAt(p + nb) == Head(rest, false, true) && m'.HeadAt(p) == Head(nb, true, true)
    ensures forall q :: q in c && q != p ==> m'.HeadAt(q) == m.HeadAt(q)
  {
    hide Tiling.Segment, AllBins, Binned, Tiling.CutHeads;
    Tiling.CutFree(c, c + {p + nb}, m.head, m'.head, m.prevFoot, m'.prevFoot, base, top, top', limit, p, nb, rest);
    Tiling.CutReads(m.head, p, nb, rest, p);
    Tiling.CutReads(m.head, p, nb, rest, p + nb);
    forall q | q in c && q != p
      ensures m'.HeadAt(q) == m.HeadAt(q) { assert Tiling.H(m'.head, q) == Tiling.H(m.head, q); }
    assert SameIdle(c, m.head, out, c + {p + nb}, m'.head, out');
    hide SameIdle;
    ArenaReheaded(m, m', c, c + {p + nb}, base, top, top', limit, limit, smallmap, treemap, roots, bins, trees, out,
                  out');
  }

  /** The chunks from s up to the chunk in use at e become one free chunk, which is then on the move. */
  lemma ArenaMerge(m: Memory, m': Memory, c: set<Addr>, c': set<Addr>, base: Addr, top: Addr, limit: Addr,
                   smallmap: nat, treemap: nat, roots: seq<Addr>, bins: seq<seq<Addr>>, trees: seq<Tree>,
                   out: set<Addr>, out': set<Addr>,
                   s: Addr, e: Addr)
    requires IsArena(m, c, base, top, limit, smallmap, treemap, roots, bins, trees, out)
    requires s in c && e in c && s < e && m.Pinuse(s) && m.Cinuse(e)
    requires forall q :: q in c && s <= q < e && Tiling.Free(m.head, q) ==> q in out
    requires s in out' && top in out' && forall q :: q in c && !(s <= q < e) ==> (q in out <==> q in out')
    requires c' == Tiling.Without(c, s, e)
    requires m' == m.(head := Tiling.MergedHeads(m.head, s, e), prevFoot := m.prevFoot[e := e - s])
    ensures IsArena(m', c', base, top, limit, smallmap, treemap, roots, bins, trees, out')
    ensures m'.SizeAt(s) == e - s && s in c' && s != top && !m'.Cinuse(s) && m'.Pinuse(s)
    ensures forall q :: q in c' && q != s ==> m'.SizeAt(q) == m.SizeAt(q) && m'.Cinuse(q) == m.Cinuse(q)
  {
    hide Tiling.Segment, AllBins, Binned, Tiling.MergedHeads;
    Tiling.Merge(c, c', m.head, m'.head, m.prevFoot, m'.prevFoot, base, top, limit, s, e);
    forall q | q in c' && q != s ensures m'.SizeAt(q) == m.SizeAt(q) && m'.Cinuse(q) == m.Cinuse(q) {
      assert Tiling.Size(m'.head, q) == Tiling.Size(m.head, q) && Tiling.Free(m'.head, q) == Tiling.Free(m.head, q);
    }
    assert SameIdle(c, m.head, out, c', m'.head, out');
    hide SameIdle;
    ArenaReheaded(m, m', c, c', base, top, top, limit, limit, smallmap, treemap, roots, bins, trees, out, out');
  }

  /** The chunks from s on become top. */
  lemma ArenaMergeTop(m: Memory, m': Memory, c: set<Addr>, c': set<Addr>, base: Addr, top: Addr, limit: Addr,
                      smallmap: nat, treemap: nat, roots: seq<Addr>, bins: seq<seq<Addr>>, trees: seq<Tree>,
                      out: set<Addr>, out': set<Addr>,
                      s: Addr)
    requires IsArena(m, c, base, top, limit, smallmap, treemap, roots, bins, trees, out)
    requires s in c && s < limit && m.Pinuse(s)
    requires forall q :: q in c && s <= q && Tiling.Free(m.head, q) ==> q in out
    requires s in out' && forall q :: q in c && q < s ==> (q in out <==> q in out')
    requires c' == Tiling.Without(c, s, limit) && m' == m.(head := m.head[s := Head(limit - s, false, true)])
    ensures IsArena(m', c', base, s, limit, smallmap, treemap, roots, bins, trees, out')
    ensures m'.SizeAt(s) == limit - s && s in c'
    ensures forall q :: q in c' && q != s ==> m'.HeadAt(q) == m.HeadAt(q)
  {
    hide Tiling.Segment, AllBins, Binned;
    Tiling.MergeTop(c, c', m.head, m'.head, m.prevFoot, base, top, limit, s);
    assert SameIdle(c, m.head, out, c', m'.head, out') by {
      forall q | q in c && !(s < q < limit) && q != s ensures q < s {
        assert q in c';
      }
      forall q | q in c && q >= s ensures Idle(c, m.head, out, q) ==> false { }
    }
    hide SameIdle;
    ArenaReheaded(m, m', c, c', base, top, s, limit, limit, smallmap, treemap, roots, bins, trees, out, out');
  }

  /** The system has put more memory behind the segment. */
  lemma ArenaGrow(m: Memory, m': Memory, c: set<Addr>, base: Addr, top: Addr, limit: Addr, limit': Addr, foot: nat,
                  smallmap: nat, treemap: nat, roots: seq<Addr>, bins: seq<seq<Addr>>, trees: seq<Tree>, out: set<Addr>)
    requires IsArena(m, c, base, top, limit, smallmap, treemap, roots, bins, trees, out)
    requires top < limit < limit' <= T.MAX_SIZE_T && limit' % 8 == 0
    requires m' == m.(head := m.head[top := Head(limit' - top, false, true)][limit' := Head(foot, false, false)])
    ensures IsArena(m', c, base, top, limit', smallmap, treemap, roots, bins, trees, out)
    ensures m'.SizeAt(top) == limit' - top
    ensures forall q :: q in c && q != top ==> m'.HeadAt(q) == m.HeadAt(q)
  {
    hide Tiling.Segment, AllBins, Binned;
    Tiling.GrowTop(c, m.head, m'.head, m.prevFoot, base, top, limit, limit', foot);
    assert SameIdle(c, m.head, out, c, m'.head, out);
    hide SameIdle;
    ArenaReheaded(m, m', c, c, base, top, top, limit, limit', smallmap, treemap, roots, bins, trees, out, out);
  }

  // ---- Moving chunks into and out of the bins

  /** Chunk x is put in small bin i. */
  lemma ArenaInsertSmall(m: Memory, m': Memory, c: set<Addr>, base: Addr, top: Addr, limit: Addr,
                         smallmap: nat, smallmap': nat, treemap: nat, roots: seq<Addr>, bins: seq<seq<Addr>>,
                         trees: seq<Tree>, out: set<Addr>,
                         x: Addr, i: nat, f: Addr)
    requires IsArena(m, c, base, top, limit, smallmap, treemap, roots, bins, trees, out)
    requires x in c && x in out && x != top && Tiling.Free(m.head, x) && i < NBINS && m.SizeAt(x) == 8 * i
    requires f == (if IsMarked(smallmap, i) then m.Fd(SmallBinAt(i)) else SmallBinAt(i))
    requires smallmap' == (if IsMarked(smallmap, i) then smallmap else Mark(smallmap, i))
    requires m' == LinkAfter(m, SmallBinAt(i), f, x)
    ensures IsArena(m', c, base, top, limit, smallmap', treemap, roots, bins[i := [x] + bins[i]], trees, out - {x})
  {
    NotBinned(c, m.head, bins, trees, out, x);
    TreesApart(m, roots, bins, trees);
    InChunks(c, m.head, base, top, limit, x);
    assert IsMarked(smallmap, i) <==> bins[i] != [];
    BinnedInsertSmall(c, m.head, bins, trees, out, x, i);
    hide Tiling.Segment, SmallBins, TreeBins, SmallMap, TreeMap, Binned, Has, LinkAfter;
    SmallBinsInsert(m, bins, i, x, f);
    SmallMapInsert(smallmap, smallmap', bins, i, x);
    assert m'.head == m.head && m'.prevFoot == m.prevFoot
           && m'.index == m.index by { LinkAfterKeeps(m, SmallBinAt(i), f, x); }
    forall j, p | 0 <= j < NBINS && Has(trees[j], p) ensures SameNode(m, m', p) && m.Index(p) == m'.Index(p) {
      assert p != x && p !in bins[i] && p != SmallBinAt(i);
    }
    TreeBinsSame(m, m', roots, trees);
  }

  lemma LinkAfterKeeps(m: Memory, h: Addr, f: Addr, p: Addr)
    ensures LinkAfter(m, h, f, p).head == m.head && LinkAfter(m, h, f, p).prevFoot == m.prevFoot
    ensures LinkAfter(m, h, f, p).index == m.index
  {
  }

  lemma InChunks(c: set<Addr>, h: Heads, base: Addr, top: Addr, limit: Addr, x: Addr)
    requires Tiling.Tiled(c, h, base, top, limit) && x in c
    ensures base <= x < limit && x % 8 == 0 && Tiling.Size(h, x) % 8 == 0 && Tiling.Size(h, x) <= limit - x
  {
    hide Tiling.Tiled;
    Tiling.TiledElim(c, h, base, top, limit, x);
    Tiling.SizePositive(c, h, base, top, limit, x);
  }

  lemma BinnedInsertSmall(c: set<Addr>, h: Heads, bins: seq<seq<Addr>>, trees: seq<Tree>, out: set<Addr>, x: Addr,
                          i: nat)
    requires Binned(c, h, bins, trees, out) && x in c && Tiling.Free(h, x) && i < NBINS && Tiling.Size(h, x) == 8 * i
    ensures Binned(c, h, bins[i := [x] + bins[i]], trees, out - {x})
  {
    var bins' := bins[i := [x] + bins[i]];
    hide Has;
    forall j, p | 0 <= j < NBINS && p in bins'[j] ensures Idle(c, h, out - {x}, p) {
      if j == i && p != x { assert p in bins[i]; }
      assert p == x || Idle(c, h, out, p);
    }
    forall j, p | 0 <= j < NBINS && Has(trees[j], p) ensures Idle(c, h, out - {x}, p) {
      assert Idle(c, h, out, p);
    }
    forall p | Idle(c, h, out - {x}, p) ensures HasBin(bins', trees, p, Tiling.Size(h, p)) {
      if p == x {
        assert (8 * i) / 8 == i && x in bins'[i];
      } else {
        assert Idle(c, h, out, p);
      }
    }
  }

  /** The first member, or any member k, of small bin i is taken out. */
  lemma ArenaRemoveSmall(m: Memory, m': Memory, c: set<Addr>, base: Addr, top: Addr, limit: Addr,
                         smallmap: nat, smallmap': nat, treemap: nat, roots: seq<Addr>, bins: seq<seq<Addr>>,
                         trees: seq<Tree>, out: set<Addr>,
                         i: nat, k: nat)
    requires IsArena(m, c, base, top, limit, smallmap, treemap, roots, bins, trees, out)
    requires i < NBINS && k < |bins[i]|
    requires m' == if |bins[i]| == 1 then m else Join(m, m.Fd(bins[i][k]), m.Bk(bins[i][k]))
    requires smallmap' == if |bins[i]| == 1 then Clear(smallmap, i) else smallmap
    ensures IsArena(m', c, base, top, limit, smallmap', treemap, roots, bins[i := Without(bins[i], k)], trees,
                    out + {bins[i][k]})
  {
    TreesApart(m, roots, bins, trees);
    assert DistinctSeq(bins[i]) by { assert SmallBin(m, bins[i], i); }
    BinnedRemoveSmall(m, c, bins, trees, out, i, k);
    hide Tiling.Segment, SmallBins, TreeBins, SmallMap, TreeMap, Binned, Has;
    SmallBinsRemove(m, m', bins, i, k);
    SmallMapRemove(smallmap, smallmap', bins, i, k);
    forall j, p | 0 <= j < NBINS && Has(trees[j], p) ensures SameNode(m, m', p) && m.Index(p) == m'.Index(p) {
      assert p !in bins[i] && p != SmallBinAt(i);
    }
    TreeBinsSame(m, m', roots, trees);
  }

  lemma BinnedRemoveSmall(m: Memory, c: set<Addr>, bins: seq<seq<Addr>>, trees: seq<Tree>, out: set<Addr>, i: nat,
                          k: nat)
    requires Binned(c, m.head, bins, trees, out) && i < NBINS && k < |bins[i]| && SmallBins(m, bins)
    requires DistinctSeq(bins[i])
    requires forall j, p :: 0 <= j < NBINS && p in bins[i] ==> !Has(trees[j], p)
    ensures Binned(c, m.head, bins[i := Without(bins[i], k)], trees, out + {bins[i][k]})
  {
    var h, x := m.head, bins[i][k];
    var bins', out' := bins[i := Without(bins[i], k)], out + {x};
    OtherSmallBins(m, bins, i);
    hide Has, Without, SmallBins;
    assert x in bins[i];
    forall p ensures p in Without(bins[i], k) <==> p in bins[i] && p != x { WithoutMembers(bins[i], k, p); }
    forall j, p | 0 <= j < NBINS && p in bins'[j] ensures Idle(c, h, out', p) {
      if j == i {
        assert p in bins[i] && p != x;
      } else {
        assert p in bins[j] && p != x;
      }
      assert Idle(c, h, out, p);
    }
    forall j, p | 0 <= j < NBINS && Has(trees[j], p) ensures Idle(c, h, out', p) {
      assert Idle(c, h, out, p) && !Has(trees[j], x);
    }
    forall p | Idle(c, h, out', p) ensures HasBin(bins', trees, p, Tiling.Size(h, p)) {
      assert Idle(c, h, out, p) && p != x;
    }
  }

  /** Chunk x is put in tree bin i; m' comes from insert_large_chunk. */
  lemma ArenaInsertTree(m: Memory, m': Memory, c: set<Addr>, base: Addr, top: Addr, limit: Addr,
                        smallmap: nat, treemap: nat, treemap': nat, roots: seq<Addr>, roots': seq<Addr>,
                        bins: seq<seq<Addr>>, trees: seq<Tree>, out: set<Addr>, x: Addr, s: nat, i: nat)
    requires IsArena(m, c, base, top, limit, smallmap, treemap, roots, bins, trees, out)
    requires x in c && x in out && x != top && Tiling.Free(m.head, x) && m.SizeAt(x) == s && T.InTreeBin(s, i)
    requires m'.head == m.head && m'.prevFoot == m.prevFoot
    requires TreeBins(m', roots', trees[i := Insert(trees[i], x, s, T.RootBits(i))])
    requires TreeMap(treemap', trees[i := Insert(trees[i], x, s, T.RootBits(i))])
    requires forall p :: p != x && !Has(trees[i], p) ==> SameRing(m, m', p)
    ensures IsArena(m', c, base, top, limit, smallmap, treemap', roots', bins,
                    trees[i := Insert(trees[i], x, s, T.RootBits(i))], out - {x})
  {
    NotBinned(c, m.head, bins, trees, out, x);
    InChunks(c, m.head, base, top, limit, x);
    SmallBinsBeside(m, m', roots, bins, trees, i, x);
    assert IsTrie(trees[i], T.RootPrefix(i), T.RootBits(i)) by { assert TreeBin(m, roots[i], trees[i], i); }
    LargeIsNotSmall(s, i);
    BinnedInsertTree(c, m.head, bins, trees, out, x, s, i);
  }

  /** An operation on tree i and a chunk x in no small bin leaves the small bins alone. */
  lemma SmallBinsBeside(m: Memory, m': Memory, roots: seq<Addr>, bins: seq<seq<Addr>>, trees: seq<Tree>, i: nat,
                        x: Addr)
    requires SmallBins(m, bins) && TreeBins(m, roots, trees) && i < NBINS && InNoSmallBin(bins, x) && x >= LEAST_ADDR
    requires m'.head == m.head && forall p :: p != x && !Has(trees[i], p) ==> SameRing(m, m', p)
    ensures SmallBins(m', bins)
  {
    TreesApart(m, roots, bins, trees);
    hide SmallBins, TreeBins, Has;
    forall j, p | 0 <= j < NBINS && p in bins[j] ensures SameRing(m, m', p) && m.SizeAt(p) == m'.SizeAt(p) {
      assert p != x && !Has(trees[i], p);
    }
    forall j | 0 <= j < NBINS ensures SameRing(m, m', SmallBinAt(j)) {
      HeaderNotInTree(m, roots, trees, i, j);
    }
    SmallBinsSame(m, m', bins);
  }

  lemma LargeIsNotSmall(s: nat, i: nat)
    requires T.InTreeBin(s, i)
    ensures !T.IsSmall(s) && s >= T.MIN_LARGE_SIZE
  {
    assert s >= T.MinSizeForTreeIndex(i);
    hide T.MinSizeForTreeIndex;
    T.MinSizeMonotone(0, i);
    T.SmallestLarge();
  }

  lemma BinnedInsertTree(c: set<Addr>, h: Heads, bins: seq<seq<Addr>>, trees: seq<Tree>, out: set<Addr>, x: Addr,
                         s: nat, i: nat)
    requires Binned(c, h, bins, trees, out) && x in c && Tiling.Free(h, x) && Tiling.Size(h, x) == s
    requires T.InTreeBin(s, i) && s <= T.MAX_SIZE_T && !T.IsSmall(s) && IsTrie(trees[i], T.RootPrefix(i), T.RootBits(i))
    ensures Binned(c, h, bins, trees[i := Insert(trees[i], x, s, T.RootBits(i))], out - {x})
  {
    var t := Insert(trees[i], x, s, T.RootBits(i));
    var trees' := trees[i := t];
    T.TreeBinPrefix(s, i);
    hide T.InTreeBin, T.RootPrefix, T.RootBits, IsTrie;
    forall p ensures Has(t, p) <==> p == x || Has(trees[i], p) {
      InsertAddsOne(trees[i], x, s, T.RootPrefix(i), T.RootBits(i), p, s);
    }
    hide Has, Insert;
    forall j, p | 0 <= j < NBINS && p in bins[j] ensures Idle(c, h, out - {x}, p) {
      assert Idle(c, h, out, p);
    }
    forall j, p | 0 <= j < NBINS && Has(trees'[j], p) ensures Idle(c, h, out - {x}, p) {
      assert p == x || Has(trees[j], p);
      assert p == x || Idle(c, h, out, p);
    }
    forall p | Idle(c, h, out - {x}, p) ensures HasBin(bins, trees', p, Tiling.Size(h, p)) {
      if p == x {
        assert Has(trees'[i], x);
      } else {
        assert Idle(c, h, out, p) && HasBin(bins, trees, p, Tiling.Size(h, p));
        if !T.IsSmall(Tiling.Size(h, p)) {
          var j :| 0 <= j < NBINS && T.InTreeBin(Tiling.Size(h, p), j) && Has(trees[j], p);
          assert Has(trees'[j], p);
        }
      }
    }
  }

  /** Chunk x is taken out of tree i; m' comes from unlink_large_chunk. */
  lemma ArenaRemoveTree(m: Memory, m': Memory, c: set<Addr>, base: Addr, top: Addr, limit: Addr,
                        smallmap: nat, treemap: nat, treemap': nat, roots: seq<Addr>, roots': seq<Addr>,
                        bins: seq<seq<Addr>>, trees: seq<Tree>, out: set<Addr>, x: Addr, i: nat, path: Path)
    requires IsArena(m, c, base, top, limit, smallmap, treemap, roots, bins, trees, out)
    requires i < NBINS && IsAt(trees[i], path, x)
    requires m'.head == m.head && m'.prevFoot == m.prevFoot
    requires TreeBins(m', roots', trees[i := Remove(trees[i], path, x)])
    requires TreeMap(treemap', trees[i := Remove(trees[i], path, x)])
    requires forall p :: !Has(trees[i], p) ==> SameNode(m, m', p)
    ensures IsArena(m', c, base, top, limit, smallmap, treemap', roots', bins, trees[i := Remove(trees[i], path, x)],
                    out + {x})
  {
    assert IsDistinct(trees[i]) by { assert TreeBin(m, roots[i], trees[i], i); }
    assert Has(trees[i], x) by { PathHas(trees[i], path, x); }
    OnlyInTree(m, roots, bins, trees, i, x);
    BinnedRemoveTree(c, m.head, bins, trees, out, x, i, path);
    TreeMember(m, roots, trees, i, x);
    SmallBinsBeside(m, m', roots, bins, trees, i, x);
  }

  lemma PathHas(t: Tree, path: Path, x: Addr)
    requires IsAt(t, path, x)
    ensures Has(t, x)
  {
    SubHas(t, path, x);
  }

  /** A member of tree i is in no other bin. */
  lemma OnlyInTree(m: Memory, roots: seq<Addr>, bins: seq<seq<Addr>>, trees: seq<Tree>, i: nat, x: Addr)
    requires SmallBins(m, bins) && TreeBins(m, roots, trees) && i < NBINS && Has(trees[i], x)
    ensures forall j :: 0 <= j < NBINS && j != i ==> !Has(trees[j], x)
    ensures forall j :: 0 <= j < NBINS ==> x !in bins[j]
  {
    hide Has;
    forall j | 0 <= j < NBINS && Has(trees[j], x) ensures j == i {
      hide TreeBins, T.InTreeBin;
      SameIndex(m, roots, trees, i, j, x);
    }
    forall j | 0 <= j < NBINS ensures x !in bins[j] {
      hide SmallBins, TreeBins;
      SmallOrTree(m, roots, bins, trees, j, i, x);
    }
  }

  lemma SameIndex(m: Memory, roots: seq<Addr>, trees: seq<Tree>, i: nat, j: nat, x: Addr)
    requires TreeBins(m, roots, trees) && i < NBINS && j < NBINS && Has(trees[i], x) && Has(trees[j], x)
    ensures i == j
  {
    hide TreeBins, Has;
    TreeMember(m, roots, trees, i, x);
    TreeMember(m, roots, trees, j, x);
  }

  lemma BinnedRemoveTree(c: set<Addr>, h: Heads, bins: seq<seq<Addr>>, trees: seq<Tree>, out: set<Addr>, x: Addr,
                         i: nat, path: Path)
    requires Binned(c, h, bins, trees, out) && i < NBINS && IsAt(trees[i], path, x) && IsDistinct(trees[i])
    requires forall j :: 0 <= j < NBINS && j != i ==> !Has(trees[j], x)
    requires forall j :: 0 <= j < NBINS ==> x !in bins[j]
    ensures Binned(c, h, bins, trees[i := Remove(trees[i], path, x)], out + {x})
  {
    var t := Remove(trees[i], path, x);
    var trees', out' := trees[i := t], out + {x};
    forall p ensures Has(t, p) <==> Has(trees[i], p) && p != x {
      hide Has, Remove, IsDistinct, Sub;
      RemoveLosesOne(trees[i], path, x, p, 0);
    }
    hide Has, Remove, IsDistinct, IsAt;
    forall j, p | 0 <= j < NBINS && p in bins[j] ensures Idle(c, h, out', p) {
      assert Idle(c, h, out, p) && p != x;
    }
    forall j, p | 0 <= j < NBINS && Has(trees'[j], p) ensures Idle(c, h, out', p) {
      assert Has(trees[j], p) && p != x;
      assert Idle(c, h, out, p);
    }
    forall p | Idle(c, h, out', p) ensures HasBin(bins, trees', p, Tiling.Size(h, p)) {
      assert Idle(c, h, out, p) && p != x && HasBin(bins, trees, p, Tiling.Size(h, p));
      if !T.IsSmall(Tiling.Size(h, p)) {
        var j :| 0 <= j < NBINS && T.InTreeBin(Tiling.Size(h, p), j) && Has(trees[j], p);
        assert Has(trees'[j], p);
      }
    }
  }

  // ---- What the class methods read off the arena

  /** Free chunk p of size s is in no bin. */
  ghost predicate Loose(m: Memory, c: set<Addr>, top: Addr, out: set<Addr>, p: Addr, s: nat) {
    p in c && p in out && p != top && !m.Cinuse(p) && m.SizeAt(p) == s
  }

  lemma ArenaShape(m: Memory, c: set<Addr>, base: Addr, top: Addr, limit: Addr,
                   smallmap: nat, treemap: nat, roots: seq<Addr>, bins: seq<seq<Addr>>, trees: seq<Tree>,
                   out: set<Addr>)
    requires IsArena(m, c, base, top, limit, smallmap, treemap, roots, bins, trees, out)
    ensures |bins| == NBINS && |trees| == NBINS && |roots| == NBINS
    ensures top in c && top in out && !m.Cinuse(top) && m.Pinuse(top) && top + m.SizeAt(top) == limit
    ensures top < limit <= T.MAX_SIZE_T
    ensures base >= LEAST_ADDR && 0 !in c
    ensures SmallMap(smallmap, bins) && TreeMap(treemap, trees) && TreeBins(m, roots, trees)
  {
    Tiling.EndTags(c, m.head, m.prevFoot, base, top, limit);
    hide AllBins, Binned, Tiling.Tagged;
    if 0 in c { InChunks(c, m.head, base, top, limit, 0); }
  }

  /** The place and size of one chunk, and its successor. */
  lemma ArenaChunk(m: Memory, c: set<Addr>, base: Addr, top: Addr, limit: Addr,
                   smallmap: nat, treemap: nat, roots: seq<Addr>, bins: seq<seq<Addr>>, trees: seq<Tree>,
                   out: set<Addr>, p: Addr)
    requires IsArena(m, c, base, top, limit, smallmap, treemap, roots, bins, trees, out) && p in c
    ensures p >= LEAST_ADDR && p % 8 == 0 && m.SizeAt(p) % 8 == 0 && 0 < m.SizeAt(p)
    ensures p + m.SizeAt(p) <= limit <= T.MAX_SIZE_T
    ensures p != top ==> m.SizeAt(p) >= T.MIN_CHUNK_SIZE && p + m.SizeAt(p) in c && p + m.SizeAt(p) <= top
    ensures p != top ==> (m.Pinuse(p + m.SizeAt(p)) <==> m.Cinuse(p))
    ensures !m.Cinuse(p) ==> m.Pinuse(p)
  {
    hide AllBins, Binned;
    InChunks(c, m.head, base, top, limit, p);
    hide Tiling.Tiled, Tiling.Tagged;
    Tiling.SizePositive(c, m.head, base, top, limit, p);
    Tiling.TiledElim(c, m.head, base, top, limit, p);
    Tiling.TaggedElim(c, m.head, m.prevFoot, base, top, limit, p);
    Tiling.CutTop(c, m.head, base, top, limit, p);
  }

  /** An idle chunk is in the bin for its size. */
  lemma ArenaBinOf(m: Memory, c: set<Addr>, base: Addr, top: Addr, limit: Addr,
                   smallmap: nat, treemap: nat, roots: seq<Addr>, bins: seq<seq<Addr>>, trees: seq<Tree>,
                   out: set<Addr>, p: Addr)
    requires IsArena(m, c, base, top, limit, smallmap, treemap, roots, bins, trees, out) && Idle(c, m.head, out, p)
    ensures |bins| == NBINS && |trees| == NBINS && HasBin(bins, trees, p, m.SizeAt(p)) && p != top
  {
    hide AllBins, Tiling.Segment;
  }

  /** The chunk that holds address a. */
  lemma ArenaHolding(m: Memory, c: set<Addr>, base: Addr, top: Addr, limit: Addr,
                      smallmap: nat, treemap: nat, roots: seq<Addr>, bins: seq<seq<Addr>>, trees: seq<Tree>,
                      out: set<Addr>, a: Addr)
    returns (p: Addr)
    requires IsArena(m, c, base, top, limit, smallmap, treemap, roots, bins, trees, out) && base <= a < limit
    ensures p in c && p <= a < p + m.SizeAt(p)
  {
    hide AllBins, Binned, Tiling.Tagged;
    p := Tiling.ChunkHolding(c, m.head, base, top, limit, a);
  }

  lemma ArenaBaseIsChunk(m: Memory, c: set<Addr>, base: Addr, top: Addr, limit: Addr,
                      smallmap: nat, treemap: nat, roots: seq<Addr>, bins: seq<seq<Addr>>, trees: seq<Tree>,
                      out: set<Addr>)
    requires IsArena(m, c, base, top, limit, smallmap, treemap, roots, bins, trees, out)
    ensures base in c
  {
    hide AllBins, Binned;
    Tiling.EndTags(c, m.head, m.prevFoot, base, top, limit);
  }

  /** The one place of a free chunk: outside the bins, in the small bin for its size, or in the tree for its size. */
  ghost predicate OnePlace(bins: seq<seq<Addr>>, trees: seq<Tree>, p: Addr, s: nat, outside: bool) {
    if outside then InNoSmallBin(bins, p) && InNoTree(trees, p)
    else if T.IsSmall(s) then InNoTree(trees, p) && OnlySmallBin(bins, p, s / 8)
    else InNoSmallBin(bins, p) && exists i :: 0 <= i < |trees| && T.InTreeBin(s, i) && OnlyTree(trees, p, i)
  }

  ghost predicate OnlySmallBin(bins: seq<seq<Addr>>, p: Addr, i: nat) {
    i < |bins| && forall j :: 0 <= j < |bins| ==> (p in bins[j] <==> j == i)
  }

  ghost predicate OnlyTree(trees: seq<Tree>, p: Addr, i: nat)
    requires i < |trees|
  {
    Has(trees[i], p) && forall j :: 0 <= j < |trees| && j != i ==> !Has(trees[j], p)
  }

  lemma ArenaOnePlace(m: Memory, c: set<Addr>, base: Addr, top: Addr, limit: Addr,
                      smallmap: nat, treemap: nat, roots: seq<Addr>, bins: seq<seq<Addr>>, trees: seq<Tree>,
                      out: set<Addr>, p: Addr)
    requires IsArena(m, c, base, top, limit, smallmap, treemap, roots, bins, trees, out) && p in c
    requires Tiling.Free(m.head, p)
    ensures OnePlace(bins, trees, p, m.SizeAt(p), p in out)
  {
    hide Tiling.Segment, SmallBins, TreeBins, SmallMap, TreeMap, Has;
    var s := m.SizeAt(p);
    if p in out {
      NotBinned(c, m.head, bins, trees, out, p);
    } else {
      assert Idle(c, m.head, out, p) && HasBin(bins, trees, p, s);
      forall i | 0 <= i < NBINS && p in bins[i] ensures i == s / 8 && T.IsSmall(s) { SmallMember(m, bins, i, p); }
      forall i | 0 <= i < NBINS && Has(trees[i], p) ensures T.InTreeBin(s, i) && !T.IsSmall(s) {
        TreeMember(m, roots, trees, i, p);
      }
      if !T.IsSmall(s) {
        var i :| 0 <= i < NBINS && T.InTreeBin(s, i) && Has(trees[i], p);
        forall j | 0 <= j < NBINS && j != i ensures !Has(trees[j], p) {
          if Has(trees[j], p) { T.TreeBinsOrdered(s, i, s, j); }
        }
        assert OnlyTree(trees, p, i);
      }
    }
  }

  /** Members of bins are idle chunks of the bin's sizes. */
  lemma ArenaSmallMember(m: Memory, c: set<Addr>, base: Addr, top: Addr, limit: Addr,
                         smallmap: nat, treemap: nat, roots: seq<Addr>, bins: seq<seq<Addr>>, trees: seq<Tree>,
                         out: set<Addr>, i: nat, k: nat)
    requires IsArena(m, c, base, top, limit, smallmap, treemap, roots, bins, trees, out) && i < |bins| && k < |bins[i]|
    ensures i < NBINS && Idle(c, m.head, out, bins[i][k]) && m.SizeAt(bins[i][k]) == 8 * i
    ensures m.Fd(bins[i][k]) == m.Bk(bins[i][k]) <==> |bins[i]| == 1
    ensures m.Fd(SmallBinAt(i)) == bins[i][0] && m.Bk(bins[i][0]) == SmallBinAt(i)
  {
    var p := bins[i][k];
    assert p in bins[i];
    hide Tiling.Segment, TreeBins, SmallMap, TreeMap, Has;
    SmallMember(m, bins, i, p);
    assert SmallBin(m, bins[i], i);
    HeaderApart(m, bins, i);
    hide SmallBins;
    UnlinkFromRing(m, SmallBinAt(i), bins[i], k);
    Neighbours(m, SmallBinAt(i), bins[i], 0);
  }

  lemma HeaderApart(m: Memory, bins: seq<seq<Addr>>, i: nat)
    requires |bins| == NBINS && i < NBINS && SmallBin(m, bins[i], i)
    ensures SmallBinAt(i) !in bins[i]
  {
  }

  lemma ArenaTreeMember(m: Memory, c: set<Addr>, base: Addr, top: Addr, limit: Addr,
                        smallmap: nat, treemap: nat, roots: seq<Addr>, bins: seq<seq<Addr>>, trees: seq<Tree>,
                        out: set<Addr>)
    requires IsArena(m, c, base, top, limit, smallmap, treemap, roots, bins, trees, out)
    ensures forall i, p :: 0 <= i < NBINS && i < |trees| && Has(trees[i], p) ==>
              Idle(c, m.head, out, p) && T.MIN_LARGE_SIZE <= m.SizeAt(p) <= T.MAX_SIZE_T
  {
    hide Tiling.Segment, Has, SmallBins, SmallMap, TreeMap;
    forall i, p | 0 <= i < NBINS && i < |trees| && Has(trees[i], p)
      ensures Idle(c, m.head, out, p) && T.MIN_LARGE_SIZE <= m.SizeAt(p) <= T.MAX_SIZE_T
    {
      assert Idle(c, m.head, out, p);
      TreeMember(m, roots, trees, i, p);
      hide TreeBins, Binned;
      ArenaChunk(m, c, base, top, limit, smallmap, treemap, roots, bins, trees, out, p);
    }
  }

  /** A chunk in use may be counted among the chunks that are in no bin. */
  lemma ArenaUsedOut(m: Memory, c: set<Addr>, base: Addr, top: Addr, limit: Addr,
                     smallmap: nat, treemap: nat, roots: seq<Addr>, bins: seq<seq<Addr>>, trees: seq<Tree>,
                     out: set<Addr>, p: Addr)
    requires IsArena(m, c, base, top, limit, smallmap, treemap, roots, bins, trees, out) && m.Cinuse(p)
    ensures IsArena(m, c, base, top, limit, smallmap, treemap, roots, bins, trees, out + {p})
  {
    hide AllBins, Binned, Tiling.Segment;
    assert SameIdle(c, m.head, out, c, m.head, out + {p});
    hide SameIdle;
    BinnedReheaded(c, m.head, c, m.head, bins, trees, out, out + {p});
  }

  /** A free neighbour below p is found through the foot. */
  lemma ArenaPrev(m: Memory, c: set<Addr>, base: Addr, top: Addr, limit: Addr,
                  smallmap: nat, treemap: nat, roots: seq<Addr>, bins: seq<seq<Addr>>, trees: seq<Tree>, out: set<Addr>,
                  p: Addr)
    requires IsArena(m, c, base, top, limit, smallmap, treemap, roots, bins, trees, out) && p in c && !m.Pinuse(p)
    ensures m.Foot(p) <= p && p - m.Foot(p) in c && p - m.Foot(p) != top
    ensures m.SizeAt(p - m.Foot(p)) == m.Foot(p) && !m.Cinuse(p - m.Foot(p))
  {
    hide AllBins, Binned;
    Tiling.PrevByFoot(c, m.head, m.prevFoot, base, top, limit, p);
  }

  /** No chunk begins inside chunk p. */
  lemma ArenaApart(m: Memory, c: set<Addr>, base: Addr, top: Addr, limit: Addr,
                   smallmap: nat, treemap: nat, roots: seq<Addr>, bins: seq<seq<Addr>>, trees: seq<Tree>,
                   out: set<Addr>, p: Addr)
    requires IsArena(m, c, base, top, limit, smallmap, treemap, roots, bins, trees, out) && p in c
    ensures forall q :: q in c && q > p ==> q >= p + m.SizeAt(p)
  {
    hide AllBins, Binned;
    hide Tiling.Tiled, Tiling.Tagged;
    forall q | q in c && q > p ensures q >= p + m.SizeAt(p) {
      Tiling.ChunksApart(c, m.head, base, top, limit, p, q);
    }
  }

  // ---- The chunks handed out

  /** The chunks in use, with their sizes. */
  ghost function Live(c: set<Addr>, h: Heads): map<Addr, nat> {
    map p | p in c && !Tiling.Free(h, p) :: Tiling.Size(h, p)
  }

  /** Chunk p has been handed out: it is new, large enough for nb and no more than a remainder larger. */
  ghost predicate Allocated(live: map<Addr, nat>, live': map<Addr, nat>, p: Addr, nb: nat) {
    && p != 0 && p !in live && p in live' && live' == live[p := live'[p]]
    && nb <= live'[p] < nb + T.MIN_CHUNK_SIZE
  }

  /** The other chunks of c are as before. */
  ghost predicate SameOthers(c: set<Addr>, m: Memory, m': Memory, p: Addr) {
    forall q :: q in c && q != p ==> m'.SizeAt(q) == m.SizeAt(q) && m'.Cinuse(q) == m.Cinuse(q)
  }

  lemma LiveAlloc(c: set<Addr>, c': set<Addr>, m: Memory, m': Memory, p: Addr, nb: nat)
    requires p in c && p != 0 && !m.Cinuse(p) && m'.Cinuse(p) && SameOthers(c, m, m', p)
    requires c <= c' && forall q :: q in c' && q !in c ==> !m'.Cinuse(q)
    requires nb <= m'.SizeAt(p) < nb + T.MIN_CHUNK_SIZE
    ensures Allocated(Live(c, m.head), Live(c', m'.head), p, nb)
  {
    var l, l' := Live(c, m.head), Live(c', m'.head);
    forall q ensures q in l' <==> q == p || q in l { }
    forall q | q in l ensures l'[q] == l[q] { }
    assert l' == l[p := l'[p]];
  }

  lemma LiveFree(c: set<Addr>, c': set<Addr>, m: Memory, m': Memory, s: Addr, e: Addr, p: Addr)
    requires p in c && m.Cinuse(p) && s <= p < e && s in c
    requires c' == Tiling.Without(c, s, e) && !m'.Cinuse(s) && SameOthers(c', m, m', s)
    requires forall q :: q in c && s <= q < e && q != p ==> !m.Cinuse(q)
    ensures Live(c', m'.head) == Live(c, m.head) - {p}
  {
    var l, l' := Live(c, m.head), Live(c', m'.head);
    forall q ensures q in l' <==> q in l && q != p {
      if q in l && q != p { assert q in c'; }
    }
    forall q | q in l' ensures l'[q] == l[q] { }
  }

  lemma JoinKeepsTags(m: Memory, f: Addr, b: Addr)
    ensures Join(m, f, b).head == m.head && Join(m, f, b).prevFoot == m.prevFoot
  {
  }

  lemma ArenaNotInTree(m: Memory, c: set<Addr>, base: Addr, top: Addr, limit: Addr,
                       smallmap: nat, treemap: nat, roots: seq<Addr>, bins: seq<seq<Addr>>, trees: seq<Tree>,
                       out: set<Addr>, p: Addr)
    requires IsArena(m, c, base, top, limit, smallmap, treemap, roots, bins, trees, out) && p in out
    ensures InNoTree(trees, p)
  {
    hide AllBins, Tiling.Segment;
    NotBinned(c, m.head, bins, trees, out, p);
  }

  /** Addresses that are no chunks do not matter in out. */
  lemma OutsideOut(m: Memory, c: set<Addr>, base: Addr, top: Addr, limit: Addr,
                   smallmap: nat, treemap: nat, roots: seq<Addr>, bins: seq<seq<Addr>>, trees: seq<Tree>,
                   out: set<Addr>, out': set<Addr>)
    requires IsArena(m, c, base, top, limit, smallmap, treemap, roots, bins, trees, out) && top in out'
    requires forall p :: p in c ==> (p in out <==> p in out')
    ensures IsArena(m, c, base, top, limit, smallmap, treemap, roots, bins, trees, out')
  {
    hide AllBins, Binned, Tiling.Segment;
    assert SameIdle(c, m.head, out, c, m.head, out');
    hide SameIdle;
    BinnedReheaded(c, m.head, c, m.head, bins, trees, out, out');
  }

  /** No chunk in a bin has nb bytes. */
  ghost predicate NoBinFits(c: set<Addr>, h: Heads, out: set<Addr>, nb: nat) {
    forall p :: Idle(c, h, out, p) ==> Tiling.Size(h, p) < nb
  }

  /** Nothing free has room for nb: no other chunk is that large, and top is not larger. */
  ghost predicate NoneFree(c: set<Addr>, h: Heads, top: Addr, nb: nat) {
    forall q :: q in c && Tiling.Free(h, q) ==> if q == top then Tiling.Size(h, q) <= nb else Tiling.Size(h, q) < nb
  }

  /** A chunk that the bins give was free and large enough. */
  lemma ChosenIsFree(c: set<Addr>, h: Heads, top: Addr, dv: Addr, dvsize: nat, p: Addr, nb: nat)
    requires BinsChoose(c, h, {top, dv}, dvsize, p, nb)
    ensures !NoneFree(c, h, top, nb)
  {
    assert p in c && Tiling.Free(h, p) && p != top && Tiling.Size(h, p) >= nb;
  }

  /** The two small bins that are tried before dv: those for nb and for 8 bytes more. */
  const FITS_TRIED: nat := 16

  /** p is a smallest chunk of the bins that is large enough. */
  ghost predicate LeastFit(c: set<Addr>, h: Heads, out: set<Addr>, p: Addr, nb: nat) {
    && Idle(c, h, out, p) && Tiling.Size(h, p) >= nb
    && forall q :: Idle(c, h, out, q) && Tiling.Size(h, q) >= nb ==> Tiling.Size(h, p) <= Tiling.Size(h, q)
  }

  /** The bins give p: a best fit, and while dv is large enough only a fit that is better than dv. */
  ghost predicate BinsChoose(c: set<Addr>, h: Heads, out: set<Addr>, dvsize: nat, p: Addr, nb: nat) {
    && LeastFit(c, h, out, p, nb)
    && (nb <= dvsize ==> Tiling.Size(h, p) < if nb < T.MIN_LARGE_SIZE then nb + FITS_TRIED else dvsize)
  }

  /** The bins give nothing: no chunk fits, or dv does and no chunk is better. */
  ghost predicate BinsDecline(c: set<Addr>, h: Heads, out: set<Addr>, dvsize: nat, nb: nat) {
    if dvsize < nb then NoBinFits(c, h, out, nb)
    else if nb < T.MIN_LARGE_SIZE then
      forall q :: Idle(c, h, out, q) && T.IsSmall(Tiling.Size(h, q)) && Tiling.Size(h, q) >= nb
                  ==> Tiling.Size(h, q) >= nb + FITS_TRIED
    else forall q :: Idle(c, h, out, q) && Tiling.Size(h, q) >= nb ==> Tiling.Size(h, q) >= dvsize
  }

  /** Where the chunk for a request comes from: the bins, else dv, else top. */
  ghost predicate Chosen(c: set<Addr>, h: Heads, top: Addr, dv: Addr, dvsize: nat, p: Addr, nb: nat) {
    if p == top then dvsize < nb && NoBinFits(c, h, {top, dv}, nb)
    else if p == dv then nb <= dvsize && BinsDecline(c, h, {top, dv}, dvsize, nb)
    else BinsChoose(c, h, {top, dv}, dvsize, p, nb)
  }

  lemma FromBins(c: set<Addr>, h: Heads, top: Addr, dv: Addr, dvsize: nat, p: Addr, nb: nat)
    requires BinsChoose(c, h, {top, dv}, dvsize, p, nb)
    ensures Chosen(c, h, top, dv, dvsize, p, nb)
  {
  }

  /** The first chunk of the first small bin that is not empty from the size of the request on is a best fit. */
  lemma SmallLeast(m: Memory, c: set<Addr>, base: Addr, top: Addr, limit: Addr,
                   smallmap: nat, treemap: nat, roots: seq<Addr>, bins: seq<seq<Addr>>, trees: seq<Tree>,
                   out: set<Addr>,
                   nb: nat, i: nat, p: Addr)
    requires IsArena(m, c, base, top, limit, smallmap, treemap, roots, bins, trees, out)
    requires Idle(c, m.head, out, p) && m.SizeAt(p) == 8 * i && i < NBINS && nb <= 8 * i && nb % 8 == 0
    requires forall j :: nb / 8 <= j < i ==> !IsMarked(smallmap, j)
    ensures LeastFit(c, m.head, out, p, nb)
  {
    hide Tiling.Segment, SmallBins, TreeBins, Has, IsMarked;
    forall q | Idle(c, m.head, out, q) && Tiling.Size(m.head, q) >= nb ensures 8 * i <= Tiling.Size(m.head, q) {
      var s := Tiling.Size(m.head, q);
      assert HasBin(bins, trees, q, s);
      if T.IsSmall(s) { assert IsMarked(smallmap, s / 8); }
    }
  }

  /** No small chunk is a closer fit than dv needs to be when the two bins tried are empty. */
  lemma NoRemainderless(m: Memory, c: set<Addr>, base: Addr, top: Addr, limit: Addr,
                        smallmap: nat, treemap: nat, roots: seq<Addr>, bins: seq<seq<Addr>>, trees: seq<Tree>,
                        out: set<Addr>,
                        nb: nat, dvsize: nat)
    requires IsArena(m, c, base, top, limit, smallmap, treemap, roots, bins, trees, out)
    requires nb % 8 == 0 && nb < T.MIN_LARGE_SIZE && nb <= dvsize && !IsMarked(smallmap, nb / 8)
    requires !IsMarked(smallmap, nb / 8 + 1)
    ensures BinsDecline(c, m.head, out, dvsize, nb)
  {
    hide Tiling.Segment, SmallBins, TreeBins, Has, IsMarked;
    forall q | Idle(c, m.head, out, q) && T.IsSmall(Tiling.Size(m.head, q)) && Tiling.Size(m.head, q) >= nb
      ensures Tiling.Size(m.head, q) >= nb + FITS_TRIED
    {
      var s := Tiling.Size(m.head, q);
      assert HasBin(bins, trees, q, s);
      assert IsMarked(smallmap, s / 8);
    }
  }

  /** The best of the trees is a best fit when no small chunk fits. */
  lemma TreeLeast(m: Memory, c: set<Addr>, base: Addr, top: Addr, limit: Addr,
                  smallmap: nat, treemap: nat, roots: seq<Addr>, bins: seq<seq<Addr>>, trees: seq<Tree>, out: set<Addr>,
                  nb: nat, p: Addr)
    requires IsArena(m, c, base, top, limit, smallmap, treemap, roots, bins, trees, out) && Idle(c, m.head, out, p)
    requires m.SizeAt(p) >= nb && BestFit.BestOf(m, trees, nb, p, m.SizeAt(p) - nb)
    requires nb >= T.MIN_LARGE_SIZE || Shr(smallmap, nb / 8) == 0
    ensures LeastFit(c, m.head, out, p, nb)
  {
    hide Tiling.Segment, SmallBins, TreeBins, Has, IsMarked, Shr;
    forall q | Idle(c, m.head, out, q) && Tiling.Size(m.head, q) >= nb ensures m.SizeAt(p) <= Tiling.Size(m.head, q) {
      var s := Tiling.Size(m.head, q);
      assert HasBin(bins, trees, q, s);
      if T.IsSmall(s) {
        NoMarksFrom(smallmap, nb / 8, s / 8);
      } else {
        var i :| 0 <= i < NBINS && T.InTreeBin(s, i) && Has(trees[i], q);
        assert m.SizeAt(q) >= nb;
      }
    }
  }

  /** No chunk is a better fit for a large request than dv when the best of the trees is not. */
  lemma DvIsBetter(m: Memory, c: set<Addr>, base: Addr, top: Addr, limit: Addr,
                   smallmap: nat, treemap: nat, roots: seq<Addr>, bins: seq<seq<Addr>>, trees: seq<Tree>,
                   out: set<Addr>,
                   nb: nat, v: Addr, rsize: nat, dvsize: nat)
    requires IsArena(m, c, base, top, limit, smallmap, treemap, roots, bins, trees, out)
    requires BestFit.BestOf(m, trees, nb, v, rsize) && T.MIN_LARGE_SIZE <= nb <= dvsize
    requires v == 0 || nb + rsize >= dvsize
    ensures BinsDecline(c, m.head, out, dvsize, nb)
  {
    hide Tiling.Segment, SmallBins, TreeBins, SmallMap, TreeMap, Has;
    forall q | Idle(c, m.head, out, q) && Tiling.Size(m.head, q) >= nb ensures Tiling.Size(m.head, q) >= dvsize {
      var s := Tiling.Size(m.head, q);
      assert HasBin(bins, trees, q, s);
      var i :| 0 <= i < NBINS && T.InTreeBin(s, i) && Has(trees[i], q);
      assert m.SizeAt(q) >= nb;
    }
  }

  /** A small request finds no chunk when the small bins from idx on and all trees are empty. */
  lemma NoSmallFits(m: Memory, c: set<Addr>, base: Addr, top: Addr, limit: Addr,
                    smallmap: nat, treemap: nat, roots: seq<Addr>, bins: seq<seq<Addr>>, trees: seq<Tree>,
                    out: set<Addr>, nb: nat)
    requires IsArena(m, c, base, top, limit, smallmap, treemap, roots, bins, trees, out)
    requires Shr(smallmap, nb / 8) == 0 && treemap == 0 && nb % 8 == 0
    ensures NoBinFits(c, m.head, out, nb)
  {
    hide Tiling.Segment, SmallBins, TreeBins, Has, IsMarked, Shr;
    forall p | Idle(c, m.head, out, p) ensures Tiling.Size(m.head, p) < nb {
      var s := Tiling.Size(m.head, p);
      assert HasBin(bins, trees, p, s);
      if T.IsSmall(s) {
        if s / 8 >= nb / 8 { NoMarksFrom(smallmap, nb / 8, s / 8); }
      } else {
        var i :| 0 <= i < NBINS && T.InTreeBin(s, i) && Has(trees[i], p);
        NothingMarked(i);
        BestFit.NilHasNothing(trees[i], p);
      }
    }
  }

  /** A large request finds no chunk when no tree has one. */
  lemma NoLargeFits(m: Memory, c: set<Addr>, base: Addr, top: Addr, limit: Addr,
                    smallmap: nat, treemap: nat, roots: seq<Addr>, bins: seq<seq<Addr>>, trees: seq<Tree>,
                    out: set<Addr>, nb: nat)
    requires IsArena(m, c, base, top, limit, smallmap, treemap, roots, bins, trees, out)
    requires nb >= T.MIN_LARGE_SIZE && forall i, p :: 0 <= i < |trees| && Has(trees[i], p) ==> m.SizeAt(p) < nb
    ensures NoBinFits(c, m.head, out, nb)
  {
    hide Tiling.Segment, SmallBins, TreeBins, SmallMap, TreeMap, Has;
    forall p | Idle(c, m.head, out, p) ensures Tiling.Size(m.head, p) < nb {
      var s := Tiling.Size(m.head, p);
      assert HasBin(bins, trees, p, s);
      if !T.IsSmall(s) {
        var i :| 0 <= i < NBINS && T.InTreeBin(s, i) && Has(trees[i], p);
        assert m.SizeAt(p) < nb;
      }
    }
  }

  /** rsize not below dvsize - nb, in 64 bits, means that dv is large enough or that there is no v. */
  lemma DvTooSmall(v: Addr, rsize: nat, dvsize: nat, nb: nat)
    requires dvsize < nb <= T.MAX_SIZE_T && nb < Pow2(64) && dvsize < Pow2(64)
    requires v != 0 ==> rsize <= T.MAX_SIZE_T - nb
    requires v == 0 || rsize >= WrapSub(dvsize, nb, 64)
    ensures v == 0
  {
    Pow2Values();
  }

  lemma NoTrees(trees: seq<Tree>, treemap: nat)
    requires TreeMap(treemap, trees) && treemap == 0
    ensures forall i, p :: 0 <= i < |trees| ==> !Has(trees[i], p)
  {
    forall i, p | 0 <= i < |trees| ensures !Has(trees[i], p) {
      NothingMarked(i);
      assert trees[i] == Nil;
    }
  }

  lemma MergedStores(m: Memory, m': Memory, s: Addr, e: Addr, clear: bool)
    requires s < e && (clear || (!m.Pinuse(e) && m.SizeAt(e) > 0))
    requires m' == (if clear then m.SetHead(e, m.HeadAt(e).(pinuse := false))
                    else m).SetHead(s, Head(e - s, false, true)).SetFoot(e, e - s)
    ensures m' == m.(head := Tiling.MergedHeads(m.head, s, e), prevFoot := m.prevFoot[e := e - s])
  {
    assert m'.head == Tiling.MergedHeads(m.head, s, e);
  }

  lemma TopIsLast(m: Memory, c: set<Addr>, base: Addr, top: Addr, limit: Addr,
                  smallmap: nat, treemap: nat, roots: seq<Addr>, bins: seq<seq<Addr>>, trees: seq<Tree>, out: set<Addr>)
    requires IsArena(m, c, base, top, limit, smallmap, treemap, roots, bins, trees, out)
    ensures forall q :: q in c ==> q <= top
  {
    hide AllBins, Binned;
    forall q | q in c ensures q <= top { Tiling.CutTop(c, m.head, base, top, limit, q); }
  }

  lemma ArenaBase(m: Memory, c: set<Addr>, base: Addr, top: Addr, limit: Addr,
                  smallmap: nat, treemap: nat, roots: seq<Addr>, bins: seq<seq<Addr>>, trees: seq<Tree>, out: set<Addr>,
                  p: Addr)
    requires IsArena(m, c, base, top, limit, smallmap, treemap, roots, bins, trees, out) && p in c
    ensures base <= p
  {
    hide AllBins, Binned, Tiling.Tagged;
    InChunks(c, m.head, base, top, limit, p);
  }

  // ---- The first segment

  lemma FirstArena(m: Memory, base: Addr, n: nat, roots: seq<Addr>, bins: seq<seq<Addr>>, trees: seq<Tree>)
    requires base >= LEAST_ADDR && base % 8 == 0 && n % 8 == 0 && n > 0 && base + n <= T.MAX_SIZE_T
    requires m.SizeAt(base) == n && !m.Cinuse(base) && m.Pinuse(base) && !m.Pinuse(base + n)
    requires AllEmpty(roots, bins, trees)
    ensures IsArena(m, {base}, base, base, base + n, 0, 0, roots, bins, trees, {base, 0})
    ensures Live({base}, m.head) == map[]
  {
    var c: set<Addr>, h: Heads := {base}, m.head;
    FirstSegment(c, h, m.prevFoot, base, n);
    FirstBins(m, roots, bins, trees);
    hide SmallBins, TreeBins, SmallMap, TreeMap, Tiling.Segment;
    assert Binned(c, h, bins, trees, {base, 0});
  }

  /** All bins are empty. */
  ghost predicate AllEmpty(roots: seq<Addr>, bins: seq<seq<Addr>>, trees: seq<Tree>) {
    && |roots| == NBINS && |bins| == NBINS && |trees| == NBINS
    && forall i :: 0 <= i < NBINS ==> roots[i] == 0 && bins[i] == [] && trees[i] == Nil
  }

  lemma FirstSegment(c: set<Addr>, h: Heads, f: Words, base: Addr, n: nat)
    requires c == {base} && base % 8 == 0 && n % 8 == 0 && n > 0
    requires Tiling.Size(h, base) == n && Tiling.Free(h, base) && Tiling.H(h, base).pinuse
    requires !Tiling.H(h, base + n).pinuse
    ensures Tiling.Segment(c, h, f, base, base, base + n)
  {
  }

  lemma FirstBins(m: Memory, roots: seq<Addr>, bins: seq<seq<Addr>>, trees: seq<Tree>)
    requires AllEmpty(roots, bins, trees)
    ensures AllBins(m, 0, 0, roots, bins, trees)
  {
    forall i | 0 <= i < NBINS ensures !IsMarked(0, i) { NothingMarked(i); }
  }

  lemma NothingMarked(i: nat)
    ensures !IsMarked(0, i)
  {
  }
}
