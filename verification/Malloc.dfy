/** dlmalloc 2.8.3: one segment, no direct mmap, no trimming, no footers. */
module Malloc {
  import opened Bits
  import opened BinMap
  import opened Trie
  import opened Heap
  import opened TreeLinks
  import opened Bins
  import opened Arena
  import BestFit
  import Tiling
  import T = TreeIndex

  /** What the segment record and a fencepost take up behind top. */
  const TOP_FOOT_SIZE: nat := 72

  /** Where the payload of a chunk begins: behind its foot and head words. */
  const CHUNK_TO_MEM: nat := 16

  class MallocState {
    var mem: Memory
    var smallmap: nat
    var treemap: nat
    var dv: Addr
    var dvsize: nat
    var top: Addr
    var topsize: nat
    var treebins: seq<Addr>

    /** The segment: its base, and the place of the foot behind top. */
    const base: Addr
    var limit: Addr

    ghost var chunks: set<Addr>
    ghost var bins: seq<seq<Addr>>
    ghost var trees: seq<Tree>

    /** The segment and the bins are in order; the free chunks of out are in no bin. */
    ghost predicate Inv(out: set<Addr>)
      reads this
    {
      IsArena(mem, chunks, base, top, limit, smallmap, treemap, treebins, bins, trees, out)
    }

    /** dv and top are recorded with their sizes; without a dv both its fields are 0. */
    ghost predicate Preferred()
      reads this
    {
      && topsize == mem.SizeAt(top)
      && (dvsize == 0 ==> dv == 0)
      && (dvsize != 0 ==> dv in chunks && dv != top && !mem.Cinuse(dv) && mem.SizeAt(dv) == dvsize)
    }

    /** Every free chunk is exactly one of top, dv or a member of the bin for its size. */
    ghost predicate Valid()
      reads this
    {
      Inv({top, dv}) && Preferred()
    }

    /** The chunks in use, with their sizes. */
    ghost function Live(): map<Addr, nat>
      reads this
    {
      Arena.Live(chunks, mem.head)
    }

    /** The state after the first region of memory has been taken from the system. */
    constructor (region: Addr, size: nat)
      requires region >= LEAST_ADDR && region % 8 == 0 && size % 8 == 0 && size > TOP_FOOT_SIZE
      requires region + size <= T.MAX_SIZE_T
      ensures Valid() && Live() == map[] && chunks == {region} && base == region
      ensures limit == region + size - TOP_FOOT_SIZE
    {
      hide IsArena, Arena.Live;
      var n := size - TOP_FOOT_SIZE;
      mem := Memory(map[region := Head(n, false, true), region + n := Head(TOP_FOOT_SIZE, false, false)],
        map[], map[], map[], map[], map[], map[]);
      smallmap, treemap, dv, dvsize, top, topsize := 0, 0, 0, 0, region, n;
      treebins := seq(NBINS, _ => 0);
      base, limit := region, region + n;
      chunks := {region};
      bins := seq(NBINS, _ => []);
      trees := seq(NBINS, _ => Nil);
      new;
      FirstArena(mem, region, n, treebins, bins, trees);
    }

    ghost predicate LargeBins()
      reads this
    {
      TreeBins(mem, treebins, trees) && TreeMap(treemap, trees)
    }

    method InsertLargeChunk(x: Addr, s: nat) returns (ghost i: nat)
      requires LargeBins()
      requires x >= LEAST_ADDR && mem.SizeAt(x) == s && T.MIN_LARGE_SIZE <= s <= T.MAX_SIZE_T
      requires InNoTree(trees, x)
      modifies `mem, `treemap, `treebins, `trees
      ensures T.InTreeBin(s, i) && trees == old(trees)[i := Insert(old(trees)[i], x, s, T.RootBits(i))]
      ensures LargeBins()
      ensures mem.head == old(mem).head && mem.prevFoot == old(mem).prevFoot
      ensures forall p :: p != x && !Has(old(trees)[i], p) ==> SameRing(old(mem), mem, p)
    {
      hide TreeBins, TreeMap, TreeBin, Insert, Has, T.InTreeBin;
      var idx := T.ComputeTreeIndex(s);
      i := idx;
      TreeBinsPrepared(mem, x, idx, treebins, trees);
      PrepareKeeps(mem, x, idx, x);
      mem := mem.SetIndex(x, idx).SetChild(x, false, 0).SetChild(x, true, 0);
      ghost var m1 := mem;
      InsertPrepared(x, s, idx);
      forall p | p != x && !Has(old(trees)[i], p) ensures SameRing(old(mem), mem, p) {
        PrepareKeeps(old(mem), x, idx, p);
        assert SameNode(m1, mem, p);
      }
    }

    method InsertPrepared(x: Addr, s: nat, idx: nat)
      requires LargeBins() && T.InTreeBin(s, idx) && s <= T.MAX_SIZE_T && InNoTree(trees, x) && x >= LEAST_ADDR
      requires mem.SizeAt(x) == s && mem.Child(x, false) == 0 && mem.Child(x, true) == 0 && mem.Index(x) == idx
      modifies `mem, `treemap, `treebins, `trees
      ensures trees == old(trees)[idx := Insert(old(trees)[idx], x, s, T.RootBits(idx))]
      ensures LargeBins()
      ensures mem.head == old(mem).head && mem.prevFoot == old(mem).prevFoot
      ensures forall p :: p != x && !Has(old(trees)[idx], p) ==> SameNode(old(mem), mem, p)
    {
      ghost var t := trees[idx];
      ghost var t' := Insert(t, x, s, T.RootBits(idx));
      assert TreeBin(mem, treebins[idx], t, idx) && (IsMarked(treemap, idx) <==> t.Node?);
      if !IsMarked(treemap, idx) {
        InsertFirst(x, s, idx);
      } else {
        InsertBelow(x, s, idx, t);
      }
      hide TreeBins, TreeMap, TreeAt, Insert, T.InTreeBin, T.RootBits, SameNode, IsMarked, Mark, InNoTree, Inserted,
           TreeBin;
      TreesInsert(old(mem), mem, old(treebins), treebins, old(treemap), treemap, trees, idx, x, s, t');
      trees := trees[idx := t'];
    }

    /** A chunk becomes the only node of its tree. */
    method InsertFirst(x: Addr, s: nat, idx: nat)
      requires idx < |treebins|
      requires mem.SizeAt(x) == s && mem.Child(x, false) == 0 && mem.Child(x, true) == 0
      modifies `mem, `treemap, `treebins
      ensures Inserted(old(mem), mem, Nil, Node(x, [], s, Nil, Nil), idx, x)
      ensures treebins == old(treebins)[idx := x] && treemap == Mark(old(treemap), idx)
    {
      treemap := Mark(treemap, idx);
      treebins := treebins[idx := x];
      mem := mem.SetParent(x, TreeBinAt(idx)).SetFd(x, x).SetBk(x, x);
    }

    /** A chunk goes into a tree that is not empty. */
    method InsertBelow(x: Addr, s: nat, idx: nat, ghost t0: Tree)
      requires idx < |treebins| && T.InTreeBin(s, idx) && s <= T.MAX_SIZE_T
      requires t0.Node? && TreeBin(mem, treebins[idx], t0, idx) && !Has(t0, x) && x != 0
      requires mem.SizeAt(x) == s && mem.Child(x, false) == 0 && mem.Child(x, true) == 0
      modifies `mem
      ensures Inserted(old(mem), mem, t0, Insert(t0, x, s, T.RootBits(idx)), idx, x)
      ensures Root(Insert(t0, x, s, T.RootBits(idx))) == treebins[idx]
    {
      TreeIsReadable(mem, t0, TreeBinAt(idx));
      var t, equal, right, path := FindPlace(mem, treebins[idx], x, s, idx, t0);
      if equal {
        JoinRing(mem, t0, TreeBinAt(idx), path, x, s);
        ChainFrame(mem, t0, TreeBinAt(idx), path, x);
        var f := mem.Fd(t);
        mem := mem.SetFd(t, x).SetBk(f, x).SetFd(x, f).SetBk(x, t).SetParent(x, 0);
      } else {
        HangLeaf(mem, t0, TreeBinAt(idx), path, right, x, s);
        HangFrame(mem, t0, path, right, x);
        mem := mem.SetChild(t, right, x).SetParent(x, t).SetFd(x, x).SetBk(x, x);
      }
    }

    /** The descent of insert_large_chunk: to the node of size s, or to the open link where it belongs. */
    static method FindPlace(m: Memory, root: Addr, x: Addr, s: nat, idx: nat, ghost t0: Tree)
      returns (t: Addr, equal: bool, right: bool, ghost path: Path)
      requires t0.Node? && root == t0.head && T.InTreeBin(s, idx) && s <= T.MAX_SIZE_T
      requires Readable(m, t0) && IsTrie(t0, T.RootPrefix(idx), T.RootBits(idx)) && !Has(t0, 0)
      ensures PlaceFound(t0, x, s, T.RootBits(idx), path, t, equal, right)
    {
      T.TreeBinPrefix(s, idx);
      T.SizeFitsWord(s);
      T.ShiftAndBits(idx);
      DescentStart(m, t0, x, s, T.RootPrefix(idx), T.RootBits(idx), T.SIZE_T_BITSIZE, T.LeftShiftForTreeIndex(idx));
      t, equal, right, path :=
        Descend(m, root, Shl(s, T.LeftShiftForTreeIndex(idx), T.SIZE_T_BITSIZE), T.SIZE_T_BITSIZE,
                x, s, t0, T.RootPrefix(idx), T.RootBits(idx));
    }

    /** The loop of the descent; register k holds the open bits of s at the top of w bits. */
    static method Descend(m: Memory, root: Addr, k0: nat, w: nat, x: Addr, s: nat, ghost t0: Tree, ghost q: nat,
                          ghost n: nat)
      returns (t: Addr, equal: bool, right: bool, ghost path: Path)
      requires w > 0 && Descending(m, t0, x, s, q, n, w, [], k0, root)
      ensures PlaceFound(t0, x, s, n, path, t, equal, right)
    {
      t, equal, right, path := root, true, false, [];
      var k := k0;
      DescentStep(m, t0, x, s, q, n, w, path, k, t);
      while m.SizeAt(t) != s
        invariant Descending(m, t0, x, s, q, n, w, path, k, t) && !right
        decreases n - |path|
      {
        DescentStep(m, t0, x, s, q, n, w, path, k, t);
        var d := Bit(k, w - 1);
        if m.Child(t, d) == 0 {
          equal, right := false, d;
          return;
        }
        t, k, path := m.Child(t, d), Double(k, w), path + [d];
      }
      DescentStep(m, t0, x, s, q, n, w, path, k, t);
    }

    /** The first half of unlink_large_chunk: leave the ring, or find the leaf that takes the place of x. */
    method UnlinkHalf(x: Addr, ghost t: Tree, ghost par: Addr, ghost path: Path) returns (r: Addr)
      requires IsAt(t, path, x) && TreeAt(mem, t, par) && IsDistinct(t) && !Has(t, 0) && par != 0
      modifies `mem
      ensures HalfUnlinked(old(mem), mem, t, par, path, x, r)
      ensures mem.head == old(mem).head && mem.prevFoot == old(mem).prevFoot && mem.index == old(mem).index
    {
      UnlinkCases(mem, t, par, path, x);
      if mem.Bk(x) != x {
        UnlinkFromRingHalf(mem, t, par, path, x);
        var f := mem.Fd(x);
        r := mem.Bk(x);
        mem := mem.SetBk(f, r).SetFd(r, f);
      } else {
        ReadableBelow(mem, t, par, path);
        if mem.Child(x, true) != 0 || mem.Child(x, false) != 0 {
          ghost var d, q, v;
          var owner, side;
          r, owner, side, d, q, v := FindLeaf(mem, x, Sub(t, path));
          PopLeafHalf(mem, t, par, path, x, d, q, v, r, owner, side);
          mem := mem.SetChild(owner, side, 0);
        } else {
          NoReplacement(mem, t, par, path, x);
          r := 0;
        }
      }
    }

    /** The walk to the rightmost leaf below x. */
    static method FindLeaf(m: Memory, x: Addr, ghost u: Tree)
      returns (r: Addr, owner: Addr, side: bool, ghost d: bool, ghost path: Path, ghost v: Tree)
      requires u.Node? && x == u.head && (u.left.Node? || u.right.Node?) && Readable(m, u) && !Has(u, 0)
      ensures PopWalk(m, u, d, path, v, r, owner, side) && v.left == Nil && v.right == Nil
    {
      PopWalkStart(m, u);
      owner, side := x, m.Child(x, true) != 0;
      d, path := side, [];
      v := ChildOf(u, d);
      r := m.Child(x, side);
      while m.Child(r, true) != 0 || m.Child(r, false) != 0
        invariant PopWalk(m, u, d, path, v, r, owner, side)
        decreases v
      {
        PopWalkStep(m, u, d, path, v, r, owner, side);
        owner, side := r, m.Child(r, true) != 0;
        path := path + [side];
        v := ChildOf(v, side);
        r := m.Child(r, side);
      }
      PopWalkStep(m, u, d, path, v, r, owner, side);
    }

    method UnlinkLargeChunk(x: Addr, ghost i: nat) returns (ghost path: Path)
      requires LargeBins() && i < NBINS && Has(trees[i], x)
      modifies `mem, `treemap, `treebins, `trees
      ensures IsAt(old(trees)[i], path, x) && trees == old(trees)[i := Remove(old(trees)[i], path, x)]
      ensures LargeBins()
      ensures mem.head == old(mem).head && mem.prevFoot == old(mem).prevFoot
      ensures forall p :: !Has(old(trees)[i], p) ==> SameNode(old(mem), mem, p)
    {
      assert TreeBin(mem, treebins[i], trees[i], i);
      path := FindPath(trees[i], x);
      UnlinkFromTree(x, mem.Index(x), trees[i], path);
      TreeBinsRemove(old(mem), mem, old(treebins), trees, i, path, x);
      TreeMapRemove(old(treemap), treemap, trees, i, path, x);
      trees := trees[i := Remove(trees[i], path, x)];
    }

    method UnlinkFromTree(x: Addr, idx: nat, ghost t: Tree, ghost path: Path)
      requires idx < |treebins| && TreeBin(mem, treebins[idx], t, idx) && IsAt(t, path, x)
      modifies `mem, `treemap, `treebins
      ensures TreeAt(mem, Remove(t, path, x), TreeBinAt(idx))
      ensures forall p :: !Has(t, p) ==> SameNode(old(mem), mem, p)
      ensures mem.head == old(mem).head && mem.prevFoot == old(mem).prevFoot && mem.index == old(mem).index
      ensures treebins == old(treebins)[idx := Root(Remove(t, path, x))]
      ensures treemap == if Remove(t, path, x) == Nil then Clear(old(treemap), idx) else old(treemap)
    {
      var xp := mem.Parent(x);
      UnlinkCases(mem, t, TreeBinAt(idx), path, x);
      var r := UnlinkHalf(x, t, TreeBinAt(idx), path);
      if xp != 0 {
        LinksToX(old(mem), mem, t, TreeBinAt(idx), path, x, r);
        UnlinkRest(x, xp, r, idx, t, path, old(mem));
      } else {
        ChainedDone(old(mem), mem, t, TreeBinAt(idx), path, x, r);
      }
    }

    /** The second half of unlink_large_chunk: r takes the place of x below xp. */
    method UnlinkRest(x: Addr, xp: Addr, r: Addr, idx: nat, ghost t: Tree, ghost path: Path, ghost m: Memory)
      requires idx < |treebins| && treebins[idx] == Root(t)
      requires IsAt(t, path, x) && x == Sub(t, path).head && TreeAt(m, t, TreeBinAt(idx)) && IsDistinct(t) && !Has(t, 0)
      requires HalfUnlinked(m, mem, t, TreeBinAt(idx), path, x, r) && LinksTo(mem, t, TreeBinAt(idx), path, x)
      requires xp == ParentAt(t, TreeBinAt(idx), path)
      modifies `mem, `treemap, `treebins
      ensures TreeAt(mem, Remove(t, path, x), TreeBinAt(idx))
      ensures forall p :: !Has(t, p) ==> SameNode(m, mem, p)
      ensures mem.head == old(mem).head && mem.prevFoot == old(mem).prevFoot && mem.index == old(mem).index
      ensures treebins == old(treebins)[idx := Root(Remove(t, path, x))]
      ensures treemap == if Remove(t, path, x) == Nil then Clear(old(treemap), idx) else old(treemap)
    {
      ghost var m1 := mem;
      Relink(x, xp, r, idx, t, path);
      ghost var m2 := mem;
      ghost var m3 := mem;
      if r != 0 {
        m3 := AdoptChildren(x, r, xp);
      }
      UnlinkDone(m, m1, m2, m3, mem, t, TreeBinAt(idx), path, x, r);
    }

    /** The link to x from its parent, or from the bin, is turned to r. */
    method Relink(x: Addr, xp: Addr, r: Addr, idx: nat, ghost t: Tree, ghost path: Path)
      requires idx < |treebins| && treebins[idx] == Root(t) && LinksTo(mem, t, TreeBinAt(idx), path, x)
      requires xp == ParentAt(t, TreeBinAt(idx), path)
      modifies `mem, `treemap, `treebins
      ensures Relinks(old(mem), mem, t, TreeBinAt(idx), path, r)
      ensures treebins == old(treebins)[idx := if path == [] then r else Root(t)]
      ensures treemap == if path == [] && r == 0 then Clear(old(treemap), idx) else old(treemap)
    {
      if x == treebins[idx] {
        treebins := treebins[idx := r];
        if r == 0 {
          treemap := Clear(treemap, idx);
        }
      } else if mem.Child(xp, false) == x {
        mem := mem.SetChild(xp, false, r);
      } else {
        mem := mem.SetChild(xp, true, r);
      }
    }

    /** r takes over the parent and the children of x. */
    method AdoptChildren(x: Addr, r: Addr, xp: Addr) returns (ghost m3: Memory)
      modifies `mem
      ensures var m0 := old(mem).SetParent(r, xp); Adopts(m0, m3, r, false, m0.Child(x, false))
      ensures Adopts(m3, mem, r, true, m3.Child(x, true))
      ensures mem.head == old(mem).head && mem.prevFoot == old(mem).prevFoot && mem.index == old(mem).index
    {
      mem := mem.SetParent(r, xp);
      var c0 := mem.Child(x, false);
      if c0 != 0 {
        mem := mem.SetChild(r, false, c0).SetParent(c0, r);
      }
      m3 := mem;
      var c1 := mem.Child(x, true);
      if c1 != 0 {
        mem := mem.SetChild(r, true, c1).SetParent(c1, r);
      }
    }

    // ---- Facts about the state

    lemma Shape(out: set<Addr>)
      requires Inv(out)
      ensures |bins| == NBINS && |trees| == NBINS && |treebins| == NBINS
      ensures top in chunks && top in out && !mem.Cinuse(top) && mem.Pinuse(top) && top + mem.SizeAt(top) == limit
      ensures top < limit <= T.MAX_SIZE_T && base >= LEAST_ADDR && 0 !in chunks
      ensures SmallMap(smallmap, bins) && LargeBins()
    {
      hide IsArena, SmallMap, TreeMap, TreeBins;
      ArenaShape(mem, chunks, base, top, limit, smallmap, treemap, treebins, bins, trees, out);
    }

    lemma Chunk(out: set<Addr>, p: Addr)
      requires Inv(out) && p in chunks
      ensures p >= LEAST_ADDR && p % 8 == 0 && mem.SizeAt(p) % 8 == 0 && 0 < mem.SizeAt(p)
      ensures p + mem.SizeAt(p) <= limit <= T.MAX_SIZE_T
      ensures p != top ==> mem.SizeAt(p) >= T.MIN_CHUNK_SIZE && p + mem.SizeAt(p) in chunks && p + mem.SizeAt(p) <= top
      ensures p != top ==> (mem.Pinuse(p + mem.SizeAt(p)) <==> mem.Cinuse(p))
      ensures !mem.Cinuse(p) ==> mem.Pinuse(p)
    {
      hide IsArena;
      ArenaChunk(mem, chunks, base, top, limit, smallmap, treemap, treebins, bins, trees, out, p);
    }

    // ---- Operations on small bins

    method InsertSmallChunk(p: Addr, s: nat, ghost out: set<Addr>)
      requires Inv(out) && Loose(mem, chunks, top, out, p, s) && T.IsSmall(s)
      modifies `mem, `smallmap, `bins
      ensures Inv(out - {p}) && mem.head == old(mem).head
    {
      hide IsArena, IsMarked, SmallMap, TreeBins, TreeMap, LinkAfter, Mark;
      Shape(out);
      Chunk(out, p);
      var i := s / 8;
      var b := SmallBinAt(i);
      var f := b;
      ghost var m, smallmap0 := mem, smallmap;
      if !IsMarked(smallmap, i) {
        smallmap := Mark(smallmap, i);
      } else {
        f := mem.Fd(b);
      }
      mem := LinkAfter(mem, b, f, p);
      ArenaInsertSmall(m, mem, chunks, base, top, limit, smallmap0, smallmap, treemap, treebins, bins, trees, out, p, i,
                       f);
      LinkAfterKeeps(m, b, f, p);
      bins := bins[i := [p] + bins[i]];
    }

    /** Unlinks an idle chunk from its small bin. */
    method UnlinkSmallChunk(p: Addr, s: nat, ghost out: set<Addr>)
      requires Inv(out) && Idle(chunks, mem.head, out, p) && mem.SizeAt(p) == s && T.IsSmall(s)
      modifies `mem, `smallmap, `bins
      ensures Inv(out + {p}) && mem.head == old(mem).head
    {
      hide IsArena, SmallMap, TreeBins, TreeMap, Join, Clear, Without;
      Shape(out);
      Chunk(out, p);
      ArenaBinOf(mem, chunks, base, top, limit, smallmap, treemap, treebins, bins, trees, out, p);
      var i := s / 8;
      ghost var k := IndexOf(bins[i], p);
      ArenaSmallMember(mem, chunks, base, top, limit, smallmap, treemap, treebins, bins, trees, out, i, k);
      RemoveFromSmallBin(p, i, k, out);
    }

    /** Member k leaves small bin i: its neighbours are joined unless it was alone. */
    method RemoveFromSmallBin(p: Addr, i: nat, ghost k: nat, ghost out: set<Addr>)
      requires Inv(out) && i < |bins| && k < |bins[i]| && p == bins[i][k]
      modifies `mem, `smallmap, `bins
      ensures Inv(out + {p}) && mem.head == old(mem).head
    {
      hide IsArena, SmallMap, TreeBins, TreeMap, Join, Clear, Without, Idle;
      ArenaSmallMember(mem, chunks, base, top, limit, smallmap, treemap, treebins, bins, trees, out, i, k);
      var f, b := mem.Fd(p), mem.Bk(p);
      ghost var m, smallmap0 := mem, smallmap;
      if f == b {
        smallmap := Clear(smallmap, i);
      } else {
        mem := Join(mem, f, b);
      }
      ArenaRemoveSmall(m, mem, chunks, base, top, limit, smallmap0, smallmap, treemap, treebins, bins, trees, out, i,
                       k);
      JoinKeepsTags(m, f, b);
      bins := bins[i := Without(bins[i], k)];
    }

    /** Unlinks the first chunk of small bin i. */
    method UnlinkFirstSmallChunk(i: nat, ghost out: set<Addr>) returns (p: Addr)
      requires Inv(out) && i < NBINS && IsMarked(smallmap, i)
      modifies `mem, `smallmap, `bins
      ensures Inv(out + {p}) && mem.head == old(mem).head
      ensures Loose(mem, chunks, top, out + {p}, p, 8 * i) && p !in out
    {
      hide IsArena, TreeBins, TreeMap, IsMarked;
      Shape(out);
      p := mem.Fd(SmallBinAt(i));
      ArenaSmallMember(mem, chunks, base, top, limit, smallmap, treemap, treebins, bins, trees, out, i, 0);
      RemoveFromSmallBin(p, i, 0, out);
      Shape(out + {p});
    }

    // ---- Operations on either kind of bin

    method InsertChunk(p: Addr, s: nat, ghost out: set<Addr>)
      requires Inv(out) && Loose(mem, chunks, top, out, p, s)
      modifies `mem, `smallmap, `treemap, `treebins, `bins, `trees
      ensures Inv(out - {p}) && mem.head == old(mem).head
    {
      hide IsArena;
      if T.IsSmall(s) {
        InsertSmallChunk(p, s, out);
      } else {
        InsertTreeChunk(p, s, out);
      }
    }

    method InsertTreeChunk(p: Addr, s: nat, ghost out: set<Addr>)
      requires Inv(out) && Loose(mem, chunks, top, out, p, s) && !T.IsSmall(s)
      modifies `mem, `treemap, `treebins, `trees
      ensures Inv(out - {p}) && mem.head == old(mem).head
    {
      hide IsArena, SmallMap, TreeBins, TreeMap, SameRing, Insert, T.InTreeBin, T.RootBits, Has;
      Shape(out);
      Chunk(out, p);
      ArenaNotInTree(mem, chunks, base, top, limit, smallmap, treemap, treebins, bins, trees, out, p);
      ghost var m, treemap0, roots0, trees0 := mem, treemap, treebins, trees;
      ghost var i := InsertLargeChunk(p, s);
      ArenaInsertTree(m, mem, chunks, base, top, limit, smallmap, treemap0, treemap, roots0, treebins, bins, trees0,
                      out, p, s, i);
    }

    method UnlinkChunk(p: Addr, s: nat, ghost out: set<Addr>)
      requires Inv(out) && Idle(chunks, mem.head, out, p) && mem.SizeAt(p) == s
      modifies `mem, `smallmap, `treemap, `treebins, `bins, `trees
      ensures Inv(out + {p}) && mem.head == old(mem).head
    {
      hide IsArena;
      if T.IsSmall(s) {
        UnlinkSmallChunk(p, s, out);
      } else {
        UnlinkTreeChunk(p, out);
      }
    }

    method UnlinkTreeChunk(p: Addr, ghost out: set<Addr>)
      requires Inv(out) && Idle(chunks, mem.head, out, p) && !T.IsSmall(mem.SizeAt(p))
      modifies `mem, `treemap, `treebins, `trees
      ensures Inv(out + {p}) && mem.head == old(mem).head
    {
      hide IsArena, SmallMap, TreeBins, TreeMap, SameNode, Remove, T.InTreeBin, Has, IsAt;
      Shape(out);
      ArenaBinOf(mem, chunks, base, top, limit, smallmap, treemap, treebins, bins, trees, out, p);
      ghost var i: nat :| i < NBINS && T.InTreeBin(mem.SizeAt(p), i) && Has(trees[i], p);
      ghost var m, treemap0, roots0, trees0 := mem, treemap, treebins, trees;
      ghost var path := UnlinkLargeChunk(p, i);
      ArenaRemoveTree(m, mem, chunks, base, top, limit, smallmap, treemap0, treemap, roots0, treebins, bins, trees0,
                      out, p, i, path);
    }

    /** The old dv, if there is one, goes to its small bin and chunk r takes its place. */
    method ReplaceDv(r: Addr, s: nat, ghost out: set<Addr>)
      requires Inv({top, dv, r}) && Loose(mem, chunks, top, {r}, r, s) && s > 0 && r != dv
      requires Preferred() && T.IsSmall(dvsize)
      modifies `mem, `smallmap, `bins, `dv, `dvsize
      ensures Valid() && dv == r && dvsize == s && mem.head == old(mem).head
    {
      hide IsArena;
      Shape({top, dv, r});
      var dvs := dvsize;
      if dvs != 0 {
        InsertSmallChunk(dv, dvs, {top, dv, r});
        assert {top, dv, r} - {dv} == {top, r};
      } else {
        OutsideOut(mem, chunks, base, top, limit, smallmap, treemap, treebins, bins, trees, {top, dv, r}, {top, r});
      }
      dvsize := s;
      dv := r;
    }

    // ---- Boundary tags of allocated chunks

    /** set_inuse_and_pinuse: chunk p is handed out whole. */
    method SetInuseAndPinuse(p: Addr, s: nat, ghost out: set<Addr>)
      requires Inv(out) && Loose(mem, chunks, top, out, p, s)
      modifies `mem
      ensures Inv(out - {p}) && mem.Cinuse(p) && mem.SizeAt(p) == s && SameOthers(chunks, old(mem), mem, p)
    {
      hide IsArena, SameOthers;
      Chunk(out, p);
      ghost var m := mem;
      mem := mem.SetHead(p, Head(s, true, true));
      mem := mem.SetHead(p + s, mem.HeadAt(p + s).(pinuse := true));
      ArenaUse(m, mem, chunks, base, top, limit, smallmap, treemap, treebins, bins, trees, out, p);
    }

    /** Chunk p is cut into an allocated front of nb bytes and a free rest r. */
    method CutFront(p: Addr, nb: nat, rsize: nat, ghost out: set<Addr>) returns (r: Addr)
      requires Inv(out) && Loose(mem, chunks, top, out, p, nb + rsize)
      requires nb >= T.MIN_CHUNK_SIZE && nb % 8 == 0 && rsize >= T.MIN_CHUNK_SIZE
      modifies `mem, `chunks
      ensures r == p + nb && Inv(out - {p} + {r}) && Loose(mem, chunks, top, {r}, r, rsize)
      ensures chunks == old(chunks) + {r} && r !in old(chunks)
      ensures mem.Cinuse(p) && mem.SizeAt(p) == nb && SameOthers(old(chunks), old(mem), mem, p)
    {
      hide IsArena;
      Shape(out);
      ghost var m := mem;
      r := p + nb;
      mem := mem.SetHead(p, Head(nb, true, true));
      mem := mem.SetHead(r, Head(rsize, false, true)).SetFoot(r + rsize, rsize);
      ArenaCut(m, mem, chunks, base, top, top, limit, smallmap, treemap, treebins, bins, trees, out, out - {p} + {r}, p,
               nb, rsize);
      chunks := chunks + {r};
    }

    // ---- Allocation

    /** The first chunk of small bin i fits without a remainder. */
    method TakeSmall(i: nat, nb: nat) returns (p: Addr)
      requires Valid() && i < NBINS && IsMarked(smallmap, i) && nb <= 8 * i < nb + T.MIN_CHUNK_SIZE
      modifies `mem, `smallmap, `bins
      ensures Valid() && Allocated(old(Live()), Live(), p, nb)
      ensures Idle(old(chunks), old(mem).head, {top, dv}, p) && old(mem).SizeAt(p) == 8 * i
    {
      hide IsArena, IsMarked, Arena.Live, Allocated;
      Shape({top, dv});
      p := UnlinkFirstSmallChunk(i, {top, dv});
      SetInuseAndPinuse(p, 8 * i, {top, dv} + {p});
      assert {top, dv} + {p} - {p} == {top, dv};
      LiveAlloc(chunks, chunks, old(mem), mem, p, nb);
    }

    /** The first chunk of small bin i is used, and its remainder becomes dv if it is a chunk's worth. */
    method SplitSmall(i: nat, nb: nat) returns (p: Addr)
      requires Valid() && i < NBINS && IsMarked(smallmap, i) && nb <= 8 * i
      requires nb >= T.MIN_CHUNK_SIZE && nb % 8 == 0 && T.IsSmall(dvsize)
      modifies `mem, `smallmap, `bins, `chunks, `dv, `dvsize
      ensures Valid() && Allocated(old(Live()), Live(), p, nb)
      ensures Idle(old(chunks), old(mem).head, {top, old(dv)}, p) && old(mem).SizeAt(p) == 8 * i
    {
      hide IsArena, IsMarked, Arena.Live, Allocated;
      Shape({top, dv});
      p := UnlinkFirstSmallChunk(i, {top, dv});
      var rsize := 8 * i - nb;
      SplitIntoDv(p, nb, rsize);
      LiveAlloc(old(chunks), chunks, old(mem), mem, p, nb);
    }

    /** Chunk p, taken out of its bin, is used; a remainder of a chunk's worth becomes dv. */
    method SplitIntoDv(p: Addr, nb: nat, rsize: nat)
      requires Inv({top, dv} + {p}) && Loose(mem, chunks, top, {p}, p, nb + rsize) && p != dv && Preferred()
      requires nb >= T.MIN_CHUNK_SIZE && nb % 8 == 0 && T.IsSmall(dvsize)
      modifies `mem, `smallmap, `bins, `chunks, `dv, `dvsize
      ensures Valid() && mem.Cinuse(p) && SameOthers(old(chunks), old(mem), mem, p)
      ensures old(chunks) <= chunks && forall q :: q in chunks && q !in old(chunks) ==> !mem.Cinuse(q)
      ensures nb <= mem.SizeAt(p) < nb + T.MIN_CHUNK_SIZE
    {
      hide IsArena, SmallMap, TreeMap, TreeBins;
      Shape({top, dv} + {p});
      if rsize < T.MIN_CHUNK_SIZE {
        SetInuseAndPinuse(p, rsize + nb, {top, dv} + {p});
        assert {top, dv} + {p} - {p} == {top, dv};
      } else {
        var r := CutFront(p, nb, rsize, {top, dv} + {p});
        Shape({top, dv} + {p} - {p} + {r});
        assert {top, dv} + {p} - {p} + {r} == {top, dv, r};
        ReplaceDv(r, rsize, {top, dv, r});
      }
    }

    /** A small request is met from the smallest chunk in the trees. */
    method TmallocSmall(nb: nat) returns (p: Addr)
      requires Valid() && treemap != 0 && T.MIN_CHUNK_SIZE <= nb < T.MIN_LARGE_SIZE && nb % 8 == 0 && T.IsSmall(dvsize)
      modifies this
      ensures Valid() && Allocated(old(Live()), Live(), p, nb) && limit == old(limit)
      ensures Idle(old(chunks), old(mem).head, {old(top), old(dv)}, p)
      ensures old(mem).SizeAt(p) >= nb && BestFit.BestOf(old(mem), old(trees), nb, p, old(mem).SizeAt(p) - nb)
    {
      hide IsArena, Arena.Live, Allocated, SmallMap;
      Shape({top, dv});
      ArenaTreeMember(mem, chunks, base, top, limit, smallmap, treemap, treebins, bins, trees, {top, dv});
      var v, rsize := BestFit.FindSmall(mem, treebins, treemap, nb, trees);
      UseTreeChunkForSmall(v, nb, rsize);
      p := v;
    }

    /** Tree chunk v is unlinked and used; a remainder of a chunk's worth becomes dv. */
    method UseTreeChunkForSmall(v: Addr, nb: nat, rsize: nat)
      requires Valid() && Idle(chunks, mem.head, {top, dv}, v) && mem.SizeAt(v) == nb + rsize && !T.IsSmall(nb + rsize)
      requires T.MIN_CHUNK_SIZE <= nb && nb % 8 == 0 && T.IsSmall(dvsize)
      modifies this
      ensures Valid() && Allocated(old(Live()), Live(), v, nb) && limit == old(limit)
    {
      hide IsArena, Arena.Live, Allocated, SmallMap, TreeBins, TreeMap;
      Shape({top, dv});
      UnlinkTreeChunk(v, {top, dv});
      SplitIntoDv(v, nb, rsize);
      LiveAlloc(old(chunks), chunks, old(mem), mem, v, nb);
    }

    /** A large request is met from the best fitting tree chunk, unless there is none or dv fits better. */
    method TmallocLarge(nb: nat) returns (p: Addr)
      requires Valid() && T.MIN_LARGE_SIZE <= nb <= T.MAX_SIZE_T && nb % 8 == 0
      modifies this
      ensures Valid() && limit == old(limit)
      ensures p == 0 ==> unchanged(this) && BinsDecline(chunks, mem.head, {top, dv}, dvsize, nb)
      ensures p != 0 ==> Allocated(old(Live()), Live(), p, nb)
                         && Idle(old(chunks), old(mem).head, {old(top), old(dv)}, p)
      ensures p != 0 ==> old(mem).SizeAt(p) >= nb
                         && BestFit.BestOf(old(mem), old(trees), nb, p, old(mem).SizeAt(p) - nb)
      ensures p != 0 && nb <= old(dvsize) ==> old(mem).SizeAt(p) < old(dvsize)
    {
      hide IsArena, Arena.Live, Allocated, SmallMap, TreeBins, TreeMap, NoBinFits, Pow2, BinsDecline;
      Shape({top, dv});
      DvFitsWord();
      ArenaTreeMember(mem, chunks, base, top, limit, smallmap, treemap, treebins, bins, trees, {top, dv});
      var v, rsize := BestFit.FindBest(mem, treebins, treemap, nb, trees);
      T.SizeFitsWord(nb);
      p := 0;
      if v != 0 && rsize < WrapSub(dvsize, nb, T.SIZE_T_BITSIZE) {
        UseTreeChunk(v, nb, rsize);
        p := v;
      } else if nb > dvsize {
        DvTooSmall(v, rsize, dvsize, nb);
        NoLargeFits(mem, chunks, base, top, limit, smallmap, treemap, treebins, bins, trees, {top, dv}, nb);
        Declined(nb);
      } else {
        DvIsBetter(mem, chunks, base, top, limit, smallmap, treemap, treebins, bins, trees, {top, dv}, nb, v, rsize,
                   dvsize);
      }
    }

    lemma Declined(nb: nat)
      requires dvsize < nb && NoBinFits(chunks, mem.head, {top, dv}, nb)
      ensures BinsDecline(chunks, mem.head, {top, dv}, dvsize, nb)
    {
    }

    lemma DvFitsWord()
      requires Valid()
      ensures dvsize <= T.MAX_SIZE_T < Pow2(64)
    {
      hide IsArena;
      if dvsize != 0 { Chunk({top, dv}, dv); }
      T.SizeFitsWord(T.MAX_SIZE_T);
    }

    /** Tree chunk v is unlinked and used; a remainder of a chunk's worth goes to a bin. */
    method UseTreeChunk(v: Addr, nb: nat, rsize: nat)
      requires Valid() && Idle(chunks, mem.head, {top, dv}, v) && mem.SizeAt(v) == nb + rsize
      requires T.MIN_LARGE_SIZE <= nb && nb % 8 == 0
      modifies this
      ensures Valid() && Allocated(old(Live()), Live(), v, nb) && limit == old(limit)
    {
      hide IsArena, Arena.Live, Allocated, SmallMap, TreeBins, TreeMap;
      Shape({top, dv});
      UnlinkTreeChunk(v, {top, dv});
      if rsize < T.MIN_CHUNK_SIZE {
        SetInuseAndPinuse(v, rsize + nb, {top, dv} + {v});
        assert {top, dv} + {v} - {v} == {top, dv};
      } else {
        var r := CutFront(v, nb, rsize, {top, dv} + {v});
        InsertChunk(r, rsize, {top, dv} + {v} - {v} + {r});
        assert {top, dv} + {v} - {v} + {r} - {r} == {top, dv};
      }
      LiveAlloc(old(chunks), chunks, old(mem), mem, v, nb);
    }

    /** dv is used whole, or its front is, and the rest becomes dv. */
    method TakeDv(nb: nat) returns (p: Addr)
      requires Valid() && T.MIN_CHUNK_SIZE <= nb <= dvsize && nb % 8 == 0
      modifies `mem, `chunks, `dv, `dvsize
      ensures Valid() && Allocated(old(Live()), Live(), p, nb) && p == old(dv) && p != top
    {
      hide IsArena, Arena.Live, Allocated, SmallMap, TreeBins, TreeMap;
      Shape({top, dv});
      var rsize := dvsize - nb;
      p := dv;
      if rsize >= T.MIN_CHUNK_SIZE {
        var r := CutFront(p, nb, rsize, {top, dv});
        dv, dvsize := r, rsize;
        assert {top, p} - {p} + {r} == {top, dv};
      } else {
        var dvs := dvsize;
        dvsize := 0;
        dv := 0;
        SetInuseAndPinuse(p, dvs, {top, p});
        OutsideOut(mem, chunks, base, top, limit, smallmap, treemap, treebins, bins, trees, {top, p} - {p}, {top, dv});
      }
      LiveAlloc(old(chunks), chunks, old(mem), mem, p, nb);
    }

    /** The front of top is used. */
    method TakeTop(nb: nat) returns (p: Addr)
      requires Valid() && T.MIN_CHUNK_SIZE <= nb < topsize && nb % 8 == 0
      modifies `mem, `chunks, `top, `topsize
      ensures Valid() && Allocated(old(Live()), Live(), p, nb) && p == old(top)
    {
      hide IsArena, Arena.Live, Allocated, SmallMap, TreeBins, TreeMap;
      Shape({top, dv});
      topsize := topsize - nb;
      p := top;
      var r := p + nb;
      top := r;
      ghost var m := mem;
      mem := mem.SetHead(r, Head(topsize, false, true));
      mem := mem.SetHead(p, Head(nb, true, true));
      assert mem.head == Tiling.CutHeads(m.head, p, nb, topsize);
      assert {p, dv} - {p} + {r} == {top, dv};
      ArenaCut(m, mem, chunks, base, p, r, limit, smallmap, treemap, treebins, bins, trees, {p, dv}, {top, dv}, p, nb,
               topsize);
      chunks := chunks + {r};
      LiveAlloc(old(chunks), chunks, old(mem), mem, p, nb);
    }

    /**
     sys_alloc when the system extends the segment by grant bytes, or fails with grant 0: top grows,
     and the request is met from it if it is then large enough.
     */
    method SysAlloc(nb: nat, grant: nat) returns (p: Addr)
      requires Valid() && T.MIN_CHUNK_SIZE <= nb <= T.MAX_SIZE_T && (nb % 8 == 0 || nb == T.MAX_SIZE_T)
      requires grant % 8 == 0 && limit + grant <= T.MAX_SIZE_T && topsize <= nb
      modifies `mem, `chunks, `top, `topsize, `limit
      ensures Valid() && limit == old(limit) + grant
      ensures p == 0 ==> Live() == old(Live()) && topsize == old(topsize) + grant <= nb
      ensures p == 0 ==> chunks == old(chunks) && top == old(top) && SameOthers(chunks, old(mem), mem, top)
      ensures p != 0 ==> Allocated(old(Live()), Live(), p, nb) && p == old(top)
    {
      hide IsArena, Arena.Live, SmallMap, TreeBins, TreeMap;
      Shape({top, dv});
      ghost var live := Live();
      if grant > 0 {
        GrowTop(grant);
      }
      p := 0;
      if nb < topsize {
        Shape({top, dv});
        p := TakeTop(nb);
      }
    }

    /** init_top with the segment's new end. */
    method GrowTop(grant: nat)
      requires Valid() && grant > 0 && grant % 8 == 0 && limit + grant <= T.MAX_SIZE_T
      modifies `mem, `topsize, `limit
      ensures Valid() && limit == old(limit) + grant && topsize == old(topsize) + grant
      ensures Live() == old(Live()) && SameOthers(chunks, old(mem), mem, top)
    {
      hide IsArena, SmallMap, TreeBins, TreeMap;
      Shape({top, dv});
      Chunk({top, dv}, top);
      ghost var m, limit0 := mem, limit;
      topsize := topsize + grant;
      limit := limit + grant;
      mem := mem.SetHead(top, Head(topsize, false, true));
      mem := mem.SetHead(top + topsize, Head(TOP_FOOT_SIZE, false, false));
      ArenaGrow(m, mem, chunks, base, top, limit0, limit, TOP_FOOT_SIZE, smallmap, treemap, treebins, bins, trees,
                {top, dv});
      assert Live() == Arena.Live(chunks, m.head);
    }

    /** A small request: remainderless fit, next non-empty small bin, or smallest tree chunk. */
    method FromSmallBins(nb: nat) returns (p: Addr)
      requires Valid() && T.MIN_CHUNK_SIZE <= nb < T.MIN_LARGE_SIZE && nb % 8 == 0
      modifies this
      ensures Valid() && limit == old(limit)
      ensures p == 0 ==> unchanged(this) && BinsDecline(chunks, mem.head, {top, dv}, dvsize, nb)
      ensures p != 0 ==> Allocated(old(Live()), Live(), p, nb)
      ensures p != 0 ==> BinsChoose(old(chunks), old(mem).head, {old(top), old(dv)}, old(dvsize), p, nb)
    {
      hide IsArena, NoBinFits, IsMarked, And, AndNot, Shr, BinsDecline, LeastFit, Allocated, Pow2;
      Shape({top, dv});
      ghost var m, c, t, smallmap0, treemap0, roots, bins0, trees0, out := mem, chunks, top, smallmap, treemap,
                                                                           treebins, bins, trees, {top, dv};
      p := 0;
      var idx := nb / 8;
      var smallbits := Shr(smallmap, idx);
      RemainderlessFit(smallmap, idx, smallbits);
      if And(smallbits, 3) != 0 {
        idx := idx + AndNot(1, smallbits);
        p := TakeSmall(idx, nb);
        SmallLeast(m, c, base, t, limit, smallmap0, treemap0, roots, bins0, trees0, out, nb, idx, p);
      } else if nb > dvsize {
        if smallbits != 0 {
          var i := NextSmallBin(smallmap, idx, smallbits);
          p := SplitSmall(i, nb);
          SmallLeast(m, c, base, t, limit, smallmap0, treemap0, roots, bins0, trees0, out, nb, i, p);
        } else if treemap != 0 {
          p := TmallocSmall(nb);
          TreeLeast(m, c, base, t, limit, smallmap0, treemap0, roots, bins0, trees0, out, nb, p);
        } else {
          NoSmallFits(mem, chunks, base, top, limit, smallmap, treemap, treebins, bins, trees, {top, dv}, nb);
          Declined(nb);
        }
      } else {
        NoRemainderless(mem, chunks, base, top, limit, smallmap, treemap, treebins, bins, trees, {top, dv}, nb, dvsize);
      }
    }

    /** Nothing free has room for nb: no other chunk is that large, and top is not larger. */
    ghost predicate Full(nb: nat)
      reads this
    {
      NoneFree(chunks, mem.head, top, nb)
    }

    /** What is left when the bins give nothing: dv, top, the system. */
    method FromDvOrTop(nb: nat, grant: nat) returns (p: Addr)
      requires Valid() && T.MIN_CHUNK_SIZE <= nb <= T.MAX_SIZE_T && (nb % 8 == 0 || nb == T.MAX_SIZE_T)
      requires BinsDecline(chunks, mem.head, {top, dv}, dvsize, nb)
      requires grant % 8 == 0 && limit + grant <= T.MAX_SIZE_T
      modifies this
      ensures Valid()
      ensures limit == old(limit) + if old(Full(nb)) then grant else 0
      ensures p == 0 ==> Live() == old(Live()) && Full(nb)
      ensures p != 0 ==> Allocated(old(Live()), Live(), p, nb)
      ensures p != 0 ==> Chosen(old(chunks), old(mem).head, old(top), old(dv), old(dvsize), p, nb)
    {
      hide IsArena, Arena.Live, TreeBins, TreeMap, Allocated, BinsChoose;
      Shape({top, dv});
      DvBelowLimit();
      if nb <= dvsize {
        hide BinsDecline;
        assert Tiling.Free(mem.head, dv) && Tiling.Size(mem.head, dv) >= nb;
        p := TakeDv(nb);
      } else if nb < topsize {
        assert Tiling.Free(mem.head, top) && Tiling.Size(mem.head, top) > nb;
        p := TakeTop(nb);
      } else {
        assert forall q :: q in chunks && !mem.Cinuse(q) && q != top ==> mem.SizeAt(q) < nb by {
          forall q | q in chunks && !mem.Cinuse(q) && q != top ensures mem.SizeAt(q) < nb {
            assert q == dv || Idle(chunks, mem.head, {top, dv}, q);
          }
        }
        p := SysAlloc(nb, grant);
        if p == 0 { Shape({top, dv}); }
      }
    }

    lemma DvBelowLimit()
      requires Valid()
      ensures dvsize < T.MAX_SIZE_T && topsize < T.MAX_SIZE_T
    {
      hide IsArena;
      Shape({top, dv});
      if dvsize != 0 { Chunk({top, dv}, dv); }
      Chunk({top, dv}, top);
    }

    /** No chunk is as large as a request that is too big. */
    lemma TooBig()
      requires Valid()
      ensures BinsDecline(chunks, mem.head, {top, dv}, dvsize, T.MAX_SIZE_T)
    {
      hide IsArena;
      DvBelowLimit();
      forall p | Idle(chunks, mem.head, {top, dv}, p) ensures mem.SizeAt(p) < T.MAX_SIZE_T {
        Chunk({top, dv}, p);
      }
    }

    /**
     malloc. The system can extend the segment by grant bytes; 0 means that it has no more memory.
     The chunk is a best fit of the bins, or dv when they have nothing better, or else cut from top;
     the system is asked exactly when nothing free has room.
     */
    method Dlmalloc(bytes: nat, grant: nat) returns (m: Addr)
      requires Valid() && bytes <= T.MAX_SIZE_T
      requires grant % 8 == 0 && limit + grant <= T.MAX_SIZE_T
      modifies this
      ensures Valid()
      ensures limit == old(limit) + if old(Full(T.ChunkRequest(bytes))) then grant else 0
      ensures m == 0 ==> Live() == old(Live()) && Full(T.ChunkRequest(bytes))
      ensures m != 0 ==> m > CHUNK_TO_MEM && Allocated(old(Live()), Live(), m - CHUNK_TO_MEM, T.ChunkRequest(bytes))
      ensures m != 0 ==> Chosen(old(chunks), old(mem).head, old(top), old(dv), old(dvsize), m - CHUNK_TO_MEM,
                                T.ChunkRequest(bytes))
    {
      hide IsArena, Arena.Live, NoneFree, T.PadRequest, BinsDecline, BinsChoose;
      var nb := T.ChunkRequest(bytes);
      var p := 0;
      if bytes <= T.MAX_SMALL_REQUEST {
        p := FromSmallBins(nb);
      } else if bytes >= T.MAX_REQUEST {
        TooBig();
      } else {
        p := FromTrees(nb);
      }
      if p == 0 {
        p := FromDvOrTop(nb, grant);
      } else {
        FromBins(old(chunks), old(mem).head, old(top), old(dv), old(dvsize), p, nb);
        ChosenIsFree(old(chunks), old(mem).head, old(top), old(dv), old(dvsize), p, nb);
      }
      m := if p == 0 then 0 else p + CHUNK_TO_MEM;
    }

    method FromTrees(nb: nat) returns (p: Addr)
      requires Valid() && T.MIN_LARGE_SIZE <= nb <= T.MAX_SIZE_T && nb % 8 == 0
      modifies this
      ensures Valid() && limit == old(limit)
      ensures p == 0 ==> unchanged(this) && BinsDecline(chunks, mem.head, {top, dv}, dvsize, nb)
      ensures p != 0 ==> Allocated(old(Live()), Live(), p, nb)
      ensures p != 0 ==> BinsChoose(old(chunks), old(mem).head, {old(top), old(dv)}, old(dvsize), p, nb)
    {
      hide IsArena, Arena.Live, TreeBins, TreeMap, NoBinFits, Allocated, IsMarked, SmallMap, BinsDecline, LeastFit,
           BestFit.BestOf;
      ghost var m, c, t, smallmap0, treemap0, roots, bins0, trees0, out := mem, chunks, top, smallmap, treemap,
                                                                           treebins, bins, trees, {top, dv};
      p := 0;
      if treemap != 0 {
        p := TmallocLarge(nb);
        if p != 0 {
          TreeLeast(m, c, base, t, limit, smallmap0, treemap0, roots, bins0, trees0, out, nb, p);
        }
      } else {
        Shape({top, dv});
        NoTrees(trees, treemap);
        NoLargeFits(mem, chunks, base, top, limit, smallmap, treemap, treebins, bins, trees, {top, dv}, nb);
        NothingFits(nb);
      }
    }

    lemma NothingFits(nb: nat)
      requires NoBinFits(chunks, mem.head, {top, dv}, nb) && nb >= T.MIN_LARGE_SIZE
      ensures BinsDecline(chunks, mem.head, {top, dv}, dvsize, nb)
    {
    }

    // ---- Freeing

    /**
     Chunk p is being freed: s is p itself or the free chunk below it, taken out of its bin, and
     next is the chunk above.
     */
    ghost predicate Freeing(s: Addr, p: Addr, next: Addr)
      reads this
    {
      && Inv({top, dv, s}) && Preferred()
      && s in chunks && p in chunks && mem.Cinuse(p) && mem.Pinuse(s) && s <= p && next == p + mem.SizeAt(p)
      && (s == p || (!mem.Cinuse(s) && s + mem.SizeAt(s) == p && s != top))
    }

    /** The chunks from s up to next are s and p. */
    lemma FreeingRange(s: Addr, p: Addr, next: Addr)
      requires Freeing(s, p, next)
      ensures next in chunks && next != dv ==> next !in {s, p}
      ensures next in chunks && p != top && s < next && p < next
      ensures forall q :: q in chunks && s <= q < next ==> q == s || q == p
      ensures next != top ==> next + mem.SizeAt(next) in chunks && next < next + mem.SizeAt(next)
      ensures forall q :: q in chunks && q > next ==> q >= next + mem.SizeAt(next)
      ensures !mem.Cinuse(next) && next != top
              ==> mem.Cinuse(next + mem.SizeAt(next)) && !mem.Pinuse(next + mem.SizeAt(next))
      ensures s <= top && s != top && top < limit
    {
      hide IsArena, SmallMap, TreeBins, TreeMap;
      ghost var out := {top, dv, s};
      Shape(out);
      Chunk(out, p);
      Chunk(out, next);
      Chunk(out, s);
      ArenaApart(mem, chunks, base, top, limit, smallmap, treemap, treebins, bins, trees, out, s);
      ArenaApart(mem, chunks, base, top, limit, smallmap, treemap, treebins, bins, trees, out, p);
      ArenaApart(mem, chunks, base, top, limit, smallmap, treemap, treebins, bins, trees, out, next);
      if next != top { Chunk(out, next + mem.SizeAt(next)); }
    }

    /** set_free_with_pinuse, or set_size_and_pinuse_of_free_chunk when e has no pinuse bit: [s, e) is free. */
    method SetFree(s: Addr, size: nat, clear: bool, ghost p: Addr, ghost out: set<Addr>, ghost out': set<Addr>)
      requires Inv(out) && s in chunks && s + size in chunks && size > 0 && mem.Pinuse(s) && mem.Cinuse(s + size)
      requires clear || !mem.Pinuse(s + size)
      requires p in chunks && s <= p < s + size && mem.Cinuse(p)
      requires forall q :: q in chunks && s <= q < s + size && q != p ==> q in out && !mem.Cinuse(q)
      requires s in out' && top in out' && forall q :: q in chunks && !(s <= q < s + size) ==> (q in out <==> q in out')
      modifies `mem, `chunks
      ensures Inv(out') && Live() == old(Live()) - {p}
      ensures chunks == Tiling.Without(old(chunks), s, s + size) && s in chunks && s != top
      ensures mem.SizeAt(s) == size && !mem.Cinuse(s) && SameOthers(chunks, old(mem), mem, s)
    {
      hide IsArena, Arena.Live;
      Shape(out);
      ghost var m, c := mem, chunks;
      var e := s + size;
      Chunk(out, e);
      if clear {
        mem := mem.SetHead(e, mem.HeadAt(e).(pinuse := false));
      }
      mem := mem.SetHead(s, Head(size, false, true)).SetFoot(e, size);
      MergedStores(m, mem, s, e, clear);
      chunks := Tiling.Without(chunks, s, e);
      hide Tiling.MergedHeads;
      ArenaMerge(m, mem, c, chunks, base, top, limit, smallmap, treemap, treebins, bins, trees, out, out', s, e);
      LiveFree(c, chunks, m, mem, s, e, p);
    }

    /** The chunk above is top: everything from s on becomes top. */
    method FreeIntoTop(s: Addr, p: Addr, psize: nat)
      requires Freeing(s, p, top) && psize == top - s
      modifies `mem, `chunks, `top, `topsize, `dv, `dvsize
      ensures Valid() && Live() == old(Live()) - {p}
    {
      hide IsArena, Arena.Live, SmallMap, TreeBins, TreeMap;
      Shape({top, dv, s});
      FreeingRange(s, p, top);
      ghost var m, c, top0, out := mem, chunks, top, {top, dv, s};
      topsize := topsize + psize;
      top := s;
      mem := mem.SetHead(s, Head(topsize, false, true));
      if s == dv {
        dv := 0;
        dvsize := 0;
      }
      chunks := Tiling.Without(chunks, s, limit);
      TopIsLast(m, c, base, top0, limit, smallmap, treemap, treebins, bins, trees, out);
      ArenaMergeTop(m, mem, c, chunks, base, top0, limit, smallmap, treemap, treebins, bins, trees, out, {top, dv}, s);
      LiveFree(c, chunks, m, mem, s, limit, p);
    }

    /** The chunk above is dv: [s, end of dv) becomes dv. */
    method FreeIntoDv(s: Addr, p: Addr, psize: nat)
      requires Freeing(s, p, dv) && psize == dv - s && !mem.Cinuse(dv) && dv != top && dv != 0
      modifies `mem, `chunks, `dv, `dvsize
      ensures Valid() && Live() == old(Live()) - {p}
    {
      hide IsArena, Arena.Live, SmallMap, TreeBins, TreeMap;
      Shape({top, dv, s});
      FreeingRange(s, p, dv);
      ghost var dv0 := dv;
      dvsize := dvsize + psize;
      dv := s;
      SetFree(s, dvsize, false, p, {top, dv0, s}, {top, dv});
    }

    /** top and dv are as before when neither is among the chunks that were joined. */
    lemma StillPreferred(m: Memory, c: set<Addr>, s: Addr, e: Addr)
      requires s < e && chunks == Tiling.Without(c, s, e) && SameOthers(chunks, m, mem, s)
      requires top in chunks && top != s && topsize == m.SizeAt(top)
      requires dvsize == 0 ==> dv == 0
      requires dvsize != 0 ==> dv in c && !(s <= dv < e) && dv != top && !m.Cinuse(dv) && m.SizeAt(dv) == dvsize
      ensures Preferred()
    {
    }

    /** The chunk above is free and in a bin. */
    method FreeWithNext(s: Addr, p: Addr, next: Addr, psize: nat)
      requires Freeing(s, p, next) && psize == next - s && !mem.Cinuse(next) && next != top && next != dv
      modifies this
      ensures Valid() && Live() == old(Live()) - {p} && limit == old(limit)
    {
      hide IsArena, Arena.Live, SmallMap, TreeBins, TreeMap;
      Shape({top, dv, s});
      FreeingRange(s, p, next);
      var nsize := mem.SizeAt(next);
      UnlinkChunk(next, nsize, {top, dv, s});
      ghost var m, c := mem, chunks;
      SetFree(s, psize + nsize, false, p, {top, dv, s} + {next}, {top, dv, s});
      Shape({top, dv, s});
      if s == dv {
        dvsize := psize + nsize;
        assert {top, dv, s} == {top, dv};
      } else {
        StillPreferred(m, c, s, next + nsize);
        InsertChunk(s, psize + nsize, {top, dv, s});
        assert {top, dv, s} - {s} == {top, dv};
      }
    }

    /** The chunk above is in use. */
    method FreeAlone(s: Addr, p: Addr, next: Addr, psize: nat)
      requires Freeing(s, p, next) && psize == next - s && mem.Cinuse(next) && s != dv
      modifies this
      ensures Valid() && Live() == old(Live()) - {p} && limit == old(limit)
    {
      hide IsArena, Arena.Live, SmallMap, TreeBins, TreeMap;
      Shape({top, dv, s});
      FreeingRange(s, p, next);
      SetFree(s, psize, true, p, {top, dv, s}, {top, dv, s});
      InsertChunk(s, psize, {top, dv, s});
      assert {top, dv, s} - {s} == {top, dv};
    }

    /** free. The caller gives back a pointer that malloc returned, or null. */
    method Dlfree(m: Addr)
      requires Valid() && (m == 0 || (m >= CHUNK_TO_MEM && m - CHUNK_TO_MEM in Live()))
      modifies this
      ensures Valid() && Live() == if m == 0 then old(Live()) else old(Live()) - {m - CHUNK_TO_MEM}
      ensures limit == old(limit)
    {
      hide IsArena, SmallMap, TreeBins, TreeMap;
      if m != 0 {
        var p := m - CHUNK_TO_MEM;
        Shape({top, dv});
        Chunk({top, dv}, p);
        var psize := mem.SizeAt(p);
        var next := p + psize;
        if !mem.Pinuse(p) {
          FreeBackward(p, next, psize);
        } else {
          ArenaUsedOut(mem, chunks, base, top, limit, smallmap, treemap, treebins, bins, trees, {top, dv}, p);
          assert {top, dv} + {p} == {top, dv, p};
          FreeForward(p, p, next, psize);
        }
      }
    }

    /** The chunk below is free: it is joined, dv at once when the chunk above is in use. */
    method FreeBackward(p: Addr, next: Addr, psize: nat)
      requires Valid() && p in chunks && mem.Cinuse(p) && !mem.Pinuse(p) && psize == mem.SizeAt(p) && next == p + psize
      modifies this
      ensures Valid() && Live() == old(Live()) - {p} && limit == old(limit)
    {
      hide IsArena, Arena.Live, SmallMap, TreeBins, TreeMap;
      Shape({top, dv});
      Chunk({top, dv}, p);
      ArenaPrev(mem, chunks, base, top, limit, smallmap, treemap, treebins, bins, trees, {top, dv}, p);
      var prevsize := mem.Foot(p);
      var prev := p - prevsize;
      Chunk({top, dv}, prev);
      if prev != dv {
        UnlinkChunk(prev, prevsize, {top, dv});
        assert {top, dv} + {prev} == {top, dv, prev};
        FreeForward(prev, p, next, psize + prevsize);
      } else if mem.Cinuse(next) && mem.Pinuse(next) {
        assert {top, dv} == {top, dv, prev};
        FreeingRange(prev, p, next);
        dvsize := psize + prevsize;
        SetFree(prev, dvsize, true, p, {top, dv}, {top, dv});
      } else {
        assert {top, dv} == {top, dv, prev};
        FreeForward(prev, p, next, psize + prevsize);
      }
    }

    /** The chunk above decides where the freed space goes. */
    method FreeForward(s: Addr, p: Addr, next: Addr, psize: nat)
      requires Freeing(s, p, next) && psize == next - s && (s == dv ==> !mem.Cinuse(next))
      modifies this
      ensures Valid() && Live() == old(Live()) - {p} && limit == old(limit)
    {
      hide IsArena, Arena.Live, SmallMap, TreeBins, TreeMap;
      Shape({top, dv, s});
      FreeingRange(s, p, next);
      if !mem.Cinuse(next) {
        if next == top {
          FreeIntoTop(s, p, psize);
        } else if next == dv {
          FreeIntoDv(s, p, psize);
        } else {
          FreeWithNext(s, p, next, psize);
        }
      } else {
        FreeAlone(s, p, next, psize);
      }
    }

    // ---- What holds in every valid state

    /** Every free chunk is exactly one of top, dv or a member of one bin, the one for its size. */
    lemma FreeInOnePlace(p: Addr)
      requires Valid() && p in chunks && !mem.Cinuse(p)
      ensures top != dv && OnePlace(bins, trees, p, mem.SizeAt(p), p == top || p == dv)
    {
      hide IsArena, SmallMap, TreeMap, TreeBins, OnePlace;
      Shape({top, dv});
      ArenaOnePlace(mem, chunks, base, top, limit, smallmap, treemap, treebins, bins, trees, {top, dv}, p);
    }

    // ---- What a user relies on

    /** The payload of chunk p: from behind its head word to the head word of the next chunk. */
    ghost predicate InPayload(p: Addr, a: Addr)
      reads this
    {
      p + CHUNK_TO_MEM <= a < p + mem.SizeAt(p) + T.CHUNK_OVERHEAD
    }

    /** A live payload lies in the segment, apart from every other payload and every head word. */
    lemma PayloadIsPrivate(p: Addr, q: Addr, a: Addr)
      requires Valid() && p in Live() && q in chunks && InPayload(p, a)
      ensures base + CHUNK_TO_MEM <= a < limit + T.CHUNK_OVERHEAD
      ensures p != q ==> !InPayload(q, a)
      ensures !(q + T.CHUNK_OVERHEAD <= a < q + CHUNK_TO_MEM)
    {
      hide IsArena, SmallMap, TreeMap, TreeBins;
      Shape({top, dv});
      Chunk({top, dv}, p);
      Chunk({top, dv}, q);
      ArenaApart(mem, chunks, base, top, limit, smallmap, treemap, treebins, bins, trees, {top, dv}, p);
      ArenaApart(mem, chunks, base, top, limit, smallmap, treemap, treebins, bins, trees, {top, dv}, q);
      ArenaBase(mem, chunks, base, top, limit, smallmap, treemap, treebins, bins, trees, {top, dv}, p);
    }
  }

  // ---- Space

  /** What a caller can know of the state: where the segment lies, and the chunks in use with their sizes. */
  datatype Space = Space(base: Addr, limit: Addr, live: map<Addr, nat>)

  ghost function SpaceOf(a: MallocState): Space
    reads a
  {
    Space(a.base, a.limit, a.Live())
  }

  /** A chunk in use reaches into [a, a + n). */
  ghost predicate Touches(live: map<Addr, nat>, a: Addr, n: nat) {
    exists p :: p in live && p < a + n && a < p + live[p]
  }

  /** Every stretch of nb bytes that ends below the limit is in use somewhere. */
  ghost predicate NoRoom(s: Space, nb: nat) {
    forall a: Addr :: s.base <= a && a + nb < s.limit ==> Touches(s.live, a, nb)
  }

  /**
   The allocator's own idea of being full is exactly that no stretch of bytes is free: no space is lost between
   chunks.
   */
  lemma FullIsNoRoom(a: MallocState, nb: nat)
    requires a.Valid() && nb > 0
    ensures a.Full(nb) <==> NoRoom(SpaceOf(a), nb)
  {
    hide IsArena, SmallMap, TreeMap, TreeBins, Touches, NoneFree;
    if a.Full(nb) {
      forall x: Addr | a.base <= x && x + nb < a.limit ensures Touches(a.Live(), x, nb) { FullTouches(a, nb, x); }
    } else {
      FreeIsUntouched(a, nb);
    }
  }

  lemma FullTouches(a: MallocState, nb: nat, x: Addr)
    requires a.Valid() && a.Full(nb) && a.base <= x && x + nb < a.limit && nb > 0
    ensures Touches(a.Live(), x, nb)
  {
    hide IsArena, SmallMap, TreeMap, TreeBins;
    var out := {a.top, a.dv};
    a.Shape(out);
    var p := ArenaHolding(a.mem, a.chunks, a.base, a.top, a.limit, a.smallmap, a.treemap, a.treebins, a.bins, a.trees,
                          out, x);
    a.Chunk(out, p);
    if a.mem.Cinuse(p) {
      assert p in a.Live();
    } else {
      assert Tiling.Free(a.mem.head, p) && Tiling.Size(a.mem.head, p) == a.mem.SizeAt(p);
      var e := p + a.mem.SizeAt(p);
      assert p != a.top && e in a.chunks && !a.mem.Pinuse(e);
      a.Chunk(out, e);
      assert e in a.Live() && x < e < x + nb;
    }
  }

  lemma FreeIsUntouched(a: MallocState, nb: nat)
    requires a.Valid() && !a.Full(nb) && nb > 0
    ensures !NoRoom(SpaceOf(a), nb)
  {
    hide IsArena, SmallMap, TreeMap, TreeBins;
    var out := {a.top, a.dv};
    a.Shape(out);
    var q :| q in a.chunks && Tiling.Free(a.mem.head, q)
             && if q == a.top then Tiling.Size(a.mem.head, q) > nb else Tiling.Size(a.mem.head, q) >= nb;
    a.Chunk(out, q);
    ArenaBase(a.mem, a.chunks, a.base, a.top, a.limit, a.smallmap, a.treemap, a.treebins, a.bins, a.trees, out, q);
    forall p | p in a.Live() ensures !(p < q + nb && q < p + a.Live()[p]) {
      ArenaApart(a.mem, a.chunks, a.base, a.top, a.limit, a.smallmap, a.treemap, a.treebins, a.bins, a.trees, out, p);
      ArenaApart(a.mem, a.chunks, a.base, a.top, a.limit, a.smallmap, a.treemap, a.treebins, a.bins, a.trees, out, q);
      assert p != q && a.Live()[p] == a.mem.SizeAt(p);
    }
    assert !Touches(a.Live(), q, nb);
  }

  lemma NothingLive(a: MallocState, p: Addr)
    requires a.Live() == map[] && p in a.chunks
    ensures !a.mem.Cinuse(p)
  {
    assert p !in a.Live();
  }

  /** When nothing is in use, everything is joined again: the segment is one chunk, top. */
  lemma AllFreeIsOneChunk(a: MallocState)
    requires a.Valid() && a.Live() == map[]
    ensures a.chunks == {a.base} && a.top == a.base && a.dv == 0 && a.dvsize == 0 && a.topsize == a.limit - a.base
  {
    hide IsArena, SmallMap, TreeMap, TreeBins;
    var out := {a.top, a.dv};
    a.Shape(out);
    forall p | p in a.chunks ensures p == a.top {
      a.Chunk(out, p);
      NothingLive(a, p);
      if p != a.top {
        NothingLive(a, p + a.mem.SizeAt(p));
        a.Chunk(out, p + a.mem.SizeAt(p));
      }
    }
    ArenaBaseIsChunk(a.mem, a.chunks, a.base, a.top, a.limit, a.smallmap, a.treemap, a.treebins, a.bins, a.trees, out);
  }

  // ---- Runs

  /** A call of a run: malloc, with what the system grants, or free. */
  datatype Call = Allocate(bytes: nat, grant: nat) | Release(m: Addr)

  /** What a call with result r makes of the space and the blocks held, each with the bytes asked for. */
  ghost predicate Served(s: Space, held: map<Addr, nat>, call: Call, r: Addr, s': Space, held': map<Addr, nat>) {
    match call
    case Allocate(bytes, grant) =>
      var nb := T.ChunkRequest(bytes);
      && s'.base == s.base && s'.limit == s.limit + (if NoRoom(s, nb) then Granted(s.limit, grant) else 0)
      && (if r == 0 then s'.live == s.live && NoRoom(s', nb) && held' == held
          else r > CHUNK_TO_MEM && r !in held && Allocated(s.live, s'.live, r - CHUNK_TO_MEM, nb)
               && held' == held[r := bytes])
    case Release(m) =>
      if m in held then m > CHUNK_TO_MEM && s' == s.(live := s.live - {m - CHUNK_TO_MEM}) && held' == held - {m}
      else s' == s && held' == held
  }

  /** The system has no memory behind the end of the address space. */
  function Granted(limit: nat, grant: nat): (g: nat)
    ensures g <= grant && (limit <= T.MAX_SIZE_T ==> limit + g <= T.MAX_SIZE_T)
  {
    if limit + grant <= T.MAX_SIZE_T then grant else 0
  }

  /** The pointers held, with the bytes that were asked for, are exactly those of the chunks in use. */
  ghost predicate Matches(live: map<Addr, nat>, held: map<Addr, nat>) {
    && (forall p :: p in live ==> p + CHUNK_TO_MEM in held)
    && (forall m :: m in held ==> m > CHUNK_TO_MEM && m - CHUNK_TO_MEM in live)
    && (forall m :: m in held ==> live[m - CHUNK_TO_MEM] >= held[m] + T.CHUNK_OVERHEAD)
  }

  lemma MatchesAllocate(live: map<Addr, nat>, live': map<Addr, nat>, held: map<Addr, nat>, m: Addr, bytes: nat)
    requires Matches(live, held) && m > CHUNK_TO_MEM && bytes < T.MAX_REQUEST
    requires Allocated(live, live', m - CHUNK_TO_MEM, T.ChunkRequest(bytes))
    ensures Matches(live', held[m := bytes]) && m !in held
  {
    hide T.ChunkRequest;
  }

  lemma MatchesRelease(live: map<Addr, nat>, held: map<Addr, nat>, m: Addr)
    requires Matches(live, held) && m in held
    ensures Matches(live - {m - CHUNK_TO_MEM}, held - {m})
  {
  }

  /** The segment ends below the end of the address space, and so does every chunk. */
  lemma RunBounds(a: MallocState)
    requires a.Valid()
    ensures a.limit <= T.MAX_SIZE_T
    ensures forall p :: p in a.Live() ==> a.Live()[p] < T.MAX_SIZE_T
  {
    hide IsArena, SmallMap, TreeMap, TreeBins;
    a.Shape({a.top, a.dv});
    forall p | p in a.Live() ensures a.Live()[p] < T.MAX_SIZE_T {
      a.Chunk({a.top, a.dv}, p);
    }
  }

  /** A state of a run: the space, the blocks held, and the result of the call before. */
  datatype Moment = Moment(space: Space, held: map<Addr, nat>, result: Addr)

  /** The moments of a run: nothing in use at first, and then call by call. */
  ghost predicate History(h: seq<Moment>, base: Addr, limit: Addr, calls: seq<Call>) {
    && |h| == |calls| + 1 && h[0].space == Space(base, limit, map[]) && h[0].held == map[]
    && forall i: nat :: i < |calls| ==> Follows(h, calls, i)
  }

  ghost predicate Follows(h: seq<Moment>, calls: seq<Call>, i: nat)
    requires |h| == |calls| + 1 && i < |calls|
  {
    Served(h[i].space, h[i].held, calls[i], h[i + 1].result, h[i + 1].space, h[i + 1].held)
  }

  /**
   Every run of calls keeps the state valid; call by call the blocks held change as asked for, a request
   fails only when no stretch of bytes has room for it, and at the end the chunks in use are exactly the
   blocks held. A caller frees only null and pointers it holds.
   */
  method Run(region: Addr, size: nat, calls: seq<Call>)
    returns (a: MallocState, held: map<Addr, nat>, results: seq<Addr>, ghost h: seq<Moment>)
    requires region >= LEAST_ADDR && region % 8 == 0 && size % 8 == 0 && size > TOP_FOOT_SIZE
    requires region + size <= T.MAX_SIZE_T
    requires forall c :: c in calls && c.Allocate? ==> c.bytes <= T.MAX_SIZE_T && c.grant % 8 == 0
    ensures a.Valid() && Matches(a.Live(), held)
    ensures History(h, region, region + size - TOP_FOOT_SIZE, calls)
    ensures h[|calls|].space == SpaceOf(a) && h[|calls|].held == held
    ensures |results| == |calls| && forall i :: 0 <= i < |results| ==> results[i] == h[i + 1].result
  {
    hide IsArena, Arena.Live, MallocState.Valid, MallocState.Live, Matches, Served;
    a := new MallocState(region, size);
    held, results := map[], [];
    h := [Moment(SpaceOf(a), held, 0)];
    NothingHeld();
    for n := 0 to |calls|
      invariant fresh(a) && a.Valid() && Matches(a.Live(), held)
      invariant History(h, region, region + size - TOP_FOOT_SIZE, calls[..n])
      invariant h[n].space == SpaceOf(a) && h[n].held == held
      invariant |results| == n && forall i :: 0 <= i < n ==> results[i] == h[i + 1].result
    {
      assert calls[n] in calls;
      var r;
      held, r := Step(a, held, calls[n]);
      HistoryGrows(h, region, region + size - TOP_FOOT_SIZE, calls[..n], calls[n], Moment(SpaceOf(a), held, r));
      h, results := h + [Moment(SpaceOf(a), held, r)], results + [r];
      assert calls[..n + 1] == calls[..n] + [calls[n]];
    }
    assert calls[..|calls|] == calls;
  }

  lemma HistoryGrows(h: seq<Moment>, base: Addr, limit: Addr, calls: seq<Call>, call: Call, next: Moment)
    requires History(h, base, limit, calls)
    requires Served(h[|calls|].space, h[|calls|].held, call, next.result, next.space, next.held)
    ensures History(h + [next], base, limit, calls + [call])
  {
    hide Served;
    var h', calls' := h + [next], calls + [call];
    forall i: nat | i < |calls'| ensures Follows(h', calls', i) {
      if i < |calls| { assert Follows(h, calls, i); }
    }
  }

  lemma NothingHeld()
    ensures Matches(map[], map[])
  {
  }

  /** One call: malloc with the bytes and the grant, or free of a pointer that is held. */
  method Step(a: MallocState, held: map<Addr, nat>, call: Call) returns (held': map<Addr, nat>, r: Addr)
    requires a.Valid() && Matches(a.Live(), held)
    requires call.Allocate? ==> call.bytes <= T.MAX_SIZE_T && call.grant % 8 == 0
    modifies a
    ensures a.Valid() && Matches(a.Live(), held')
    ensures Served(old(SpaceOf(a)), held, call, r, SpaceOf(a), held')
  {
    hide IsArena, Arena.Live, MallocState.Valid, MallocState.Live, MallocState.Full, Matches, NoRoom, T.ChunkRequest;
    held', r := held, 0;
    RunBounds(a);
    ghost var live := a.Live();
    match call
    case Allocate(bytes, grant) =>
      ghost var nb := T.ChunkRequest(bytes);
      RequestIsPositive(bytes);
      FullIsNoRoom(a, nb);
      r := a.Dlmalloc(bytes, Granted(a.limit, grant));
      FullIsNoRoom(a, nb);
      if r != 0 {
        RunBounds(a);
        RequestFits(live, a.Live(), r - CHUNK_TO_MEM, bytes);
        MatchesAllocate(live, a.Live(), held, r, bytes);
        held' := held[r := bytes];
      }
    case Release(m) =>
      if m in held {
        HeldIsLive(live, held, m);
        a.Dlfree(m);
        MatchesRelease(live, held, m);
        held' := held - {m};
      } else if m == 0 {
        a.Dlfree(m);
      }
  }

  lemma RequestIsPositive(bytes: nat)
    ensures T.ChunkRequest(bytes) > 0
  {
  }

  /** A request that is too big is never served. */
  lemma RequestFits(live: map<Addr, nat>, live': map<Addr, nat>, p: Addr, bytes: nat)
    requires Allocated(live, live', p, T.ChunkRequest(bytes)) && live'[p] < T.MAX_SIZE_T
    ensures bytes < T.MAX_REQUEST
  {
  }

  lemma HeldIsLive(live: map<Addr, nat>, held: map<Addr, nat>, m: Addr)
    requires Matches(live, held) && m in held
    ensures m > CHUNK_TO_MEM && m - CHUNK_TO_MEM in live
  {
  }
}
