/** The search of tmalloc_large and tmalloc_small for the smallest tree chunk that is large enough. */
module BestFit {
  import opened Bits
  import opened BinMap
  import opened Trie
  import opened Heap
  import opened TreeLinks
  import opened Bins
  import T = TreeIndex

  /** The chunks of t are chunks of t0. */
  ghost predicate AllIn(t0: Tree, t: Tree) {
    forall p :: Has(t, p) ==> Has(t0, p)
  }

  /** v is the best chunk so far, rsize bytes larger than nb; without one, rsize is -nb in w bits. */
  ghost predicate Best(m: Memory, t0: Tree, nb: nat, w: nat, v: Addr, rsize: nat) {
    && 0 < nb < Pow2(w) && rsize <= Pow2(w) - nb
    && (v == 0 ==> rsize == Pow2(w) - nb)
    && (v != 0 ==> Has(t0, v) && m.SizeAt(v) == nb + rsize && nb + rsize < Pow2(w))
  }

  /** What a search reads in t: a trie of sizes that fit a word. */
  ghost predicate Searchable(m: Memory, t0: Tree, t: Tree, q: nat, k: nat, w: nat) {
    && Readable(m, t) && !Has(t, 0) && AllIn(t0, t) && IsTrie(t, q, k) && IsDistinct(t)
    && (forall z: nat :: HasSize(t, z) ==> z < Pow2(w))
  }

  /** Every size of t0 that fits nb is beaten by the best so far, still ahead in c, or larger than all of c. */
  ghost predicate Covered(t0: Tree, c: Tree, nb: nat, rsize: nat) {
    forall z: nat :: HasSize(t0, z) && z >= nb ==> rsize <= z - nb || HasSize(c, z) || (c.Node? && Above(c, z))
  }

  ghost predicate Above(c: Tree, z: nat) {
    forall y: nat :: HasSize(c, y) ==> y < z
  }

  ghost predicate AllFit(c: Tree, nb: nat) {
    forall y: nat :: HasSize(c, y) ==> y >= nb
  }

  lemma Child(m: Memory, t0: Tree, t: Tree, q: nat, k: nat, w: nat)
    requires t.Node? && Searchable(m, t0, t, q, k, w)
    ensures m.SizeAt(t.head) == t.size < Pow2(w) && t.head != 0 && Has(t0, t.head)
    ensures k == 0 ==> t.left == Nil && t.right == Nil
    ensures k > 0 ==> Searchable(m, t0, t.left, 2 * q, k - 1, w) && Searchable(m, t0, t.right, 2 * q + 1, k - 1, w)
    ensures HasSize(t, t.size)
    ensures m.Child(t.head, false) == Root(t.left) && m.Child(t.head, true) == Root(t.right)
    ensures Root(t.left) == 0 <==> t.left == Nil
    ensures Root(t.right) == 0 <==> t.right == Nil
    ensures t.right.Node? ==> Root(t.left) != Root(t.right)
  {
    assert Has(t, t.head) && HasSize(t, t.size);
    assert t.left.Node? ==> Has(t, t.left.head);
    assert t.right.Node? ==> Has(t, t.right.head);
    if k > 0 {
      forall p | Has(t.left, p) || Has(t.right, p) ensures Has(t0, p) { assert Has(t, p); }
      forall z: nat | HasSize(t.left, z) || HasSize(t.right, z) ensures z < Pow2(w) { assert HasSize(t, z); }
    }
  }

  // ---- The walk to the smallest size

  /** The leftmost child, if there is one. */
  function LeftmostChild(t: Tree): Tree
    requires t.Node?
  {
    if t.left.Node? then t.left else t.right
  }

  /** The best after looking at a chunk p of size s. */
  predicate Looked(v: Addr, rsize: nat, p: Addr, s: nat, nb: nat, w: nat, v': Addr, rsize': nat) {
    s < Pow2(w) && nb < Pow2(w) &&
    if WrapSub(s, nb, w) < rsize then v' == p && rsize' == WrapSub(s, nb, w) else v' == v && rsize' == rsize
  }

  /** A chunk that is too small wraps around to at least -nb and is never taken. */
  lemma LookedAt(m: Memory, t0: Tree, nb: nat, w: nat, v: Addr, rsize: nat, p: Addr, v': Addr, rsize': nat)
    requires Best(m, t0, nb, w, v, rsize) && p != 0 && Has(t0, p) && m.SizeAt(p) < Pow2(w)
    requires Looked(v, rsize, p, m.SizeAt(p), nb, w, v', rsize')
    ensures Best(m, t0, nb, w, v', rsize') && rsize' <= rsize
    ensures m.SizeAt(p) >= nb ==> rsize' <= m.SizeAt(p) - nb && v' != 0
    ensures v != 0 ==> v' != 0
  {
  }

  /** After looking at the head of c, what is ahead is in the leftmost child of c. */
  lemma WalkStep(t0: Tree, c: Tree, q: nat, k: nat, nb: nat, rsize: nat, rsize': nat)
    requires c.Node? && IsTrie(c, q, k) && Covered(t0, c, nb, rsize)
    requires rsize' <= rsize && (rsize' == 0 || (nb <= c.size && rsize' <= c.size - nb))
    ensures Covered(t0, LeftmostChild(c), nb, rsize')
  {
    var d := LeftmostChild(c);
    forall z: nat | HasSize(t0, z) && z >= nb
      ensures rsize' <= z - nb || HasSize(d, z) || (d.Node? && Above(d, z))
    {
      if rsize > z - nb && z != c.size {
        if d.Node? {
          forall y: nat | HasSize(d, y) && !HasSize(d, z) ensures y < z {
            assert HasSize(c, y);
            assert !HasSize(Nil, z);
            if HasSize(c, z) { LeftBelowRight(c, q, k, y, z); }
          }
        } else {
          assert HasSize(c, c.size);
        }
      }
    }
  }

  lemma ChildFits(c: Tree, nb: nat)
    requires c.Node? && AllFit(c, nb)
    ensures AllFit(LeftmostChild(c), nb) && c.size >= nb
  {
    assert HasSize(c, c.size);
    forall y: nat | HasSize(LeftmostChild(c), y) ensures y >= nb { assert HasSize(c, y); }
  }

  /** The loop at the end of tmalloc_large: the leftmost walk below t. */
  method SmallestBelow(m: Memory, root: Addr, nb: nat, w: nat, v0: Addr, rsize0: nat,
                       ghost t0: Tree, ghost c0: Tree, ghost q0: nat, ghost k0: nat)
    returns (v: Addr, rsize: nat)
    requires root == Root(c0) && Searchable(m, t0, c0, q0, k0, w) && Covered(t0, c0, nb, rsize0)
    requires Best(m, t0, nb, w, v0, rsize0) && (AllFit(c0, nb) || (rsize0 == 0 && v0 != 0))
    ensures Best(m, t0, nb, w, v, rsize) && rsize <= rsize0 && (v0 != 0 ==> v != 0)
    ensures Covered(t0, Nil, nb, rsize) && (c0.Node? ==> v != 0)
  {
    var t := root;
    v, rsize := v0, rsize0;
    ghost var c, q, k := c0, q0, k0;
    while t != 0
      invariant t == Root(c) && Searchable(m, t0, c, q, k, w) && Covered(t0, c, nb, rsize)
      invariant Best(m, t0, nb, w, v, rsize) && rsize <= rsize0 && (v0 != 0 ==> v != 0)
      invariant AllFit(c, nb) || (rsize == 0 && v != 0)
      invariant c == c0 || v != 0
      decreases c
    {
      Child(m, t0, c, q, k, w);
      ghost var v1, rsize1 := v, rsize;
      var trem := WrapSub(m.SizeAt(t), nb, w);
      if trem < rsize {
        rsize := trem;
        v := t;
      }
      LookedAt(m, t0, nb, w, v1, rsize1, t, v, rsize);
      if rsize1 != 0 { ChildFits(c, nb); }
      WalkStep(t0, c, q, k, nb, rsize1, rsize);
      t := if m.Child(t, false) != 0 then m.Child(t, false) else m.Child(t, true);
      q, k := if c.left.Node? then 2 * q else 2 * q + 1, if k > 0 then k - 1 else 0;
      c := LeftmostChild(c);
    }
    assert c == Nil;
  }

  // ---- The search of one bin

  /**
   The descent along the bits of nb has reached subtree u, whose sizes agree with nb on all but
   their low k bits; r is the deepest right subtree passed by.
   */
  ghost predicate Searching(m: Memory, t0: Tree, nb: nat, w: nat, u: Tree, q: nat, k: nat, reg: nat,
                            r: Tree, rq: nat, rk: nat, rsize: nat)
  {
    && Searchable(m, t0, u, q, k, w) && k <= w && nb < Pow2(w) && Shr(nb, k) == q && reg == Shl(nb, w - k, w)
    && Searchable(m, t0, r, rq, rk, w) && AllFit(r, nb)
    && (forall y: nat, z: nat :: HasSize(u, y) && HasSize(r, z) ==> y < z)
    && Ahead(t0, u, r, nb, rsize)
  }

  /** Every size of t0 that fits nb is beaten by the best so far, in u or r, or larger than all of r. */
  ghost predicate Ahead(t0: Tree, u: Tree, r: Tree, nb: nat, rsize: nat) {
    forall z: nat :: HasSize(t0, z) && z >= nb
                     ==> rsize <= z - nb || HasSize(u, z) || HasSize(r, z) || (r.Node? && Above(r, z))
  }

  /** The subtree passed by, if any, on the way down to side d. */
  function PassedBy(u: Tree, d: bool, r: Tree): Tree
    requires u.Node?
  {
    if !d && u.right.Node? then u.right else r
  }

  lemma SideOf(nb: nat, w: nat, k: nat, reg: nat)
    requires nb < Pow2(w) && 0 < k <= w && reg == Shl(nb, w - k, w)
    ensures Bit(reg, w - 1) <==> Bit(nb, k - 1)
    ensures Double(reg, w) == Shl(nb, w - (k - 1), w)
    ensures Shr(nb, k - 1) == 2 * Shr(nb, k) + (if Bit(nb, k - 1) then 1 else 0)
  {
    ShlBit(nb, w - k, w, w - 1);
    ShlOneMore(nb, w - k, w);
    ShrOneMore(nb, k - 1);
  }

  /** Sizes with a smaller prefix are smaller, sizes with a larger one larger. */
  lemma PrefixOrder(t: Tree, q: nat, k: nat, nb: nat, z: nat)
    requires IsTrie(t, q, k) && HasSize(t, z)
    ensures q < Shr(nb, k) ==> z < nb
    ensures q > Shr(nb, k) ==> z > nb
  {
    TriePrefix(t, q, k, z);
    ShrMonotone(if z < nb then z else nb, if z < nb then nb else z, k);
  }

  lemma NoOpenBits(u: Tree, q: nat, nb: nat)
    requires u.Node? && IsTrie(u, q, 0) && Shr(nb, 0) == q
    ensures u.size == nb
  {
  }

  /** One step down: to side d of u, the sign bit of the register. */
  lemma SearchStep(m: Memory, t0: Tree, nb: nat, w: nat, u: Tree, q: nat, k: nat, reg: nat,
                   r: Tree, rq: nat, rk: nat, rsize: nat, rsize': nat, d: bool)
    requires Searching(m, t0, nb, w, u, q, k, reg, r, rq, rk, rsize) && u.Node? && u.size != nb
    requires reg < Pow2(w) && d == Bit(reg, w - 1)
    requires rsize' <= rsize && (u.size >= nb ==> rsize' <= u.size - nb)
    ensures k > 0
    ensures var r' := PassedBy(u, d, r); var q' := if d then 2 * q + 1 else 2 * q;
            Searching(m, t0, nb, w, ChildOf(u, d), q', k - 1, Double(reg, w),
                      r', if r' == r then rq else 2 * q + 1, if r' == r then rk else k - 1, rsize')
  {
    if k == 0 { NoOpenBits(u, q, nb); }
    Child(m, t0, u, q, k, w);
    SideOf(nb, w, k, reg);
    var c, r' := ChildOf(u, d), PassedBy(u, d, r);
    hide Readable, Has, Shl, Shr, Bit, Double, Searchable;
    forall z: nat | HasSize(u.right, z) && !d ensures z > nb {
      PrefixOrder(u.right, 2 * q + 1, k - 1, nb, z);
    }
    forall z: nat | HasSize(u.left, z) && d ensures z < nb {
      PrefixOrder(u.left, 2 * q, k - 1, nb, z);
    }
    forall y: nat, z: nat | HasSize(c, y) && HasSize(r', z) ensures y < z {
      if !d && u.right.Node? {
        LeftBelowRight(u, q, k, y, z);
      } else {
        assert HasSize(u, y);
      }
    }
    AheadStep(t0, u, r, nb, rsize, rsize', d);
  }

  lemma AheadStep(t0: Tree, u: Tree, r: Tree, nb: nat, rsize: nat, rsize': nat, d: bool)
    requires Ahead(t0, u, r, nb, rsize) && u.Node?
    requires forall y: nat, z: nat :: HasSize(u, y) && HasSize(r, z) ==> y < z
    requires rsize' <= rsize && (u.size >= nb ==> rsize' <= u.size - nb)
    requires forall z: nat :: HasSize(u.left, z) && d ==> z < nb
    ensures Ahead(t0, ChildOf(u, d), PassedBy(u, d, r), nb, rsize')
  {
    var c, r' := ChildOf(u, d), PassedBy(u, d, r);
    forall z: nat | HasSize(t0, z) && z >= nb
      ensures rsize' <= z - nb || HasSize(c, z) || HasSize(r', z) || (r'.Node? && Above(r', z))
    {
      if rsize' > z - nb {
        assert HasSize(u, z) || HasSize(r, z) || (r.Node? && Above(r, z));
        assert !HasSize(Nil, z);
        if HasSize(u, z) {
          assert HasSize(u.left, z) || HasSize(u.right, z);
        } else if !d && u.right.Node? {
          forall y: nat | HasSize(r', y) ensures y < z {
            assert HasSize(u, y);
            assert HasSize(r, z) || HasSize(r, r.size);
          }
        }
      }
    }
  }

  /** The first loop of tmalloc_large: it leaves t at a subtree whose smallest size is still to be looked at. */
  lemma ExactIsBest(t0: Tree, c: Tree, nb: nat)
    ensures Covered(t0, c, nb, 0)
  {
  }

  lemma SearchBegins(m: Memory, t0: Tree, nb: nat, w: nat, q0: nat, k0: nat, reg0: nat)
    requires 0 < nb < Pow2(w) && Searching(m, t0, nb, w, t0, q0, k0, reg0, Nil, 0, 0, Pow2(w) - nb)
    ensures Best(m, t0, nb, w, 0, Neg(nb, w)) && reg0 < Pow2(w) && w > 0 && Neg(nb, w) == Pow2(w) - nb
  {
    hide Searchable, AllFit, Ahead, HasSize, Shr, Shl;
  }

  method SearchBin(m: Memory, root: Addr, nb: nat, w: nat, reg0: nat, ghost t0: Tree, ghost q0: nat, ghost k0: nat)
    returns (t: Addr, v: Addr, rsize: nat, ghost c: Tree, ghost cq: nat, ghost ck: nat)
    requires t0.Node? && root == t0.head && 0 < nb < Pow2(w)
    requires Searching(m, t0, nb, w, t0, q0, k0, reg0, Nil, 0, 0, Pow2(w) - nb)
    ensures t == Root(c) && Searchable(m, t0, c, cq, ck, w) && Covered(t0, c, nb, rsize)
    ensures Best(m, t0, nb, w, v, rsize) && (AllFit(c, nb) || (rsize == 0 && v != 0))
  {
    hide Searchable, Covered, AllFit, Pow2, Has, Shl, Shr, Ahead, IsTrie, Readable, Double, Bit, AllIn, HasSize;
    t, v, rsize := root, 0, Neg(nb, w);
    SearchBegins(m, t0, nb, w, q0, k0, reg0);
    var sizebits: nat, rst: Addr := reg0, 0;
    c, cq, ck := t0, q0, k0;
    ghost var r: Tree, rq: nat, rk: nat := Nil, 0, 0;
    while true
      invariant c.Node? && t == c.head && rst == Root(r) && rsize > 0 && sizebits < Pow2(w)
      invariant Searching(m, t0, nb, w, c, cq, ck, sizebits, r, rq, rk, rsize)
      invariant Best(m, t0, nb, w, v, rsize)
      decreases c
    {
      Child(m, t0, c, cq, ck, w);
      ghost var v1, rsize1 := v, rsize;
      var trem := WrapSub(m.SizeAt(t), nb, w);
      if trem < rsize {
        v, rsize := t, trem;
      }
      LookedAt(m, t0, nb, w, v1, rsize1, t, v, rsize);
      if rsize == 0 {
        ExactIsBest(t0, c, nb);
        return;
      }
      var d := Bit(sizebits, w - 1);
      SearchStep(m, t0, nb, w, c, cq, ck, sizebits, r, rq, rk, rsize1, rsize, d);
      var rt := m.Child(t, true);
      t := m.Child(t, d);
      if rt != 0 && rt != t {
        rst := rt;
      }
      ghost var r' := PassedBy(c, d, r);
      if r' != r { rq, rk := 2 * cq + 1, ck - 1; }
      r, cq, ck, c := r', if d then 2 * cq + 1 else 2 * cq, ck - 1, ChildOf(c, d);
      if t == 0 {
        NothingAhead(t0, r, nb, rsize);
        t, c, cq, ck := rst, r, rq, rk;
        return;
      }
      sizebits := Double(sizebits, w);
    }
  }

  lemma NothingAhead(t0: Tree, r: Tree, nb: nat, rsize: nat)
    requires Ahead(t0, Nil, r, nb, rsize)
    ensures Covered(t0, r, nb, rsize)
  {
  }

  // ---- The search of all bins

  /** v is a chunk of tree j; no chunk of any tree that fits nb is smaller. Without a v, none fits. */
  ghost predicate BestOf(m: Memory, trees: seq<Tree>, nb: nat, v: Addr, rsize: nat) {
    && (v != 0 ==> m.SizeAt(v) == nb + rsize && exists j :: 0 <= j < |trees| && Has(trees[j], v))
    && (forall i, p :: 0 <= i < |trees| && Has(trees[i], p) && m.SizeAt(p) >= nb
                       ==> v != 0 && nb + rsize <= m.SizeAt(p))
  }

  lemma BinOf(m: Memory, roots: seq<Addr>, trees: seq<Tree>, i: nat)
    requires TreeBins(m, roots, trees) && i < NBINS
    ensures |roots| == |trees| == NBINS && TreeBin(m, roots[i], trees[i], i) && roots[i] == Root(trees[i])
    ensures TreeAt(m, trees[i], TreeBinAt(i))
  {
    hide IsTrie, IsDistinct, TreeAt, T.InTreeBin, T.RootPrefix, T.RootBits, Has;
  }

  lemma StartSearch(m: Memory, roots: seq<Addr>, trees: seq<Tree>, idx: nat, nb: nat, w: nat)
    requires TreeBins(m, roots, trees) && idx < NBINS && w == 64 && 0 < nb < Pow2(w)
    requires forall p :: Has(trees[idx], p) ==> m.SizeAt(p) < Pow2(w)
    requires Shr(nb, T.RootBits(idx)) == T.RootPrefix(idx)
    ensures roots[idx] == Root(trees[idx])
    ensures Searchable(m, trees[idx], trees[idx], T.RootPrefix(idx), T.RootBits(idx), w)
    ensures Searching(m, trees[idx], nb, w, trees[idx], T.RootPrefix(idx), T.RootBits(idx),
                      Shl(nb, T.LeftShiftForTreeIndex(idx), w), Nil, 0, 0, Pow2(w) - nb)
  {
    hide TreeBins, TreeBin, Searchable, Shl, Shr, T.RootBits, T.RootPrefix, T.LeftShiftForTreeIndex;
    BinOf(m, roots, trees, idx);
    T.ShiftAndBits(idx);
    BinIsSearchable(m, roots[idx], trees[idx], idx, w);
    NilIsSearchable(m, trees[idx], w);
  }

  lemma NilIsSearchable(m: Memory, t0: Tree, w: nat)
    ensures Searchable(m, t0, Nil, 0, 0, w)
  {
  }

  lemma BinIsSearchable(m: Memory, root: Addr, t: Tree, i: nat, w: nat)
    requires TreeBin(m, root, t, i) && forall p :: Has(t, p) ==> m.SizeAt(p) < Pow2(w)
    ensures Searchable(m, t, t, T.RootPrefix(i), T.RootBits(i), w)
    ensures root == 0 <==> t == Nil
  {
    TreeIsReadable(m, t, TreeBinAt(i));
    forall z: nat | HasSize(t, z) ensures z < Pow2(w) { var p := SizeHasChunk(m, t, TreeBinAt(i), z); }
    if t.Node? { assert Has(t, t.head); }
  }

  lemma SizeHasChunk(m: Memory, t: Tree, par: Addr, z: nat) returns (p: Addr)
    requires TreeAt(m, t, par) && HasSize(t, z)
    ensures Has(t, p) && m.SizeAt(p) == z
  {
    p := HasSizeHolds(t, z);
    HoldsIsHas(t, p, z);
    SizesAt(m, t, par, p, z);
  }

  lemma ChunkHasSize(m: Memory, t: Tree, par: Addr, p: Addr)
    requires TreeAt(m, t, par) && Has(t, p)
    ensures HasSize(t, m.SizeAt(p))
  {
    var z := HasHolds(t, p);
    HoldsIsHas(t, p, z);
    SizesAt(m, t, par, p, z);
  }

  ghost predicate NoneFits(m: Memory, t: Tree, nb: nat) {
    forall p :: Has(t, p) ==> m.SizeAt(p) < nb
  }

  /** What the first part of the search leaves for the walk. */
  ghost predicate WalkAhead(m: Memory, t0: Tree, nb: nat, w: nat, t: Addr, v: Addr, rsize: nat, c: Tree, q: nat,
                            k: nat) {
    && t == Root(c) && Searchable(m, t0, c, q, k, w) && Covered(t0, c, nb, rsize)
    && Best(m, t0, nb, w, v, rsize) && (AllFit(c, nb) || (rsize == 0 && v != 0))
  }

  lemma EmptyBin(m: Memory, t0: Tree, nb: nat, w: nat, q: nat, k: nat)
    requires 0 < nb < Pow2(w) && t0 == Nil
    ensures WalkAhead(m, t0, nb, w, 0, 0, Pow2(w) - nb, t0, q, k)
  {
  }

  lemma NoneFound(m: Memory, t0: Tree, par: Addr, nb: nat, w: nat, rsize: nat, c: Tree, q: nat, k: nat)
    requires WalkAhead(m, t0, nb, w, 0, 0, rsize, c, q, k) && TreeAt(m, t0, par)
    requires forall p :: Has(t0, p) ==> m.SizeAt(p) < Pow2(w)
    ensures NoneFits(m, t0, nb)
  {
    assert c == Nil;
    forall p | Has(t0, p) ensures m.SizeAt(p) < nb {
      ChunkHasSize(m, t0, par, p);
    }
  }

  /** All chunks of a later bin fit. */
  lemma RootOfBin(m: Memory, root: Addr, t: Tree, i: nat)
    requires TreeBin(m, root, t, i)
    ensures root == Root(t)
  {
    hide IsTrie, IsDistinct, TreeAt, Has;
  }

  lemma LaterBin(m: Memory, root: Addr, t: Tree, i: nat, idx: nat, nb: nat, w: nat)
    requires TreeBin(m, root, t, i) && idx < i && T.InTreeBin(nb, idx) && 0 < nb < Pow2(w)
    requires forall p :: Has(t, p) ==> m.SizeAt(p) < Pow2(w)
    ensures WalkAhead(m, t, nb, w, root, 0, Pow2(w) - nb, t, T.RootPrefix(i), T.RootBits(i))
  {
    hide TreeBin, Searchable, AllFit, T.InTreeBin, T.RootPrefix, T.RootBits, HasSize, Pow2, Has;
    LaterFits(m, root, t, i, idx, nb);
    RootOfBin(m, root, t, i);
    BinIsSearchable(m, root, t, i, w);
    assert Covered(t, t, nb, Pow2(w) - nb);
  }

  lemma LaterFits(m: Memory, root: Addr, t: Tree, i: nat, idx: nat, nb: nat)
    requires TreeBin(m, root, t, i) && idx < i && T.InTreeBin(nb, idx)
    ensures AllFit(t, nb)
  {
    hide T.InTreeBin, IsTrie, T.RootPrefix, T.RootBits, IsDistinct, TreeAt;
    forall y: nat | HasSize(t, y) ensures y >= nb {
      var p := SizeHasChunk(m, t, TreeBinAt(i), y);
      T.TreeBinsOrdered(nb, idx, y, i);
    }
  }

  /** The walk ended with v; the bins below and beyond bin j have nothing better. */
  ghost predicate Ended(m: Memory, trees: seq<Tree>, nb: nat, w: nat, v: Addr, rsize: nat, idx: nat, j: nat)
    requires |trees| == NBINS
  {
    && idx <= j < NBINS && Best(m, trees[j], nb, w, v, rsize) && Covered(trees[j], Nil, nb, rsize)
    && (j > idx ==> NoneFits(m, trees[idx], nb))
    && (forall i :: idx < i < NBINS && (i < j || v == 0) ==> trees[i] == Nil)
  }

  lemma EndedOne(m: Memory, roots: seq<Addr>, trees: seq<Tree>, nb: nat, w: nat, v: Addr, rsize: nat, idx: nat,
                 j: nat, i: nat, p: Addr)
    requires TreeBins(m, roots, trees) && Ended(m, trees, nb, w, v, rsize, idx, j) && (T.InTreeBin(nb, idx) || idx == 0)
    requires i < NBINS && Has(trees[i], p) && nb <= m.SizeAt(p) < Pow2(w)
    ensures v != 0 && nb + rsize <= m.SizeAt(p)
  {
    assert TreeBin(m, roots[i], trees[i], i) && TreeBin(m, roots[j], trees[j], j);
    NilHasNothing(trees[i], p);
    hide TreeBins, Has, T.InTreeBin, Pow2, TreeAt, IsTrie, IsDistinct;
    if i < idx {
      T.TreeBinsOrdered(m.SizeAt(p), i, nb, idx);
    } else if i == j {
      ChunkHasSize(m, trees[i], TreeBinAt(i), p);
    } else if i > j {
      T.TreeBinsOrdered(m.SizeAt(v), j, m.SizeAt(p), i);
    }
  }

  lemma NilHasNothing(t: Tree, p: Addr)
    requires Has(t, p)
    ensures t != Nil
  {
  }

  lemma TreeCount(m: Memory, roots: seq<Addr>, trees: seq<Tree>)
    requires TreeBins(m, roots, trees)
    ensures |roots| == |trees| == NBINS
  {
    hide TreeBin;
  }

  lemma EndedBest(m: Memory, roots: seq<Addr>, trees: seq<Tree>, nb: nat, w: nat, v: Addr, rsize: nat, idx: nat, j: nat)
    requires TreeBins(m, roots, trees) && Ended(m, trees, nb, w, v, rsize, idx, j) && (T.InTreeBin(nb, idx) || idx == 0)
    requires forall i, p :: 0 <= i < NBINS && Has(trees[i], p) ==> m.SizeAt(p) < Pow2(w)
    ensures BestOf(m, trees, nb, v, rsize)
  {
    hide TreeBins, Has, T.InTreeBin, Pow2, Covered, NoneFits;
    TreeCount(m, roots, trees);
    forall i, p | 0 <= i < |trees| && Has(trees[i], p) && m.SizeAt(p) >= nb
      ensures v != 0 && nb + rsize <= m.SizeAt(p) {
      EndedOne(m, roots, trees, nb, w, v, rsize, idx, j, i, p);
    }
  }

  /** The bins that are not marked are empty. */
  lemma UnmarkedIsEmpty(treemap: nat, trees: seq<Tree>, i: nat)
    requires TreeMap(treemap, trees) && i < NBINS
    ensures IsMarked(treemap, i) <==> trees[i].Node?
  {
  }

  /** The two loops of tmalloc_large and the bin search between them: exact best fit. */
  method FindBest(m: Memory, roots: seq<Addr>, treemap: nat, nb: nat, ghost trees: seq<Tree>)
    returns (v: Addr, rsize: nat)
    requires TreeBins(m, roots, trees) && TreeMap(treemap, trees) && T.MIN_LARGE_SIZE <= nb <= T.MAX_SIZE_T
    requires forall i, p :: 0 <= i < NBINS && Has(trees[i], p) ==> m.SizeAt(p) <= T.MAX_SIZE_T
    ensures BestOf(m, trees, nb, v, rsize) && rsize <= T.MAX_SIZE_T + 1 - nb && (v != 0 ==> rsize <= T.MAX_SIZE_T - nb)
  {
    hide Searchable, Searching, TreeBins, TreeBin, TreeAt, Covered, AllFit, Pow2, Has, Shl, Shr, T.InTreeBin,
         T.RootBits, T.RootPrefix;
    var idx := T.ComputeTreeIndex(nb);
    T.TreeBinPrefix(nb, idx);
    var w := T.SIZE_T_BITSIZE;
    assert Pow2(w) == T.MAX_SIZE_T + 1 by { Pow2Values(); }
    BinOf(m, roots, trees, idx);
    StartSearch(m, roots, trees, idx, nb, w);
    ghost var j, c, q, k := idx, trees[idx], T.RootPrefix(idx), T.RootBits(idx);
    var reg := Shl(nb, T.LeftShiftForTreeIndex(idx), w);
    var t := roots[idx];
    v, rsize := 0, Neg(nb, w);
    if t != 0 {
      t, v, rsize, c, q, k := SearchBin(m, t, nb, w, reg, trees[idx], q, k);
    } else {
      RootOfNil(m, roots[idx], trees[idx], idx);
      EmptyBin(m, trees[idx], nb, w, q, k);
    }
    if t == 0 && v == 0 {
      NoneFound(m, trees[idx], TreeBinAt(idx), nb, w, rsize, c, q, k);
      t, j, c, q, k := NextTree(m, roots, treemap, trees, idx, nb, w, rsize, c, q, k);
    }
    v, rsize := SmallestBelow(m, t, nb, w, v, rsize, trees[j], c, q, k);
    EndedBest(m, roots, trees, nb, w, v, rsize, idx, j);
  }

  lemma RootOfNil(m: Memory, root: Addr, t: Tree, i: nat)
    requires TreeBin(m, root, t, i) && root == 0
    ensures t == Nil
  {
    if t.Node? { assert Has(t, t.head); }
  }

  /** The root of the next non-empty tree bin, if there is one. */
  method NextTree(m: Memory, roots: seq<Addr>, treemap: nat, ghost trees: seq<Tree>, idx: nat, nb: nat, w: nat,
                  ghost rsize: nat, ghost c0: Tree, ghost q0: nat, ghost k0: nat)
    returns (t: Addr, ghost j: nat, ghost c: Tree, ghost q: nat, ghost k: nat)
    requires TreeBins(m, roots, trees) && TreeMap(treemap, trees) && idx < NBINS && T.InTreeBin(nb, idx)
    requires 0 < nb < Pow2(w)
    requires forall i, p :: 0 <= i < NBINS && Has(trees[i], p) ==> m.SizeAt(p) < Pow2(w)
    requires WalkAhead(m, trees[idx], nb, w, 0, 0, rsize, c0, q0, k0)
    ensures idx <= j < NBINS && WalkAhead(m, trees[j], nb, w, t, 0, rsize, c, q, k)
    ensures forall i :: idx < i < NBINS && (i < j || t == 0) ==> trees[i] == Nil
  {
    hide Searchable, Covered, AllFit, Pow2, Has, T.InTreeBin, T.RootBits, T.RootPrefix, TreeBin, IsMarked;
    t, j, c, q, k := 0, idx, c0, q0, k0;
    var found, i := NextBin(treemap, idx);
    forall i | 0 <= i < NBINS ensures IsMarked(treemap, i) <==> trees[i].Node? { UnmarkedIsEmpty(treemap, trees, i); }
    if found {
      t := roots[i];
      j, c, q, k := i, trees[i], T.RootPrefix(i), T.RootBits(i);
      assert TreeBin(m, roots[i], trees[i], i);
      LaterBin(m, roots[i], trees[i], i, idx, nb, w);
      assert t != 0 by { if t == 0 { RootOfNil(m, roots[i], trees[i], i); } }
    }
  }

  lemma AllLarge(m: Memory, root: Addr, t: Tree, i: nat, nb: nat)
    requires TreeBin(m, root, t, i) && nb < T.MIN_LARGE_SIZE
    ensures AllFit(t, nb)
  {
    hide T.MinSizeForTreeIndex, IsTrie, T.RootPrefix, T.RootBits, IsDistinct, TreeAt;
    T.SmallestLarge();
    T.MinSizeMonotone(0, i);
    forall y: nat | HasSize(t, y) ensures y >= nb {
      var p := SizeHasChunk(m, t, TreeBinAt(i), y);
    }
  }

  /** The root of a tree whose chunks all fit is the best so far, and the walk goes on below it. */
  lemma RootIsChunk(m: Memory, root: Addr, t: Tree, i: nat)
    requires TreeBin(m, root, t, i) && t.Node?
    ensures root == t.head != 0 && m.SizeAt(root) == t.size
  {
    assert Has(t, t.head);
  }

  lemma StartBelow(m: Memory, root: Addr, t: Tree, i: nat, nb: nat, w: nat)
    requires TreeBin(m, root, t, i) && t.Node? && AllFit(t, nb) && 0 < nb < Pow2(w)
    requires forall p :: Has(t, p) ==> m.SizeAt(p) < Pow2(w)
    ensures m.SizeAt(root) >= nb && root != 0
    ensures var right := m.Child(root, false) == 0; var k := T.RootBits(i);
            WalkAhead(m, t, nb, w, m.Child(root, right), root, m.SizeAt(root) - nb, ChildOf(t, right),
                      if right then 2 * T.RootPrefix(i) + 1 else 2 * T.RootPrefix(i), if k > 0 then k - 1 else 0)
  {
    hide T.RootPrefix, T.RootBits, TreeBin;
    RootIsChunk(m, root, t, i);
    var q, k := T.RootPrefix(i), T.RootBits(i);
    BinIsSearchable(m, root, t, i, w);
    Child(m, t, t, q, k, w);
    ChildFits(t, nb);
    WalkStep(t, t, q, k, nb, Pow2(w), t.size - nb);
  }

  /** The search of tmalloc_small: the smallest chunk of the first tree. */
  lemma TreeMapFits(treemap: nat, trees: seq<Tree>)
    requires TreeMap(treemap, trees)
    ensures treemap < Pow2(NBINS) && |trees| == NBINS
  {
    hide IsMarked;
  }

  method FindSmall(m: Memory, roots: seq<Addr>, treemap: nat, nb: nat, ghost trees: seq<Tree>)
    returns (v: Addr, rsize: nat)
    requires TreeBins(m, roots, trees) && TreeMap(treemap, trees) && treemap != 0 && 0 < nb < T.MIN_LARGE_SIZE
    requires forall i, p :: 0 <= i < NBINS && Has(trees[i], p) ==> m.SizeAt(p) <= T.MAX_SIZE_T
    ensures BestOf(m, trees, nb, v, rsize) && v != 0
  {
    hide Searchable, TreeBins, TreeMap, Covered, AllFit, Pow2, Has, TreeBin, IsMarked, T.RootBits, T.RootPrefix;
    TreeMapFits(treemap, trees);
    var i := LowestBin(treemap);
    var w := T.SIZE_T_BITSIZE;
    assert Pow2(w) == T.MAX_SIZE_T + 1 by { Pow2Values(); }
    forall j | 0 <= j < NBINS ensures IsMarked(treemap, j) <==> trees[j].Node? { UnmarkedIsEmpty(treemap, trees, j); }
    BinOf(m, roots, trees, i);
    AllLarge(m, roots[i], trees[i], i, nb);
    StartBelow(m, roots[i], trees[i], i, nb, w);
    var t := roots[i];
    v, rsize := t, m.SizeAt(t) - nb;
    var right := m.Child(t, false) == 0;
    ghost var k := T.RootBits(i);
    v, rsize := SmallestBelow(m, m.Child(t, right), nb, w, v, rsize, trees[i], ChildOf(trees[i], right),
      if right then 2 * T.RootPrefix(i) + 1 else 2 * T.RootPrefix(i), if k > 0 then k - 1 else 0);
    assert i > 0 ==> trees[0] == Nil;
    assert NoneFits(m, Nil, nb) by { NilFitsNone(m, nb); }
    EndedBest(m, roots, trees, nb, w, v, rsize, 0, i);
  }

  lemma NilFitsNone(m: Memory, nb: nat)
    ensures NoneFits(m, Nil, nb)
  {
  }
}
