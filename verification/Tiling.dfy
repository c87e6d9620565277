/** The chunks of the segment: they tile it, and their boundary tags agree. */
module Tiling {
  import opened Trie
  import opened Heap

  type Heads = map<Addr, Head>

  function H(h: Heads, p: Addr): Head {
    if p in h then h[p] else Head(0, false, false)
  }

  function Size(h: Heads, p: Addr): nat { H(h, p).size }

  function Next(h: Heads, p: Addr): Addr { p + Size(h, p) }

  predicate Free(h: Heads, p: Addr) { !H(h, p).cinuse }

  /**
   The chunks c tile [base, limit), top last. Every chunk but top has at least MIN_CHUNK_SIZE
   bytes; all chunks and sizes are multiples of 8.
   */
  ghost predicate Tiled(c: set<Addr>, h: Heads, base: Addr, top: Addr, limit: Addr) {
    && base in c && top in c
    && (forall p {:trigger Next(h, p)} :: p in c ==> base <= p <= top && p % 8 == 0 && Size(h, p) % 8 == 0)
    && (forall p {:trigger Next(h, p)} :: p in c && p != top ==> Size(h, p) >= 32 && Next(h, p) in c)
    && Size(h, top) > 0 && Next(h, top) == limit
    && (forall p, q {:trigger Next(h, p), Next(h, q)} :: p in c && q in c && p < q ==> Next(h, p) <= q)
  }

  /**
   Boundary tags: a chunk's pinuse bit is the cinuse bit of the chunk before it; a free chunk has
   its pinuse bit on, so no two free chunks are neighbours; a free chunk other than top has its
   size in its foot.
   */
  ghost predicate Tagged(c: set<Addr>, h: Heads, f: Words, base: Addr, top: Addr, limit: Addr) {
    && H(h, base).pinuse && Free(h, top) && !H(h, limit).pinuse
    && (forall p {:trigger Next(h, p)} :: p in c && p != top ==> (H(h, Next(h, p)).pinuse <==> !Free(h, p)))
    && (forall p {:trigger Free(h, p)} :: p in c && Free(h, p) ==> H(h, p).pinuse)
    && (forall p {:trigger Next(h, p)} :: p in c && p != top && Free(h, p) ==> At(f, Next(h, p)) == Size(h, p))
  }

  ghost predicate Segment(c: set<Addr>, h: Heads, f: Words, base: Addr, top: Addr, limit: Addr) {
    Tiled(c, h, base, top, limit) && Tagged(c, h, f, base, top, limit)
  }

  /** Different chunks do not overlap, and end at different places. */
  lemma ChunksApart(c: set<Addr>, h: Heads, base: Addr, top: Addr, limit: Addr, p: Addr, q: Addr)
    requires Tiled(c, h, base, top, limit) && p in c && q in c && p != q
    ensures Next(h, p) <= q || Next(h, q) <= p
    ensures p < Next(h, p) && Next(h, p) != Next(h, q) && Next(h, p) <= limit
  {
    assert Next(h, top) == limit && (p != top ==> Next(h, Next(h, p)) >= 0);
  }

  /** The chunk before p. */
  lemma PrevChunk(c: set<Addr>, h: Heads, base: Addr, top: Addr, limit: Addr, p: Addr) returns (q: Addr)
    requires Tiled(c, h, base, top, limit) && p in c && p != base
    ensures q in c && q != top && Next(h, q) == p && q < p
  {
    q := base;
    assert Next(h, p) >= p && Next(h, base) >= base;
    while Next(h, q) != p
      invariant q in c && q < p
      decreases p - q
    {
      ChunksApart(c, h, base, top, limit, p, q);
      q := Next(h, q);
    }
  }

  /** A free neighbour below p is found through the foot. */
  lemma PrevByFoot(c: set<Addr>, h: Heads, f: Words, base: Addr, top: Addr, limit: Addr, p: Addr)
    requires Segment(c, h, f, base, top, limit) && p in c && !H(h, p).pinuse
    ensures At(f, p) <= p && p - At(f, p) in c && p - At(f, p) != top
    ensures Size(h, p - At(f, p)) == At(f, p) && Free(h, p - At(f, p))
  {
    var q := PrevChunk(c, h, base, top, limit, p);
  }

  /** What tiling asks of one chunk. */
  ghost predicate TileOf(c: set<Addr>, h: Heads, base: Addr, top: Addr, p: Addr) {
    base <= p <= top && p % 8 == 0 && Size(h, p) % 8 == 0 && (p != top ==> Size(h, p) >= 32 && Next(h, p) in c)
  }

  lemma TiledIntro(c: set<Addr>, h: Heads, base: Addr, top: Addr, limit: Addr)
    requires base in c && top in c && Size(h, top) > 0 && Next(h, top) == limit
    requires forall p :: p in c ==> TileOf(c, h, base, top, p)
    requires forall p, q :: p in c && q in c && p < q ==> Next(h, p) <= q
    ensures Tiled(c, h, base, top, limit)
  {
    forall p | p in c
      ensures base <= p <= top && p % 8 == 0 && Size(h, p) % 8 == 0
      ensures p != top ==> Size(h, p) >= 32 && Next(h, p) in c
    {
      assert TileOf(c, h, base, top, p);
    }
  }

  lemma TiledElim(c: set<Addr>, h: Heads, base: Addr, top: Addr, limit: Addr, p: Addr)
    requires Tiled(c, h, base, top, limit) && p in c
    ensures TileOf(c, h, base, top, p)
  {
    assert Next(h, p) >= p;
  }

  /** What the boundary tags ask of one chunk. */
  ghost predicate TagOf(h: Heads, f: Words, top: Addr, p: Addr) {
    && (Free(h, p) ==> H(h, p).pinuse)
    && (p != top ==> (H(h, Next(h, p)).pinuse <==> !Free(h, p)))
    && (p != top && Free(h, p) ==> At(f, Next(h, p)) == Size(h, p))
  }

  lemma TaggedIntro(c: set<Addr>, h: Heads, f: Words, base: Addr, top: Addr, limit: Addr)
    requires H(h, base).pinuse && Free(h, top) && !H(h, limit).pinuse
    requires forall p :: p in c ==> TagOf(h, f, top, p)
    ensures Tagged(c, h, f, base, top, limit)
  {
    forall p | p in c && Free(h, p) ensures H(h, p).pinuse { assert TagOf(h, f, top, p); }
    forall p | p in c && p != top
      ensures (H(h, Next(h, p)).pinuse <==> !Free(h, p)) && (Free(h, p) ==> At(f, Next(h, p)) == Size(h, p))
    {
      assert TagOf(h, f, top, p);
    }
  }

  lemma TaggedElim(c: set<Addr>, h: Heads, f: Words, base: Addr, top: Addr, limit: Addr, p: Addr)
    requires Tagged(c, h, f, base, top, limit) && p in c
    ensures TagOf(h, f, top, p)
  {
    assert Next(h, p) >= p;
  }

  // ---- Allocation steps

  lemma TiledSameSizes(c: set<Addr>, h: Heads, h': Heads, base: Addr, top: Addr, limit: Addr)
    requires Tiled(c, h, base, top, limit) && forall p :: p in c ==> Size(h', p) == Size(h, p)
    ensures Tiled(c, h', base, top, limit)
  {
    forall p | p in c ensures Next(h', p) == Next(h, p) { assert Size(h', p) == Size(h, p); }
  }

  /** p is handed out whole. */
  function UsedWhole(h: Heads, p: Addr): Heads {
    h[p := Head(Size(h, p), true, true)][Next(h, p) := H(h, Next(h, p)).(pinuse := true)]
  }

  lemma UseWhole(c: set<Addr>, h: Heads, f: Words, base: Addr, top: Addr, limit: Addr, p: Addr)
    requires Segment(c, h, f, base, top, limit) && p in c && p != top && Free(h, p)
    ensures Segment(c, UsedWhole(h, p), f, base, top, limit)
    ensures forall q :: q in c ==> Size(UsedWhole(h, p), q) == Size(h, q)
    ensures forall q :: q in c && q != p ==> Free(UsedWhole(h, p), q) == Free(h, q)
  {
    var h' := UsedWhole(h, p);
    var n := Next(h, p);
    forall a
      ensures Size(h', a) == Size(h, a) && (a != p ==> Free(h', a) == Free(h, a))
      ensures a != p && a != n ==> H(h', a) == H(h, a)
    {
    }
    assert n in c && n != p;
    ChunksApart(c, h, base, top, limit, n, p);
    TiledSameSizes(c, h, h', base, top, limit);
    forall q | q in c && q != top
      ensures H(h', Next(h', q)).pinuse <==> !Free(h', q)
      ensures Free(h', q) ==> At(f, Next(h', q)) == Size(h', q)
    {
      assert Next(h', q) == Next(h, q);
      if q != p { ChunksApart(c, h, base, top, limit, p, q); }
    }
    forall q | q in c && Free(h', q) ensures H(h', q).pinuse {
      assert q != p && Free(h, q);
    }
  }

  /** p is cut into an allocated front of nb bytes and a free rest. */
  function CutHeads(h: Heads, p: Addr, nb: nat, rest: nat): Heads {
    h[p := Head(nb, true, true)][p + nb := Head(rest, false, true)]
  }

  lemma CutReads(h: Heads, p: Addr, nb: nat, rest: nat, a: Addr)
    requires nb > 0
    ensures H(CutHeads(h, p, nb, rest), a) ==
            if a == p + nb then Head(rest, false, true) else if a == p then Head(nb, true, true) else H(h, a)
  {
  }

  lemma CutPair(c: set<Addr>, c': set<Addr>, h: Heads, base: Addr, top: Addr, limit: Addr, p: Addr, nb: nat,
                rest: nat, q1: Addr, q2: Addr)
    requires Tiled(c, h, base, top, limit) && p in c && nb > 0 && rest > 0 && Size(h, p) == nb + rest
    requires c' == c + {p + nb} && q1 in c' && q2 in c' && q1 < q2
    ensures Next(CutHeads(h, p, nb, rest), q1) <= q2
  {
    CutReads(h, p, nb, rest, q1);
    if q1 in c && q1 != p && p != q2 { ChunksApart(c, h, base, top, limit, q1, p); }
    if q2 in c && q2 != p { ChunksApart(c, h, base, top, limit, q2, p); }
    if q1 in c && q2 in c { ChunksApart(c, h, base, top, limit, q1, q2); }
  }

  lemma CutTile(c: set<Addr>, c': set<Addr>, h: Heads, base: Addr, top: Addr, limit: Addr, p: Addr, nb: nat,
                rest: nat, q: Addr)
    requires Tiled(c, h, base, top, limit) && p in c && nb >= 32 && nb % 8 == 0
    requires Size(h, p) == nb + rest && rest > 0 && (p != top ==> rest >= 32)
    requires c' == c + {p + nb} && q in c'
    ensures TileOf(c', CutHeads(h, p, nb, rest), base, if p == top then p + nb else top, q)
  {
    CutReads(h, p, nb, rest, q);
    CutTop(c, h, base, top, limit, p);
    TiledElim(c, h, base, top, limit, p);
    if q in c { TiledElim(c, h, base, top, limit, q); }
  }

  lemma CutTop(c: set<Addr>, h: Heads, base: Addr, top: Addr, limit: Addr, p: Addr)
    requires Tiled(c, h, base, top, limit) && p in c
    ensures p != top ==> Next(h, p) <= top
    ensures Next(h, top) == limit && base <= p <= top && Next(h, p) <= limit
  {
    if p != top { ChunksApart(c, h, base, top, limit, p, top); }
  }

  lemma CutIsNew(c: set<Addr>, h: Heads, base: Addr, top: Addr, limit: Addr, p: Addr, nb: nat)
    requires Tiled(c, h, base, top, limit) && p in c && 0 < nb < Size(h, p)
    ensures p + nb !in c
  {
    if p + nb in c { ChunksApart(c, h, base, top, limit, p, p + nb); }
  }

  lemma CutTag(c: set<Addr>, h: Heads, f: Words, f': Words, base: Addr, top: Addr, limit: Addr, p: Addr, nb: nat,
               rest: nat, q: Addr)
    requires Segment(c, h, f, base, top, limit) && p in c && Free(h, p) && nb > 0
    requires Size(h, p) == nb + rest && rest > 0
    requires f' == if p == top then f else f[p + nb + rest := rest]
    requires q in c || q == p + nb
    ensures TagOf(CutHeads(h, p, nb, rest), f', if p == top then p + nb else top, q)
  {
    var h' := CutHeads(h, p, nb, rest);
    var r := p + nb;
    assert Next(h, p) == r + rest;
    CutIsNew(c, h, base, top, limit, p, nb);
    CutReads(h, p, nb, rest, q);
    CutReads(h, p, nb, rest, r);
    TaggedElim(c, h, f, base, top, limit, p);
    if q == r {
      CutReads(h, p, nb, rest, r + rest);
    } else if q != p {
      TaggedElim(c, h, f, base, top, limit, q);
      ChunksApart(c, h, base, top, limit, p, q);
      assert Next(h', q) == Next(h, q);
      CutReads(h, p, nb, rest, Next(h, q));
    }
  }

  /** Cutting a free chunk into an allocated front and a free rest keeps the segment. */
  lemma CutFree(c: set<Addr>, c': set<Addr>, h: Heads, h': Heads, f: Words, f': Words, base: Addr, top: Addr,
                top': Addr, limit: Addr, p: Addr, nb: nat, rest: nat)
    requires Segment(c, h, f, base, top, limit) && p in c && Free(h, p) && nb >= 32 && nb % 8 == 0
    requires Size(h, p) == nb + rest && rest > 0 && (p != top ==> rest >= 32)
    requires c' == c + {p + nb} && h' == CutHeads(h, p, nb, rest) && top' == (if p == top then p + nb else top)
    requires f' == if p == top then f else f[p + nb + rest := rest]
    ensures Segment(c', h', f', base, top', limit) && p + nb !in c
    ensures forall q :: q in c && q != p ==> H(h', q) == H(h, q)
  {
    CutIsNew(c, h, base, top, limit, p, nb);
    CutTop(c, h, base, top, limit, p);
    CutReads(h, p, nb, rest, top');
    CutReads(h, p, nb, rest, base);
    CutReads(h, p, nb, rest, limit);
    forall q | q in c && q != p ensures H(h', q) == H(h, q) { CutReads(h, p, nb, rest, q); }
    forall q | q in c' ensures TileOf(c', h', base, top', q) && TagOf(h', f', top', q) {
      CutTile(c, c', h, base, top, limit, p, nb, rest, q);
      CutTag(c, h, f, f', base, top, limit, p, nb, rest, q);
    }
    forall q1, q2 | q1 in c' && q2 in c' && q1 < q2 ensures Next(h', q1) <= q2 {
      CutPair(c, c', h, base, top, limit, p, nb, rest, q1, q2);
    }
    TiledIntro(c', h', base, top', limit);
    TaggedIntro(c', h', f', base, top', limit);
  }

  // ---- Steps of free

  /** The free chunk [s, e) is formed: its head and foot are written and the chunk at e loses its pinuse bit. */
  function MergedHeads(h: Heads, s: Addr, e: Addr): Heads
    requires s <= e
  {
    h[s := Head(e - s, false, true)][e := H(h, e).(pinuse := false)]
  }

  /** The chunks that are left when [s, e) becomes one. */
  function Without(c: set<Addr>, s: Addr, e: Addr): set<Addr> {
    set q | q in c && !(s < q < e)
  }

  lemma MergedReads(h: Heads, s: Addr, e: Addr, a: Addr)
    requires s < e
    ensures H(MergedHeads(h, s, e), a) ==
            if a == e then H(h, e).(pinuse := false) else if a == s then Head(e - s, false, true) else H(h, a)
  {
  }

  lemma MergePlace(c: set<Addr>, h: Heads, base: Addr, top: Addr, limit: Addr, s: Addr, e: Addr, q: Addr)
    requires Tiled(c, h, base, top, limit) && s in c && e in c && s < e && q in c
    ensures q < s ==> Next(h, q) <= s
    ensures q >= e ==> Next(h, q) > e
    ensures s + 32 <= e && s != top
  {
    hide Tiled;
    TiledElim(c, h, base, top, limit, q);
    TiledElim(c, h, base, top, limit, s);
    TiledElim(c, h, base, top, limit, e);
    ChunksApart(c, h, base, top, limit, s, e);
    if q != s { ChunksApart(c, h, base, top, limit, q, s); }
    if q != e { ChunksApart(c, h, base, top, limit, q, e); }
    SizePositive(c, h, base, top, limit, q);
  }

  lemma SizePositive(c: set<Addr>, h: Heads, base: Addr, top: Addr, limit: Addr, q: Addr)
    requires Tiled(c, h, base, top, limit) && q in c
    ensures Size(h, q) > 0 && q < Next(h, q) <= limit
  {
    if q != top { ChunksApart(c, h, base, top, limit, q, top); }
  }

  lemma MergeTile(c: set<Addr>, h: Heads, base: Addr, top: Addr, limit: Addr, s: Addr, e: Addr, q: Addr)
    requires Tiled(c, h, base, top, limit) && s in c && e in c && s < e && q in Without(c, s, e)
    ensures TileOf(Without(c, s, e), MergedHeads(h, s, e), base, top, q)
    ensures q != s ==> Next(MergedHeads(h, s, e), q) == Next(h, q)
    ensures q == s ==> Next(MergedHeads(h, s, e), q) == e
  {
    hide Tiled, MergedHeads;
    MergePlace(c, h, base, top, limit, s, e, q);
    TiledElim(c, h, base, top, limit, q);
    TiledElim(c, h, base, top, limit, e);
    MergedReads(h, s, e, q);
  }

  lemma MergeTag(c: set<Addr>, h: Heads, f: Words, base: Addr, top: Addr, limit: Addr, s: Addr, e: Addr, q: Addr)
    requires Segment(c, h, f, base, top, limit) && s in c && e in c && s < e && q in Without(c, s, e)
    requires H(h, s).pinuse && !Free(h, e)
    ensures TagOf(MergedHeads(h, s, e), f[e := e - s], top, q)
  {
    hide Tiled, Tagged, MergedHeads;
    MergePlace(c, h, base, top, limit, s, e, q);
    MergeTile(c, h, base, top, limit, s, e, q);
    TaggedElim(c, h, f, base, top, limit, q);
    MergedReads(h, s, e, q);
    MergedReads(h, s, e, e);
    MergedReads(h, s, e, Next(h, q));
  }

  lemma MergePair(c: set<Addr>, h: Heads, base: Addr, top: Addr, limit: Addr, s: Addr, e: Addr, q1: Addr, q2: Addr)
    requires Tiled(c, h, base, top, limit) && s in c && e in c && s < e
    requires q1 in Without(c, s, e) && q2 in Without(c, s, e) && q1 < q2
    ensures Next(MergedHeads(h, s, e), q1) <= q2
  {
    hide Tiled, MergedHeads;
    MergeTile(c, h, base, top, limit, s, e, q1);
    if q1 != s { ChunksApart(c, h, base, top, limit, q1, q2); }
  }

  /** Joining all chunks from s up to the chunk in use at e into one free chunk keeps the segment. */
  lemma Merge(c: set<Addr>, c': set<Addr>, h: Heads, h': Heads, f: Words, f': Words, base: Addr, top: Addr,
              limit: Addr, s: Addr, e: Addr)
    requires Segment(c, h, f, base, top, limit) && s in c && e in c && s < e && H(h, s).pinuse && !Free(h, e)
    requires c' == Without(c, s, e) && h' == MergedHeads(h, s, e) && f' == f[e := e - s]
    ensures Segment(c', h', f', base, top, limit)
    ensures forall q :: q in c' && q != s ==> Size(h', q) == Size(h, q) && Free(h', q) == Free(h, q)
    ensures Size(h', s) == e - s && Free(h', s) && H(h', s).pinuse && s in c' && s != top
  {
    EndTags(c, h, f, base, top, limit);
    SizePositive(c, h, base, top, limit, top);
    MergePlace(c, h, base, top, limit, s, e, top);
    TiledElim(c, h, base, top, limit, s);
    TiledElim(c, h, base, top, limit, e);
    hide Tiled, Tagged, MergedHeads;
    MergedReads(h, s, e, s);
    MergedReads(h, s, e, base);
    MergedReads(h, s, e, top);
    MergedReads(h, s, e, limit);
    forall q | q in c' && q != s
      ensures Size(h', q) == Size(h, q) && Free(h', q) == Free(h, q) { MergedReads(h, s, e, q); }
    forall q | q in c' ensures TileOf(c', h', base, top, q) && TagOf(h', f', top, q) {
      MergeTile(c, h, base, top, limit, s, e, q);
      MergeTag(c, h, f, base, top, limit, s, e, q);
    }
    forall q1, q2 | q1 in c' && q2 in c' && q1 < q2 ensures Next(h', q1) <= q2 {
      MergePair(c, h, base, top, limit, s, e, q1, q2);
    }
    TiledIntro(c', h', base, top, limit);
    TaggedIntro(c', h', f', base, top, limit);
  }

  lemma EndTags(c: set<Addr>, h: Heads, f: Words, base: Addr, top: Addr, limit: Addr)
    requires Segment(c, h, f, base, top, limit)
    ensures base in c && top in c && Next(h, top) == limit && base <= top < limit
    ensures H(h, base).pinuse && Free(h, top) && H(h, top).pinuse && !H(h, limit).pinuse
  {
  }

  /** A chunk up to s when the last chunks, from s on, become top. */
  lemma MergeTopPart(c: set<Addr>, h: Heads, h': Heads, f: Words, base: Addr, top: Addr, limit: Addr, s: Addr, q: Addr)
    requires Segment(c, h, f, base, top, limit) && s in c && s < limit && H(h, s).pinuse
    requires q in Without(c, s, limit) && h' == h[s := Head(limit - s, false, true)]
    ensures q <= s && (q != s ==> Next(h', q) == Next(h, q) <= s)
    ensures TileOf(Without(c, s, limit), h', base, s, q) && TagOf(h', f, s, q)
  {
    hide Tiled, Tagged;
    TiledElim(c, h, base, top, limit, q);
    TaggedElim(c, h, f, base, top, limit, q);
    SizePositive(c, h, base, top, limit, q);
    TiledElim(c, h, base, top, limit, s);
    LimitAligned(c, h, base, top, limit);
    if q != s { ChunksApart(c, h, base, top, limit, q, s); }
  }

  /** The last chunks, from s on, become top. */
  lemma MergeTop(c: set<Addr>, c': set<Addr>, h: Heads, h': Heads, f: Words, base: Addr, top: Addr, limit: Addr,
                 s: Addr)
    requires Segment(c, h, f, base, top, limit) && s in c && s < limit && H(h, s).pinuse
    requires c' == Without(c, s, limit) && h' == h[s := Head(limit - s, false, true)]
    ensures Segment(c', h', f, base, s, limit)
    ensures forall q :: q in c' && q != s ==> H(h', q) == H(h, q)
    ensures forall q :: q in c' ==> q <= s
  {
    EndTags(c, h, f, base, top, limit);
    hide Tiled, Tagged, TileOf, TagOf;
    forall q | q in c' ensures q <= s && TileOf(c', h', base, s, q) && TagOf(h', f, s, q) {
      MergeTopPart(c, h, h', f, base, top, limit, s, q);
    }
    forall q1, q2 | q1 in c' && q2 in c' && q1 < q2 ensures Next(h', q1) <= q2 {
      MergeTopPart(c, h, h', f, base, top, limit, s, q1);
      MergeTopPart(c, h, h', f, base, top, limit, s, q2);
      ChunksApart(c, h, base, top, limit, q1, q2);
    }
    MergeTopPart(c, h, h', f, base, top, limit, s, s);
    MergeTopPart(c, h, h', f, base, top, limit, s, base);
    TiledIntro(c', h', base, s, limit);
    TaggedIntro(c', h', f, base, s, limit);
  }

  lemma LimitAligned(c: set<Addr>, h: Heads, base: Addr, top: Addr, limit: Addr)
    requires Tiled(c, h, base, top, limit)
    ensures limit % 8 == 0
  {
    TiledElim(c, h, base, top, limit, top);
    assert top in c;
    assert Next(h, top) == limit;
    assert limit == top + Size(h, top);
  }

  /** The system has put more memory behind the segment: init_top moves the end of top. */
  lemma GrowTop(c: set<Addr>, h: Heads, h': Heads, f: Words, base: Addr, top: Addr, limit: Addr, limit': Addr,
                foot: nat)
    requires Segment(c, h, f, base, top, limit) && top < limit < limit' && limit' % 8 == 0
    requires h' == h[top := Head(limit' - top, false, true)][limit' := Head(foot, false, false)]
    ensures Segment(c, h', f, base, top, limit')
    ensures forall q :: q in c && q != top ==> H(h', q) == H(h, q)
  {
    EndTags(c, h, f, base, top, limit);
    hide Tiled, Tagged;
    forall q | q in c
      ensures q < Next(h, q) <= limit && (q != top ==> H(h', q) == H(h, q) && Next(h, q) <= top)
      ensures TileOf(c, h', base, top, q) && TagOf(h', f, top, q)
    {
      SizePositive(c, h, base, top, limit, q);
      TiledElim(c, h, base, top, limit, q);
      TaggedElim(c, h, f, base, top, limit, q);
      if q != top { ChunksApart(c, h, base, top, limit, q, top); }
    }
    forall q1, q2 | q1 in c && q2 in c && q1 < q2 ensures Next(h', q1) <= q2 {
      ChunksApart(c, h, base, top, limit, q1, q2);
    }
    TiledIntro(c, h', base, top, limit');
    TaggedIntro(c, h', f, base, top, limit');
  }

  // ---- What a segment means to its users

  lemma HeldOnce(c: set<Addr>, h: Heads, base: Addr, top: Addr, limit: Addr, p: Addr, q: Addr, a: Addr)
    requires Tiled(c, h, base, top, limit) && p in c && q in c
    requires p <= a < Next(h, p) && q <= a < Next(h, q)
    ensures p == q
  {
  }

  /** Every address of the segment is in exactly one chunk. */
  lemma ChunkHolding(c: set<Addr>, h: Heads, base: Addr, top: Addr, limit: Addr, a: Addr) returns (p: Addr)
    requires Tiled(c, h, base, top, limit) && base <= a < limit
    ensures p in c && p <= a < Next(h, p)
    ensures forall q :: q in c && q <= a < Next(h, q) ==> q == p
  {
    assert base in c && top in c && Next(h, top) == limit;
    hide Tiled;
    p := base;
    SizePositive(c, h, base, top, limit, p);
    while a >= Next(h, p)
      invariant p in c && p <= a
      decreases a - p
    {
      SizePositive(c, h, base, top, limit, p);
      TiledElim(c, h, base, top, limit, p);
      p := Next(h, p);
    }
    forall q: Addr | q in c && q <= a < Next(h, q) ensures q == p {
      HeldOnce(c, h, base, top, limit, p, q, a);
    }
  }
}
