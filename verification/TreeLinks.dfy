/** Steps of insert_large_chunk and unlink_large_chunk on one tree. */
module TreeLinks {
  import opened Bits
  import opened Trie
  import opened Heap

  // ---- Insertion

  lemma {:induction false} PutStep(t: Tree, path: Path, right: bool, v: Tree)
    requires IsPath(t, path) && Sub(t, path).Node?
    ensures IsPath(t, path + [right])
    ensures Put(t, path + [right], v) ==
            Put(t, path, if right then Sub(t, path).(right := v) else Sub(t, path).(left := v))
    decreases |path|
  {
    if path == [] {
      assert path + [right] == [right];
      assert [right][1..] == [];
    } else {
      assert (path + [right])[1..] == path[1..] + [right];
      PutStep(ChildOf(t, path[0]), path[1..], right, v);
    }
  }

  lemma {:induction false} PutSame(t: Tree, path: Path)
    requires IsPath(t, path)
    ensures Put(t, path, Sub(t, path)) == t
    decreases |path|
  {
    if path != [] {
      PutSame(ChildOf(t, path[0]), path[1..]);
    }
  }

  lemma {:induction false} PrefixStep(q: nat, path: Path, right: bool)
    ensures PrefixAt(q, path + [right]) == 2 * PrefixAt(q, path) + (if right then 1 else 0)
    decreases |path|
  {
    if path == [] {
      assert path + [right] == [right];
      assert [right][1..] == [];
    } else {
      assert (path + [right])[1..] == path[1..] + [right];
      PrefixStep(2 * q + (if path[0] then 1 else 0), path[1..], right);
    }
  }

  /** The parent of a node is not below it. */
  lemma {:induction false} ParentOutside(t: Tree, par: Addr, path: Path)
    requires IsPath(t, path) && path != [] && IsDistinct(t)
    ensures Has(t, ParentAt(t, par, path)) && !Has(Sub(t, path), ParentAt(t, par, path))
    decreases |path|
  {
    var c := ChildOf(t, path[0]);
    if |path| > 1 {
      ParentOutside(c, t.head, path[1..]);
    } else {
      assert path[1..] == [];
    }
  }

  /** The link from a node's parent down to it. */
  lemma {:induction false} LinkDown(m: Memory, t: Tree, par: Addr, path: Path)
    requires IsPath(t, path) && path != [] && TreeAt(m, t, par)
    ensures m.Child(ParentAt(t, par, path), path[|path| - 1]) == Root(Sub(t, path))
    decreases |path|
  {
    var c := ChildOf(t, path[0]);
    if |path| > 1 {
      LinkDown(m, c, t.head, path[1..]);
    } else {
      assert path[1..] == [];
    }
  }

  /** Exchanging a subtree for one with the same root, the rest of the tree staying as it is. */
  lemma PutSameRoot(m: Memory, m': Memory, t: Tree, par: Addr, path: Path, u: Tree)
    requires IsPath(t, path) && IsDistinct(t) && TreeAt(m, t, par)
    requires TreeAt(m', u, ParentAt(t, par, path)) && Root(u) == Root(Sub(t, path))
    requires forall p :: Has(t, p) && !Has(Sub(t, path), p) ==> SameNode(m, m', p)
    ensures TreeAt(m', Put(t, path, u), par)
  {
    if path != [] {
      ParentOutside(t, par, path);
      LinkDown(m, t, par, path);
      assert SameNode(m, m', ParentAt(t, par, path));
    }
    PutAt(m, m', t, par, path, u);
  }

  /** A new chunk hung below an open link. */
  function HangBelow(m: Memory, t: Addr, right: bool, x: Addr): Memory {
    m.SetChild(t, right, x).SetParent(x, t).SetFd(x, x).SetBk(x, x)
  }

  lemma HangBelowElsewhere(m: Memory, t: Addr, right: bool, x: Addr, p: Addr)
    requires p != x && p != t
    ensures SameNode(m, HangBelow(m, t, right, x), p)
  {
    if right { } else { }
  }

  lemma HangBelowHere(m: Memory, t: Addr, right: bool, x: Addr)
    requires t != x
    ensures var m' := HangBelow(m, t, right, x);
            && SameRing(m, m', t) && m.Parent(t) == m'.Parent(t) && m.SizeAt(t) == m'.SizeAt(t)
            && m.Child(t, !right) == m'.Child(t, !right) && m'.Child(t, right) == x
  {
    if right { } else { }
  }

  lemma HangBelowLeaf(m: Memory, t: Addr, right: bool, x: Addr)
    requires t != x && m.Child(x, false) == 0 && m.Child(x, true) == 0
    ensures TreeAt(HangBelow(m, t, right, x), Node(x, [], m.SizeAt(x), Nil, Nil), t)
  {
    if right { } else { }
  }

  lemma HangLeaf(m: Memory, t: Tree, par: Addr, path: Path, right: bool, x: Addr, s: nat)
    requires IsPath(t, path) && Sub(t, path).Node? && ChildOf(Sub(t, path), right) == Nil
    requires TreeAt(m, t, par) && IsDistinct(t) && !Has(t, x)
    requires m.SizeAt(x) == s && m.Child(x, false) == 0 && m.Child(x, true) == 0
    ensures IsPath(t, path + [right])
    ensures TreeAt(HangBelow(m, Sub(t, path).head, right, x), Put(t, path + [right], Node(x, [], s, Nil, Nil)), par)
  {
    var h := Sub(t, path).head;
    SubHas(t, path, h);
    var m' := HangBelow(m, h, right, x);
    PathStep(t, par, path, right);
    forall p | Has(t, p) && p != h ensures SameNode(m, m', p) { HangBelowElsewhere(m, h, right, x, p); }
    HangBelowHere(m, h, right, x);
    HangBelowLeaf(m, h, right, x);
    PutAt(m, m', t, par, path + [right], Node(x, [], s, Nil, Nil));
  }

  /** A new chunk linked into a ring behind h, whose successor is f. */
  function ChainBehind(m: Memory, h: Addr, f: Addr, x: Addr): Memory {
    LinkAfter(m, h, f, x).SetParent(x, 0)
  }

  lemma ChainBehindReads(m: Memory, h: Addr, f: Addr, x: Addr, p: Addr)
    requires p != x
    ensures var m' := ChainBehind(m, h, f, x);
            && m.Child(p, false) == m'.Child(p, false) && m.Child(p, true) == m'.Child(p, true)
            && m.Parent(p) == m'.Parent(p) && m.SizeAt(p) == m'.SizeAt(p)
            && (p != h && p != f ==> SameRing(m, m', p))
  {
  }

  lemma ChainBehindNew(m: Memory, h: Addr, f: Addr, x: Addr)
    ensures var m' := ChainBehind(m, h, f, x);
            && m.Child(x, false) == m'.Child(x, false) && m.Child(x, true) == m'.Child(x, true)
            && m'.Parent(x) == 0 && m.SizeAt(x) == m'.SizeAt(x)
  {
  }

  lemma ChainBehindRing(m: Memory, h: Addr, s: seq<Addr>, x: Addr)
    requires Ring(m, h, s) && x != h && x !in s && h !in s && DistinctSeq(s)
    ensures Ring(ChainBehind(m, h, m.Fd(h), x), h, [x] + s)
  {
    LinkIntoRing(m, h, s, x);
    var m1 := LinkAfter(m, h, m.Fd(h), x);
    forall p ensures SameRing(m1, m1.SetParent(x, 0), p) { SetParentFrame(m1, x, 0, p); }
    RingFrame(m1, m1.SetParent(x, 0), h, [x] + s);
  }

  lemma JoinRingNode(m: Memory, u: Tree, par: Addr, x: Addr)
    requires u.Node? && TreeAt(m, u, par) && IsDistinct(u) && !Has(u, x) && x != 0
    requires m.SizeAt(x) == u.size && m.Child(x, false) == 0 && m.Child(x, true) == 0
    ensures TreeAt(ChainBehind(m, u.head, m.Fd(u.head), x), u.(chain := [x] + u.chain), par)
  {
    var f := m.Fd(u.head);
    var m' := ChainBehind(m, u.head, f, x);
    ChainBehindRing(m, u.head, u.chain, x);
    ChainBehindNew(m, u.head, f, x);
    ChainBehindReads(m, u.head, f, x, u.head);
    assert f == u.head || (|u.chain| > 0 && f == u.chain[0]);
    forall p | Has(u.left, p) || Has(u.right, p) ensures SameNode(m, m', p) {
      ChainBehindReads(m, u.head, f, x, p);
    }
    TreeFrame(m, m', u.left, u.head);
    TreeFrame(m, m', u.right, u.head);
    forall p | p in u.chain ensures IsChained(m', p, u.size) { ChainBehindReads(m, u.head, f, x, p); }
  }

  /** A new chunk linked into the ring of the node of its size. */
  lemma JoinRing(m: Memory, t: Tree, par: Addr, path: Path, x: Addr, s: nat)
    requires IsPath(t, path) && Sub(t, path).Node? && Sub(t, path).size == s
    requires TreeAt(m, t, par) && IsDistinct(t) && !Has(t, x) && x != 0
    requires m.SizeAt(x) == s && m.Child(x, false) == 0 && m.Child(x, true) == 0
    ensures var u := Sub(t, path);
            TreeAt(ChainBehind(m, u.head, m.Fd(u.head), x), Put(t, path, u.(chain := [x] + u.chain)), par)
  {
    hide ChainBehind;
    var u := Sub(t, path);
    SubTreeAt(m, t, par, path);
    SubIsDistinct(t, path);
    if Has(u, x) { SubHas(t, path, x); }
    JoinRingNode(m, u, ParentAt(t, par, path), x);
    var f := m.Fd(u.head);
    assert f == u.head || (|u.chain| > 0 && f == u.chain[0]);
    var m' := ChainBehind(m, u.head, f, x);
    forall p | Has(t, p) && !Has(u, p) ensures SameNode(m, m', p) {
      ChainBehindReads(m, u.head, f, x, p);
    }
    PutSameRoot(m, m', t, par, path, u.(chain := [x] + u.chain));
  }

  lemma HangFrame(m: Memory, t: Tree, path: Path, right: bool, x: Addr)
    requires IsPath(t, path) && Sub(t, path).Node?
    ensures forall p :: p != x && !Has(t, p) ==> SameNode(m, HangBelow(m, Sub(t, path).head, right, x), p)
  {
    SubHas(t, path, Sub(t, path).head);
    forall p | p != x && !Has(t, p) ensures SameNode(m, HangBelow(m, Sub(t, path).head, right, x), p) {
      HangBelowElsewhere(m, Sub(t, path).head, right, x, p);
    }
  }

  lemma ChainFrame(m: Memory, t: Tree, par: Addr, path: Path, x: Addr)
    requires IsPath(t, path) && Sub(t, path).Node? && TreeAt(m, t, par)
    ensures var h := Sub(t, path).head;
            forall p :: p != x && !Has(t, p) ==> SameNode(m, ChainBehind(m, h, m.Fd(h), x), p)
  {
    var u := Sub(t, path);
    SubTreeAt(m, t, par, path);
    assert m.Fd(u.head) == u.head || (|u.chain| > 0 && m.Fd(u.head) == u.chain[0]);
    SubHas(t, path, u.head);
    SubHas(t, path, m.Fd(u.head));
    forall p | p != x && !Has(t, p) ensures SameNode(m, ChainBehind(m, u.head, m.Fd(u.head), x), p) {
      ChainBehindReads(m, u.head, m.Fd(u.head), x, p);
    }
  }

  /** The place path is where size s belongs, and register k holds its open bits at the top of w bits. */
  ghost predicate AtPlace(t0: Tree, s: nat, q: nat, n: nat, w: nat, path: Path, k: nat) {
    && IsPath(t0, path) && Sub(t0, path).Node? && |path| <= n <= w
    && IsTrie(Sub(t0, path), PrefixAt(q, path), n - |path|)
    && Shr(s, n - |path|) == PrefixAt(q, path)
    && s < Pow2(w) && k == Shl(s, w - n + |path|, w)
  }

  /** The sign bit of the register is the side on which size s continues. */
  lemma PlaceSide(t0: Tree, s: nat, q: nat, n: nat, w: nat, path: Path, k: nat)
    requires AtPlace(t0, s, q, n, w, path, k) && Sub(t0, path).size != s
    ensures |path| < n && k < Pow2(w)
    ensures Bit(k, w - 1) <==> GoesRight(s, n - |path|)
  {
    OpenBitLeft(Sub(t0, path).size, s, n - |path|);
    ShlBit(s, w - n + |path|, w, w - 1);
  }

  lemma PlaceStep(t0: Tree, s: nat, q: nat, n: nat, w: nat, path: Path, k: nat, d: bool)
    requires AtPlace(t0, s, q, n, w, path, k) && |path| < n
    requires d == GoesRight(s, n - |path|) && ChildOf(Sub(t0, path), d).Node?
    ensures k < Pow2(w) && AtPlace(t0, s, q, n, w, path + [d], Double(k, w))
    ensures Sub(t0, path + [d]) == ChildOf(Sub(t0, path), d)
  {
    PathStep(t0, 0, path, d);
    PrefixStep(q, path, d);
    ShrOneMore(s, n - |path| - 1);
    ShlOneMore(s, w - n + |path|, w);
  }

  /** The whole insertion is the insertion below the place path. */
  ghost predicate InsertsAt(t0: Tree, x: Addr, s: nat, n: nat, path: Path) {
    && IsPath(t0, path) && |path| <= n
    && Insert(t0, x, s, n) == Put(t0, path, Insert(Sub(t0, path), x, s, n - |path|))
  }

  lemma InsertStep(t0: Tree, x: Addr, s: nat, n: nat, path: Path, d: bool)
    requires InsertsAt(t0, x, s, n, path) && |path| < n && Sub(t0, path).Node? && Sub(t0, path).size != s
    requires d == GoesRight(s, n - |path|)
    ensures InsertsAt(t0, x, s, n, path + [d])
    ensures Sub(t0, path + [d]) == ChildOf(Sub(t0, path), d)
  {
    PathStep(t0, 0, path, d);
    PutStep(t0, path, d, Insert(ChildOf(Sub(t0, path), d), x, s, n - |path| - 1));
  }

  /** Node t at path has size s, or it has an open link on the side where size s belongs. */
  ghost predicate PlaceFound(t0: Tree, x: Addr, s: nat, n: nat, path: Path, t: Addr, equal: bool, right: bool) {
    && IsPath(t0, path) && Sub(t0, path).Node? && t == Sub(t0, path).head
    && (if equal then
          && Sub(t0, path).size == s
          && Insert(t0, x, s, n) == Put(t0, path, Sub(t0, path).(chain := [x] + Sub(t0, path).chain))
        else
          && ChildOf(Sub(t0, path), right) == Nil && IsPath(t0, path + [right])
          && Insert(t0, x, s, n) == Put(t0, path + [right], Node(x, [], s, Nil, Nil)))
  }

  lemma FoundEqual(t0: Tree, x: Addr, s: nat, n: nat, path: Path, right: bool)
    requires InsertsAt(t0, x, s, n, path) && Sub(t0, path).Node? && Sub(t0, path).size == s
    ensures PlaceFound(t0, x, s, n, path, Sub(t0, path).head, true, right)
  {
  }

  lemma FoundOpen(t0: Tree, x: Addr, s: nat, n: nat, path: Path, right: bool)
    requires IsPath(t0, path) && InsertsAt(t0, x, s, n, path + [right]) && Sub(t0, path).Node?
    requires Sub(t0, path + [right]) == ChildOf(Sub(t0, path), right) && Root(ChildOf(Sub(t0, path), right)) == 0
    requires !Has(t0, 0)
    ensures PlaceFound(t0, x, s, n, path, Sub(t0, path).head, false, right)
  {
    if ChildOf(Sub(t0, path), right).Node? {
      assert Has(Sub(t0, path), 0);
      SubHas(t0, path, 0);
    }
  }

  /** The sizes and child links of a tree: what a descent reads. */
  ghost predicate Readable(m: Memory, t: Tree)
    decreases t
  {
    t.Node? ==>
      && m.SizeAt(t.head) == t.size
      && m.Child(t.head, false) == Root(t.left) && m.Child(t.head, true) == Root(t.right)
      && Readable(m, t.left) && Readable(m, t.right)
  }

  lemma {:induction false} TreeIsReadable(m: Memory, t: Tree, par: Addr)
    requires TreeAt(m, t, par)
    ensures Readable(m, t)
    decreases t
  {
    if t.Node? {
      TreeIsReadable(m, t.left, t.head);
      TreeIsReadable(m, t.right, t.head);
    }
  }

  lemma {:induction false} ReadNode(m: Memory, t0: Tree, path: Path)
    requires IsPath(t0, path) && Readable(m, t0)
    ensures Readable(m, Sub(t0, path))
    decreases |path|
  {
    if path != [] {
      ReadNode(m, ChildOf(t0, path[0]), path[1..]);
    }
  }

  /** The descent of an insertion has reached node t at path, with register k. */
  ghost predicate Descending(m: Memory, t0: Tree, x: Addr, s: nat, q: nat, n: nat, w: nat, path: Path, k: nat,
                             t: Addr) {
    && AtPlace(t0, s, q, n, w, path, k) && InsertsAt(t0, x, s, n, path)
    && Readable(m, t0) && !Has(t0, 0)
    && t == Sub(t0, path).head && k < Pow2(w)
  }

  /** The descent ends at the node of size s or at an open link, and goes on otherwise. */
  lemma DescentStep(m: Memory, t0: Tree, x: Addr, s: nat, q: nat, n: nat, w: nat, path: Path, k: nat, t: Addr)
    requires Descending(m, t0, x, s, q, n, w, path, k, t) && w > 0
    ensures k < Pow2(w)
    ensures m.SizeAt(t) == s ==> PlaceFound(t0, x, s, n, path, t, true, false)
    ensures m.SizeAt(t) != s ==> var right := Bit(k, w - 1); var c := m.Child(t, right);
              if c == 0 then PlaceFound(t0, x, s, n, path, t, false, right)
              else |path| < n && Descending(m, t0, x, s, q, n, w, path + [right], Double(k, w), c)
  {
    ReadNode(m, t0, path);
    if m.SizeAt(t) == s {
      FoundEqual(t0, x, s, n, path, false);
    } else {
      PlaceSide(t0, s, q, n, w, path, k);
      var right := Bit(k, w - 1);
      InsertStep(t0, x, s, n, path, right);
      if m.Child(t, right) == 0 {
        FoundOpen(t0, x, s, n, path, right);
      } else {
        PlaceStep(t0, s, q, n, w, path, k, right);
      }
    }
  }

  lemma DescentStart(m: Memory, t0: Tree, x: Addr, s: nat, q: nat, n: nat, w: nat, c: nat)
    requires t0.Node? && Readable(m, t0) && !Has(t0, 0) && IsTrie(t0, q, n) && Shr(s, n) == q
    requires n <= w && c == w - n && s < Pow2(w)
    ensures Descending(m, t0, x, s, q, n, w, [], Shl(s, c, w), t0.head)
  {
  }

  // ---- Removal

  /** The neighbours of a chunk that is not itself in the tree close up over it. */
  lemma LeaveRing(m: Memory, t: Tree, par: Addr, path: Path, x: Addr)
    requires IsPath(t, path) && Sub(t, path).Node? && x in Sub(t, path).chain
    requires TreeAt(m, t, par) && IsDistinct(t)
    ensures m.Parent(x) == 0 && m.Bk(x) != x && x != Sub(t, path).head
    ensures Has(t, m.Fd(x)) && Has(t, m.Bk(x))
    ensures TreeAt(Join(m, m.Fd(x), m.Bk(x)), Remove(t, path, x), par)
  {
    var u := Sub(t, path);
    SubTreeAt(m, t, par, path);
    SubIsDistinct(t, path);
    var k := IndexOf(u.chain, x);
    UnlinkFromRing(m, u.head, u.chain, k);
    Neighbours(m, u.head, u.chain, k);
    assert IsChained(m, x, u.size);
    var f, b := m.Fd(x), m.Bk(x);
    assert (f == u.head || f in u.chain) && (b == u.head || b in u.chain);
    SubHas(t, path, f);
    SubHas(t, path, b);
    CloseUp(m, t, par, path, Without(u.chain, k), f, b);
  }

  /** The ring of a node closes up to s when its members f and b are joined. */
  lemma CloseUp(m: Memory, t: Tree, par: Addr, path: Path, s: seq<Addr>, f: Addr, b: Addr)
    requires IsPath(t, path) && Sub(t, path).Node? && TreeAt(m, t, par) && IsDistinct(t)
    requires Ring(Join(m, f, b), Sub(t, path).head, s) && forall p :: p in s ==> p in Sub(t, path).chain
    requires f == Sub(t, path).head || f in Sub(t, path).chain
    requires b == Sub(t, path).head || b in Sub(t, path).chain
    ensures TreeAt(Join(m, f, b), Put(t, path, Sub(t, path).(chain := s)), par)
  {
    hide Ring, IsDistinct, TreeAt;
    var u := Sub(t, path);
    SubTreeAt(m, t, par, path);
    SubIsDistinct(t, path);
    var m' := Join(m, f, b);
    forall p ensures SameLinks(m, m', p) && (p != f && p != b ==> SameNode(m, m', p)) {
      JoinKeeps(m, f, b, p);
    }
    LeaveRingNode(m, m', u, ParentAt(t, par, path), s);
    PutSameRoot(m, m', t, par, path, u.(chain := s));
  }

  /** Everything of a node but its ring links. */
  predicate SameLinks(m: Memory, m': Memory, p: Addr) {
    && m.Child(p, false) == m'.Child(p, false) && m.Child(p, true) == m'.Child(p, true)
    && m.Parent(p) == m'.Parent(p) && m.SizeAt(p) == m'.SizeAt(p)
  }

  lemma JoinKeeps(m: Memory, f: Addr, b: Addr, p: Addr)
    ensures SameLinks(m, Join(m, f, b), p)
    ensures p != f && p != b ==> SameNode(m, Join(m, f, b), p)
  {
  }

  /** A node whose ring alone changes. */
  lemma LeaveRingNode(m: Memory, m': Memory, u: Tree, par: Addr, s: seq<Addr>)
    requires u.Node? && TreeAt(m, u, par)
    requires Ring(m', u.head, s) && forall p :: p in s ==> p in u.chain
    requires forall p :: SameLinks(m, m', p)
    requires forall p :: Has(u.left, p) || Has(u.right, p) ==> SameNode(m, m', p)
    ensures TreeAt(m', u.(chain := s), par)
  {
    assert SameLinks(m, m', u.head);
    TreeFrame(m, m', u.left, u.head);
    TreeFrame(m, m', u.right, u.head);
    forall p | p in s ensures IsChained(m', p, u.size) { assert IsChained(m, p, u.size) && SameLinks(m, m', p); }
  }

  /** m' makes c the child of r on one side, where there is a c. */
  predicate Adopts(m: Memory, m': Memory, r: Addr, right: bool, c: Addr) {
    m' == if c == 0 then m else m.SetChild(r, right, c).SetParent(c, r)
  }

  lemma AdoptKeeps(m: Memory, m': Memory, r: Addr, right: bool, c: Addr, p: Addr)
    requires Adopts(m, m', r, right, c)
    ensures SameRing(m, m', p) && m.SizeAt(p) == m'.SizeAt(p)
    ensures p != c || c == 0 ==> m'.Parent(p) == m.Parent(p)
    ensures p != r ==> m'.Child(p, false) == m.Child(p, false) && m'.Child(p, true) == m.Child(p, true)
  {
    if c != 0 {
      SetChildFrame(m, r, right, c, p);
      SetParentFrame(m.SetChild(r, right, c), c, r, p);
    }
  }

  lemma AdoptSets(m: Memory, m': Memory, r: Addr, right: bool, c: Addr)
    requires Adopts(m, m', r, right, c) && m.Child(r, right) == 0
    ensures m'.Child(r, right) == c && m'.Child(r, !right) == m.Child(r, !right)
    ensures c != 0 ==> m'.Parent(c) == r
  {
  }

  /** The adopted subtree hangs below its new parent. */
  lemma AdoptTree(m: Memory, m': Memory, x: Addr, r: Addr, right: bool, t: Tree)
    requires TreeAt(m, t, x) && IsDistinct(t) && !Has(t, r) && m.Child(r, right) == 0
    requires Adopts(m, m', r, right, Root(t))
    ensures TreeAt(m', t, r)
  {
    if t.Node? {
      forall p | Has(t, p) && p != t.head ensures SameNode(m, m', p) {
        AdoptKeeps(m, m', r, right, Root(t), p);
      }
      AdoptKeeps(m, m', r, right, Root(t), t.head);
      AdoptSets(m, m', r, right, Root(t));
      ReparentFrame(m, m', t, x, r);
    }
  }

  lemma AdoptBoth(m: Memory, m1: Memory, m2: Memory, x: Addr, r: Addr, left: Tree, right: Tree)
    requires IsDistinct(left) && IsDistinct(right) && !Has(left, r) && !Has(right, r)
    requires forall p :: Has(left, p) ==> !Has(right, p)
    requires m.Child(r, false) == 0 && m.Child(r, true) == 0
    requires TreeAt(m, left, x) && TreeAt(m, right, x)
    requires Adopts(m, m1, r, false, Root(left)) && Adopts(m1, m2, r, true, Root(right))
    ensures TreeAt(m2, left, r) && TreeAt(m2, right, r)
    ensures m2.Child(r, false) == Root(left) && m2.Child(r, true) == Root(right)
  {
    AdoptTree(m, m1, x, r, false, left);
    AdoptSets(m, m1, r, false, Root(left));
    forall p | Has(right, p) ensures SameNode(m, m1, p) {
      AdoptKeeps(m, m1, r, false, Root(left), p);
    }
    TreeFrame(m, m1, right, x);
    AdoptTree(m1, m2, x, r, true, right);
    AdoptSets(m1, m2, r, true, Root(right));
    forall p | Has(left, p) ensures SameNode(m1, m2, p) {
      if right.Node? { assert Has(right, right.head); }
      AdoptKeeps(m1, m2, r, true, Root(right), p);
    }
    TreeFrame(m1, m2, left, r);
  }

  /** A replacement r for node x, with its own ring and no children, takes over the children of x. */
  lemma TakePlace(m: Memory, m1: Memory, m2: Memory, x: Addr, r: Addr, ring: seq<Addr>, size: nat, left: Tree,
                  right: Tree, xp: Addr)
    requires IsDistinct(Node(r, ring, size, left, right))
    requires Ring(m, r, ring) && (forall p :: p in ring ==> IsChained(m, p, size))
    requires m.SizeAt(r) == size && m.Child(r, false) == 0 && m.Child(r, true) == 0
    requires TreeAt(m, left, x) && TreeAt(m, right, x)
    requires Adopts(m.SetParent(r, xp), m1, r, false, Root(left)) && Adopts(m1, m2, r, true, Root(right))
    ensures TreeAt(m2, Node(r, ring, size, left, right), xp)
  {
    hide Adopts, Ring;
    var m0 := m.SetParent(r, xp);
    forall p ensures SameRing(m, m0, p) && (p != r ==> SameNode(m, m0, p)) { SetParentFrame(m, r, xp, p); }
    TreeFrame(m, m0, left, x);
    TreeFrame(m, m0, right, x);
    AdoptBoth(m0, m1, m2, x, r, left, right);
    TakePlaceKeeps(m, m1, m2, r, Root(left), Root(right), xp, r);
    forall p | p in ring ensures SameNode(m, m2, p) {
      if left.Node? { assert Has(left, left.head); }
      if right.Node? { assert Has(right, right.head); }
      TakePlaceKeeps(m, m1, m2, r, Root(left), Root(right), xp, p);
    }
    RingFrame(m, m2, r, ring);
    if left.Node? { assert Has(left, left.head); }
    if right.Node? { assert Has(right, right.head); }
    forall p | p in ring ensures IsChained(m2, p, size) { assert SameNode(m, m2, p); }
  }

  lemma TakePlaceKeeps(m: Memory, m1: Memory, m2: Memory, r: Addr, c0: Addr, c1: Addr, xp: Addr, p: Addr)
    requires Adopts(m.SetParent(r, xp), m1, r, false, c0) && Adopts(m1, m2, r, true, c1)
    ensures SameRing(m, m2, p) && m.SizeAt(p) == m2.SizeAt(p)
    ensures p != r && (p != c0 || c0 == 0) && (p != c1 || c1 == 0) ==> SameNode(m, m2, p)
    ensures r != c0 && r != c1 ==> m2.Parent(r) == xp
  {
    var m0 := m.SetParent(r, xp);
    SetParentFrame(m, r, xp, p);
    AdoptKeeps(m0, m1, r, false, c0, p);
    AdoptKeeps(m1, m2, r, true, c1, p);
    AdoptKeeps(m0, m1, r, false, c0, r);
    AdoptKeeps(m1, m2, r, true, c1, r);
  }

  // ---- Popping a leaf

  /** m' is m but for one child link of p. */
  lemma SetChildFrame(m: Memory, p: Addr, right: bool, v: Addr, a: Addr)
    ensures var m' := m.SetChild(p, right, v);
            && SameRing(m, m', a) && m.Parent(a) == m'.Parent(a) && m.SizeAt(a) == m'.SizeAt(a)
            && m'.Child(a, !right) == m.Child(a, !right)
            && m'.Child(p, right) == v
            && (a != p ==> SameNode(m, m', a))
  {
  }

  /** Clearing the link to a subtree takes it out. */
  lemma ClearLink(m: Memory, t: Tree, par: Addr, path: Path, side: bool)
    requires IsPath(t, path) && TreeAt(m, t, par) && IsDistinct(t) && !Has(t, par)
    requires path != [] ==> side == path[|path| - 1]
    ensures TreeAt(m.SetChild(ParentAt(t, par, path), side, 0), Put(t, path, Nil), par)
  {
    var p := ParentAt(t, par, path);
    var m' := m.SetChild(p, side, 0);
    forall a ensures SameRing(m, m', a) && m.Parent(a) == m'.Parent(a) && m.SizeAt(a) == m'.SizeAt(a)
      && m'.Child(a, !side) == m.Child(a, !side) && (a != p ==> SameNode(m, m', a))
    {
      SetChildFrame(m, p, side, 0, a);
    }
    SetChildFrame(m, p, side, 0, p);
    PutAt(m, m', t, par, path, Nil);
  }

  /** PopLeaf takes out the node that the walk down reaches. */
  lemma PopLeafStep(t: Tree, path: Path, right: bool)
    requires IsPath(t, path) && Sub(t, path).Node? && t.Node?
    requires right == Sub(t, path).right.Node? && (right || Sub(t, path).left.Node?)
    requires PopLeaf(t) == (Put(t, path, PopLeaf(Sub(t, path)).0), PopLeaf(Sub(t, path)).1)
    ensures IsPath(t, path + [right]) && Sub(t, path + [right]) == ChildOf(Sub(t, path), right)
    ensures var v := ChildOf(Sub(t, path), right);
            PopLeaf(t) == (Put(t, path + [right], PopLeaf(v).0), PopLeaf(v).1)
  {
    PathStep(t, 0, path, right);
    PutStep(t, path, right, PopLeaf(ChildOf(Sub(t, path), right)).0);
  }

  /** What is left below x, and the leaf itself, after the leaf's link is cleared. */
  ghost predicate Detached(m: Memory, x: Addr, u: Tree)
  {
    u.Node? ==>
      && Ring(m, u.head, u.chain) && (forall p :: p in u.chain ==> IsChained(m, p, u.size))
      && m.SizeAt(u.head) == u.size && m.Child(u.head, false) == 0 && m.Child(u.head, true) == 0
      && TreeAt(m, u.left, x) && TreeAt(m, u.right, x)
      && m.Child(x, false) == Root(u.left) && m.Child(x, true) == Root(u.right)
  }

  /** The links of a popped leaf are as before. */
  lemma LeafStays(m: Memory, m': Memory, c: Tree, path: Path, leaf: Tree, par: Addr, owner: Addr)
    requires IsPath(c, path) && leaf == Sub(c, path) && leaf.Node? && TreeAt(m, leaf, ParentAt(c, par, path))
    requires !Has(leaf, owner)
    requires forall a :: SameRing(m, m', a) && m.SizeAt(a) == m'.SizeAt(a) && (a != owner ==> SameNode(m, m', a))
    ensures Ring(m', leaf.head, leaf.chain) && m'.SizeAt(leaf.head) == leaf.size
    ensures forall p :: p in leaf.chain ==> IsChained(m', p, leaf.size)
    ensures forall right :: m'.Child(leaf.head, right) == m.Child(leaf.head, right)
  {
    hide ParentAt, Sub;
    RingFrame(m, m', leaf.head, leaf.chain);
    assert Has(leaf, leaf.head);
    forall p | p in leaf.chain ensures IsChained(m', p, leaf.size) {
      assert Has(leaf, p) && IsChained(m, p, leaf.size);
    }
  }

  /** The leaf at path below the subtree on side d of node u is popped. */
  lemma DetachLeaf(m: Memory, u: Tree, par: Addr, d: bool, path: Path)
    requires u.Node? && u.chain == [] && TreeAt(m, u, par) && IsDistinct(u)
    requires ChildOf(u, d).Node? && d == u.right.Node?
    requires IsPath(ChildOf(u, d), path)
    requires PopLeaf(ChildOf(u, d)) == (Put(ChildOf(u, d), path, Nil), Sub(ChildOf(u, d), path))
    ensures var side := if path == [] then d else path[|path| - 1];
            var owner := ParentAt(ChildOf(u, d), u.head, path);
            Detached(m.SetChild(owner, side, 0), u.head, Cut(u, u.head)) && Has(u, owner)
  {
    hide ParentAt, PopLeaf, Ring, SameNode;
    var c := ChildOf(u, d);
    var side := if path == [] then d else path[|path| - 1];
    var owner := ParentAt(c, u.head, path);
    var m' := m.SetChild(owner, side, 0);
    var leaf := Sub(c, path);
    ClearLink(m, c, u.head, path, side);
    SubTreeAt(m, c, u.head, path);
    if path != [] {
      ParentOutside(c, u.head, path);
    } else {
      SubHas(c, path, leaf.head);
    }
    forall a ensures SameRing(m, m', a) && m.SizeAt(a) == m'.SizeAt(a) && (a != owner ==> SameNode(m, m', a))
    {
      SetChildFrame(m, owner, side, 0, a);
    }
    SetChildFrame(m, owner, side, 0, u.head);
    TreeFrame(m, m', ChildOf(u, !d), u.head);
    LeafStays(m, m', c, path, leaf, u.head, owner);
  }

  /** A node with a longer ring is replaced by its predecessor in the ring. */
  lemma DetachHead(m: Memory, u: Tree, par: Addr)
    requires u.Node? && u.chain != [] && TreeAt(m, u, par) && IsDistinct(u)
    ensures m.Bk(u.head) == Root(Cut(u, u.head)) && m.Bk(u.head) != u.head
    ensures Has(u, m.Fd(u.head)) && Has(u, m.Bk(u.head))
    ensures Detached(Join(m, m.Fd(u.head), m.Bk(u.head)), u.head, Cut(u, u.head))
  {
    var f, b := m.Fd(u.head), m.Bk(u.head);
    var m' := Join(m, f, b);
    UnlinkHead(m, u.head, u.chain);
    forall p ensures SameLinks(m, m', p) && (p != f && p != b ==> SameNode(m, m', p)) {
      JoinKeeps(m, f, b, p);
    }
    assert f in u.chain && b in u.chain;
    TreeFrame(m, m', u.left, u.head);
    TreeFrame(m, m', u.right, u.head);
    forall p | p in u.chain ensures IsChained(m', p, u.size) { assert IsChained(m, p, u.size) && SameLinks(m, m', p); }
    assert SameLinks(m, m', u.head);
  }

  /** The stores by which the link to node x is turned to its replacement r. */
  predicate Relinks(m: Memory, m': Memory, t: Tree, par: Addr, path: Path, r: Addr)
    requires IsPath(t, path)
  {
    m' == if path == [] then m else m.SetChild(ParentAt(t, par, path), path[|path| - 1], r)
  }

  lemma RelinkKeeps(m: Memory, m': Memory, t: Tree, par: Addr, path: Path, r: Addr, p: Addr)
    requires IsPath(t, path) && Relinks(m, m', t, par, path, r)
    ensures SameRing(m, m', p) && m.Parent(p) == m'.Parent(p) && m.SizeAt(p) == m'.SizeAt(p)
    ensures path == [] || p != ParentAt(t, par, path) ==> SameNode(m, m', p)
    ensures path != [] ==> m'.Child(ParentAt(t, par, path), path[|path| - 1]) == r
    ensures path != [] ==> m'.Child(p, !path[|path| - 1]) == m.Child(p, !path[|path| - 1])
  {
  }

  /** A detached replacement keeps its shape while the link from above is turned to it. */
  lemma RelinkDetached(m: Memory, m': Memory, t: Tree, par: Addr, path: Path, x: Addr, u: Tree)
    requires IsPath(t, path) && Relinks(m, m', t, par, path, Root(u))
    requires u.Node? && Detached(m, x, u)
    requires path != [] ==> !Has(u, ParentAt(t, par, path)) && ParentAt(t, par, path) != x
    ensures Detached(m', x, u)
  {
    forall p | Has(u, p) || p == x ensures SameNode(m, m', p) {
      RelinkKeeps(m, m', t, par, path, Root(u), p);
    }
    RingFrame(m, m', u.head, u.chain);
    TreeFrame(m, m', u.left, x);
    TreeFrame(m, m', u.right, x);
    forall p | p in u.chain ensures IsChained(m', p, u.size) { assert Has(u, p) && IsChained(m, p, u.size); }
    assert SameNode(m, m', u.head) && SameNode(m, m', x);
  }

  /** Node x is gone from the tree once nothing takes its place and the link to it is cleared. */
  lemma DropNode(m: Memory, m': Memory, t: Tree, par: Addr, path: Path)
    requires IsPath(t, path) && Sub(t, path).Node? && TreeAt(m, t, par) && IsDistinct(t)
    requires Relinks(m, m', t, par, path, 0)
    ensures TreeAt(m', Put(t, path, Nil), par)
  {
    forall p | path == [] || p != ParentAt(t, par, path) ensures SameNode(m, m', p) {
      RelinkKeeps(m, m', t, par, path, 0, p);
    }
    RelinkKeeps(m, m', t, par, path, 0, if path == [] then 0 else ParentAt(t, par, path));
    PutAt(m, m', t, par, path, Nil);
  }

  /** The tree without x, once its replacement v has been detached, linked from above, and given x's children. */
  lemma ReplaceNode(m: Memory, m1: Memory, m2: Memory, m3: Memory, m4: Memory, t: Tree, par: Addr, path: Path, v: Tree)
    requires IsPath(t, path) && Sub(t, path).Node? && TreeAt(m, t, par) && IsDistinct(t)
    requires v == Cut(Sub(t, path), Sub(t, path).head) && v.Node?
    requires forall p :: !Has(Sub(t, path), p) ==> SameNode(m, m1, p)
    requires Detached(m1, Sub(t, path).head, v)
    requires Relinks(m1, m2, t, par, path, v.head)
    requires Adopts(m2.SetParent(v.head, ParentAt(t, par, path)), m3, v.head, false, Root(v.left))
    requires Adopts(m3, m4, v.head, true, Root(v.right))
    ensures TreeAt(m4, Remove(t, path, Sub(t, path).head), par)
    ensures forall p :: !Has(t, p) && (path == [] || p != ParentAt(t, par, path)) ==> SameNode(m, m4, p)
  {
    hide SameNode, Ring, DistinctSeq, TreeAt, Sub;
    var u := Sub(t, path);
    var xp := ParentAt(t, par, path);
    SubIsDistinct(t, path);
    CutDistinct(u, u.head);
    forall p | Has(v, p) ensures Has(u, p) { CutLosesOne(u, u.head, p, 0); }
    if path != [] {
      ParentOutside(t, par, path);
    }
    RelinkDetached(m1, m2, t, par, path, u.head, v);
    TakePlace(m2, m3, m4, u.head, v.head, v.chain, v.size, v.left, v.right, xp);
    ReplaceFrame(m, m1, m2, m3, m4, t, par, path, v);
    forall p | Has(u, p) ensures Has(t, p) { SubHas(t, path, p); }
    PutAt(m, m4, t, par, path, v);
  }

  lemma ReplaceFrame(m: Memory, m1: Memory, m2: Memory, m3: Memory, m4: Memory, t: Tree, par: Addr, path: Path, v: Tree)
    requires IsPath(t, path) && v.Node?
    requires forall p :: Has(v, p) ==> Has(Sub(t, path), p)
    requires forall p :: !Has(Sub(t, path), p) ==> SameNode(m, m1, p)
    requires Relinks(m1, m2, t, par, path, v.head)
    requires Adopts(m2.SetParent(v.head, ParentAt(t, par, path)), m3, v.head, false, Root(v.left))
    requires Adopts(m3, m4, v.head, true, Root(v.right))
    requires path != [] ==> !Has(Sub(t, path), ParentAt(t, par, path))
    ensures forall p :: !Has(Sub(t, path), p) && (path == [] || p != ParentAt(t, par, path)) ==> SameNode(m, m4, p)
    ensures path != [] ==> var p := ParentAt(t, par, path); var d := path[|path| - 1];
              && SameRing(m, m4, p) && m.Parent(p) == m4.Parent(p) && m.SizeAt(p) == m4.SizeAt(p)
              && m.Child(p, !d) == m4.Child(p, !d) && m4.Child(p, d) == v.head
  {
    TakePlaceOutside(m2, m3, m4, v, ParentAt(t, par, path));
    RelinkFrame(m, m1, m2, m4, t, par, path, v.head);
  }

  lemma TakePlaceOutside(m: Memory, m1: Memory, m2: Memory, v: Tree, xp: Addr)
    requires v.Node?
    requires Adopts(m.SetParent(v.head, xp), m1, v.head, false, Root(v.left))
    requires Adopts(m1, m2, v.head, true, Root(v.right))
    ensures forall p :: !Has(v, p) ==> SameNode(m, m2, p)
  {
    assert Has(v, v.head);
    if v.left.Node? { assert Has(v, v.left.head); }
    if v.right.Node? { assert Has(v, v.right.head); }
    forall p | !Has(v, p) ensures SameNode(m, m2, p) {
      TakePlaceKeeps(m, m1, m2, v.head, Root(v.left), Root(v.right), xp, p);
    }
  }

  lemma RelinkFrame(m: Memory, m1: Memory, m2: Memory, m4: Memory, t: Tree, par: Addr, path: Path, r: Addr)
    requires IsPath(t, path) && Relinks(m1, m2, t, par, path, r)
    requires forall p :: !Has(Sub(t, path), p) ==> SameNode(m, m1, p) && SameNode(m2, m4, p)
    requires path != [] ==> !Has(Sub(t, path), ParentAt(t, par, path))
    ensures forall p :: !Has(Sub(t, path), p) && (path == [] || p != ParentAt(t, par, path)) ==> SameNode(m, m4, p)
    ensures path != [] ==> var p := ParentAt(t, par, path); var d := path[|path| - 1];
              && SameRing(m, m4, p) && m.Parent(p) == m4.Parent(p) && m.SizeAt(p) == m4.SizeAt(p)
              && m.Child(p, !d) == m4.Child(p, !d) && m4.Child(p, d) == r
  {
    var xp := ParentAt(t, par, path);
    forall p | !Has(Sub(t, path), p) && (path == [] || p != xp) ensures SameNode(m, m4, p) {
      RelinkKeeps(m1, m2, t, par, path, r, p);
      assert SameNode(m, m1, p) && SameNode(m2, m4, p);
    }
    if path != [] {
      RelinkKeeps(m1, m2, t, par, path, r, xp);
      assert SameNode(m, m1, xp) && SameNode(m2, m4, xp);
    }
  }

  // ---- The steps of unlink_large_chunk

  ghost predicate IsAt(t: Tree, path: Path, x: Addr) {
    IsPath(t, path) && Sub(t, path).Node? && (x == Sub(t, path).head || x in Sub(t, path).chain)
  }

  /** The walk to the leaf that replaces the head of u has reached r, which hangs from owner on one side. */
  ghost predicate PopWalk(m: Memory, u: Tree, d: bool, path: Path, v: Tree, r: Addr, owner: Addr, side: bool) {
    && u.Node? && ChildOf(u, d).Node? && d == u.right.Node?
    && IsPath(ChildOf(u, d), path) && v == Sub(ChildOf(u, d), path) && v.Node?
    && r == v.head && owner == ParentAt(ChildOf(u, d), u.head, path)
    && side == (if path == [] then d else path[|path| - 1])
    && PopLeaf(ChildOf(u, d)) == (Put(ChildOf(u, d), path, PopLeaf(v).0), PopLeaf(v).1)
    && Readable(m, v) && !Has(v, 0)
  }

  lemma PopWalkStart(m: Memory, u: Tree)
    requires u.Node? && (u.left.Node? || u.right.Node?) && Readable(m, u) && !Has(u, 0)
    ensures var d := m.Child(u.head, true) != 0; var c := ChildOf(u, d);
            c.Node? && m.Child(u.head, d) == c.head && PopWalk(m, u, d, [], c, c.head, u.head, d)
  {
    assert u.right.Node? ==> Has(u, u.right.head);
    assert u.left.Node? ==> Has(u, u.left.head);
    var d := u.right.Node?;
    PutSame(ChildOf(u, d), []);
  }

  lemma PopWalkStep(m: Memory, u: Tree, d: bool, path: Path, v: Tree, r: Addr, owner: Addr, side: bool)
    requires PopWalk(m, u, d, path, v, r, owner, side)
    ensures var right := m.Child(r, true) != 0; var c := m.Child(r, right);
            if c == 0 then v.left == Nil && v.right == Nil
            else ChildOf(v, right).Node? && PopWalk(m, u, d, path + [right], ChildOf(v, right), c, r, right)
  {
    assert v.right.Node? ==> Has(v, v.right.head);
    assert v.left.Node? ==> Has(v, v.left.head);
    if v.left.Node? || v.right.Node? {
      var right := v.right.Node?;
      PopLeafStep(ChildOf(u, d), path, right);
      PathStep(ChildOf(u, d), u.head, path, right);
    }
  }

  /** Once the walk has reached a leaf, clearing the link to it detaches it. */
  lemma PopWalkEnd(m: Memory, u: Tree, par: Addr, d: bool, path: Path, v: Tree, r: Addr, owner: Addr, side: bool)
    requires PopWalk(m, u, d, path, v, r, owner, side) && v.left == Nil && v.right == Nil
    requires u.chain == [] && TreeAt(m, u, par) && IsDistinct(u)
    ensures r == Root(Cut(u, u.head))
    ensures Detached(m.SetChild(owner, side, 0), u.head, Cut(u, u.head)) && Has(u, owner)
  {
    DetachLeaf(m, u, par, d, path);
  }

  /** The words of chunk x by which unlink_large_chunk tells the cases apart. */
  lemma UnlinkCases(m: Memory, t: Tree, par: Addr, path: Path, x: Addr)
    requires IsAt(t, path, x) && TreeAt(m, t, par) && IsDistinct(t) && !Has(t, 0) && par != 0
    ensures x != Sub(t, path).head ==> m.Parent(x) == 0 && m.Bk(x) != x
    ensures x == Sub(t, path).head ==> m.Parent(x) == ParentAt(t, par, path) && m.Parent(x) != 0
    ensures x == Sub(t, path).head ==> (m.Bk(x) != x <==> Sub(t, path).chain != [])
  {
    SubTreeAt(m, t, par, path);
    SubIsDistinct(t, path);
    if x != Sub(t, path).head {
      LeaveRing(m, t, par, path, x);
    } else {
      if Sub(t, path).chain != [] { DetachHead(m, Sub(t, path), ParentAt(t, par, path)); }
      if path != [] { ParentOutside(t, par, path); }
    }
  }

  /** After the first half of unlink_large_chunk: x is out of its ring, or its replacement r is at hand. */
  ghost predicate HalfUnlinked(m: Memory, m1: Memory, t: Tree, par: Addr, path: Path, x: Addr, r: Addr) {
    && IsAt(t, path, x)
    && (x != Sub(t, path).head ==> TreeAt(m1, Remove(t, path, x), par))
    && (x == Sub(t, path).head ==> r == Root(Cut(Sub(t, path), x)) && Detached(m1, x, Cut(Sub(t, path), x)))
    && (x == Sub(t, path).head && Cut(Sub(t, path), x) == Nil ==> m1 == m)
    && forall p :: !Has(Sub(t, path), p) ==> SameNode(m, m1, p)
  }

  lemma UnlinkFromRingHalf(m: Memory, t: Tree, par: Addr, path: Path, x: Addr)
    requires IsAt(t, path, x) && TreeAt(m, t, par) && IsDistinct(t) && m.Bk(x) != x
    ensures HalfUnlinked(m, Join(m, m.Fd(x), m.Bk(x)), t, par, path, x, m.Bk(x))
  {
    var u := Sub(t, path);
    SubTreeAt(m, t, par, path);
    SubIsDistinct(t, path);
    var f, b := m.Fd(x), m.Bk(x);
    if x != u.head {
      LeaveRing(m, t, par, path, x);
      Neighbours(m, u.head, u.chain, IndexOf(u.chain, x));
    } else {
      DetachHead(m, u, ParentAt(t, par, path));
    }
    assert Has(u, f) && Has(u, b);
    forall p | !Has(u, p) ensures SameNode(m, Join(m, f, b), p) { JoinKeeps(m, f, b, p); }
  }

  lemma PopLeafHalf(m: Memory, t: Tree, par: Addr, path: Path, x: Addr, d: bool, q: Path, v: Tree, r: Addr,
                    owner: Addr, side: bool)
    requires IsAt(t, path, x) && x == Sub(t, path).head && Sub(t, path).chain == [] && TreeAt(m, t, par)
    requires IsDistinct(t)
    requires PopWalk(m, Sub(t, path), d, q, v, r, owner, side) && v.left == Nil && v.right == Nil
    ensures HalfUnlinked(m, m.SetChild(owner, side, 0), t, par, path, x, r)
  {
    var u := Sub(t, path);
    SubTreeAt(m, t, par, path);
    SubIsDistinct(t, path);
    PopWalkEnd(m, u, ParentAt(t, par, path), d, q, v, r, owner, side);
    forall p | !Has(u, p) ensures SameNode(m, m.SetChild(owner, side, 0), p) { SetChildFrame(m, owner, side, 0, p); }
  }

  /** A leaf of the trie goes without a replacement. */
  lemma NoReplacement(m: Memory, t: Tree, par: Addr, path: Path, x: Addr)
    requires IsAt(t, path, x) && x == Sub(t, path).head && Sub(t, path).chain == []
    requires Sub(t, path).left == Nil && Sub(t, path).right == Nil
    ensures HalfUnlinked(m, m, t, par, path, x, 0)
  {
  }

  lemma ReadableBelow(m: Memory, t: Tree, par: Addr, path: Path)
    requires IsPath(t, path) && Sub(t, path).Node? && TreeAt(m, t, par) && !Has(t, 0)
    ensures Readable(m, Sub(t, path)) && !Has(Sub(t, path), 0)
    ensures (m.Child(Sub(t, path).head, true) != 0 || m.Child(Sub(t, path).head, false) != 0)
            <==> (Sub(t, path).left.Node? || Sub(t, path).right.Node?)
  {
    var u := Sub(t, path);
    SubTreeAt(m, t, par, path);
    TreeIsReadable(m, u, ParentAt(t, par, path));
    if Has(u, 0) { SubHas(t, path, 0); }
    assert u.right.Node? ==> Has(u, u.right.head);
    assert u.left.Node? ==> Has(u, u.left.head);
  }

  /** The other child of a node's parent is not that node; nor is the root, for a node below it. */
  lemma {:induction false} LinkSide(m: Memory, t: Tree, par: Addr, path: Path)
    requires IsPath(t, path) && path != [] && TreeAt(m, t, par) && IsDistinct(t) && Sub(t, path).Node? && !Has(t, 0)
    ensures m.Child(ParentAt(t, par, path), !path[|path| - 1]) != Sub(t, path).head
    ensures Sub(t, path).head != t.head
    decreases |path|
  {
    var c := ChildOf(t, path[0]);
    var x := Sub(t, path).head;
    assert Has(Sub(t, path), x);
    SubHas(c, path[1..], x);
    if |path| > 1 {
      LinkSide(m, c, t.head, path[1..]);
    } else {
      assert path[1..] == [];
      var o := ChildOf(t, !path[0]);
      if o.Node? { assert Has(o, o.head); }
      assert Has(t, x);
    }
  }

  /** What the second half reads: the links to x from above. */
  ghost predicate LinksTo(m: Memory, t: Tree, par: Addr, path: Path, x: Addr) {
    && IsPath(t, path) && t.Node?
    && (path == [] <==> x == t.head)
    && (path != [] ==>
          && m.Child(ParentAt(t, par, path), path[|path| - 1]) == x
          && m.Child(ParentAt(t, par, path), !path[|path| - 1]) != x)
  }

  lemma LinksToX(m: Memory, m1: Memory, t: Tree, par: Addr, path: Path, x: Addr, r: Addr)
    requires HalfUnlinked(m, m1, t, par, path, x, r) && x == Sub(t, path).head
    requires TreeAt(m, t, par) && IsDistinct(t) && !Has(t, 0)
    ensures LinksTo(m1, t, par, path, x)
  {
    if path != [] {
      LinkSide(m, t, par, path);
      LinkDown(m, t, par, path);
      ParentOutside(t, par, path);
      assert SameNode(m, m1, ParentAt(t, par, path));
    }
  }

  /** What both halves together make of the tree. */
  lemma UnlinkDone(m: Memory, m1: Memory, m2: Memory, m3: Memory, m4: Memory, t: Tree, par: Addr, path: Path,
                   x: Addr, r: Addr)
    requires HalfUnlinked(m, m1, t, par, path, x, r) && x == Sub(t, path).head
    requires TreeAt(m, t, par) && IsDistinct(t) && !Has(t, 0)
    requires Relinks(m1, m2, t, par, path, r)
    requires r == 0 ==> m4 == m2
    requires r != 0 ==> Adopts(m2.SetParent(r, ParentAt(t, par, path)), m3, r, false,
                               m2.SetParent(r, ParentAt(t, par, path)).Child(x, false))
    requires r != 0 ==> Adopts(m3, m4, r, true, m3.Child(x, true))
    ensures TreeAt(m4, Remove(t, path, x), par)
    ensures forall p :: !Has(t, p) ==> SameNode(m, m4, p)
    ensures path == [] ==> Root(Remove(t, path, x)) == r
    ensures path != [] ==> Root(Remove(t, path, x)) == t.head
  {
    hide SameNode, IsChained, Ring, TreeAt;
    var u := Sub(t, path);
    var v := Cut(u, x);
    SubIsDistinct(t, path);
    if path != [] { ParentOutside(t, par, path); }
    if v == Nil {
      DropNode(m, m2, t, par, path);
      forall p | !Has(t, p) ensures SameNode(m, m4, p) { RelinkKeeps(m1, m2, t, par, path, 0, p); }
    } else {
      CutKeepsNonNull(t, path, x);
      UnlinkAdopts(m1, m2, m3, m4, t, par, path, x, v);
      ReplaceNode(m, m1, m2, m3, m4, t, par, path, v);
    }
  }

  lemma CutKeepsNonNull(t: Tree, path: Path, x: Addr)
    requires IsAt(t, path, x) && IsDistinct(t) && !Has(t, 0)
    ensures Cut(Sub(t, path), x).Node? ==> Cut(Sub(t, path), x).head != 0
    ensures forall p :: Has(Cut(Sub(t, path), x), p) ==> Has(t, p) && Has(Sub(t, path), p) && p != x
  {
    SubIsDistinct(t, path);
    forall p | Has(Cut(Sub(t, path), x), p) ensures Has(t, p) && Has(Sub(t, path), p) && p != x {
      CutLosesOne(Sub(t, path), x, p, 0);
      SubHas(t, path, p);
    }
  }

  /** The children that r adopts are those that x is left with. */
  lemma UnlinkAdopts(m1: Memory, m2: Memory, m3: Memory, m4: Memory, t: Tree, par: Addr, path: Path, x: Addr, v: Tree)
    requires IsAt(t, path, x) && x == Sub(t, path).head && v == Cut(Sub(t, path), x) && v.Node?
    requires Detached(m1, x, v) && Relinks(m1, m2, t, par, path, v.head)
    requires path != [] ==> !Has(Sub(t, path), ParentAt(t, par, path))
    requires forall p :: Has(v, p) ==> p != x
    requires var m0 := m2.SetParent(v.head, ParentAt(t, par, path)); Adopts(m0, m3, v.head, false, m0.Child(x, false))
    requires Adopts(m3, m4, v.head, true, m3.Child(x, true))
    ensures Adopts(m2.SetParent(v.head, ParentAt(t, par, path)), m3, v.head, false, Root(v.left))
    ensures Adopts(m3, m4, v.head, true, Root(v.right))
  {
    var m0 := m2.SetParent(v.head, ParentAt(t, par, path));
    assert Has(Sub(t, path), x);
    RelinkKeeps(m1, m2, t, par, path, v.head, x);
    SetParentFrame(m2, v.head, ParentAt(t, par, path), x);
    assert Has(v, v.head);
    AdoptKeeps(m0, m3, v.head, false, m0.Child(x, false), x);
  }

  /** A chunk that is not itself in the tree is gone after the first half. */
  lemma ChainedDone(m: Memory, m1: Memory, t: Tree, par: Addr, path: Path, x: Addr, r: Addr)
    requires HalfUnlinked(m, m1, t, par, path, x, r) && x != Sub(t, path).head
    ensures TreeAt(m1, Remove(t, path, x), par)
    ensures forall p :: !Has(t, p) ==> SameNode(m, m1, p)
    ensures Remove(t, path, x).Node? && Root(Remove(t, path, x)) == Root(t)
  {
    forall p | !Has(t, p) ensures SameNode(m, m1, p) {
      if Has(Sub(t, path), p) { SubHas(t, path, p); }
    }
  }
}
