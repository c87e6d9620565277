/**
 The words that dlmalloc keeps inside the heap: boundary tags and links, read by field.
 A word that was never written reads as zero.
 */
module Heap {
  import opened Trie

  type Words = map<Addr, nat>

  function At(w: Words, a: Addr): nat {
    if a in w then w[a] else 0
  }

  /** A chunk's head word: its size with the CINUSE and PINUSE bits. */
  datatype Head = Head(size: nat, cinuse: bool, pinuse: bool)

  datatype Memory = Memory(
    head: map<Addr, Head>, prevFoot: Words,
    fd: Words, bk: Words, child: map<(Addr, bool), Addr>, parent: Words, index: Words)
  {
    function HeadAt(p: Addr): Head { if p in head then head[p] else Head(0, false, false) }
    function SizeAt(p: Addr): nat { HeadAt(p).size }
    function Cinuse(p: Addr): bool { HeadAt(p).cinuse }
    function Pinuse(p: Addr): bool { HeadAt(p).pinuse }
    function Foot(p: Addr): nat { At(prevFoot, p) }

    function Fd(p: Addr): Addr { At(fd, p) }
    function Bk(p: Addr): Addr { At(bk, p) }
    function Child(p: Addr, right: bool): Addr { if (p, right) in child then child[(p, right)] else 0 }
    function Parent(p: Addr): Addr { At(parent, p) }
    function Index(p: Addr): nat { At(index, p) }

    function SetHead(p: Addr, h: Head): Memory { this.(head := head[p := h]) }
    function SetFoot(p: Addr, v: nat): Memory { this.(prevFoot := prevFoot[p := v]) }
    function SetFd(p: Addr, v: Addr): Memory { this.(fd := fd[p := v]) }
    function SetBk(p: Addr, v: Addr): Memory { this.(bk := bk[p := v]) }
    function SetChild(p: Addr, right: bool, v: Addr): Memory { this.(child := child[(p, right) := v]) }
    function SetParent(p: Addr, v: Addr): Memory { this.(parent := parent[p := v]) }
    function SetIndex(p: Addr, v: nat): Memory { this.(index := index[p := v]) }
  }

  // ---- Circular doubly linked lists

  /** The ring h, s[0], s[1], ..., back to h. */
  ghost predicate Ring(m: Memory, h: Addr, s: seq<Addr>) {
    && m.Fd(h) == (if |s| > 0 then s[0] else h)
    && m.Bk(h) == (if |s| > 0 then s[|s| - 1] else h)
    && (forall k {:trigger m.Fd(s[k])} :: 0 <= k < |s| ==> m.Fd(s[k]) == (if k + 1 < |s| then s[k + 1] else h))
    && (forall k {:trigger m.Bk(s[k])} :: 0 <= k < |s| ==> m.Bk(s[k]) == (if k > 0 then s[k - 1] else h))
  }

  /** Member k of the ring is linked to its neighbours. */
  ghost predicate Linked(m: Memory, h: Addr, s: seq<Addr>, k: nat)
    requires k < |s|
  {
    && m.Fd(s[k]) == (if k + 1 < |s| then s[k + 1] else h)
    && m.Bk(s[k]) == (if k > 0 then s[k - 1] else h)
  }

  lemma Neighbours(m: Memory, h: Addr, s: seq<Addr>, k: nat)
    requires Ring(m, h, s) && k < |s|
    ensures Linked(m, h, s, k)
  {
  }

  lemma RingIntro(m: Memory, h: Addr, s: seq<Addr>)
    requires m.Fd(h) == (if |s| > 0 then s[0] else h)
    requires m.Bk(h) == (if |s| > 0 then s[|s| - 1] else h)
    requires forall k :: 0 <= k < |s| ==> Linked(m, h, s, k)
    ensures Ring(m, h, s)
  {
    forall k | 0 <= k < |s|
      ensures m.Fd(s[k]) == (if k + 1 < |s| then s[k + 1] else h)
      ensures m.Bk(s[k]) == (if k > 0 then s[k - 1] else h)
    {
      assert Linked(m, h, s, k);
    }
  }

  /** The ring links of p are the same in both memories. */
  predicate SameRing(m: Memory, m': Memory, p: Addr) {
    m.Fd(p) == m'.Fd(p) && m.Bk(p) == m'.Bk(p)
  }

  lemma RingFrame(m: Memory, m': Memory, h: Addr, s: seq<Addr>)
    requires Ring(m, h, s) && SameRing(m, m', h) && forall p :: p in s ==> SameRing(m, m', p)
    ensures Ring(m', h, s)
  {
    forall k | 0 <= k < |s|
      ensures m'.Fd(s[k]) == m.Fd(s[k]) && m'.Bk(s[k]) == m.Bk(s[k])
    {
      assert SameRing(m, m', s[k]);
    }
  }

  /** Links p in behind h: the four stores of insert_small_chunk, where f is the old h.fd. */
  function LinkAfter(m: Memory, h: Addr, f: Addr, p: Addr): Memory {
    m.SetFd(h, p).SetBk(f, p).SetFd(p, f).SetBk(p, h)
  }

  lemma LinkAfterReads(m: Memory, h: Addr, f: Addr, p: Addr, a: Addr)
    requires p != h && p != f
    ensures LinkAfter(m, h, f, p).Fd(a) == if a == p then f else if a == h then p else m.Fd(a)
    ensures LinkAfter(m, h, f, p).Bk(a) == if a == p then h else if a == f then p else m.Bk(a)
  {
  }

  lemma LinkFirst(m: Memory, h: Addr, p: Addr)
    requires p != h
    ensures Ring(LinkAfter(m, h, h, p), h, [p])
  {
    LinkAfterReads(m, h, h, p, h);
    LinkAfterReads(m, h, h, p, p);
  }

  lemma LinkIntoRing(m: Memory, h: Addr, s: seq<Addr>, p: Addr)
    requires Ring(m, h, s) && p != h && p !in s && h !in s && DistinctSeq(s)
    ensures Ring(LinkAfter(m, h, m.Fd(h), p), h, [p] + s)
  {
    var f := m.Fd(h);
    var m' := LinkAfter(m, h, f, p);
    var s' := [p] + s;
    LinkAfterReads(m, h, f, p, p);
    LinkAfterReads(m, h, f, p, h);
    assert s'[0] == p && s'[|s'| - 1] == if |s| > 0 then s[|s| - 1] else p;
    assert |s'| > 1 ==> s'[1] == s[0];
    forall k | 0 < k < |s'|
      ensures Linked(m', h, s', k)
    {
      LinkAfterReads(m, h, f, p, s[k - 1]);
      assert s'[k] == s[k - 1];
      assert s'[k - 1] == if k > 1 then s[k - 2] else p;
      Neighbours(m, h, s, k - 1);
    }
    RingIntro(m', h, s');
  }

  /** Joins the neighbours f and b: the two stores of an unlink. */
  function Join(m: Memory, f: Addr, b: Addr): Memory {
    m.SetBk(f, b).SetFd(b, f)
  }

  lemma JoinReads(m: Memory, f: Addr, b: Addr, a: Addr)
    ensures Join(m, f, b).Fd(a) == if a == b then f else m.Fd(a)
    ensures Join(m, f, b).Bk(a) == if a == f then b else m.Bk(a)
  {
  }

  lemma UnlinkFromRing(m: Memory, h: Addr, s: seq<Addr>, k: nat)
    requires Ring(m, h, s) && h !in s && DistinctSeq(s) && k < |s|
    ensures Ring(Join(m, m.Fd(s[k]), m.Bk(s[k])), h, Without(s, k))
    ensures m.Fd(s[k]) == m.Bk(s[k]) <==> |s| == 1
    ensures m.Fd(s[k]) == h || m.Fd(s[k]) in s
    ensures m.Bk(s[k]) == h || m.Bk(s[k]) in s
  {
    Neighbours(m, h, s, k);
    var f, b := m.Fd(s[k]), m.Bk(s[k]);
    var m' := Join(m, f, b);
    var w := Without(s, k);
    JoinReads(m, f, b, h);
    forall i | 0 <= i < |w| ensures Linked(m', h, w, i) {
      var j := if i < k then i else i + 1;
      JoinReads(m, f, b, s[j]);
      Neighbours(m, h, s, j);
      assert w[i] == s[j];
    }
    RingIntro(m', h, w);
  }

  /** Taking the head out of a ring leaves the rest, headed by the old head's predecessor. */
  lemma UnlinkHead(m: Memory, h: Addr, s: seq<Addr>)
    requires Ring(m, h, s) && h !in s && DistinctSeq(s) && |s| > 0
    ensures m.Bk(h) == s[|s| - 1] && m.Bk(h) != h
    ensures Ring(Join(m, m.Fd(h), m.Bk(h)), m.Bk(h), s[..|s| - 1])
  {
    var n := |s| - 1;
    var f, b := m.Fd(h), m.Bk(h);
    var m' := Join(m, f, b);
    var w := s[..n];
    Neighbours(m, h, s, n);
    JoinReads(m, f, b, b);
    forall i | 0 <= i < |w| ensures Linked(m', s[n], w, i) {
      JoinReads(m, f, b, s[i]);
      Neighbours(m, h, s, i);
      assert w[i] == s[i];
    }
    RingIntro(m', s[n], w);
  }

  // ---- Trees in memory

  /** The tree links of p, and its size, are the same in both memories. */
  predicate SameNode(m: Memory, m': Memory, p: Addr) {
    && SameRing(m, m', p)
    && m.Child(p, false) == m'.Child(p, false) && m.Child(p, true) == m'.Child(p, true)
    && m.Parent(p) == m'.Parent(p)
    && m.SizeAt(p) == m'.SizeAt(p)
  }

  /** p is a chunk of size s that hangs in a ring but not itself in the tree. */
  predicate IsChained(m: Memory, p: Addr, s: nat) {
    m.SizeAt(p) == s && m.Parent(p) == 0 && m.Child(p, false) == 0 && m.Child(p, true) == 0
  }

  /** The memory holds tree t below the parent word par. */
  ghost predicate TreeAt(m: Memory, t: Tree, par: Addr)
    decreases t
  {
    t.Node? ==>
      && m.SizeAt(t.head) == t.size
      && m.Parent(t.head) == par
      && m.Child(t.head, false) == Root(t.left)
      && m.Child(t.head, true) == Root(t.right)
      && Ring(m, t.head, t.chain)
      && (forall p :: p in t.chain ==> IsChained(m, p, t.size))
      && TreeAt(m, t.left, t.head)
      && TreeAt(m, t.right, t.head)
  }

  lemma {:induction false} TreeFrame(m: Memory, m': Memory, t: Tree, par: Addr)
    requires TreeAt(m, t, par) && forall p :: Has(t, p) ==> SameNode(m, m', p)
    ensures TreeAt(m', t, par)
    decreases t
  {
    if t.Node? {
      assert SameNode(m, m', t.head);
      forall p | p in t.chain ensures SameNode(m, m', p) { assert Has(t, p); }
      RingFrame(m, m', t.head, t.chain);
      TreeFrame(m, m', t.left, t.head);
      TreeFrame(m, m', t.right, t.head);
    }
  }

  lemma SetParentFrame(m: Memory, a: Addr, v: Addr, p: Addr)
    ensures SameRing(m, m.SetParent(a, v), p)
    ensures p != a ==> SameNode(m, m.SetParent(a, v), p)
    ensures m.SetParent(a, v).Parent(a) == v
  {
  }

  lemma ReparentFrame(m: Memory, m': Memory, t: Tree, par: Addr, par': Addr)
    requires t.Node? && TreeAt(m, t, par) && IsDistinct(t)
    requires forall p :: Has(t, p) && p != t.head ==> SameNode(m, m', p)
    requires SameRing(m, m', t.head) && m'.Parent(t.head) == par' && m'.SizeAt(t.head) == m.SizeAt(t.head)
    requires m'.Child(t.head, false) == m.Child(t.head, false) && m'.Child(t.head, true) == m.Child(t.head, true)
    ensures TreeAt(m', t, par')
  {
    forall p | p in t.chain ensures SameNode(m, m', p) { assert Has(t, p); }
    RingFrame(m, m', t.head, t.chain);
    TreeFrame(m, m', t.left, t.head);
    TreeFrame(m, m', t.right, t.head);
  }

  lemma {:induction false} SizesAt(m: Memory, t: Tree, par: Addr, p: Addr, s: nat)
    requires TreeAt(m, t, par) && Holds(t, p, s)
    ensures m.SizeAt(p) == s
    decreases t
  {
    if Holds(t.left, p, s) {
      SizesAt(m, t.left, t.head, p, s);
    } else if Holds(t.right, p, s) {
      SizesAt(m, t.right, t.head, p, s);
    }
  }

  /** The parent of the node at path. */
  function ParentAt(t: Tree, par: Addr, path: Path): Addr
    requires IsPath(t, path)
    decreases |path|
  {
    if path == [] then par else ParentAt(ChildOf(t, path[0]), t.head, path[1..])
  }

  lemma {:induction false} SubTreeAt(m: Memory, t: Tree, par: Addr, path: Path)
    requires IsPath(t, path) && TreeAt(m, t, par)
    ensures TreeAt(m, Sub(t, path), ParentAt(t, par, path))
    decreases |path|
  {
    if path != [] {
      SubTreeAt(m, ChildOf(t, path[0]), t.head, path[1..]);
    }
  }

  /** One step further down. */
  lemma {:induction false} PathStep(t: Tree, par: Addr, path: Path, right: bool)
    requires IsPath(t, path) && Sub(t, path).Node?
    ensures IsPath(t, path + [right])
    ensures Sub(t, path + [right]) == ChildOf(Sub(t, path), right)
    ensures ParentAt(t, par, path + [right]) == Sub(t, path).head
    decreases |path|
  {
    if path == [] {
      assert path + [right] == [right];
      assert [right][1..] == [];
    } else {
      assert (path + [right])[1..] == path[1..] + [right];
      PathStep(ChildOf(t, path[0]), t.head, path[1..], right);
    }
  }

  /** m' differs from m, among the chunks of t outside the subtree at path, only in the link down to it. */
  ghost predicate SameAround(m: Memory, m': Memory, t: Tree, par: Addr, path: Path)
    requires IsPath(t, path)
  {
    && (forall p :: Has(t, p) && !Has(Sub(t, path), p) && (path == [] || p != ParentAt(t, par, path))
                    ==> SameNode(m, m', p))
    && (path != [] ==> var p := ParentAt(t, par, path); var d := path[|path| - 1];
          SameRing(m, m', p) && m.Parent(p) == m'.Parent(p) && m.SizeAt(p) == m'.SizeAt(p)
          && m.Child(p, !d) == m'.Child(p, !d))
  }

  lemma {:induction false} ParentHas(t: Tree, par: Addr, path: Path)
    requires IsPath(t, path) && path != []
    ensures Has(t, ParentAt(t, par, path))
    decreases |path|
  {
    if |path| > 1 {
      ParentHas(ChildOf(t, path[0]), t.head, path[1..]);
    }
  }

  /** A node whose own words stay the same, with a new subtree on side d. */
  lemma NodeFrame(m: Memory, m': Memory, t: Tree, par: Addr, d: bool, u: Tree)
    requires t.Node? && IsDistinct(t) && TreeAt(m, t, par) && TreeAt(m', u, t.head)
    requires m'.Child(t.head, d) == Root(u) && m'.Child(t.head, !d) == m.Child(t.head, !d)
    requires SameRing(m, m', t.head) && m.Parent(t.head) == m'.Parent(t.head) && m.SizeAt(t.head) == m'.SizeAt(t.head)
    requires forall p :: p in t.chain ==> SameNode(m, m', p)
    requires forall p :: Has(ChildOf(t, !d), p) ==> SameNode(m, m', p)
    ensures TreeAt(m', if d then t.(right := u) else t.(left := u), par)
  {
    RingFrame(m, m', t.head, t.chain);
    TreeFrame(m, m', ChildOf(t, !d), t.head);
    forall p | p in t.chain ensures IsChained(m', p, t.size) { assert SameNode(m, m', p); }
  }

  /** What the frame of an exchange below t says about the node of t itself. */
  lemma AroundHead(m: Memory, m': Memory, t: Tree, par: Addr, path: Path)
    requires IsPath(t, path) && path != [] && IsDistinct(t) && SameAround(m, m', t, par, path)
    ensures SameRing(m, m', t.head) && m.Parent(t.head) == m'.Parent(t.head) && m.SizeAt(t.head) == m'.SizeAt(t.head)
    ensures m'.Child(t.head, !path[0]) == m.Child(t.head, !path[0])
    ensures |path| > 1 ==> SameNode(m, m', t.head)
    ensures forall p :: p in t.chain ==> SameNode(m, m', p)
    ensures forall p :: Has(ChildOf(t, !path[0]), p) ==> SameNode(m, m', p)
  {
    var c := ChildOf(t, path[0]);
    var rest := path[1..];
    forall p | Has(Sub(t, path), p) ensures Has(c, p) { SubHas(c, rest, p); }
    if rest != [] {
      ParentHas(c, t.head, rest);
    }
    forall p | p in t.chain || Has(ChildOf(t, !path[0]), p) ensures SameNode(m, m', p) {
      assert Has(t, p) && !Has(c, p) && p != t.head;
      assert ParentAt(t, par, path) == ParentAt(c, t.head, rest);
      assert !Has(Sub(t, path), p) && p != ParentAt(t, par, path);
    }
  }

  /** Exchanging the subtree at path for u, in memory and in the tree. */
  lemma {:induction false} PutAt(m: Memory, m': Memory, t: Tree, par: Addr, path: Path, u: Tree)
    requires IsPath(t, path) && IsDistinct(t) && TreeAt(m, t, par)
    requires TreeAt(m', u, ParentAt(t, par, path))
    requires SameAround(m, m', t, par, path)
    requires path != [] ==> m'.Child(ParentAt(t, par, path), path[|path| - 1]) == Root(u)
    ensures TreeAt(m', Put(t, path, u), par)
    decreases |path|
  {
    if path != [] {
      var d, rest := path[0], path[1..];
      var c := ChildOf(t, d);
      assert rest != [] ==> rest[|rest| - 1] == path[|path| - 1];
      AroundHead(m, m', t, par, path);
      SameAroundChild(m, m', t, par, path);
      PutAt(m, m', c, t.head, rest, u);
      NodeFrame(m, m', t, par, d, Put(c, rest, u));
    }
  }

  lemma SameAroundChild(m: Memory, m': Memory, t: Tree, par: Addr, path: Path)
    requires IsPath(t, path) && path != [] && SameAround(m, m', t, par, path)
    ensures SameAround(m, m', ChildOf(t, path[0]), t.head, path[1..])
  {
  }
}
