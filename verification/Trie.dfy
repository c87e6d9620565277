/**
 The trees of large free chunks as values: bitwise tries keyed on chunk size, each node the ring
 of all chunks of one size, with one of them standing in the tree.
 */
module Trie {
  import opened Bits

  type Addr = nat

  /** head is the chunk that stands in the tree, chain the rest of its ring of equal-sized chunks. */
  datatype Tree = Nil | Node(head: Addr, chain: seq<Addr>, size: nat, left: Tree, right: Tree)

  function Root(t: Tree): Addr {
    if t == Nil then 0 else t.head
  }

  /** Chunk p of size s is in t. */
  predicate Holds(t: Tree, p: Addr, s: nat) {
    t.Node? && ((s == t.size && (p == t.head || p in t.chain)) || Holds(t.left, p, s) || Holds(t.right, p, s))
  }

  predicate Has(t: Tree, p: Addr) {
    t.Node? && (p == t.head || p in t.chain || Has(t.left, p) || Has(t.right, p))
  }

  predicate HasSize(t: Tree, s: nat) {
    t.Node? && (s == t.size || HasSize(t.left, s) || HasSize(t.right, s))
  }

  /** All sizes in t agree on the bits above the low k, where they are q; sizes are unique in t. */
  ghost predicate IsTrie(t: Tree, q: nat, k: nat)
    decreases t
  {
    t.Node? ==>
      && Shr(t.size, k) == q
      && !HasSize(t.left, t.size) && !HasSize(t.right, t.size)
      && if k == 0 then t.left == Nil && t.right == Nil
         else IsTrie(t.left, 2 * q, k - 1) && IsTrie(t.right, 2 * q + 1, k - 1)
  }

  ghost predicate DistinctSeq(s: seq<Addr>) {
    forall i, j :: 0 <= i < j < |s| ==> s[i] != s[j]
  }

  /** No chunk occurs twice, and none is null. */
  ghost predicate IsDistinct(t: Tree) {
    t.Node? ==>
      && t.head != 0 && 0 !in t.chain
      && t.head !in t.chain && DistinctSeq(t.chain)
      && !Has(t.left, t.head) && !Has(t.right, t.head)
      && (forall p :: p in t.chain ==> !Has(t.left, p) && !Has(t.right, p))
      && (forall p :: Has(t.left, p) ==> !Has(t.right, p))
      && IsDistinct(t.left) && IsDistinct(t.right)
  }

  lemma {:induction false} HoldsIsHas(t: Tree, p: Addr, s: nat)
    requires Holds(t, p, s)
    ensures Has(t, p) && HasSize(t, s)
  {
    if Holds(t.left, p, s) {
      HoldsIsHas(t.left, p, s);
    } else if Holds(t.right, p, s) {
      HoldsIsHas(t.right, p, s);
    }
  }

  lemma {:induction false} HasHolds(t: Tree, p: Addr) returns (s: nat)
    requires Has(t, p)
    ensures Holds(t, p, s)
  {
    if p == t.head || p in t.chain {
      s := t.size;
    } else if Has(t.left, p) {
      s := HasHolds(t.left, p);
    } else {
      s := HasHolds(t.right, p);
    }
  }

  lemma {:induction false} HasSizeHolds(t: Tree, s: nat) returns (p: Addr)
    requires HasSize(t, s)
    ensures Holds(t, p, s)
  {
    if s == t.size {
      p := t.head;
    } else if HasSize(t.left, s) {
      p := HasSizeHolds(t.left, s);
    } else {
      p := HasSizeHolds(t.right, s);
    }
  }

  lemma {:induction false} TriePrefix(t: Tree, q: nat, k: nat, s: nat)
    requires IsTrie(t, q, k) && HasSize(t, s)
    ensures Shr(s, k) == q
    decreases t
  {
    if s != t.size {
      ShrOneMore(s, k - 1);
      if HasSize(t.left, s) {
        TriePrefix(t.left, 2 * q, k - 1, s);
      } else {
        TriePrefix(t.right, 2 * q + 1, k - 1, s);
      }
    }
  }

  /** Every size in the left subtree is smaller than every size in the right one. */
  lemma LeftBelowRight(t: Tree, q: nat, k: nat, a: nat, b: nat)
    requires t.Node? && IsTrie(t, q, k) && HasSize(t.left, a) && HasSize(t.right, b)
    ensures a < b
  {
    TriePrefix(t.left, 2 * q, k - 1, a);
    TriePrefix(t.right, 2 * q + 1, k - 1, b);
    if b <= a {
      ShrMonotone(b, a, k - 1);
    }
  }

  // ---- Insertion

  /** The side on which size s continues below a node with k open bits: the topmost open bit. */
  predicate GoesRight(s: nat, k: nat)
    requires k > 0
  {
    Bit(s, k - 1)
  }

  /** Where two different sizes agree on all but the low k bits, k is not 0. */
  lemma OpenBitLeft(a: nat, b: nat, k: nat)
    requires Shr(a, k) == Shr(b, k) && a != b
    ensures k > 0
  {
  }

  function Insert(t: Tree, x: Addr, s: nat, k: nat): Tree
    decreases t
  {
    if t == Nil then Node(x, [], s, Nil, Nil)
    else if t.size == s then t.(chain := [x] + t.chain)
    else if k == 0 then t
    else if GoesRight(s, k) then t.(right := Insert(t.right, x, s, k - 1))
    else t.(left := Insert(t.left, x, s, k - 1))
  }

  lemma {:induction false} InsertKeepsTrie(t: Tree, x: Addr, s: nat, q: nat, k: nat)
    requires IsTrie(t, q, k) && Shr(s, k) == q
    ensures IsTrie(Insert(t, x, s, k), q, k)
    ensures forall z :: HasSize(Insert(t, x, s, k), z) <==> z == s || HasSize(t, z)
    decreases t
  {
    if t.Node? && t.size != s {
      OpenBitLeft(t.size, s, k);
      ShrOneMore(s, k - 1);
      if GoesRight(s, k) {
        InsertKeepsTrie(t.right, x, s, 2 * q + 1, k - 1);
      } else {
        InsertKeepsTrie(t.left, x, s, 2 * q, k - 1);
      }
    }
  }

  /** The contents change by exactly the new chunk. */
  lemma {:induction false} InsertAddsOne(t: Tree, x: Addr, s: nat, q: nat, k: nat, p: Addr, z: nat)
    requires IsTrie(t, q, k) && Shr(s, k) == q
    ensures Holds(Insert(t, x, s, k), p, z) <==> (p == x && z == s) || Holds(t, p, z)
    ensures Has(Insert(t, x, s, k), p) <==> p == x || Has(t, p)
    decreases t
  {
    if t.Node? && t.size != s {
      OpenBitLeft(t.size, s, k);
      ShrOneMore(s, k - 1);
      if GoesRight(s, k) {
        InsertAddsOne(t.right, x, s, 2 * q + 1, k - 1, p, z);
      } else {
        InsertAddsOne(t.left, x, s, 2 * q, k - 1, p, z);
      }
    }
  }

  lemma {:induction false} InsertKeepsDistinct(t: Tree, x: Addr, s: nat, q: nat, k: nat)
    requires IsTrie(t, q, k) && Shr(s, k) == q
    requires IsDistinct(t) && !Has(t, x) && x != 0
    ensures IsDistinct(Insert(t, x, s, k))
    decreases t
  {
    if t.Node? && t.size != s {
      OpenBitLeft(t.size, s, k);
      ShrOneMore(s, k - 1);
      if GoesRight(s, k) {
        InsertKeepsDistinct(t.right, x, s, 2 * q + 1, k - 1);
        forall p ensures Has(Insert(t.right, x, s, k - 1), p) <==> p == x || Has(t.right, p) {
          InsertAddsOne(t.right, x, s, 2 * q + 1, k - 1, p, s);
        }
      } else {
        InsertKeepsDistinct(t.left, x, s, 2 * q, k - 1);
        forall p ensures Has(Insert(t.left, x, s, k - 1), p) <==> p == x || Has(t.left, p) {
          InsertAddsOne(t.left, x, s, 2 * q, k - 1, p, s);
        }
      }
    }
  }

  // ---- Places in a tree

  /** The way from a root to a node: true goes right. */
  type Path = seq<bool>

  function ChildOf(t: Tree, right: bool): Tree
    requires t.Node?
  {
    if right then t.right else t.left
  }

  predicate IsPath(t: Tree, path: Path)
    decreases |path|
  {
    path == [] || (t.Node? && IsPath(ChildOf(t, path[0]), path[1..]))
  }

  function Sub(t: Tree, path: Path): Tree
    requires IsPath(t, path)
    decreases |path|
  {
    if path == [] then t else Sub(ChildOf(t, path[0]), path[1..])
  }

  function Put(t: Tree, path: Path, u: Tree): Tree
    requires IsPath(t, path)
    decreases |path|
  {
    if path == [] then u
    else if path[0] then t.(right := Put(t.right, path[1..], u))
    else t.(left := Put(t.left, path[1..], u))
  }

  /** The bits fixed at a place. */
  function PrefixAt(q: nat, path: Path): nat
    decreases |path|
  {
    if path == [] then q else PrefixAt(2 * q + (if path[0] then 1 else 0), path[1..])
  }

  lemma {:induction false} FindPath(t: Tree, p: Addr) returns (path: Path)
    requires Has(t, p)
    ensures IsPath(t, path) && Sub(t, path).Node?
    ensures p == Sub(t, path).head || p in Sub(t, path).chain
  {
    if p == t.head || p in t.chain {
      path := [];
    } else if Has(t.left, p) {
      var rest := FindPath(t.left, p);
      path := [false] + rest;
      assert path[1..] == rest;
    } else {
      var rest := FindPath(t.right, p);
      path := [true] + rest;
      assert path[1..] == rest;
    }
  }

  lemma {:induction false} SubHas(t: Tree, path: Path, p: Addr)
    requires IsPath(t, path) && Has(Sub(t, path), p)
    ensures Has(t, p)
    decreases |path|
  {
    if path != [] {
      SubHas(ChildOf(t, path[0]), path[1..], p);
    }
  }

  lemma {:induction false} SubHasSize(t: Tree, path: Path, s: nat)
    requires IsPath(t, path) && HasSize(Sub(t, path), s)
    ensures HasSize(t, s)
    decreases |path|
  {
    if path != [] {
      SubHasSize(ChildOf(t, path[0]), path[1..], s);
    }
  }

  lemma {:induction false} SubIsTrie(t: Tree, path: Path, q: nat, k: nat)
    requires IsPath(t, path) && IsTrie(t, q, k) && Sub(t, path).Node?
    ensures |path| <= k && IsTrie(Sub(t, path), PrefixAt(q, path), k - |path|)
    decreases |path|
  {
    if path != [] {
      SubIsTrie(ChildOf(t, path[0]), path[1..], 2 * q + (if path[0] then 1 else 0), k - 1);
    }
  }

  lemma {:induction false} SubIsDistinct(t: Tree, path: Path)
    requires IsPath(t, path) && IsDistinct(t)
    ensures IsDistinct(Sub(t, path))
    decreases |path|
  {
    if path != [] {
      SubIsDistinct(ChildOf(t, path[0]), path[1..]);
    }
  }

  /** Exchanging a subtree for one of the same place with no new sizes keeps the trie. */
  lemma {:induction false} PutKeepsTrie(t: Tree, path: Path, u: Tree, q: nat, k: nat)
    requires IsPath(t, path) && IsTrie(t, q, k) && |path| <= k
    requires IsTrie(u, PrefixAt(q, path), k - |path|)
    requires forall z :: HasSize(u, z) ==> HasSize(Sub(t, path), z)
    ensures IsTrie(Put(t, path, u), q, k)
    ensures forall z :: HasSize(Put(t, path, u), z) ==> HasSize(t, z)
    decreases |path|
  {
    if path != [] {
      PutKeepsTrie(ChildOf(t, path[0]), path[1..], u, 2 * q + (if path[0] then 1 else 0), k - 1);
    }
  }

  /** Where a subtree loses exactly chunk x, so does the tree. */
  lemma {:induction false} PutLosesOne(t: Tree, path: Path, u: Tree, x: Addr, p: Addr, z: nat)
    requires IsPath(t, path) && IsDistinct(t) && Has(Sub(t, path), x)
    requires Holds(u, p, z) <==> Holds(Sub(t, path), p, z) && p != x
    requires Has(u, p) <==> Has(Sub(t, path), p) && p != x
    ensures Holds(Put(t, path, u), p, z) <==> Holds(t, p, z) && p != x
    ensures Has(Put(t, path, u), p) <==> Has(t, p) && p != x
    decreases |path|
  {
    if path != [] {
      PutLosesOne(ChildOf(t, path[0]), path[1..], u, x, p, z);
      SubHas(ChildOf(t, path[0]), path[1..], x);
      if Holds(t, p, z) { HoldsIsHas(t, p, z); }
      if Holds(t.left, p, z) { HoldsIsHas(t.left, p, z); }
      if Holds(t.right, p, z) { HoldsIsHas(t.right, p, z); }
    }
  }

  lemma {:induction false} PutKeepsDistinct(t: Tree, path: Path, u: Tree)
    requires IsPath(t, path) && IsDistinct(t) && IsDistinct(u)
    requires forall p :: Has(u, p) ==> Has(Sub(t, path), p)
    ensures IsDistinct(Put(t, path, u))
    ensures forall p :: Has(Put(t, path, u), p) ==> Has(t, p)
    decreases |path|
  {
    if path != [] {
      PutKeepsDistinct(ChildOf(t, path[0]), path[1..], u);
    }
  }

  // ---- Removal

  /** Takes out the rightmost leaf below t, going left only where there is no right child. */
  function PopLeaf(t: Tree): (r: (Tree, Tree))
    requires t.Node?
    ensures r.1.Node? && r.1.left == Nil && r.1.right == Nil
  {
    if t.right.Node? then var r := PopLeaf(t.right); (t.(right := r.0), r.1)
    else if t.left.Node? then var r := PopLeaf(t.left); (t.(left := r.0), r.1)
    else (Nil, t)
  }

  lemma {:induction false} PopLeafTrie(t: Tree, q: nat, k: nat)
    requires t.Node? && IsTrie(t, q, k)
    ensures IsTrie(PopLeaf(t).0, q, k) && Shr(PopLeaf(t).1.size, k) == q
    ensures forall z :: HasSize(PopLeaf(t).0, z) <==> HasSize(t, z) && z != PopLeaf(t).1.size
    ensures HasSize(t, PopLeaf(t).1.size)
    decreases t
  {
    if t.right.Node? {
      PopLeafTrie(t.right, 2 * q + 1, k - 1);
      var s := PopLeaf(t.right).1.size;
      ShrOneMore(s, k - 1);
      if HasSize(t.left, s) { LeftBelowRight(t, q, k, s, s); }
    } else if t.left.Node? {
      PopLeafTrie(t.left, 2 * q, k - 1);
      ShrOneMore(PopLeaf(t.left).1.size, k - 1);
    }
  }

  lemma {:induction false} PopLeafParts(t: Tree, p: Addr, z: nat)
    requires t.Node?
    ensures Holds(t, p, z) <==> Holds(PopLeaf(t).0, p, z) || Holds(PopLeaf(t).1, p, z)
    ensures Has(t, p) <==> Has(PopLeaf(t).0, p) || Has(PopLeaf(t).1, p)
    decreases t
  {
    if t.right.Node? {
      PopLeafParts(t.right, p, z);
    } else if t.left.Node? {
      PopLeafParts(t.left, p, z);
    }
  }

  lemma {:induction false} PopLeafDistinct(t: Tree)
    requires t.Node? && IsDistinct(t)
    ensures IsDistinct(PopLeaf(t).0) && IsDistinct(PopLeaf(t).1)
    ensures forall p :: Has(PopLeaf(t).0, p) ==> Has(t, p) && !Has(PopLeaf(t).1, p)
    ensures forall p :: Has(PopLeaf(t).1, p) ==> Has(t, p)
    decreases t
  {
    if t.right.Node? {
      PopLeafDistinct(t.right);
    } else if t.left.Node? {
      PopLeafDistinct(t.left);
    }
  }

  /** s without its element at k. */
  function Without(s: seq<Addr>, k: nat): seq<Addr>
    requires k < |s|
  {
    s[..k] + s[k + 1..]
  }

  function IndexOf(s: seq<Addr>, x: Addr): (k: nat)
    requires x in s
    ensures k < |s| && s[k] == x
  {
    if s[0] == x then 0 else 1 + IndexOf(s[1..], x)
  }

  /** The node u without chunk x: its ring without x, or a leaf in its place. */
  function Cut(u: Tree, x: Addr): Tree
    requires u.Node? && (x == u.head || x in u.chain)
  {
    if x != u.head then u.(chain := Without(u.chain, IndexOf(u.chain, x)))
    else if u.chain != [] then u.(head := u.chain[|u.chain| - 1], chain := u.chain[..|u.chain| - 1])
    else if u.right.Node? then
      var r := PopLeaf(u.right);
      Node(r.1.head, r.1.chain, r.1.size, u.left, r.0)
    else if u.left.Node? then
      var r := PopLeaf(u.left);
      Node(r.1.head, r.1.chain, r.1.size, r.0, u.right)
    else Nil
  }

  lemma CutTrie(u: Tree, x: Addr, q: nat, k: nat)
    requires u.Node? && (x == u.head || x in u.chain) && IsTrie(u, q, k)
    ensures IsTrie(Cut(u, x), q, k)
    ensures forall z :: HasSize(Cut(u, x), z) ==> HasSize(u, z)
  {
    if x == u.head && u.chain == [] {
      if u.right.Node? {
        PopLeafTrie(u.right, 2 * q + 1, k - 1);
        var s := PopLeaf(u.right).1.size;
        ShrOneMore(s, k - 1);
        if HasSize(u.left, s) { LeftBelowRight(u, q, k, s, s); }
      } else if u.left.Node? {
        PopLeafTrie(u.left, 2 * q, k - 1);
        ShrOneMore(PopLeaf(u.left).1.size, k - 1);
      }
    }
  }

  lemma CutLosesOne(u: Tree, x: Addr, p: Addr, z: nat)
    requires u.Node? && (x == u.head || x in u.chain) && IsDistinct(u)
    ensures Holds(Cut(u, x), p, z) <==> Holds(u, p, z) && p != x
    ensures Has(Cut(u, x), p) <==> Has(u, p) && p != x
  {
    if Holds(u.left, p, z) { HoldsIsHas(u.left, p, z); }
    if Holds(u.right, p, z) { HoldsIsHas(u.right, p, z); }
    if x == u.head && u.chain == [] {
      if u.right.Node? {
        PopLeafParts(u.right, p, z);
      } else if u.left.Node? {
        PopLeafParts(u.left, p, z);
      }
    } else if x == u.head {
      assert p in u.chain <==> p == u.chain[|u.chain| - 1] || p in u.chain[..|u.chain| - 1];
    } else {
      WithoutMembers(u.chain, IndexOf(u.chain, x), p);
    }
  }

  lemma WithoutMembers(s: seq<Addr>, k: nat, p: Addr)
    requires k < |s| && DistinctSeq(s)
    ensures p in Without(s, k) <==> p in s && p != s[k]
    ensures DistinctSeq(Without(s, k))
  {
    var w := Without(s, k);
    forall i | 0 <= i < |s| && i != k ensures s[i] in w {
      assert w[if i < k then i else i - 1] == s[i];
    }
    assert forall i :: 0 <= i < |w| ==> w[i] == s[if i < k then i else i + 1];
  }

  lemma CutDistinct(u: Tree, x: Addr)
    requires u.Node? && (x == u.head || x in u.chain) && IsDistinct(u)
    ensures IsDistinct(Cut(u, x))
  {
    if x == u.head && u.chain == [] {
      if u.right.Node? {
        PopLeafDistinct(u.right);
      } else if u.left.Node? {
        PopLeafDistinct(u.left);
      }
    } else if x == u.head {
    } else {
      forall p ensures p in Without(u.chain, IndexOf(u.chain, x)) <==> p in u.chain && p != x {
        WithoutMembers(u.chain, IndexOf(u.chain, x), p);
      }
      WithoutMembers(u.chain, IndexOf(u.chain, x), 0);
    }
  }

  /** The tree t without chunk x, which is found at path. */
  function Remove(t: Tree, path: Path, x: Addr): Tree
    requires IsPath(t, path) && Sub(t, path).Node? && (x == Sub(t, path).head || x in Sub(t, path).chain)
  {
    Put(t, path, Cut(Sub(t, path), x))
  }

  lemma RemoveKeepsTrie(t: Tree, path: Path, x: Addr, q: nat, k: nat)
    requires IsPath(t, path) && Sub(t, path).Node? && (x == Sub(t, path).head || x in Sub(t, path).chain)
    requires IsTrie(t, q, k)
    ensures IsTrie(Remove(t, path, x), q, k)
  {
    SubIsTrie(t, path, q, k);
    CutTrie(Sub(t, path), x, PrefixAt(q, path), k - |path|);
    PutKeepsTrie(t, path, Cut(Sub(t, path), x), q, k);
  }

  /** The contents change by exactly the removed chunk. */
  lemma RemoveLosesOne(t: Tree, path: Path, x: Addr, p: Addr, z: nat)
    requires IsPath(t, path) && Sub(t, path).Node? && (x == Sub(t, path).head || x in Sub(t, path).chain)
    requires IsDistinct(t)
    ensures Holds(Remove(t, path, x), p, z) <==> Holds(t, p, z) && p != x
    ensures Has(Remove(t, path, x), p) <==> Has(t, p) && p != x
  {
    SubIsDistinct(t, path);
    CutLosesOne(Sub(t, path), x, p, z);
    PutLosesOne(t, path, Cut(Sub(t, path), x), x, p, z);
  }

  lemma RemoveKeepsDistinct(t: Tree, path: Path, x: Addr)
    requires IsPath(t, path) && Sub(t, path).Node? && (x == Sub(t, path).head || x in Sub(t, path).chain)
    requires IsDistinct(t)
    ensures IsDistinct(Remove(t, path, x))
  {
    SubIsDistinct(t, path);
    var u := Sub(t, path);
    CutDistinct(u, x);
    forall p ensures Has(Cut(u, x), p) ==> Has(u, p) { CutLosesOne(u, x, p, 0); }
    PutKeepsDistinct(t, path, Cut(u, x));
  }
}
