/** Symbol lookup in a loaded ELF image: the GNU hash table, the System V hash table and the symbol table. */
module ElfLookup {
  import opened Bits
  import opened Varints

  type Bytes = seq<Byte>

  const WORD: nat := 0x1_0000_0000
  const LOW28: nat := 0x1000_0000
  const BLOOM_MASK_BITS: nat := 64
  const STT_OBJECT: nat := 1
  const STT_FUNC: nat := 2

  // ---- The two hash functions

  /** One byte worked into the System V hash: the top four bits come back as bits 4 to 7. */
  function ElfStep(h: nat, p: Byte): nat {
    var t := (16 * h + p as nat) % WORD;
    Xor(t % LOW28, 16 * (t / LOW28))
  }

  /** Section 'Hash Table' of the System V gABI, on 32-bit words. */
  function ElfHashOf(name: Bytes): (h: nat)
    ensures h < LOW28
  {
    if name == [] then 0 else
      var n := |name| - 1;
      ElfStepFits(ElfHashOf(name[..n]), name[n]);
      ElfStep(ElfHashOf(name[..n]), name[n])
  }

  /** 33 times the hash so far and the next byte, modulo 2^32. */
  function GnuHashOf(name: Bytes): (h: nat)
    ensures h < WORD
  {
    if name == [] then 5381 else (33 * GnuHashOf(name[..|name| - 1]) + name[|name| - 1] as nat) % WORD
  }

  lemma {:induction false} XorFits(x: nat, y: nat, w: nat)
    requires x < Pow2(w) && y < Pow2(w)
    ensures Xor(x, y) < Pow2(w)
    decreases w
  {
    if x != 0 && y != 0 {
      XorFits(x / 2, y / 2, w - 1);
    }
  }

  lemma ElfStepFits(h: nat, p: Byte)
    ensures ElfStep(h, p) < LOW28
  {
    var t := (16 * h + p as nat) % WORD;
    Pow2Values();
    Pow2Add(16, 8);
    Pow2Add(24, 4);
    assert Pow2(4) == 16 && Pow2(28) == LOW28;
    XorFits(t % LOW28, 16 * (t / LOW28), 28);
  }

  lemma Powers(k: nat)
    ensures Pow2(0) == 1 && (k > 0 ==> Pow2(k) == 2 * Pow2(k - 1))
  {
  }

  /** Masking the bits from k on, and taking them away. */
  lemma {:induction false} TopBits(x: nat, k: nat, w: nat)
    requires k <= w && x < Pow2(w)
    ensures Pow2(k) <= Pow2(w)
    ensures And(x, Pow2(w) - Pow2(k)) == x / Pow2(k) * Pow2(k)
    ensures Xor(x, x / Pow2(k) * Pow2(k)) == x % Pow2(k)
    decreases k
  {
    hide And, Xor, Pow2;
    Pow2Monotone(k, w);
    if k == 0 {
      Powers(0);
      AllOnes(x, w);
    } else {
      Powers(k);
      Powers(w);
      TopBits(x / 2, k - 1, w - 1);
      HalfPower(x, k);
      EvenAnd(x, Pow2(w - 1) - Pow2(k - 1));
      EvenXor(x, x / 2 / Pow2(k - 1) * Pow2(k - 1));
    }
  }

  lemma {:induction false} AllOnes(x: nat, w: nat)
    requires x < Pow2(w)
    ensures And(x, Pow2(w) - 1) == x && Xor(x, x) == 0
    decreases w
  {
    if x > 0 {
      AllOnes(x / 2, w - 1);
      AndHalf(x, Pow2(w) - 1);
      XorHalf(x, x);
      hide And, Xor;
      Digit(1, Pow2(w - 1) - 1);
    }
  }

  lemma EvenAnd(x: nat, m: nat)
    ensures And(x, 2 * m) == 2 * And(x / 2, m)
  {
    AndHalf(x, 2 * m);
    hide And;
    Digit(0, m);
  }

  lemma EvenXor(x: nat, m: nat)
    ensures Xor(x, 2 * m) == x % 2 + 2 * Xor(x / 2, m)
  {
    XorHalf(x, 2 * m);
    hide Xor;
    Digit(0, m);
  }

  lemma HalfPower(x: nat, k: nat)
    requires k > 0
    ensures x / Pow2(k) * Pow2(k) == 2 * (x / 2 / Pow2(k - 1) * Pow2(k - 1))
    ensures x % Pow2(k) == x % 2 + 2 * (x / 2 % Pow2(k - 1))
  {
    var p, y := Pow2(k - 1), x / 2;
    assert Pow2(k) == 2 * p;
    hide Pow2;
    var q, r := y / p, y % p;
    assert y == q * p + r;
    TwiceProduct(q, p);
    assert x == q * (2 * p) + (2 * r + x % 2);
    QuotientIs(x, 2 * p, q, 2 * r + x % 2);
  }

  lemma QuotientIs(x: nat, d: nat, q: nat, r: nat)
    requires x == q * d + r && r < d
    ensures x / d == q && x % d == r
  {
    var q', r' := x / d, x % d;
    assert x == q' * d + r';
    if q' < q {
      Apart(q', q, d);
    } else if q' > q {
      Apart(q, q', d);
    }
  }

  lemma Apart(q: nat, q': nat, d: nat)
    requires q < q'
    ensures q' * d >= q * d + d
  {
    assert (q' - q - 1) * d >= 0 by { NatProduct(q' - q - 1, d); }
    assert (q' - q - 1) * d == q' * d - q * d - d;
  }

  lemma {:induction false} NatProduct(x: nat, d: nat)
    ensures x * d >= 0
  {
    if x > 0 {
      NatProduct(x - 1, d);
      assert x * d == (x - 1) * d + d;
    }
  }

  /** ElfHash. */
  method ElfHash(name: Bytes) returns (h: nat)
    ensures h == ElfHashOf(name)
  {
    hide And, Xor, Shr;
    h := 0;
    for i := 0 to |name|
      invariant h == ElfHashOf(name[..i])
    {
      assert name[..i + 1][..i] == name[..i];
      WrappedSum(16 * h, 0, name[i] as nat);
      h := (h * 16 % WORD + name[i] as nat) % WORD;
      FoldsTop(h);
      var g := And(h, 0xF000_0000);
      h := Xor(h, g);
      h := Xor(h, Shr(g, 24));
    }
    assert name[..|name|] == name;
  }

  /** Wrapping early changes nothing. */
  lemma WrappedSum(x: nat, h: nat, p: nat)
    ensures (h + (x % WORD + p)) % WORD == (h + x + p) % WORD
  {
    var q := x / WORD;
    assert x == WORD * q + x % WORD;
    assert h + x + p == h + (x % WORD + p) + WORD * q;
  }

  lemma FoldsTop(t: nat)
    requires t < WORD
    ensures var g := And(t, 0xF000_0000);
            Xor(t, g) == t % LOW28 && Shr(g, 24) == 16 * (t / LOW28)
  {
    Pow2Values();
    Pow2Add(16, 8);
    Pow2Add(24, 4);
    assert Pow2(4) == 16 && Pow2(28) == LOW28;
    TopBits(t, 28, 32);
    ShrBounds(t / LOW28 * LOW28, 16 * (t / LOW28), 24);
  }

  /** GnuHash. */
  method GnuHash(name: Bytes) returns (h: nat)
    ensures h == GnuHashOf(name)
  {
    h := 5381;
    for i := 0 to |name|
      invariant h == GnuHashOf(name[..i])
    {
      assert name[..i + 1][..i] == name[..i];
      WrappedSum(32 * h, h, name[i] as nat);
      h := (h + (h * 32 % WORD + name[i] as nat)) % WORD;
    }
    assert name[..|name|] == name;
  }

  // ---- Symbols

  datatype Sym = Sym(st_name: nat, st_type: nat, st_size: nat, st_value: nat)

  /** The C string at off, without its zero. */
  function CString(strings: Bytes, off: nat): Bytes
    requires off <= |strings|
    decreases |strings| - off
  {
    if off == |strings| || strings[off] == 0 then [] else [strings[off]] + CString(strings, off + 1)
  }

  /** Every name begins in the string table, which ends with a zero. */
  ghost predicate Named(syms: seq<Sym>, strings: Bytes) {
    && |strings| > 0 && strings[|strings| - 1] == 0
    && forall i :: 0 <= i < |syms| ==> syms[i].st_name < |strings|
  }

  function NameOf(syms: seq<Sym>, strings: Bytes, i: nat): Bytes
    requires i < |syms| && syms[i].st_name <= |strings|
  {
    CString(strings, syms[i].st_name)
  }

  /** The linear scan: the value of the first symbol from i on that is among those indexed and has the name, else 0. */
  ghost function Scan(syms: seq<Sym>, strings: Bytes, indexed: set<nat>, name: Bytes, i: nat): nat
    requires Named(syms, strings)
    decreases |syms| - i
  {
    if i >= |syms| then 0
    else if i in indexed && NameOf(syms, strings, i) == name then syms[i].st_value
    else Scan(syms, strings, indexed, name, i + 1)
  }

  /** No two of the symbols indexed have one name. */
  ghost predicate Unique(syms: seq<Sym>, strings: Bytes, indexed: set<nat>)
    requires Named(syms, strings)
  {
    forall i, j :: 0 <= i < j < |syms| && i in indexed && j in indexed
                   ==> NameOf(syms, strings, i) != NameOf(syms, strings, j)
  }

  lemma {:induction false} ScanFinds(syms: seq<Sym>, strings: Bytes, indexed: set<nat>, name: Bytes, i: nat, k: nat)
    requires Named(syms, strings) && Unique(syms, strings, indexed)
    requires i <= k < |syms| && k in indexed && NameOf(syms, strings, k) == name
    ensures Scan(syms, strings, indexed, name, i) == syms[k].st_value
    decreases k - i
  {
    if i < k {
      ScanFinds(syms, strings, indexed, name, i + 1, k);
    }
  }

  lemma {:induction false} ScanMisses(syms: seq<Sym>, strings: Bytes, indexed: set<nat>, name: Bytes, i: nat)
    requires Named(syms, strings)
    requires forall k :: 0 <= k < |syms| && k in indexed ==> NameOf(syms, strings, k) != name
    ensures Scan(syms, strings, indexed, name, i) == 0
    decreases |syms| - i
  {
    if i < |syms| {
      ScanMisses(syms, strings, indexed, name, i + 1);
    }
  }

  // ---- The System V table

  datatype SysvTable = SysvTable(bucket: seq<nat>, chain: seq<nat>)

  /** The links from n on come to 0 within k steps. */
  predicate Ends(chain: seq<nat>, n: nat, k: nat)
    decreases k
  {
    n == 0 || (k > 0 && n < |chain| && Ends(chain, chain[n], k - 1))
  }

  /** The symbols on the way. */
  function Walk(chain: seq<nat>, n: nat, k: nat): set<nat>
    requires Ends(chain, n, k)
    decreases k
  {
    if n == 0 then {} else {n} + Walk(chain, chain[n], k - 1)
  }

  ghost predicate OnChain(t: SysvTable, b: nat, i: nat) {
    b < |t.bucket| && Ends(t.chain, t.bucket[b], |t.chain|) && i in Walk(t.chain, t.bucket[b], |t.chain|)
  }

  ghost predicate OnSomeChain(t: SysvTable, i: nat) {
    exists b: nat :: OnChain(t, b, i)
  }

  /** The symbols that the table indexes. */
  ghost function SysvIndexed(t: SysvTable, n: nat): set<nat> {
    set i: nat | i < n && OnSomeChain(t, i)
  }

  /** Every chain comes to its end, and a symbol is only on the chain that its hash selects. */
  ghost predicate SysvTableFits(t: SysvTable, syms: seq<Sym>, strings: Bytes) {
    && Named(syms, strings) && |t.chain| == |syms|
    && (forall b :: 0 <= b < |t.bucket| ==> Ends(t.chain, t.bucket[b], |t.chain|))
    && forall b: nat, i: nat :: OnChain(t, b, i) && i < |syms| ==> b == ElfHashOf(NameOf(syms, strings, i)) % |t.bucket|
  }

  lemma {:induction false} WalkStays(chain: seq<nat>, n: nat, k: nat, i: nat)
    requires Ends(chain, n, k) && i in Walk(chain, n, k)
    ensures i < |chain|
    decreases k
  {
    if n != 0 && i != n {
      WalkStays(chain, chain[n], k - 1, i);
    }
  }

  // ---- The GNU table

  /** chain holds the words of the symbols from symndx on. */
  datatype GnuTable = GnuTable(symndx: nat, shift2: nat, bloom: seq<nat>, bucket: seq<nat>, chain: seq<nat>)

  predicate LastOfRun(t: GnuTable, i: nat) {
    t.symndx <= i < t.symndx + |t.chain| && t.chain[i - t.symndx] % 2 == 1
  }

  /** The run that begins at s has an end. */
  ghost predicate RunEnds(t: GnuTable, s: nat) {
    exists e: nat :: s <= e && LastOfRun(t, e)
  }

  /** Symbol i is in the run that begins at s. */
  ghost predicate InRun(t: GnuTable, s: nat, i: nat) {
    t.symndx <= s <= i && forall k: nat :: s <= k < i ==> !LastOfRun(t, k)
  }

  function BloomWord(t: GnuTable, hash: nat): nat
    requires |t.bloom| > 0
  {
    t.bloom[hash / BLOOM_MASK_BITS % |t.bloom|]
  }

  /** Both bits of the hash are set in the filter. */
  predicate Passes(t: GnuTable, hash: nat)
    requires |t.bloom| > 0
  {
    Bit(BloomWord(t, hash), hash % BLOOM_MASK_BITS) && Bit(BloomWord(t, hash), Shr(hash, t.shift2) % BLOOM_MASK_BITS)
  }

  /**
   Symbol i with its hash: the filter lets it through, it is in the run of its bucket, its chain word holds its
   hash.
   */
  ghost predicate GnuEntry(t: GnuTable, i: nat, hash: nat) {
    && |t.bloom| > 0 && |t.bucket| > 0 && Passes(t, hash) && InRun(t, t.bucket[hash % |t.bucket|], i)
    && t.symndx <= i < t.symndx + |t.chain| && t.chain[i - t.symndx] / 2 == hash / 2
  }

  /** The table indexes the symbols from symndx on. */
  ghost predicate FromSymndx(t: GnuTable, i: nat) {
    t.symndx <= i
  }

  ghost function GnuIndexed(t: GnuTable, n: nat): set<nat> {
    set i: nat | i < n && FromSymndx(t, i)
  }

  ghost predicate GnuTableFits(t: GnuTable, syms: seq<Sym>, strings: Bytes) {
    && Named(syms, strings) && t.symndx + |t.chain| == |syms|
    && (forall b :: 0 <= b < |t.bucket| && t.symndx <= t.bucket[b] ==> RunEnds(t, t.bucket[b]))
    && forall i :: t.symndx <= i < |syms| ==> GnuEntry(t, i, GnuHashOf(NameOf(syms, strings, i)))
  }

  // ---- The tests on words

  lemma {:induction false} SameBits(x: nat, y: nat)
    requires forall k: nat :: Bit(x, k) <==> Bit(y, k)
    ensures x == y
    decreases x + y
  {
    if x != 0 || y != 0 {
      assert Bit(x, 0) <==> Bit(y, 0);
      forall k: nat ensures Bit(x / 2, k) <==> Bit(y / 2, k) {
        assert Bit(x, k + 1) <==> Bit(y, k + 1);
      }
      SameBits(x / 2, y / 2);
    }
  }

  /** The test of the filter is a test of two bits. */
  lemma MaskTest(word: nat, i: nat, j: nat)
    ensures var mask := Or(Pow2(i), Pow2(j)); And(mask, word) == mask <==> Bit(word, i) && Bit(word, j)
  {
    var mask := Or(Pow2(i), Pow2(j));
    forall k: nat
      ensures Bit(mask, k) <==> k == i || k == j
      ensures Bit(And(mask, word), k) <==> (k == i || k == j) && Bit(word, k)
    {
      OrBit(Pow2(i), Pow2(j), k);
      Pow2Bit(i, k);
      Pow2Bit(j, k);
      AndBit(mask, word, k);
    }
    if Bit(word, i) && Bit(word, j) {
      SameBits(And(mask, word), mask);
    }
  }

  lemma {:induction false} XorZero(x: nat, y: nat)
    ensures Xor(x, y) == 0 <==> x == y
    decreases x + y
  {
    if x != 0 && y != 0 {
      XorZero(x / 2, y / 2);
    }
  }

  /** The test of a chain word leaves the end bit out. */
  lemma HashTest(word: nat, hash: nat)
    ensures Shr(Xor(word, hash), 1) == 0 <==> word / 2 == hash / 2
  {
    XorZero(word / 2, hash / 2);
    assert Xor(word, hash) / 2 == Xor(word / 2, hash / 2);
    assert Shr(Xor(word, hash), 1) == Shr(Xor(word, hash) / 2, 0);
  }

  // ---- The sections

  /** The words of a System V hash section. */
  function HashSection(t: SysvTable): seq<nat> {
    [|t.bucket|, |t.chain|] + t.bucket + t.chain
  }

  /** The tables begin behind two words. */
  function ReadHash(d: seq<nat>): SysvTable
    requires |d| >= 2 && |d| == 2 + d[0] + d[1]
  {
    SysvTable(d[2..2 + d[0]], d[2 + d[0]..])
  }

  lemma HashSectionReads(t: SysvTable)
    ensures ReadHash(HashSection(t)) == t
  {
    var d := HashSection(t);
    assert d[2..2 + d[0]] == t.bucket;
    assert d[2 + d[0]..] == t.chain;
  }

  /** A filter word in two 32-bit words, the low one first. */
  function Halves(words: seq<nat>): (d: seq<nat>)
    ensures |d| == 2 * |words|
  {
    if words == [] then [] else [words[0] % WORD, words[0] / WORD] + Halves(words[1..])
  }

  function Joined(d: seq<nat>): (words: seq<nat>)
    requires |d| % 2 == 0
    ensures |words| == |d| / 2
  {
    if d == [] then [] else [d[0] + WORD * d[1]] + Joined(d[2..])
  }

  lemma {:induction false} HalvesJoin(words: seq<nat>)
    ensures Joined(Halves(words)) == words
  {
    if words != [] {
      HalvesJoin(words[1..]);
      assert Halves(words)[2..] == Halves(words[1..]);
    }
  }

  /** The words of a GNU hash section. */
  function GnuHashSection(t: GnuTable): seq<nat> {
    [|t.bucket|, t.symndx, |t.bloom|, t.shift2] + Halves(t.bloom) + t.bucket + t.chain
  }

  predicate GnuSectionFits(d: seq<nat>) {
    |d| >= 4 && |d| >= 4 + 2 * d[2] + d[0]
  }

  /** Four words, the filter, the buckets, and the chain words of the symbols from symndx on. */
  function ReadGnuHash(d: seq<nat>): GnuTable
    requires GnuSectionFits(d)
  {
    var buckets := 4 + 2 * d[2];
    GnuTable(d[1], d[3], Joined(d[4..buckets]), d[buckets..buckets + d[0]], d[buckets + d[0]..])
  }

  lemma GnuHashSectionReads(t: GnuTable)
    ensures GnuSectionFits(GnuHashSection(t)) && ReadGnuHash(GnuHashSection(t)) == t
  {
    var d := GnuHashSection(t);
    var buckets := 4 + 2 * d[2];
    HalvesJoin(t.bloom);
    assert d[4..buckets] == Halves(t.bloom);
    assert d[buckets..buckets + d[0]] == t.bucket;
    assert d[buckets + d[0]..] == t.chain;
  }

  // ---- The image

  /** Functions and objects that have a size go into the linear map. */
  predicate Usable(s: Sym) {
    (s.st_type == STT_FUNC || s.st_type == STT_OBJECT) && s.st_size != 0
  }

  ghost function UsableOf(syms: seq<Sym>): set<nat> {
    set i: nat | i < |syms| && Usable(syms[i])
  }

  class ElfImg {
    var dynsym: seq<Sym>
    var strings: Bytes
    var symtab: seq<Sym>
    var symtabStrings: Bytes
    var sysv: SysvTable
    var gnu: GnuTable
    var symtabs: map<Bytes, nat>

    /** The linear map is empty or complete. */
    ghost predicate Valid()
      reads this
    {
      && Named(symtab, symtabStrings)
      && (symtabs == map[] || forall name :: MapsAs(symtabs, symtab, symtabStrings, name, |symtab|))
    }

    /** The constructor: the tables of the sections found; without a section there are no buckets. */
    constructor (dynsym: seq<Sym>, strings: Bytes, symtab: seq<Sym>, symtabStrings: Bytes, hash: seq<nat>,
                 gnuHash: seq<nat>)
      requires Named(symtab, symtabStrings)
      requires hash == [] || (|hash| >= 2 && |hash| == 2 + hash[0] + hash[1])
      requires gnuHash == [] || GnuSectionFits(gnuHash)
      ensures Valid()
      ensures this.dynsym == dynsym && this.strings == strings && this.symtab == symtab
      ensures this.symtabStrings == symtabStrings
      ensures hash != [] ==> sysv == ReadHash(hash)
      ensures gnuHash != [] ==> gnu == ReadGnuHash(gnuHash)
      ensures (hash == [] ==> sysv.bucket == []) && (gnuHash == [] ==> gnu.bucket == [])
    {
      this.dynsym, this.strings, this.symtab, this.symtabStrings := dynsym, strings, symtab, symtabStrings;
      sysv := if hash == [] then SysvTable([], []) else ReadHash(hash);
      gnu := if gnuHash == [] then GnuTable(0, 0, [], [], []) else ReadGnuHash(gnuHash);
      symtabs := map[];
    }

    /** ElfLookup: on a table that fits, the walk ends and finds what the scan over the symbols indexed finds. */
    method ElfLookup(name: Bytes, hash: nat) returns (value: nat)
      requires hash == ElfHashOf(name)
      requires sysv.bucket != [] ==> SysvTableFits(sysv, dynsym, strings)
      requires sysv.bucket != [] ==> Unique(dynsym, strings, SysvIndexed(sysv, |dynsym|))
      ensures sysv.bucket == [] ==> value == 0
      ensures sysv.bucket != [] ==> value == Scan(dynsym, strings, SysvIndexed(sysv, |dynsym|), name, 0)
    {
      if |sysv.bucket| == 0 {
        return 0;
      }
      var b := hash % |sysv.bucket|;
      var n := sysv.bucket[b];
      ghost var k: nat := |sysv.chain|;
      ghost var indexed := SysvIndexed(sysv, |dynsym|);
      while n != 0
        invariant Ends(sysv.chain, n, k)
        invariant forall i :: i in Walk(sysv.chain, n, k) ==> OnChain(sysv, b, i)
        invariant forall i :: 0 <= i < |dynsym| && OnChain(sysv, b, i)
                              ==> i in Walk(sysv.chain, n, k) || NameOf(dynsym, strings, i) != name
        decreases k
      {
        assert OnChain(sysv, b, n);
        if name == NameOf(dynsym, strings, n) {
          ScanFinds(dynsym, strings, indexed, name, 0, n);
          return dynsym[n].st_value;
        }
        n := sysv.chain[n];
        k := k - 1;
      }
      ScanMisses(dynsym, strings, indexed, name, 0);
      return 0;
    }

    /**
     GnuLookup: on a table that fits, filter, run and chain words find what the scan over the symbols indexed
     finds.
     */
    method GnuLookup(name: Bytes, hash: nat) returns (value: nat)
      requires hash == GnuHashOf(name)
      requires gnu.bucket != [] ==> GnuTableFits(gnu, dynsym, strings)
      requires gnu.bucket != [] ==> Unique(dynsym, strings, GnuIndexed(gnu, |dynsym|))
      ensures gnu.bucket == [] ==> value == 0
      ensures gnu.bucket != [] ==> value == Scan(dynsym, strings, GnuIndexed(gnu, |dynsym|), name, 0)
    {
      hide Bit, Pow2, Shr, Or, And, Xor, CString, GnuHashOf;
      if |gnu.bucket| == 0 {
        return 0;
      }
      ghost var indexed := GnuIndexed(gnu, |dynsym|);
      if |gnu.bloom| == 0 {
        ScanMisses(dynsym, strings, indexed, name, 0);
        return 0;
      }
      var word := BloomWord(gnu, hash);
      var i, j := hash % BLOOM_MASK_BITS, Shr(hash, gnu.shift2) % BLOOM_MASK_BITS;
      var mask := Or(Pow2(i), Pow2(j));
      MaskTest(word, i, j);
      if And(mask, word) == mask {
        var start := gnu.bucket[hash % |gnu.bucket|];
        if start >= gnu.symndx {
          var found, k := WalkRun(name, hash, start);
          if found {
            ScanFinds(dynsym, strings, indexed, name, 0, k);
            return dynsym[k].st_value;
          }
        }
      }
      ScanMisses(dynsym, strings, indexed, name, 0);
      return 0;
    }

    /** The loop of GnuLookup: from start to the word with the end bit. */
    method WalkRun(name: Bytes, hash: nat, start: nat) returns (found: bool, i: nat)
      requires GnuTableFits(gnu, dynsym, strings) && hash == GnuHashOf(name)
      requires gnu.symndx <= start && RunEnds(gnu, start)
      ensures found ==> gnu.symndx <= i < |dynsym| && NameOf(dynsym, strings, i) == name
      ensures !found ==> forall k :: start <= k < |dynsym| && InRun(gnu, start, k)
                                     ==> NameOf(dynsym, strings, k) != name
    {
      hide Shr, Xor, CString, GnuHashOf, Passes;
      ghost var e: nat :| start <= e && LastOfRun(gnu, e);
      i := start;
      while true
        invariant start <= i <= e
        invariant forall k :: start <= k < i ==> NameOf(dynsym, strings, k) != name
        decreases e - i
      {
        var word := gnu.chain[i - gnu.symndx];
        HashTest(word, hash);
        assert GnuEntry(gnu, i, GnuHashOf(NameOf(dynsym, strings, i)));
        if Shr(Xor(word, hash), 1) == 0 && NameOf(dynsym, strings, i) == name {
          return true, i;
        }
        if word % 2 == 1 {
          assert LastOfRun(gnu, i);
          assert forall k :: start <= k <= i ==> NameOf(dynsym, strings, k) != name;
          return false, i;
        }
        i := i + 1;
      }
    }

    /** MayInitLinearMap. */
    method MayInitLinearMap()
      requires Valid()
      modifies this`symtabs
      ensures Valid() && forall name :: MapsAs(symtabs, symtab, symtabStrings, name, |symtab|)
    {
      hide CString, Scan, Usable;
      if symtabs == map[] {
        for i := 0 to |symtab|
          invariant forall name :: MapsAs(symtabs, symtab, symtabStrings, name, i)
        {
          var name := NameOf(symtab, symtabStrings, i);
          ghost var was, next := symtabs, i + 1;
          if Usable(symtab[i]) && name !in symtabs {
            symtabs := symtabs[name := symtab[i].st_value];
          }
          forall other: Bytes ensures MapsAs(symtabs, symtab, symtabStrings, other, next) {
            assert MapsAs(was, symtab, symtabStrings, other, i);
            ScanStep(symtab, symtabStrings, other, i);
          }
        }
      }
    }

    /** LinearLookup: the first symbol of the name that is a function or an object with a size. */
    method LinearLookup(name: Bytes) returns (value: nat)
      requires Valid()
      modifies this`symtabs
      ensures Valid() && value == Scan(symtab, symtabStrings, UsableOf(symtab), name, 0)
    {
      MayInitLinearMap();
      assert MapsAs(symtabs, symtab, symtabStrings, name, |symtab|);
      value := if name in symtabs then symtabs[name] else 0;
    }

    /** What the dynamic symbols have for a name: by the GNU table if there is one, else by the System V table. */
    ghost function Dynamic(name: Bytes): nat
      reads this
      requires gnu.bucket != [] ==> GnuTableFits(gnu, dynsym, strings)
      requires sysv.bucket != [] ==> SysvTableFits(sysv, dynsym, strings)
    {
      var g := if gnu.bucket == [] then 0 else Scan(dynsym, strings, GnuIndexed(gnu, |dynsym|), name, 0);
      if g > 0 then g
      else if sysv.bucket == [] then 0 else Scan(dynsym, strings, SysvIndexed(sysv, |dynsym|), name, 0)
    }

    /** getSymbOffset, with the hashes that getSymbAddress passes. */
    method GetSymbOffset(name: Bytes) returns (value: nat)
      requires Valid()
      requires gnu.bucket != []
               ==> GnuTableFits(gnu, dynsym, strings) && Unique(dynsym, strings, GnuIndexed(gnu, |dynsym|))
      requires sysv.bucket != []
               ==> SysvTableFits(sysv, dynsym, strings) && Unique(dynsym, strings, SysvIndexed(sysv, |dynsym|))
      modifies this`symtabs
      ensures Valid()
      ensures value == if Dynamic(name) > 0 then Dynamic(name)
                       else Scan(symtab, symtabStrings, UsableOf(symtab), name, 0)
    {
      hide SysvTableFits, GnuTableFits, Unique, Scan, MapsAs;
      var gnuHash := GnuHash(name);
      var elfHash := ElfHash(name);
      value := GnuLookup(name, gnuHash);
      if value == 0 {
        value := ElfLookup(name, elfHash);
        if value == 0 {
          value := LinearLookup(name);
        }
      }
    }
  }

  /** After k symbols the map has what the scan has found, and the scan goes on for the other names. */
  ghost predicate MapsAs(m: map<Bytes, nat>, syms: seq<Sym>, strings: Bytes, name: Bytes, k: nat)
    requires Named(syms, strings)
  {
    Scan(syms, strings, UsableOf(syms), name, 0) == if name in m then m[name]
                                                    else Scan(syms, strings, UsableOf(syms), name, k)
  }

  lemma ScanStep(syms: seq<Sym>, strings: Bytes, name: Bytes, i: nat)
    requires Named(syms, strings) && i < |syms|
    ensures Scan(syms, strings, UsableOf(syms), name, i)
         == if Usable(syms[i]) && NameOf(syms, strings, i) == name then syms[i].st_value
            else Scan(syms, strings, UsableOf(syms), name, i + 1)
  {
  }

  /** A symbol in both tables is found in either of them. */
  lemma TablesAgree(sysv: SysvTable, gnu: GnuTable, syms: seq<Sym>, strings: Bytes, i: nat)
    requires SysvTableFits(sysv, syms, strings) && Unique(syms, strings, SysvIndexed(sysv, |syms|))
    requires GnuTableFits(gnu, syms, strings) && Unique(syms, strings, GnuIndexed(gnu, |syms|))
    requires i < |syms| && OnSomeChain(sysv, i) && gnu.symndx <= i
    ensures var name := NameOf(syms, strings, i);
            && Scan(syms, strings, SysvIndexed(sysv, |syms|), name, 0) == syms[i].st_value
            && Scan(syms, strings, GnuIndexed(gnu, |syms|), name, 0) == syms[i].st_value
  {
    var name := NameOf(syms, strings, i);
    ScanFinds(syms, strings, SysvIndexed(sysv, |syms|), name, 0, i);
    ScanFinds(syms, strings, GnuIndexed(gnu, |syms|), name, 0, i);
  }
}
