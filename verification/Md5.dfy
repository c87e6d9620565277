/** MD5 as Md5Utils computes it, piece by piece. */
module Md5 {
  import opened Bits
  import opened Varints

  type Bytes = seq<Byte>

  const BLOCK_SIZE: nat := 64
  const WORD: nat := 0x1_0000_0000

  // ---- The compression function

  datatype State = State(a: nat, b: nat, c: nat, d: nat)

  const INIT: State := State(0x6745_2301, 0xEFCD_AB89, 0x98BA_DCFE, 0x1032_5476)

  function Not(x: nat): nat { 0xFFFF_FFFF - x % WORD }

  function F(x: nat, y: nat, z: nat): nat { Or(And(x, y), And(Not(x), z)) }

  function G(x: nat, y: nat, z: nat): nat { Or(And(x, z), And(y, Not(z))) }

  function H(x: nat, y: nat, z: nat): nat { Xor(Xor(x, y), z) }

  function I(x: nat, y: nat, z: nat): nat { Xor(y, Or(x, Not(z))) }

  /** rotate_left on 32-bit words. */
  function RotateLeft(x: nat, n: nat): nat
    requires n <= 32
  {
    Or(x * Pow2(n) % WORD, Shr(x % WORD, 32 - n))
  }

  /** The shifts of the four rounds. */
  const SHIFTS: seq<seq<nat>> := [[7, 12, 17, 22], [5, 9, 14, 20], [4, 11, 16, 23], [6, 10, 15, 21]]

  /** The constants of each round, four steps to a row. */
  const SINES_1: seq<seq<nat>> := [
    [0xd76aa478, 0xe8c7b756, 0x242070db, 0xc1bdceee],
    [0xf57c0faf, 0x4787c62a, 0xa8304613, 0xfd469501],
    [0x698098d8, 0x8b44f7af, 0xffff5bb1, 0x895cd7be],
    [0x6b901122, 0xfd987193, 0xa679438e, 0x49b40821]]

  const SINES_2: seq<seq<nat>> := [
    [0xf61e2562, 0xc040b340, 0x265e5a51, 0xe9b6c7aa],
    [0xd62f105d, 0x2441453, 0xd8a1e681, 0xe7d3fbc8],
    [0x21e1cde6, 0xc33707d6, 0xf4d50d87, 0x455a14ed],
    [0xa9e3e905, 0xfcefa3f8, 0x676f02d9, 0x8d2a4c8a]]

  const SINES_3: seq<seq<nat>> := [
    [0xfffa3942, 0x8771f681, 0x6d9d6122, 0xfde5380c],
    [0xa4beea44, 0x4bdecfa9, 0xf6bb4b60, 0xbebfbc70],
    [0x289b7ec6, 0xeaa127fa, 0xd4ef3085, 0x4881d05],
    [0xd9d4d039, 0xe6db99e5, 0x1fa27cf8, 0xc4ac5665]]

  const SINES_4: seq<seq<nat>> := [
    [0xf4292244, 0x432aff97, 0xab9423a7, 0xfc93a039],
    [0x655b59c3, 0x8f0ccc92, 0xffeff47d, 0x85845dd1],
    [0x6fa87e4f, 0xfe2ce6e0, 0xa3014314, 0x4e0811a1],
    [0xf7537e82, 0xbd3af235, 0x2ad7d2bb, 0xeb86d391]]

  /** The constant of step n. */
  function Sine(n: nat): nat
    requires n < 64
  {
    var row, k := n % 16 / 4, n % 4;
    if n < 16 then SINES_1[row][k] else if n < 32 then SINES_2[row][k] else if n < 48 then SINES_3[row][k]
    else SINES_4[row][k]
  }

  /** The function of a round. */
  function Mix(round: nat, x: nat, y: nat, z: nat): nat {
    if round == 0 then F(x, y, z) else if round == 1 then G(x, y, z) else if round == 2 then H(x, y, z) else I(x, y, z)
  }

  /** The word of the block that step j of a round takes. */
  function Index(round: nat, j: nat): nat {
    if round == 0 then j % 16 else if round == 1 then (1 + 5 * j) % 16 else if round == 2 then (5 + 3 * j) % 16
    else 7 * j % 16
  }

  /** a = rotate_left(a + f(b, c, d) + x + ac, s) + b, on 32-bit words. */
  function NewWord(round: nat, a: nat, b: nat, c: nat, d: nat, x: nat, s: nat, ac: nat): nat
    requires s <= 32
  {
    (RotateLeft((a + Mix(round, b, c, d) + x + ac) % WORD, s) + b) % WORD
  }

  /** The word that step n makes of a. */
  function Worked(n: nat, s: State, x: seq<nat>): nat
    requires |x| == 16 && n < 64
  {
    NewWord(n / 16, s.a, s.b, s.c, s.d, x[Index(n / 16, n % 16)], SHIFTS[n / 16][n % 4], Sine(n))
  }

  /** Step n: a gets the new word, and the words change places. */
  function Step(s: State, x: seq<nat>, n: nat): State
    requires |x| == 16 && n < 64
  {
    State(s.d, Worked(n, s, x), s.b, s.c)
  }

  /** The steps from n up to m. */
  function Steps(s: State, x: seq<nat>, n: nat, m: nat): State
    requires |x| == 16 && n <= m <= 64
    decreases m - n
  {
    if n == m then s else Steps(Step(s, x, n), x, n + 1, m)
  }

  /** Four bytes as a word, the low byte first. */
  function WordOf(b: Bytes, i: nat): nat
    requires i + 4 <= |b|
  {
    b[i] as nat + 0x100 * b[i + 1] as nat + 0x1_0000 * b[i + 2] as nat + 0x100_0000 * b[i + 3] as nat
  }

  function Decoded(b: Bytes): (x: seq<nat>)
    requires |b| % 4 == 0
    ensures |x| == |b| / 4
  {
    seq(|b| / 4, i requires 0 <= i < |b| / 4 => WordOf(b, 4 * i))
  }

  /** A block worked into the state. */
  function Transformed(s: State, block: Bytes): State
    requires |block| == BLOCK_SIZE
  {
    var t := Steps(s, Decoded(block), 0, 64);
    State((s.a + t.a) % WORD, (s.b + t.b) % WORD, (s.c + t.c) % WORD, (s.d + t.d) % WORD)
  }

  function BytesOf(w: nat): Bytes {
    [(w % 256) as Byte, (w / 0x100 % 256) as Byte, (w / 0x1_0000 % 256) as Byte, (w / 0x100_0000 % 256) as Byte]
  }

  function Encoded(x: seq<nat>): (b: Bytes)
    ensures |b| == 4 * |x|
  {
    if x == [] then [] else Encoded(x[..|x| - 1]) + BytesOf(x[|x| - 1])
  }

  // ---- The digest of a message

  /** All blocks of b worked into the initial state, the last one last. */
  function Fold(b: Bytes): State
    requires |b| % BLOCK_SIZE == 0
  {
    if b == [] then INIT else Transformed(Fold(b[..|b| - 64]), b[|b| - 64..])
  }

  function Zeros(n: nat): (b: Bytes)
    ensures |b| == n
  {
    seq(n, _ => 0)
  }

  /** The padding that brings n bytes to 56 modulo 64: at least one byte, a one bit first. */
  function PadLength(n: nat): (k: nat)
    ensures 1 <= k <= 64 && (n + k) % 64 == 56
  {
    if n % 64 < 56 then 56 - n % 64 else 120 - n % 64
  }

  lemma PadSum(n: nat)
    ensures (n + PadLength(n) + 8) % 64 == 0
  {
  }

  /** Sections 3.1 and 3.2 of RFC 1321: padding, and the length in bits modulo 2^64, low word first. */
  function Padding(n: nat): (b: Bytes)
    ensures |b| == PadLength(n) + 8
  {
    [0x80] + Zeros(PadLength(n) - 1) + Encoded([8 * n % WORD, 8 * n / WORD % WORD])
  }

  function Padded(m: Bytes): (b: Bytes)
    ensures |b| % 64 == 0
  {
    PadSum(|m|);
    m + Padding(|m|)
  }

  function Digest(m: Bytes): Bytes {
    var s := Fold(Padded(m));
    Encoded([s.a, s.b, s.c, s.d])
  }

  // ---- Decoding and encoding arrays

  /** decode. */
  method Decode(input: Bytes) returns (output: array<nat>)
    requires |input| % 4 == 0
    ensures fresh(output) && output[..] == Decoded(input)
  {
    output := new nat[|input| / 4];
    var i, j := 0, 0;
    while j < |input|
      invariant j == 4 * i && i <= output.Length
      invariant forall k :: 0 <= k < i ==> output[k] == WordOf(input, 4 * k)
    {
      output[i] := input[j] as nat + 0x100 * input[j + 1] as nat + 0x1_0000 * input[j + 2] as nat
                   + 0x100_0000 * input[j + 3] as nat;
      i, j := i + 1, j + 4;
    }
  }

  /** encode. */
  method Encode(input: seq<nat>) returns (output: array<Byte>)
    ensures fresh(output) && output[..] == Encoded(input)
  {
    output := new Byte[4 * |input|];
    var i, j := 0, 0;
    while j < output.Length
      invariant j == 4 * i && i <= |input| && output[..j] == Encoded(input[..i])
    {
      output[j], output[j + 1] := (input[i] % 256) as Byte, (input[i] / 0x100 % 256) as Byte;
      output[j + 2], output[j + 3] := (input[i] / 0x1_0000 % 256) as Byte, (input[i] / 0x100_0000 % 256) as Byte;
      assert input[..i + 1][..i] == input[..i];
      assert output[..j + 4] == output[..j] + BytesOf(input[i]);
      i, j := i + 1, j + 4;
    }
    assert input[..|input|] == input;
    assert output[..output.Length] == output[..];
  }

  lemma FoldAppends(b: Bytes, block: Bytes)
    requires |b| % BLOCK_SIZE == 0 && |block| == BLOCK_SIZE
    ensures |b + block| % BLOCK_SIZE == 0 && Fold(b + block) == Transformed(Fold(b), block)
  {
    assert (b + block)[..|b + block| - 64] == b;
    assert (b + block)[|b + block| - 64..] == block;
  }

  // ---- The unrolled transform

  /** Consecutive runs of steps. */
  lemma {:induction false} StepsChain(s: State, x: seq<nat>, n: nat, k: nat, m: nat)
    requires |x| == 16 && n <= k <= m <= 64
    ensures Steps(Steps(s, x, n, k), x, k, m) == Steps(s, x, n, m)
    decreases k - n
  {
    hide Step;
    if n < k { StepsChain(Step(s, x, n), x, n + 1, k, m); }
  }

  /** After four steps every word has been worked once and is in its place again. */
  lemma FourSteps(s: State, x: seq<nat>, n: nat, t: State)
    requires |x| == 16 && n + 4 <= 64
    requires t.a == Worked(n, s, x)
    requires t.d == Worked(n + 1, State(s.d, t.a, s.b, s.c), x)
    requires t.c == Worked(n + 2, State(s.c, t.d, t.a, s.b), x)
    requires t.b == Worked(n + 3, State(s.b, t.c, t.d, t.a), x)
    ensures Steps(s, x, n, n + 4) == t
  {
    hide Worked;
    var s1 := Step(s, x, n);
    var s2 := Step(s1, x, n + 1);
    var s3 := Step(s2, x, n + 2);
    assert Steps(s, x, n, n + 4) == Steps(s1, x, n + 1, n + 4) == Steps(s2, x, n + 2, n + 4);
    assert Steps(s2, x, n + 2, n + 4) == Steps(s3, x, n + 3, n + 4) == Steps(Step(s3, x, n + 3), x, n + 4, n + 4);
  }

  method FF(a: nat, b: nat, c: nat, d: nat, x: nat, s: nat, ac: nat) returns (r: nat)
    requires s <= 32
    ensures r == NewWord(0, a, b, c, d, x, s, ac)
  {
    hide F, G, H, I, RotateLeft;
    r := (RotateLeft((a + F(b, c, d) + x + ac) % WORD, s) + b) % WORD;
  }

  method GG(a: nat, b: nat, c: nat, d: nat, x: nat, s: nat, ac: nat) returns (r: nat)
    requires s <= 32
    ensures r == NewWord(1, a, b, c, d, x, s, ac)
  {
    hide F, G, H, I, RotateLeft;
    r := (RotateLeft((a + G(b, c, d) + x + ac) % WORD, s) + b) % WORD;
  }

  method HH(a: nat, b: nat, c: nat, d: nat, x: nat, s: nat, ac: nat) returns (r: nat)
    requires s <= 32
    ensures r == NewWord(2, a, b, c, d, x, s, ac)
  {
    hide F, G, H, I, RotateLeft;
    r := (RotateLeft((a + H(b, c, d) + x + ac) % WORD, s) + b) % WORD;
  }

  method II(a: nat, b: nat, c: nat, d: nat, x: nat, s: nat, ac: nat) returns (r: nat)
    requires s <= 32
    ensures r == NewWord(3, a, b, c, d, x, s, ac)
  {
    hide F, G, H, I, RotateLeft;
    r := (RotateLeft((a + I(b, c, d) + x + ac) % WORD, s) + b) % WORD;
  }

  const S11: nat := 7
  const S12: nat := 12
  const S13: nat := 17
  const S14: nat := 22
  const S21: nat := 5
  const S22: nat := 9
  const S23: nat := 14
  const S24: nat := 20
  const S31: nat := 4
  const S32: nat := 11
  const S33: nat := 16
  const S34: nat := 23
  const S41: nat := 6
  const S42: nat := 10
  const S43: nat := 15
  const S44: nat := 21

  /** Steps 1 to 4. */
  method Four0(a0: nat, b0: nat, c0: nat, d0: nat, x: seq<nat>) returns (a: nat, b: nat, c: nat, d: nat)
    requires |x| == 16
    ensures State(a, b, c, d) == Steps(State(a0, b0, c0, d0), x, 0, 4)
  {
    hide NewWord, Steps;
    a, b, c, d := a0, b0, c0, d0;
    a := FF(a, b, c, d, x[0], S11, 0xd76aa478);
    d := FF(d, a, b, c, x[1], S12, 0xe8c7b756);
    c := FF(c, d, a, b, x[2], S13, 0x242070db);
    b := FF(b, c, d, a, x[3], S14, 0xc1bdceee);
    FourSteps(State(a0, b0, c0, d0), x, 0, State(a, b, c, d));
  }

  /** Steps 5 to 8. */
  method Four4(a0: nat, b0: nat, c0: nat, d0: nat, x: seq<nat>) returns (a: nat, b: nat, c: nat, d: nat)
    requires |x| == 16
    ensures State(a, b, c, d) == Steps(State(a0, b0, c0, d0), x, 4, 8)
  {
    hide NewWord, Steps;
    a, b, c, d := a0, b0, c0, d0;
    a := FF(a, b, c, d, x[4], S11, 0xf57c0faf);
    d := FF(d, a, b, c, x[5], S12, 0x4787c62a);
    c := FF(c, d, a, b, x[6], S13, 0xa8304613);
    b := FF(b, c, d, a, x[7], S14, 0xfd469501);
    FourSteps(State(a0, b0, c0, d0), x, 4, State(a, b, c, d));
  }

  /** Steps 9 to 12. */
  method Four8(a0: nat, b0: nat, c0: nat, d0: nat, x: seq<nat>) returns (a: nat, b: nat, c: nat, d: nat)
    requires |x| == 16
    ensures State(a, b, c, d) == Steps(State(a0, b0, c0, d0), x, 8, 12)
  {
    hide NewWord, Steps;
    a, b, c, d := a0, b0, c0, d0;
    a := FF(a, b, c, d, x[8], S11, 0x698098d8);
    d := FF(d, a, b, c, x[9], S12, 0x8b44f7af);
    c := FF(c, d, a, b, x[10], S13, 0xffff5bb1);
    b := FF(b, c, d, a, x[11], S14, 0x895cd7be);
    FourSteps(State(a0, b0, c0, d0), x, 8, State(a, b, c, d));
  }

  /** Steps 13 to 16. */
  method Four12(a0: nat, b0: nat, c0: nat, d0: nat, x: seq<nat>) returns (a: nat, b: nat, c: nat, d: nat)
    requires |x| == 16
    ensures State(a, b, c, d) == Steps(State(a0, b0, c0, d0), x, 12, 16)
  {
    hide NewWord, Steps;
    a, b, c, d := a0, b0, c0, d0;
    a := FF(a, b, c, d, x[12], S11, 0x6b901122);
    d := FF(d, a, b, c, x[13], S12, 0xfd987193);
    c := FF(c, d, a, b, x[14], S13, 0xa679438e);
    b := FF(b, c, d, a, x[15], S14, 0x49b40821);
    FourSteps(State(a0, b0, c0, d0), x, 12, State(a, b, c, d));
  }

  /** Steps 17 to 20. */
  method Four16(a0: nat, b0: nat, c0: nat, d0: nat, x: seq<nat>) returns (a: nat, b: nat, c: nat, d: nat)
    requires |x| == 16
    ensures State(a, b, c, d) == Steps(State(a0, b0, c0, d0), x, 16, 20)
  {
    hide NewWord, Steps;
    a, b, c, d := a0, b0, c0, d0;
    a := GG(a, b, c, d, x[1], S21, 0xf61e2562);
    d := GG(d, a, b, c, x[6], S22, 0xc040b340);
    c := GG(c, d, a, b, x[11], S23, 0x265e5a51);
    b := GG(b, c, d, a, x[0], S24, 0xe9b6c7aa);
    FourSteps(State(a0, b0, c0, d0), x, 16, State(a, b, c, d));
  }

  /** Steps 21 to 24. */
  method Four20(a0: nat, b0: nat, c0: nat, d0: nat, x: seq<nat>) returns (a: nat, b: nat, c: nat, d: nat)
    requires |x| == 16
    ensures State(a, b, c, d) == Steps(State(a0, b0, c0, d0), x, 20, 24)
  {
    hide NewWord, Steps;
    a, b, c, d := a0, b0, c0, d0;
    a := GG(a, b, c, d, x[5], S21, 0xd62f105d);
    d := GG(d, a, b, c, x[10], S22, 0x2441453);
    c := GG(c, d, a, b, x[15], S23, 0xd8a1e681);
    b := GG(b, c, d, a, x[4], S24, 0xe7d3fbc8);
    FourSteps(State(a0, b0, c0, d0), x, 20, State(a, b, c, d));
  }

  /** Steps 25 to 28. */
  method Four24(a0: nat, b0: nat, c0: nat, d0: nat, x: seq<nat>) returns (a: nat, b: nat, c: nat, d: nat)
    requires |x| == 16
    ensures State(a, b, c, d) == Steps(State(a0, b0, c0, d0), x, 24, 28)
  {
    hide NewWord, Steps;
    a, b, c, d := a0, b0, c0, d0;
    a := GG(a, b, c, d, x[9], S21, 0x21e1cde6);
    d := GG(d, a, b, c, x[14], S22, 0xc33707d6);
    c := GG(c, d, a, b, x[3], S23, 0xf4d50d87);
    b := GG(b, c, d, a, x[8], S24, 0x455a14ed);
    FourSteps(State(a0, b0, c0, d0), x, 24, State(a, b, c, d));
  }

  /** Steps 29 to 32. */
  method Four28(a0: nat, b0: nat, c0: nat, d0: nat, x: seq<nat>) returns (a: nat, b: nat, c: nat, d: nat)
    requires |x| == 16
    ensures State(a, b, c, d) == Steps(State(a0, b0, c0, d0), x, 28, 32)
  {
    hide NewWord, Steps;
    a, b, c, d := a0, b0, c0, d0;
    a := GG(a, b, c, d, x[13], S21, 0xa9e3e905);
    d := GG(d, a, b, c, x[2], S22, 0xfcefa3f8);
    c := GG(c, d, a, b, x[7], S23, 0x676f02d9);
    b := GG(b, c, d, a, x[12], S24, 0x8d2a4c8a);
    FourSteps(State(a0, b0, c0, d0), x, 28, State(a, b, c, d));
  }

  /** Steps 33 to 36. */
  method Four32(a0: nat, b0: nat, c0: nat, d0: nat, x: seq<nat>) returns (a: nat, b: nat, c: nat, d: nat)
    requires |x| == 16
    ensures State(a, b, c, d) == Steps(State(a0, b0, c0, d0), x, 32, 36)
  {
    hide NewWord, Steps;
    a, b, c, d := a0, b0, c0, d0;
    a := HH(a, b, c, d, x[5], S31, 0xfffa3942);
    d := HH(d, a, b, c, x[8], S32, 0x8771f681);
    c := HH(c, d, a, b, x[11], S33, 0x6d9d6122);
    b := HH(b, c, d, a, x[14], S34, 0xfde5380c);
    FourSteps(State(a0, b0, c0, d0), x, 32, State(a, b, c, d));
  }

  /** Steps 37 to 40. */
  method Four36(a0: nat, b0: nat, c0: nat, d0: nat, x: seq<nat>) returns (a: nat, b: nat, c: nat, d: nat)
    requires |x| == 16
    ensures State(a, b, c, d) == Steps(State(a0, b0, c0, d0), x, 36, 40)
  {
    hide NewWord, Steps;
    a, b, c, d := a0, b0, c0, d0;
    a := HH(a, b, c, d, x[1], S31, 0xa4beea44);
    d := HH(d, a, b, c, x[4], S32, 0x4bdecfa9);
    c := HH(c, d, a, b, x[7], S33, 0xf6bb4b60);
    b := HH(b, c, d, a, x[10], S34, 0xbebfbc70);
    FourSteps(State(a0, b0, c0, d0), x, 36, State(a, b, c, d));
  }

  /** Steps 41 to 44. */
  method Four40(a0: nat, b0: nat, c0: nat, d0: nat, x: seq<nat>) returns (a: nat, b: nat, c: nat, d: nat)
    requires |x| == 16
    ensures State(a, b, c, d) == Steps(State(a0, b0, c0, d0), x, 40, 44)
  {
    hide NewWord, Steps;
    a, b, c, d := a0, b0, c0, d0;
    a := HH(a, b, c, d, x[13], S31, 0x289b7ec6);
    d := HH(d, a, b, c, x[0], S32, 0xeaa127fa);
    c := HH(c, d, a, b, x[3], S33, 0xd4ef3085);
    b := HH(b, c, d, a, x[6], S34, 0x4881d05);
    FourSteps(State(a0, b0, c0, d0), x, 40, State(a, b, c, d));
  }

  /** Steps 45 to 48. */
  method Four44(a0: nat, b0: nat, c0: nat, d0: nat, x: seq<nat>) returns (a: nat, b: nat, c: nat, d: nat)
    requires |x| == 16
    ensures State(a, b, c, d) == Steps(State(a0, b0, c0, d0), x, 44, 48)
  {
    hide NewWord, Steps;
    a, b, c, d := a0, b0, c0, d0;
    a := HH(a, b, c, d, x[9], S31, 0xd9d4d039);
    d := HH(d, a, b, c, x[12], S32, 0xe6db99e5);
    c := HH(c, d, a, b, x[15], S33, 0x1fa27cf8);
    b := HH(b, c, d, a, x[2], S34, 0xc4ac5665);
    FourSteps(State(a0, b0, c0, d0), x, 44, State(a, b, c, d));
  }

  /** Steps 49 to 52. */
  method Four48(a0: nat, b0: nat, c0: nat, d0: nat, x: seq<nat>) returns (a: nat, b: nat, c: nat, d: nat)
    requires |x| == 16
    ensures State(a, b, c, d) == Steps(State(a0, b0, c0, d0), x, 48, 52)
  {
    hide NewWord, Steps;
    a, b, c, d := a0, b0, c0, d0;
    a := II(a, b, c, d, x[0], S41, 0xf4292244);
    d := II(d, a, b, c, x[7], S42, 0x432aff97);
    c := II(c, d, a, b, x[14], S43, 0xab9423a7);
    b := II(b, c, d, a, x[5], S44, 0xfc93a039);
    FourSteps(State(a0, b0, c0, d0), x, 48, State(a, b, c, d));
  }

  /** Steps 53 to 56. */
  method Four52(a0: nat, b0: nat, c0: nat, d0: nat, x: seq<nat>) returns (a: nat, b: nat, c: nat, d: nat)
    requires |x| == 16
    ensures State(a, b, c, d) == Steps(State(a0, b0, c0, d0), x, 52, 56)
  {
    hide NewWord, Steps;
    a, b, c, d := a0, b0, c0, d0;
    a := II(a, b, c, d, x[12], S41, 0x655b59c3);
    d := II(d, a, b, c, x[3], S42, 0x8f0ccc92);
    c := II(c, d, a, b, x[10], S43, 0xffeff47d);
    b := II(b, c, d, a, x[1], S44, 0x85845dd1);
    FourSteps(State(a0, b0, c0, d0), x, 52, State(a, b, c, d));
  }

  /** Steps 57 to 60. */
  method Four56(a0: nat, b0: nat, c0: nat, d0: nat, x: seq<nat>) returns (a: nat, b: nat, c: nat, d: nat)
    requires |x| == 16
    ensures State(a, b, c, d) == Steps(State(a0, b0, c0, d0), x, 56, 60)
  {
    hide NewWord, Steps;
    a, b, c, d := a0, b0, c0, d0;
    a := II(a, b, c, d, x[8], S41, 0x6fa87e4f);
    d := II(d, a, b, c, x[15], S42, 0xfe2ce6e0);
    c := II(c, d, a, b, x[6], S43, 0xa3014314);
    b := II(b, c, d, a, x[13], S44, 0x4e0811a1);
    FourSteps(State(a0, b0, c0, d0), x, 56, State(a, b, c, d));
  }

  /** Steps 61 to 64. */
  method Four60(a0: nat, b0: nat, c0: nat, d0: nat, x: seq<nat>) returns (a: nat, b: nat, c: nat, d: nat)
    requires |x| == 16
    ensures State(a, b, c, d) == Steps(State(a0, b0, c0, d0), x, 60, 64)
  {
    hide NewWord, Steps;
    a, b, c, d := a0, b0, c0, d0;
    a := II(a, b, c, d, x[4], S41, 0xf7537e82);
    d := II(d, a, b, c, x[11], S42, 0xbd3af235);
    c := II(c, d, a, b, x[2], S43, 0x2ad7d2bb);
    b := II(b, c, d, a, x[9], S44, 0xeb86d391);
    FourSteps(State(a0, b0, c0, d0), x, 60, State(a, b, c, d));
  }

  // ---- The count of bits

  /** The two words hold 8 times n modulo 2^64. */
  ghost predicate Counts(low: nat, high: nat, n: nat) {
    low == 8 * n % WORD && high == 8 * n / WORD % WORD
  }

  /** Adding length bytes to the count, with the carry found by wrap-around. */
  lemma CountAdds(low: nat, high: nat, n: nat, length: nat)
    requires Counts(low, high, n) && length < WORD
    ensures var bits := 8 * length % WORD; var low' := (low + bits) % WORD;
            var carry := if low' < bits then 1 else 0;
            Counts(low', (high + carry + length / 0x2000_0000) % WORD, n + length)
  {
    var bits, m := 8 * length % WORD, 8 * length / WORD;
    assert m == length / 0x2000_0000;
    var q := 8 * n / WORD;
    assert 8 * n == WORD * q + low && 8 * length == WORD * m + bits;
    var low' := (low + bits) % WORD;
    var carry := if low' < bits then 1 else 0;
    assert low + bits == WORD * carry + low';
    assert 8 * (n + length) == WORD * (q + m + carry) + low';
    Quotient(8 * (n + length), q + m + carry, low');
    ModAdds(q, m + carry);
  }

  lemma Quotient(x: nat, q: nat, r: nat)
    requires x == WORD * q + r && r < WORD
    ensures x / WORD == q && x % WORD == r
  {
  }

  lemma ModAdds(a: nat, b: nat)
    ensures (a % WORD + b) % WORD == (a + b) % WORD
  {
  }

  /** The place in a block, from the count of bits. */
  lemma IndexOfCount(low: nat, high: nat, n: nat)
    requires Counts(low, high, n)
    ensures low / 8 % 64 == n % 64
  {
    var q := 8 * n / WORD;
    assert 8 * n == WORD * q + low;
    assert low == 8 * (n - 0x2000_0000 * q);
    assert low / 8 == n - 0x2000_0000 * q;
    var t := 0x80_0000 * q;
    assert n == low / 8 + 64 * t;
    WholeBlocksAway(low / 8, t);
  }

  lemma WholeBlocksAway(a: nat, t: nat)
    ensures (a + 64 * t) % 64 == a % 64
  {
  }

  // ---- The context

  class Md5Utils {
    var finalized: bool
    var buffer: array<Byte>
    var count0: nat
    var count1: nat
    var state: State
    var digest: Bytes

    /** What has been put in so far. */
    ghost var message: Bytes

    ghost predicate Valid()
      reads this, buffer
    {
      && buffer.Length == BLOCK_SIZE && Counts(count0, count1, |message|)
      && state == Fold(message[..Full(|message|)])
      && buffer[..|message| % 64] == message[Full(|message|)..]
    }

    constructor ()
      ensures Valid() && message == [] && !finalized && fresh(buffer)
    {
      finalized := false;
      buffer := new Byte[BLOCK_SIZE];
      count0, count1 := 0, 0;
      state := INIT;
      digest := [];
      message := [];
    }

    /** transform: the 64 lines of the four rounds, one after the other. */
    method Transform(block: Bytes)
      requires |block| == BLOCK_SIZE
      modifies this`state
      ensures state == Transformed(old(state), block)
    {
      hide Steps, Decoded;
      var words := Decode(block);
      var x := words[..];
      var a, b, c, d := state.a, state.b, state.c, state.d;
      ghost var s := state;
      a, b, c, d := Four0(a, b, c, d, x);
      a, b, c, d := Four4(a, b, c, d, x);
      StepsChain(s, x, 0, 4, 8);
      a, b, c, d := Four8(a, b, c, d, x);
      StepsChain(s, x, 0, 8, 12);
      a, b, c, d := Four12(a, b, c, d, x);
      StepsChain(s, x, 0, 12, 16);
      a, b, c, d := Four16(a, b, c, d, x);
      StepsChain(s, x, 0, 16, 20);
      a, b, c, d := Four20(a, b, c, d, x);
      StepsChain(s, x, 0, 20, 24);
      a, b, c, d := Four24(a, b, c, d, x);
      StepsChain(s, x, 0, 24, 28);
      a, b, c, d := Four28(a, b, c, d, x);
      StepsChain(s, x, 0, 28, 32);
      a, b, c, d := Four32(a, b, c, d, x);
      StepsChain(s, x, 0, 32, 36);
      a, b, c, d := Four36(a, b, c, d, x);
      StepsChain(s, x, 0, 36, 40);
      a, b, c, d := Four40(a, b, c, d, x);
      StepsChain(s, x, 0, 40, 44);
      a, b, c, d := Four44(a, b, c, d, x);
      StepsChain(s, x, 0, 44, 48);
      a, b, c, d := Four48(a, b, c, d, x);
      StepsChain(s, x, 0, 48, 52);
      a, b, c, d := Four52(a, b, c, d, x);
      StepsChain(s, x, 0, 52, 56);
      a, b, c, d := Four56(a, b, c, d, x);
      StepsChain(s, x, 0, 56, 60);
      a, b, c, d := Four60(a, b, c, d, x);
      StepsChain(s, x, 0, 60, 64);
      state := State((state.a + a) % WORD, (state.b + b) % WORD, (state.c + c) % WORD, (state.d + d) % WORD);
    }

    /** memcpy into the buffer. */
    method Copy(index: nat, bytes: Bytes)
      requires index + |bytes| <= buffer.Length
      modifies buffer
      ensures buffer[..index + |bytes|] == old(buffer[..index]) + bytes
    {
      forall k | 0 <= k < |bytes| {
        buffer[index + k] := bytes[k];
      }
      assert buffer[..index + |bytes|] == old(buffer[..index]) + bytes;
    }

    /** update: the message goes on, however it has been cut into pieces. */
    method Update(input: Bytes)
      requires Valid() && |input| < WORD - 64
      modifies this`count0, this`count1, this`state, this`message, buffer
      ensures Valid() && message == old(message) + input
    {
      hide Fold, Counts, Full;
      var length := |input|;
      IndexOfCount(count0, count1, |message|);
      var index := count0 / 8 % BLOCK_SIZE;
      AddBits(length, |message|);
      Absorb(input, index);
    }

    /** State and buffer are those of the message. */
    ghost predicate Absorbed()
      reads this, buffer
    {
      && buffer.Length == BLOCK_SIZE && state == Fold(message[..Full(|message|)])
      && buffer[..|message| % 64] == message[Full(|message|)..]
    }

    /** The part of update behind the count: as many blocks as possible, and the rest into the buffer. */
    method Absorb(input: Bytes, index: nat)
      requires Absorbed() && index == |message| % 64 && |input| < WORD - 64
      modifies this`state, this`message, buffer
      ensures Absorbed() && message == old(message) + input
    {
      hide Fold, Transformed, Full;
      var firstpart := 64 - index;
      if |input| >= firstpart {
        AbsorbBlocks(input, index, firstpart);
      } else {
        Copy(index, input);
        PieceIsLeft(message, input, index, buffer[..index + |input|], buffer[..]);
        message := message + input;
      }
    }

    method AbsorbBlocks(input: Bytes, index: nat, firstpart: nat)
      requires Absorbed() && index == |message| % 64 && firstpart == 64 - index && firstpart <= |input| < WORD - 64
      modifies this`state, this`message, buffer
      ensures Absorbed() && message == old(message) + input
    {
      hide Fold, Transformed, Full, WorkedIn, Follows;
      ghost var all, n := message + input, |message|;
      FullOf(n);
      InputFollows(message, input);
      Copy(index, input[..firstpart]);
      FirstBlock(message, input, index, buffer[..]);
      Transform(buffer[..]);
      var i := TransformBlocks(input, firstpart, all, n);
      WorkedUpTo(state, all, n + i);
      Copy(0, input[i..]);
      RestIsLeft(message, input, i, buffer[..|input[i..]|], buffer[..]);
      message := all;
    }

    /** The count of bits goes from that of n bytes to that of length more; the carry is found by wrap-around. */
    method AddBits(length: nat, ghost n: nat)
      requires length < WORD && Counts(count0, count1, n)
      modifies this`count0, this`count1
      ensures Counts(count0, count1, n + length)
    {
      hide Counts;
      CountAdds(count0, count1, n, length);
      var bits := 8 * length % WORD;
      count0 := (count0 + bits) % WORD;
      if count0 < bits {
        ModAdds(count1 + 1, length / 0x2000_0000);
        count1 := (count1 + 1) % WORD;
      }
      count1 := (count1 + length / 0x2000_0000) % WORD;
    }

    /** The blocks of input from start on; all of the message up to there has been worked in. */
    method TransformBlocks(input: Bytes, start: nat, ghost all: Bytes, ghost n: nat) returns (i: nat)
      requires Follows(all, n, input) && start <= |input| < WORD - 64 && WorkedIn(state, all, n + start)
      modifies this`state
      ensures start <= i <= |input| < i + 64 && WorkedIn(state, all, n + i)
    {
      hide Fold, Transformed, WorkedIn;
      i := start;
      while i + BLOCK_SIZE <= |input|
        invariant start <= i <= |input| && WorkedIn(state, all, n + i)
      {
        NextBlock(state, all, input, n, i);
        Transform(input[i..i + 64]);
        i := i + BLOCK_SIZE;
      }
    }

    /** finalize: padding and length, and then the state as bytes; a second call leaves all of it alone. */
    method Finalize()
      requires finalized || Valid()
      modifies this, buffer
      ensures finalized
      ensures old(finalized) ==> unchanged(this) && unchanged(buffer)
      ensures !old(finalized) ==> digest == Digest(old(message))
    {
      hide Fold, Full, Encoded, Zeros;
      if !finalized {
        ghost var m := message;
        FullOf(|m|);
        IndexOfCount(count0, count1, |m|);
        var bits := Encode([count0, count1]);
        var index := count0 / 8 % 64;
        var padLen := if index < 56 then 56 - index else 120 - index;
        Update([0x80] + Zeros(padLen - 1));
        Update(bits[..]);
        PaddedParts(m, message, bits[..], [0x80] + Zeros(padLen - 1));
        var out := Encode([state.a, state.b, state.c, state.d]);
        digest := out[..];
        forall k | 0 <= k < BLOCK_SIZE {
          buffer[k] := 0;
        }
        count0, count1 := 0, 0;
        finalized := true;
      }
    }
  }

  lemma PaddedParts(m: Bytes, all: Bytes, bits: Bytes, pad: Bytes)
    requires all == m + pad + bits && pad == [0x80] + Zeros(PadLength(|m|) - 1)
    requires bits == Encoded([8 * |m| % WORD, 8 * |m| / WORD % WORD])
    ensures all == Padded(m) && all[..Full(|all|)] == all
  {
    hide Encoded, Zeros;
    assert all == m + (pad + bits);
    FullOf(|all|);
  }

  /** The pieces of a message, one behind the other. */
  function Joined(pieces: seq<Bytes>): Bytes {
    if pieces == [] then [] else Joined(pieces[..|pieces| - 1]) + pieces[|pieces| - 1]
  }

  lemma NothingJoined(pieces: seq<Bytes>)
    ensures pieces == [] ==> Joined(pieces) == []
  {
  }

  lemma JoinedNext(pieces: seq<Bytes>, piece: Bytes)
    ensures Joined(pieces + [piece]) == Joined(pieces) + piece
  {
    assert (pieces + [piece])[..|pieces|] == pieces;
  }

  /** For every way of cutting a message into pieces, the digest is that of the padded message. */
  method DigestOf(pieces: seq<Bytes>) returns (digest: Bytes)
    requires forall p :: p in pieces ==> |p| < WORD - 64
    ensures digest == Digest(Joined(pieces))
  {
    hide Digest, Md5Utils.Valid, Joined;
    var md5 := new Md5Utils();
    NothingJoined(pieces[..0]);
    for k := 0 to |pieces|
      invariant fresh(md5) && fresh(md5.buffer) && md5.Valid() && !md5.finalized && md5.message == Joined(pieces[..k])
    {
      assert pieces[k] in pieces;
      JoinedNext(pieces[..k], pieces[k]);
      assert pieces[..k] + [pieces[k]] == pieces[..k + 1];
      md5.Update(pieces[k]);
    }
    assert pieces[..|pieces|] == pieces;
    md5.Finalize();
    digest := md5.digest;
  }

  /** The bytes of n that fill whole blocks. */
  function Full(n: nat): (f: nat)
    ensures f <= n && f % 64 == 0 && n - f == n % 64
  {
    n - n % 64
  }

  lemma FullOf(n: nat)
    ensures Full(n) + n % 64 == n && (n + (64 - n % 64)) % 64 == 0
  {
  }

  /** The input is what all has from n on. */
  ghost predicate Follows(all: Bytes, n: nat, input: Bytes) {
    |all| == n + |input| && all[n..] == input
  }

  /** The state after the first at bytes, which are whole blocks. */
  ghost predicate WorkedIn(s: State, all: Bytes, at: nat) {
    at <= |all| && at % BLOCK_SIZE == 0 && s == Fold(all[..at])
  }

  lemma InputFollows(message: Bytes, input: Bytes)
    ensures Follows(message + input, |message|, input)
  {
  }

  lemma WorkedUpTo(s: State, all: Bytes, at: nat)
    requires WorkedIn(s, all, at)
    ensures at <= |all| && at % 64 == 0 && s == Fold(all[..at])
  {
    hide Fold;
  }

  lemma NextBlock(s: State, all: Bytes, input: Bytes, n: nat, i: nat)
    requires Follows(all, n, input) && i + 64 <= |input| && WorkedIn(s, all, n + i)
    ensures WorkedIn(Transformed(s, input[i..i + 64]), all, n + (i + 64))
  {
    hide Transformed;
    assert all[..n + (i + 64)] == all[..n + i] + input[i..i + 64];
    FoldAppends(all[..n + i], input[i..i + 64]);
  }

  /** The buffer, filled up from the input, is the next block of the message. */
  lemma FirstBlock(message: Bytes, input: Bytes, index: nat, buffer: Bytes)
    requires |buffer| == 64 && index == |message| % 64 && |input| >= 64 - index
    requires buffer == message[Full(|message|)..] + input[..64 - index]
    ensures WorkedIn(Transformed(Fold(message[..Full(|message|)]), buffer), message + input, |message| + (64 - index))
  {
    var n := |message|;
    FullOf(n);
    assert (message + input)[..n + (64 - index)] == message[..Full(n)] + buffer;
    FoldAppends(message[..Full(n)], buffer);
  }

  /** A piece that does not fill the buffer is behind the rest that was there. */
  lemma PieceIsLeft(message: Bytes, input: Bytes, index: nat, filled: Bytes, buffer: Bytes)
    requires |filled| <= |buffer| && filled == buffer[..|filled|]
    requires index == |message| % 64 && |input| < 64 - index && filled == message[Full(|message|)..] + input
    ensures var all := message + input; var f := Full(|all|);
            && |all| % 64 == |filled| && buffer[..|all| % 64] == all[f..] && all[..f] == message[..Full(|message|)]
  {
    var n, all := |message|, message + input;
    SmallRemainder(n, |input|);
    assert all[Full(n)..] == message[Full(n)..] + input;
    assert all[..Full(n)] == message[..Full(n)];
  }

  lemma SmallRemainder(n: nat, k: nat)
    requires k < 64 - n % 64
    ensures Full(n + k) == Full(n) && (n + k) % 64 == n % 64 + k
  {
  }

  /** Behind the whole blocks the rest of the input is in the buffer. */
  lemma RestIsLeft(message: Bytes, input: Bytes, i: nat, filled: Bytes, buffer: Bytes)
    requires i <= |input| < i + 64 && |filled| <= |buffer| && filled == buffer[..|filled|]
    requires (|message| + i) % 64 == 0 && filled == input[i..]
    ensures var all := message + input; var f := Full(|all|);
            && |all| % 64 == |filled| && buffer[..|all| % 64] == all[f..] && f == |message| + i
  {
    SmallRemainder(|message| + i, |input| - i);
    assert (message + input)[|message| + i..] == input[i..];
  }
}
