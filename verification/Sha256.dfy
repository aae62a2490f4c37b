/**
 SHA-256. The reference is section 5.1.1 and section 6.2 of FIPS 180-4 on bit
 strings; the byte-oriented loops that build the padding, the schedule and the
 working variables in place are proved to compute it.
 */
module Sha256 {
  import opened Common

  type Bits = seq<bool>

  type Word = bv32

  /* ---------- the standard: bits, words and padding ---------- */

  function Pow2(n: nat): (r: nat)
    ensures r > 0
  {
    if n == 0 then 1 else 2 * Pow2(n - 1)
  }

  // The w lowest binary digits of n, most significant first.
  function Binary(n: nat, w: nat): (r: Bits)
    ensures |r| == w
  {
    if w == 0 then [] else Binary(n / 2, w - 1) + [n % 2 == 1]
  }

  // The number written by a bit string.
  function Number(s: Bits): nat {
    if s == [] then 0 else 2 * Number(s[..|s| - 1]) + (if s[|s| - 1] then 1 else 0)
  }

  function BitsOf(bytes: seq<bv8>): (r: Bits)
    ensures |r| == 8 * |bytes|
  {
    if bytes == [] then [] else Binary(bytes[0] as nat, 8) + BitsOf(bytes[1..])
  }

  function WordOf(s: Bits): (w: Word)
    requires |s| == 32
  {
    NumberBound(s);
    assert Pow2(32) == 0x1_0000_0000 by { Pow32(); }
    Number(s) as Word
  }

  // Sixty-four more bits complete a block.
  predicate FillsBlock(l: nat) {
    l % 512 == 448
  }

  // The number of zero bits that follow the single one bit.
  function ZeroBits(l: nat): (k: nat)
    ensures FillsBlock(l + 1 + k)
    ensures forall n :: l < n < l + 1 + k ==> !FillsBlock(n)
  {
    (959 - l % 512) % 512
  }

  function Zeros(k: nat): (r: Bits)
    ensures |r| == k && forall i :: 0 <= i < k ==> !r[i]
  {
    seq(k, _ => false)
  }

  // Section 5.1.1: the padded message.
  function PaddedBits(m: Bits): (r: Bits)
    requires |m| < 0x1_0000_0000_0000_0000
    ensures |r| == |m| + 1 + ZeroBits(|m|) + 64
  {
    m + [true] + Zeros(ZeroBits(|m|)) + Binary(|m|, 64)
  }

  /* ---------- the standard: functions, schedule and rounds ---------- */

  // Sections 4.1.2 and 3.2: rotation by n is (x >> n) | (x << 32 - n).
  function Ch(x: Word, y: Word, z: Word): Word { (x & y) ^ (!x & z) }

  function Maj(x: Word, y: Word, z: Word): Word { (x & y) ^ (x & z) ^ (y & z) }

  function BigSigma0(x: Word): Word { ((x >> 2) | (x << 30)) ^ ((x >> 13) | (x << 19)) ^ ((x >> 22) | (x << 10)) }

  function BigSigma1(x: Word): Word { ((x >> 6) | (x << 26)) ^ ((x >> 11) | (x << 21)) ^ ((x >> 25) | (x << 7)) }

  function SmallSigma0(x: Word): Word { ((x >> 7) | (x << 25)) ^ ((x >> 18) | (x << 14)) ^ (x >> 3) }

  function SmallSigma1(x: Word): Word { ((x >> 17) | (x << 15)) ^ ((x >> 19) | (x << 13)) ^ (x >> 10) }

  // Addition modulo 2^32.
  function Add(x: Word, y: Word): Word { x + y }

  datatype State = State(a: Word, b: Word, c: Word, d: Word, e: Word, f: Word, g: Word, h: Word)

  const INITIAL: State := State(
    0x6a09e667, 0xbb67ae85, 0x3c6ef372, 0xa54ff53a, 0x510e527f, 0x9b05688c, 0x1f83d9ab, 0x5be0cd19)

  function Constant(t: nat): Word
    requires t < 64
  {
    match t
    case 0 => 0x428a2f98 case 1 => 0x71374491 case 2 => 0xb5c0fbcf case 3 => 0xe9b5dba5
    case 4 => 0x3956c25b case 5 => 0x59f111f1 case 6 => 0x923f82a4 case 7 => 0xab1c5ed5
    case 8 => 0xd807aa98 case 9 => 0x12835b01 case 10 => 0x243185be case 11 => 0x550c7dc3
    case 12 => 0x72be5d74 case 13 => 0x80deb1fe case 14 => 0x9bdc06a7 case 15 => 0xc19bf174
    case 16 => 0xe49b69c1 case 17 => 0xefbe4786 case 18 => 0x0fc19dc6 case 19 => 0x240ca1cc
    case 20 => 0x2de92c6f case 21 => 0x4a7484aa case 22 => 0x5cb0a9dc case 23 => 0x76f988da
    case 24 => 0x983e5152 case 25 => 0xa831c66d case 26 => 0xb00327c8 case 27 => 0xbf597fc7
    case 28 => 0xc6e00bf3 case 29 => 0xd5a79147 case 30 => 0x06ca6351 case 31 => 0x14292967
    case 32 => 0x27b70a85 case 33 => 0x2e1b2138 case 34 => 0x4d2c6dfc case 35 => 0x53380d13
    case 36 => 0x650a7354 case 37 => 0x766a0abb case 38 => 0x81c2c92e case 39 => 0x92722c85
    case 40 => 0xa2bfe8a1 case 41 => 0xa81a664b case 42 => 0xc24b8b70 case 43 => 0xc76c51a3
    case 44 => 0xd192e819 case 45 => 0xd6990624 case 46 => 0xf40e3585 case 47 => 0x106aa070
    case 48 => 0x19a4c116 case 49 => 0x1e376c08 case 50 => 0x2748774c case 51 => 0x34b0bcb5
    case 52 => 0x391c0cb3 case 53 => 0x4ed8aa4a case 54 => 0x5b9cca4f case 55 => 0x682e6ff3
    case 56 => 0x748f82ee case 57 => 0x78a5636f case 58 => 0x84c87814 case 59 => 0x8cc70208
    case 60 => 0x90befffa case 61 => 0xa4506ceb case 62 => 0xbef9a3f7 case _ => 0xc67178f2
  }

  function Constants(): (r: seq<Word>)
    ensures |r| == 64
  {
    seq(64, t requires 0 <= t < 64 => Constant(t))
  }

  // One word of the schedule from the words 16, 15, 7 and 2 places before it
  // (the standard writes the same sum from right to left).
  function NextWord(w16: Word, w15: Word, w7: Word, w2: Word): Word {
    Add(Add(Add(w16, SmallSigma0(w15)), w7), SmallSigma1(w2))
  }

  // The message schedule of section 6.2.2, step 1.
  function Schedule(block: Block, t: nat): Word
  {
    if t < 16 then block[t]
    else NextWord(Schedule(block, t - 16), Schedule(block, t - 15), Schedule(block, t - 7), Schedule(block, t - 2))
  }

  // One round of step 3, with the constant k and the schedule word w.
  function Round(s: State, k: Word, w: Word): State {
    var t1 := Add(Add(Add(Add(s.h, BigSigma1(s.e)), Ch(s.e, s.f, s.g)), k), w);
    var t2 := Add(BigSigma0(s.a), Maj(s.a, s.b, s.c));
    State(Add(t1, t2), s.a, s.b, s.c, Add(s.d, t1), s.e, s.f, s.g)
  }

  function Rounds(s: State, constants: seq<Word>, block: Block, t: nat): State
    requires t <= |constants|
  {
    if t == 0 then s
    else Round(Rounds(s, constants, block, t - 1), constants[t - 1], Schedule(block, t - 1))
  }

  // Step 4: the state after one more block.
  function Compress(s: State, block: Block): State
  {
    Plus(s, Rounds(s, Constants(), block, |Constants()|))
  }

  function Plus(s: State, t: State): State {
    State(Add(s.a, t.a), Add(s.b, t.b), Add(s.c, t.c), Add(s.d, t.d),
          Add(s.e, t.e), Add(s.f, t.f), Add(s.g, t.g), Add(s.h, t.h))
  }

  // The words of one 512-bit block.
  type Block = s: seq<Word> | |s| == 16 witness seq(16, _ => 0)

  // Section 5.2.1: the i-th block of a padded message.
  function BlockAt(padded: Bits, i: nat): (r: Block)
    requires 512 * (i + 1) <= |padded|
    ensures forall j :: 0 <= j < 16 ==> r[j] == WordOf(padded[512 * i + 32 * j..512 * i + 32 * j + 32])
  {
    seq(16, j requires 0 <= j < 16 => WordOf(padded[512 * i + 32 * j..512 * i + 32 * j + 32]))
  }

  function Blocks(padded: Bits): (r: seq<Block>)
    ensures |r| == |padded| / 512
    ensures forall i :: 0 <= i < |r| ==> r[i] == BlockAt(padded, i)
  {
    seq(|padded| / 512, i requires 0 <= i < |padded| / 512 => BlockAt(padded, i))
  }

  // Section 6.2.2: the hash value after the first n blocks.
  function HashBlocks(blocks: seq<Block>, n: nat): State
    requires n <= |blocks|
  {
    if n == 0 then INITIAL else Compress(HashBlocks(blocks, n - 1), blocks[n - 1])
  }

  // The digest of a bit string.
  function Hash(m: Bits): State
    requires |m| < 0x1_0000_0000_0000_0000
  {
    var blocks := Blocks(PaddedBits(m));
    HashBlocks(blocks, |blocks|)
  }

  /* ---------- the program: padding ---------- */

  // The length in bits, in unsigned 64-bit arithmetic.
  function BitLength(n: nat): (l: nat)
    ensures l < 0x1_0000_0000_0000_0000
  {
    n * 8 % 0x1_0000_0000_0000_0000
  }

  function ShiftRight(n: nat, k: nat): nat {
    if k == 0 then n else ShiftRight(n / 2, k - 1)
  }

  // The byte that stands for n.
  function ByteOf(n: nat): (b: bv8)
    requires n < 0x100
    ensures b as nat == n
  {
    if n == 0 then 0 else 2 * ByteOf(n / 2) + (if n % 2 == 1 then 1 else 0)
  }

  // A number cut down to its lowest byte.
  function Byte(n: nat): (b: bv8)
    ensures b as nat == n % 0x100
  {
    ByteOf(n % 0x100)
  }

  // The k lowest bytes of l, highest first.
  function LengthBytes(l: nat, k: nat): (r: seq<bv8>)
    ensures |r| == k
  {
    if k == 0 then [] else [Byte(ShiftRight(l, 8 * (k - 1)))] + LengthBytes(l, k - 1)
  }

  function ZeroBytes(n: nat): (k: nat)
    ensures (n + 1 + k) % 64 == 56
    ensures k < 64
  {
    (119 - n % 64) % 64
  }

  function ZeroPad(k: nat): (r: seq<bv8>)
    ensures |r| == k && forall i :: 0 <= i < k ==> r[i] == 0
  {
    seq(k, _ => 0)
  }

  function Padded(value: seq<bv8>): (r: seq<bv8>)
    ensures |r| == |value| + 1 + ZeroBytes(|value|) + 8
  {
    value + [0x80] + ZeroPad(ZeroBytes(|value|)) + LengthBytes(BitLength(|value|), 8)
  }

  method Pad(value: seq<bv8>) returns (message: seq<bv8>)
    ensures message == Padded(value)
  {
    message := value;
    var bitLength := BitLength(|message|);
    message := message + [0x80];
    ghost var k := 0;
    while |message| % 64 != 56
      invariant k <= ZeroBytes(|value|)
      invariant |message| == |value| + 1 + k && message == value + [0x80] + ZeroPad(k)
      decreases ZeroBytes(|value|) - k
    {
      ZeroPadGrows(value + [0x80], k);
      message := message + [0];
      k := k + 1;
    }
    ZeroBytesUnique(|value|, k);
    message := AppendLength(message, bitLength);
  }

  method AppendLength(start: seq<bv8>, bitLength: nat) returns (message: seq<bv8>)
    ensures message == start + LengthBytes(bitLength, 8)
  {
    message := start;
    var shift := 56;
    ghost var k: nat := 8;
    ghost var whole := message + LengthBytes(bitLength, k);
    while shift >= 0
      invariant shift == 8 * k - 8
      invariant message + LengthBytes(bitLength, k) == whole
    {
      NextLengthByte(message, bitLength, k);
      message := message + [Byte(ShiftRight(bitLength, shift))];
      shift := shift - 8;
      k := k - 1;
    }
  }

  lemma NextLengthByte(message: seq<bv8>, l: nat, k: nat)
    requires k > 0
    ensures message + LengthBytes(l, k) == message + [Byte(ShiftRight(l, 8 * (k - 1)))] + LengthBytes(l, k - 1)
  {
  }

  lemma ZeroPadGrows(start: seq<bv8>, k: nat)
    ensures start + ZeroPad(k) + [0] == start + ZeroPad(k + 1)
  {
  }

  lemma ZeroBytesUnique(n: nat, k: nat)
    requires k <= ZeroBytes(n) && (n + 1 + k) % 64 == 56
    ensures k == ZeroBytes(n)
  {
  }

  /* ---------- numbers and bit strings ---------- */

  lemma Pow32()
    ensures Pow2(32) == 0x1_0000_0000 && Pow2(8) == 0x100 && Pow2(7) == 0x80
  {
    assert Pow2(8) == 0x100;
    Pow2Sum(8, 8);
    Pow2Sum(16, 16);
  }

  lemma {:induction false} Pow2Sum(a: nat, b: nat)
    ensures Pow2(a + b) == Pow2(a) * Pow2(b)
    decreases b
  {
    if b > 0 {
      Pow2Sum(a, b - 1);
    }
  }

  lemma {:induction false} NumberBound(s: Bits)
    ensures Number(s) < Pow2(|s|)
  {
    if s != [] {
      NumberBound(s[..|s| - 1]);
    }
  }

  lemma {:induction false} NumberAppend(s: Bits, t: Bits)
    ensures Number(s + t) == Number(s) * Pow2(|t|) + Number(t)
    decreases |t|
  {
    if t == [] {
      assert s + t == s;
    } else {
      var u := t[..|t| - 1];
      assert (s + t)[..|s + t| - 1] == s + u;
      assert (s + t)[|s + t| - 1] == t[|t| - 1];
      NumberAppend(s, u);
      DoubleProduct(Number(s), Pow2(|u|));
    }
  }

  lemma DoubleProduct(a: nat, b: nat)
    ensures a * (2 * b) == 2 * (a * b)
  {
  }

  lemma {:induction false} NumberOfBinary(n: nat, w: nat)
    requires n < Pow2(w)
    ensures Number(Binary(n, w)) == n
    decreases w
  {
    if w > 0 {
      NumberOfBinary(n / 2, w - 1);
      assert Binary(n, w)[..w - 1] == Binary(n / 2, w - 1);
    }
  }

  lemma {:induction false} BinarySplit(n: nat, w: nat, v: nat)
    ensures Binary(n, w + v) == Binary(ShiftRight(n, v), w) + Binary(n, v)
    decreases v
  {
    if v > 0 {
      BinarySplit(n / 2, w, v - 1);
      Regroup(Binary(ShiftRight(n, v), w), Binary(n / 2, v - 1), [n % 2 == 1]);
    } else {
      assert Binary(n, w) + [] == Binary(n, w);
    }
  }

  // Only the w lowest digits matter.
  lemma {:induction false} BinaryLow(n: nat, m: nat, w: nat, q: nat)
    requires n == m + Pow2(w) * q
    ensures Binary(n, w) == Binary(m, w)
    decreases w
  {
    if w > 0 {
      var x := Pow2(w - 1) * q;
      assert Pow2(w) * q == 2 * x;
      BinaryLow(n / 2, m / 2, w - 1, q);
    }
  }

  lemma ByteDigits(n: nat)
    ensures Binary(Byte(n) as nat, 8) == Binary(n, 8)
  {
    Pow32();
    BinaryLow(n, n % 0x100, 8, n / 0x100);
  }

  /* ---------- the program's padding is the standard's ---------- */

  lemma {:induction false} BitsOfAppend(a: seq<bv8>, b: seq<bv8>)
    ensures BitsOf(a + b) == BitsOf(a) + BitsOf(b)
  {
    if a == [] {
      assert a + b == b;
    } else {
      assert (a + b)[1..] == a[1..] + b;
      BitsOfAppend(a[1..], b);
    }
  }

  lemma {:induction false} LengthBytesBits(l: nat, k: nat)
    ensures BitsOf(LengthBytes(l, k)) == Binary(l, 8 * k)
    decreases k
  {
    if k > 0 {
      LengthBytesBits(l, k - 1);
      BinarySplit(l, 8, 8 * (k - 1));
      ByteDigits(ShiftRight(l, 8 * (k - 1)));
    }
  }

  lemma {:induction false} ZeroPadBits(k: nat)
    ensures BitsOf(ZeroPad(k)) == Zeros(8 * k)
  {
    if k > 0 {
      assert ZeroPad(k)[1..] == ZeroPad(k - 1);
      ZeroPadBits(k - 1);
      NoBits(8);
      assert Zeros(8) + Zeros(8 * (k - 1)) == Zeros(8 * k);
    }
  }

  lemma {:induction false} NoBits(w: nat)
    ensures Binary(0, w) == Zeros(w)
  {
    if w > 0 {
      NoBits(w - 1);
    }
  }

  lemma MarkerBits()
    ensures BitsOf([0x80]) == [true] + Zeros(7)
  {
    assert Binary(1, 1) == [true];
    assert ShiftRight(0x80, 7) == 1;
    BinarySplit(0x80, 1, 7);
    Pow32();
    BinaryLow(0x80, 0, 7, 1);
    NoBits(7);
    assert Binary(0x80, 8) == [true] + Zeros(7);
    assert [0x80 as bv8][1..] == [];
  }

  lemma ZeroCounts(n: nat)
    ensures ZeroBits(8 * n) == 7 + 8 * ZeroBytes(n)
  {
    var q, r := n / 64, n % 64;
    assert 8 * n == 512 * q + 8 * r;
    assert 8 * n % 512 == 8 * r;
  }

  lemma BitLengthExact(n: nat)
    requires n < 0x2000_0000_0000_0000
    ensures BitLength(n) == 8 * n < 0x1_0000_0000_0000_0000
  {
  }

  lemma WholeBlocks(value: seq<bv8>)
    ensures |Padded(value)| % 64 == 0
  {
    WholeBlock(|value| + 1 + ZeroBytes(|value|));
  }

  lemma WholeBlock(n: nat)
    requires n % 64 == 56
    ensures (n + 8) % 64 == 0
  {
  }

  lemma PaddedBytes(value: seq<bv8>, n: nat)
    requires n == |value| < 0x2000_0000_0000_0000
    ensures Padded(value) == value + [0x80] + ZeroPad(ZeroBytes(n)) + LengthBytes(8 * n, 8)
  {
    BitLengthExact(n);
  }

  lemma PaddedText(m: Bits, n: nat)
    requires |m| == 8 * n < 0x1_0000_0000_0000_0000
    ensures PaddedBits(m) == m + ([true] + Zeros(7)) + Zeros(8 * ZeroBytes(n)) + Binary(8 * n, 64)
  {
    ZeroCounts(n);
    PaddingText(m, ZeroBytes(n), Binary(8 * n, 64));
  }

  /** Section 5.1.1, for every message under 2^61 bytes. */
  lemma PaddingIsStandard(value: seq<bv8>)
    requires |value| < 0x2000_0000_0000_0000
    ensures BitsOf(Padded(value)) == PaddedBits(BitsOf(value))
  {
    var n := |value|;
    PaddedBytes(value, n);
    PaddedText(BitsOf(value), n);
    PaddingBits(value, ZeroBytes(n), LengthBytes(8 * n, 8));
    LengthBytesBits(8 * n, 8);
  }

  lemma PaddingBits(value: seq<bv8>, z: nat, length: seq<bv8>)
    ensures BitsOf(value + [0x80] + ZeroPad(z) + length) ==
            BitsOf(value) + ([true] + Zeros(7)) + Zeros(8 * z) + BitsOf(length)
  {
    BitsOfAppend(value + [0x80] + ZeroPad(z), length);
    BitsOfAppend(value + [0x80], ZeroPad(z));
    BitsOfAppend(value, [0x80]);
    MarkerBits();
    ZeroPadBits(z);
  }

  lemma PaddingText(m: Bits, z: nat, length: Bits)
    ensures m + ([true] + Zeros(7)) + Zeros(8 * z) + length == m + [true] + Zeros(7 + 8 * z) + length
  {
    assert Zeros(7) + Zeros(8 * z) == Zeros(7 + 8 * z);
    Regroup(m, [true], Zeros(7));
    Regroup(m + [true], Zeros(7), Zeros(8 * z));
  }

  // Strips the length, the zeros and the marker.
  function Unpadded(message: seq<bv8>): seq<bv8> {
    if |message| < 8 then [] else WithoutMarker(message[..|message| - 8])
  }

  function WithoutMarker(s: seq<bv8>): seq<bv8> {
    if s == [] then []
    else if s[|s| - 1] == 0 then WithoutMarker(s[..|s| - 1])
    else s[..|s| - 1]
  }

  lemma {:induction false} MarkerFound(value: seq<bv8>, k: nat)
    ensures WithoutMarker(value + [0x80] + ZeroPad(k)) == value
    decreases k
  {
    var s := value + [0x80] + ZeroPad(k);
    if k == 0 {
      assert s == value + [0x80];
    } else {
      assert s[..|s| - 1] == value + [0x80] + ZeroPad(k - 1);
      MarkerFound(value, k - 1);
    }
  }

  /** The original message can be read off its padded form, whatever its length. */
  lemma PaddingRecoverable(value: seq<bv8>)
    ensures Unpadded(Padded(value)) == value
  {
    var head := value + [0x80] + ZeroPad(ZeroBytes(|value|));
    assert Padded(value)[..|Padded(value)| - 8] == head;
    MarkerFound(value, ZeroBytes(|value|));
  }

  /* ---------- the program: words, schedule and rounds ---------- */

  function Packed(a: bv8, b: bv8, c: bv8, d: bv8): Word {
    ((a as Word) << 24) | ((b as Word) << 16) | ((c as Word) << 8) | (d as Word)
  }

  function WordAt(message: seq<bv8>, at: nat): Word
    requires at + 4 <= |message|
  {
    Packed(message[at], message[at + 1], message[at + 2], message[at + 3])
  }

  // The sixteen words of the 64 bytes at offset.
  function WordsAt(message: seq<bv8>, offset: nat): (r: Block)
    requires offset + 64 <= |message|
    ensures forall j :: 0 <= j < 16 ==> r[j] == WordAt(message, offset + 4 * j)
  {
    seq(16, j requires 0 <= j < 16 => WordAt(message, offset + 4 * j))
  }

  function BlocksOf(message: seq<bv8>): (r: seq<Block>)
    ensures |r| == |message| / 64
    ensures forall i :: 0 <= i < |r| ==> r[i] == WordsAt(message, 64 * i)
  {
    seq(|message| / 64, i requires 0 <= i < |message| / 64 => WordsAt(message, 64 * i))
  }

  method LoadWords(message: seq<bv8>, offset: nat, words: array<Word>)
    requires offset + 64 <= |message| && words.Length == 64
    modifies words
    ensures words[..16] == WordsAt(message, offset)
  {
    ghost var block := WordsAt(message, offset);
    for index := 0 to 16
      invariant forall j :: 0 <= j < index ==> words[j] == block[j]
    {
      var at := offset + index * 4;
      words[index] := Packed(message[at], message[at + 1], message[at + 2], message[at + 3]);
    }
  }

  // The first n words of the schedule.
  ghost predicate Filled(words: seq<Word>, block: Block, n: nat)
  {
    forall s {:trigger Opened(s)} :: Opened(s) ==>
      n <= |words| && forall t :: 0 <= t < n ==> words[t] == Schedule(block, t)
  }

  lemma FilledStart(words: seq<Word>, block: Block)
    requires 16 <= |words| && words[..16] == block
    ensures Filled(words, block, 16)
  {
    assert forall t :: 0 <= t < 16 ==> words[t] == words[..16][t];
  }

  lemma FilledNext(words: seq<Word>, block: Block, n: nat, after: seq<Word>)
    requires 16 <= n < |words| && Filled(words, block, n)
    requires after == words[n := NextWord(words[n - 16], words[n - 15], words[n - 7], words[n - 2])]
    ensures Filled(after, block, n + 1)
  {
    assert Opened(Seal);
    assert words[n - 16] == Schedule(block, n - 16) && words[n - 15] == Schedule(block, n - 15);
    assert words[n - 7] == Schedule(block, n - 7) && words[n - 2] == Schedule(block, n - 2);
    assert after[n] == Schedule(block, n);
    assert forall t :: 0 <= t < n ==> after[t] == words[t];
  }

  method ExtendWords(words: array<Word>, ghost block: Block)
    requires words.Length == 64 && words[..16] == block
    modifies words
    ensures Filled(words[..], block, 64)
  {
    FilledStart(words[..], block);
    for index := 16 to 64
      invariant Filled(words[..], block, index)
    {
      ghost var before := words[..];
      var next := Extended(words[index - 16], words[index - 15], words[index - 7], words[index - 2]);
      words[index] := next;
      FilledNext(before, block, index, words[..]);
    }
  }

  method Extended(w16: Word, w15: Word, w7: Word, w2: Word) returns (next: Word)
    ensures next == NextWord(w16, w15, w7, w2)
  {
    var s0 := w15.RotateRight(7) ^ w15.RotateRight(18) ^ (w15 >> 3);
    var s1 := w2.RotateRight(17) ^ w2.RotateRight(19) ^ (w2 >> 10);
    SmallSigmas(w15, w2);
    next := Add(Add(Add(w16, s0), w7), s1);
  }

  lemma SmallSigmas(x: Word, y: Word)
    ensures x.RotateRight(7) ^ x.RotateRight(18) ^ (x >> 3) == SmallSigma0(x)
    ensures y.RotateRight(17) ^ y.RotateRight(19) ^ (y >> 10) == SmallSigma1(y)
  {
  }

  lemma BigSigmas(x: Word, y: Word)
    ensures x.RotateRight(2) ^ x.RotateRight(13) ^ x.RotateRight(22) == BigSigma0(x)
    ensures y.RotateRight(6) ^ y.RotateRight(11) ^ y.RotateRight(25) == BigSigma1(y)
  {
  }

  method RunRounds(words: array<Word>, constants: seq<Word>, state: State, ghost block: Block) returns (s: State)
    requires words.Length == |constants| && Filled(words[..], block, words.Length)
    ensures s == Rounds(state, constants, block, |constants|)
  {
    s := state;
    for index := 0 to words.Length
      invariant s == Rounds(state, constants, block, index)
    {
      FilledAt(words[..], block, words.Length, index);
      s := RunRound(s, constants[index], words[index]);
    }
  }

  method RunRound(s: State, constant: Word, word: Word) returns (r: State)
    ensures r == Round(s, constant, word)
  {
    var State(a, b, c, d, e, f, g, h) := s;
    BigSigmas(a, e);
    Selections(e, f, g, a, b, c);
    var sum1 := e.RotateRight(6) ^ e.RotateRight(11) ^ e.RotateRight(25);
    var choice := (e & f) ^ (!e & g);
    var temporary1 := Add(Add(Add(Add(h, sum1), choice), constant), word);
    var sum0 := a.RotateRight(2) ^ a.RotateRight(13) ^ a.RotateRight(22);
    var majority := (a & b) ^ (a & c) ^ (b & c);
    var temporary2 := Add(sum0, majority);
    h := g;
    g := f;
    f := e;
    e := Add(d, temporary1);
    d := c;
    c := b;
    b := a;
    a := Add(temporary1, temporary2);
    r := State(a, b, c, d, e, f, g, h);
  }

  lemma Selections(e: Word, f: Word, g: Word, a: Word, b: Word, c: Word)
    ensures (e & f) ^ (!e & g) == Ch(e, f, g)
    ensures (a & b) ^ (a & c) ^ (b & c) == Maj(a, b, c)
  {
  }

  lemma FilledAt(words: seq<Word>, block: Block, n: nat, t: nat)
    requires t < n && Filled(words, block, n)
    ensures t < |words| && words[t] == Schedule(block, t)
  {
    assert Opened(Seal);
  }

  function HashBytes(message: seq<bv8>): State {
    HashBlocks(BlocksOf(message), |BlocksOf(message)|)
  }

  // The working variables after the block at an offset.
  method HashBlock(message: seq<bv8>, offset: nat, constants: seq<Word>, state: State, ghost block: Block)
      returns (s: State)
    requires offset + 64 <= |message| && |constants| == 64 && block == WordsAt(message, offset)
    ensures s == Rounds(state, constants, block, |constants|)
  {
    var words := new Word[64];
    LoadWords(message, offset, words);
    ExtendWords(words, block);
    s := RunRounds(words, constants, state, block);
  }

  method HashMessage(message: seq<bv8>) returns (state: State)
    requires |message| % 64 == 0
    ensures state == HashBytes(message)
  {
    var constants := Constants();
    state := INITIAL;
    var offset := 0;
    ghost var n := 0;
    ghost var blocks := BlocksOf(message);
    while offset < |message|
      invariant offset == 64 * n <= |message|
      invariant state == HashBlocks(blocks, n)
    {
      var s := HashBlock(message, offset, constants, state, blocks[n]);
      HashNext(blocks, n, s);
      state := Plus(state, s);
      offset := offset + 64;
      n := n + 1;
    }
    assert n == |blocks|;
  }

  lemma HashNext(blocks: seq<Block>, n: nat, s: State)
    requires n < |blocks|
    requires s == Rounds(HashBlocks(blocks, n), Constants(), blocks[n], |Constants()|)
    ensures HashBlocks(blocks, n + 1) == Plus(HashBlocks(blocks, n), s)
  {
  }

  /* ---------- the program's words are the standard's ---------- */

  lemma PackedValue(a: bv8, b: bv8, c: bv8, d: bv8)
    ensures Packed(a, b, c, d) as nat ==
            (a as nat) * 0x100_0000 + (b as nat) * 0x1_0000 + (c as nat) * 0x100 + (d as nat)
  {
    assert Packed(a, b, c, d) == ((a as Word) << 24) | ((b as Word) << 16) | ((c as Word) << 8) | (d as Word);
  }

  lemma WordValue(w: Word, n: nat)
    requires w as nat == n
    ensures n < 0x1_0000_0000 && n as Word == w
  {
  }

  lemma {:induction false} NumberOfByte(s: Bits, b: bv8)
    ensures Number(s + Binary(b as nat, 8)) == 0x100 * Number(s) + b as nat
  {
    Pow32();
    NumberAppend(s, Binary(b as nat, 8));
    NumberOfBinary(b as nat, 8);
  }

  lemma NumberOfFour(a: bv8, b: bv8, c: bv8, d: bv8)
    ensures Number(BitsOf([a, b, c, d])) ==
            (a as nat) * 0x100_0000 + (b as nat) * 0x1_0000 + (c as nat) * 0x100 + (d as nat)
  {
    assert [] + [a] == [a] && [a] + [b] == [a, b] && [a, b] + [c] == [a, b, c] && [a, b, c] + [d] == [a, b, c, d];
    OneMoreByte([], a);
    OneMoreByte([a], b);
    OneMoreByte([a, b], c);
    OneMoreByte([a, b, c], d);
    NumberOfByte(BitsOf([]), a);
    NumberOfByte(BitsOf([a]), b);
    NumberOfByte(BitsOf([a, b]), c);
    NumberOfByte(BitsOf([a, b, c]), d);
  }

  lemma OneMoreByte(bytes: seq<bv8>, b: bv8)
    ensures BitsOf(bytes + [b]) == BitsOf(bytes) + Binary(b as nat, 8)
  {
    BitsOfAppend(bytes, [b]);
    assert [b][1..] == [];
  }

  lemma PackedIsWordOf(bytes: seq<bv8>)
    requires |bytes| == 4
    ensures Packed(bytes[0], bytes[1], bytes[2], bytes[3]) == WordOf(BitsOf(bytes))
  {
    assert bytes == [bytes[0], bytes[1], bytes[2], bytes[3]];
    NumberOfFour(bytes[0], bytes[1], bytes[2], bytes[3]);
    PackedValue(bytes[0], bytes[1], bytes[2], bytes[3]);
    WordValue(Packed(bytes[0], bytes[1], bytes[2], bytes[3]), Number(BitsOf(bytes)));
  }

  lemma BitsOfSlice(bytes: seq<bv8>, i: nat, j: nat)
    requires i <= j <= |bytes|
    ensures BitsOf(bytes)[8 * i..8 * j] == BitsOf(bytes[i..j])
  {
    SliceParts(bytes, i, j);
    BitsOfThree(bytes, bytes[..i], bytes[i..j], bytes[j..]);
    Middle(BitsOf(bytes), BitsOf(bytes[..i]), BitsOf(bytes[i..j]), BitsOf(bytes[j..]), 8 * i, 8 * j);
  }

  lemma SliceParts(bytes: seq<bv8>, i: nat, j: nat)
    requires i <= j <= |bytes|
    ensures bytes == bytes[..i] + bytes[i..j] + bytes[j..]
  {
  }

  lemma BitsOfThree(bytes: seq<bv8>, a: seq<bv8>, b: seq<bv8>, c: seq<bv8>)
    requires bytes == a + b + c
    ensures BitsOf(bytes) == BitsOf(a) + (BitsOf(b) + BitsOf(c))
  {
    Regroup(a, b, c);
    BitsOfAppend(a, b + c);
    BitsOfAppend(b, c);
  }

  lemma Middle(all: Bits, a: Bits, b: Bits, c: Bits, i: nat, j: nat)
    requires all == a + (b + c) && i == |a| && j == |a| + |b|
    ensures all[i..j] == b
  {
  }

  lemma WordAtBits(message: seq<bv8>, at: nat)
    requires at + 4 <= |message|
    ensures WordAt(message, at) == WordOf(BitsOf(message)[8 * at..8 * at + 32])
  {
    BitsOfSlice(message, at, at + 4);
    FourBytes(message, at, message[at..at + 4]);
  }

  lemma FourBytes(message: seq<bv8>, at: nat, four: seq<bv8>)
    requires at + 4 <= |message| && four == message[at..at + 4]
    ensures WordAt(message, at) == WordOf(BitsOf(four))
  {
    PackedIsWordOf(four);
    assert four[0] == message[at] && four[1] == message[at + 1];
    assert four[2] == message[at + 2] && four[3] == message[at + 3];
  }

  lemma BlockIsWordsAt(message: seq<bv8>, i: nat)
    requires 64 * (i + 1) <= |message|
    ensures BlockAt(BitsOf(message), i) == WordsAt(message, 64 * i)
  {
    forall j | 0 <= j < 16
      ensures BlockAt(BitsOf(message), i)[j] == WordsAt(message, 64 * i)[j]
    {
      WordOfBlock(message, i, j, 64 * i + 4 * j, 512 * i + 32 * j);
    }
  }

  lemma WordOfBlock(message: seq<bv8>, i: nat, j: nat, at: nat, bit: nat)
    requires 64 * (i + 1) <= |message| && j < 16
    requires at == 64 * i + 4 * j && bit == 512 * i + 32 * j
    ensures BlockAt(BitsOf(message), i)[j] == WordAt(message, at)
  {
    assert bit == 8 * at;
    WordAtBits(message, at);
  }

  lemma BlocksAgree(message: seq<bv8>)
    ensures Blocks(BitsOf(message)) == BlocksOf(message)
  {
    SameBlockCount(|message|);
    forall i | 0 <= i < |message| / 64
      ensures Blocks(BitsOf(message))[i] == BlocksOf(message)[i]
    {
      BlockIsWordsAt(message, i);
    }
  }

  lemma SameBlockCount(n: nat)
    ensures 8 * n / 512 == n / 64
  {
  }

  /* ---------- the fingerprint ---------- */

  function HexDigit(d: nat): char
    requires d < 16
  {
    if d < 10 then ('0' as nat + d) as char else ('a' as nat + (d - 10)) as char
  }

  // A number in lower-case hexadecimal, without leading zeros.
  function HexNumber(n: nat): string {
    if n < 16 then [HexDigit(n)] else HexNumber(n / 16) + [HexDigit(n % 16)]
  }

  function Fill(s: string, width: nat): string {
    if |s| >= width then s else seq(width - |s|, _ => '0') + s
  }

  function HexWord(w: Word): string {
    Fill(HexNumber(w as nat), 8)
  }

  function HexWords(words: seq<Word>): string {
    if words == [] then "" else HexWord(words[0]) + HexWords(words[1..])
  }

  function WordsOf(s: State): seq<Word> {
    [s.a, s.b, s.c, s.d, s.e, s.f, s.g, s.h]
  }

  function Fingerprint(s: State): string {
    "sha256:" + HexWords(WordsOf(s))
  }

  method PrintWords(words: seq<Word>) returns (out: string)
    ensures out == "sha256:" + HexWords(words)
  {
    out := "sha256:";
    assert words[0..] == words;
    for i := 0 to |words|
      invariant out + HexWords(words[i..]) == "sha256:" + HexWords(words)
    {
      assert words[i..][1..] == words[i + 1..];
      out := out + HexWord(words[i]);
    }
  }

  /** The fingerprint prints the digest FIPS 180-4 defines, for every message
      under 2^61 bytes; beyond, the length wraps around. */
  method Sha256Fingerprint(value: seq<bv8>) returns (r: string)
    ensures |value| < 0x2000_0000_0000_0000 ==> Spells(r, Hash(BitsOf(value)))
    ensures r == Fingerprint(HashBytes(Padded(value))) && Spells(r, HashBytes(Padded(value)))
  {
    var message := Pad(value);
    WholeBlocks(value);
    var state := HashMessage(message);
    r := PrintWords(WordsOf(state));
    FingerprintSpells(state);
    if |value| < 0x2000_0000_0000_0000 {
      DigestIsStandard(value);
    }
  }

  lemma DigestIsStandard(value: seq<bv8>)
    requires |value| < 0x2000_0000_0000_0000
    ensures HashBytes(Padded(value)) == Hash(BitsOf(value))
  {
    PaddingIsStandard(value);
    BlocksAgree(Padded(value));
  }

  function DigitValue(c: char): nat {
    if '0' <= c <= '9' then c as nat - '0' as nat
    else if 'a' <= c <= 'f' then c as nat - 'a' as nat + 10
    else 0
  }

  function HexValue(s: string): nat {
    if s == "" then 0 else 16 * HexValue(s[..|s| - 1]) + DigitValue(s[|s| - 1])
  }

  lemma {:induction false} HexNumberValue(n: nat)
    ensures HexValue(HexNumber(n)) == n
  {
    if n < 16 {
      assert [HexDigit(n)][..0] == "";
    } else {
      HexNumberValue(n / 16);
      assert DigitValue(HexDigit(n % 16)) == n % 16;
      assert HexNumber(n)[..|HexNumber(n)| - 1] == HexNumber(n / 16);
    }
  }

  lemma {:induction false} FillValue(s: string, width: nat)
    ensures HexValue(Fill(s, width)) == HexValue(s)
    decreases width - |s|
  {
    if |s| < width {
      var t := ['0'] + s;
      ZeroInFront(s);
      FillValue(t, width);
      assert Fill(t, width) == Fill(s, width);
    }
  }

  lemma {:induction false} ZeroInFront(s: string)
    ensures HexValue(['0'] + s) == HexValue(s)
  {
    if s == "" {
      assert (['0'] + s)[..0] == "";
    } else {
      ZeroInFront(s[..|s| - 1]);
      assert (['0'] + s)[..|s|] == ['0'] + s[..|s| - 1];
    }
  }

  lemma {:induction false} HexNumberLength(n: nat, k: nat)
    requires k > 0 && n < Pow2(4 * k)
    ensures |HexNumber(n)| <= k
  {
    if n >= 16 {
      assert Pow2(4) == 16;
      if k == 1 {
        assert false;
      } else {
        assert Pow2(4 * k) == 16 * Pow2(4 * (k - 1)) by {
          Pow2Sum(4 * (k - 1), 4);
        }
        HexNumberLength(n / 16, k - 1);
      }
    }
  }

  // A word prints as eight digits with its value.
  lemma HexWordReads(w: Word)
    ensures |HexWord(w)| == 8 && HexValue(HexWord(w)) == w as nat
  {
    HexNumberValue(w as nat);
    FillValue(HexNumber(w as nat), 8);
    Pow32();
    WordValue(w, w as nat);
    HexNumberLength(w as nat, 8);
  }

  lemma HexWordInjective(v: Word, w: Word)
    ensures HexWord(v) == HexWord(w) ==> v == w
  {
    HexWordReads(v);
    HexWordReads(w);
    WordValue(v, v as nat);
    WordValue(w, w as nat);
  }

  // The digit's value as a lower-case hexadecimal digit.
  predicate IsHexDigit(c: char, d: nat) {
    d < 16 && c == "0123456789abcdef"[d]
  }

  lemma DigitIs(d: nat)
    requires d < 16
    ensures IsHexDigit(HexDigit(d), d)
  {
    if d < 10 {
      assert "0123456789abcdef"[..10] == "0123456789";
      assert forall k :: 0 <= k < 10 ==> "0123456789"[k] == ('0' as nat + k) as char;
    } else {
      assert "0123456789abcdef"[10..] == "abcdef";
      assert forall k :: 0 <= k < 6 ==> "abcdef"[k] == ('a' as nat + k) as char;
      assert "0123456789abcdef"[d] == "0123456789abcdef"[10..][d - 10];
    }
  }

  // All characters are lower-case hexadecimal digits.
  predicate AllHex(s: string) {
    forall i :: 0 <= i < |s| ==> s[i] in "0123456789abcdef"
  }

  lemma {:induction false} HexNumberDigits(n: nat)
    ensures AllHex(HexNumber(n))
  {
    DigitIs(n % 16);
    if n >= 16 {
      HexNumberDigits(n / 16);
    }
  }

  lemma HexWordDigits(w: Word)
    ensures AllHex(HexWord(w))
  {
    HexNumberDigits(w as nat);
  }

  // The i-th group of eight characters behind the first seven.
  function Group(r: string, i: nat): string
    requires |r| == 71 && i < 8
  {
    r[7 + 8 * i..15 + 8 * i]
  }

  // The text names the algorithm and then gives the state's words in order, each
  // as eight lower-case hexadecimal digits.
  ghost predicate Spells(r: string, s: State) {
    && |r| == 71 && r[..7] == "sha256:"
    && SpellsWord(Group(r, 0), s.a) && SpellsWord(Group(r, 1), s.b)
    && SpellsWord(Group(r, 2), s.c) && SpellsWord(Group(r, 3), s.d)
    && SpellsWord(Group(r, 4), s.e) && SpellsWord(Group(r, 5), s.f)
    && SpellsWord(Group(r, 6), s.g) && SpellsWord(Group(r, 7), s.h)
  }

  ghost predicate SpellsWord(digits: string, w: Word) {
    AllHex(digits) && |digits| == 8 && HexValue(digits) == w as nat
  }

  lemma {:induction false} HexWordsAt(words: seq<Word>, i: nat)
    requires i < |words|
    ensures |HexWords(words)| == 8 * |words|
    ensures HexWords(words)[8 * i..8 * i + 8] == HexWord(words[i])
  {
    HexWordReads(words[0]);
    if i == 0 {
      if |words| > 1 {
        HexWordsAt(words[1..], 0);
      }
    } else {
      HexWordsAt(words[1..], i - 1);
      assert HexWords(words)[8 * i..8 * i + 8] == HexWords(words[1..])[8 * (i - 1)..8 * (i - 1) + 8];
    }
  }

  lemma GroupIs(s: State, i: nat)
    requires i < 8
    ensures var r := Fingerprint(s);
      |r| == 71 && r[..7] == "sha256:" && SpellsWord(Group(r, i), WordsOf(s)[i])
  {
    var words, w := WordsOf(s), WordsOf(s)[i];
    HexWordsAt(words, i);
    HexWordReads(w);
    HexWordDigits(w);
    BehindName(HexWords(words), i);
  }

  lemma BehindName(digits: string, i: nat)
    requires |digits| == 64 && i < 8
    ensures var r := "sha256:" + digits;
      |r| == 71 && r[..7] == "sha256:" && Group(r, i) == digits[8 * i..8 * i + 8]
  {
  }

  /** The fingerprint spells the state. */
  lemma FingerprintSpells(s: State)
    ensures Spells(Fingerprint(s), s)
  {
    GroupIs(s, 0);
    GroupIs(s, 1);
    GroupIs(s, 2);
    GroupIs(s, 3);
    GroupIs(s, 4);
    GroupIs(s, 5);
    GroupIs(s, 6);
    GroupIs(s, 7);
  }

  /** Different digests have different fingerprints. */
  lemma FingerprintInjective(s: State, t: State)
    requires Fingerprint(s) == Fingerprint(t)
    ensures s == t
  {
    var v, w := HexWords(WordsOf(s)), HexWords(WordsOf(t));
    assert v == Fingerprint(s)[7..] && w == Fingerprint(t)[7..];
    HexWordsInjective(WordsOf(s), WordsOf(t));
    SameWords(s, t);
  }

  lemma SameWords(s: State, t: State)
    requires WordsOf(s) == WordsOf(t)
    ensures s == t
  {
    var v, w := WordsOf(s), WordsOf(t);
    assert v[0] == w[0] && v[1] == w[1] && v[2] == w[2] && v[3] == w[3];
    assert v[4] == w[4] && v[5] == w[5] && v[6] == w[6] && v[7] == w[7];
  }

  lemma {:induction false} HexWordsInjective(v: seq<Word>, w: seq<Word>)
    requires |v| == |w| && HexWords(v) == HexWords(w)
    ensures v == w
  {
    if v != [] {
      HexWordReads(v[0]);
      HexWordReads(w[0]);
      assert HexWords(v)[..8] == HexWord(v[0]) && HexWords(w)[..8] == HexWord(w[0]);
      assert HexWords(v)[8..] == HexWords(v[1..]) && HexWords(w)[8..] == HexWords(w[1..]);
      HexWordInjective(v[0], w[0]);
      HexWordsInjective(v[1..], w[1..]);
      assert v == [v[0]] + v[1..] && w == [w[0]] + w[1..];
    }
  }
}
