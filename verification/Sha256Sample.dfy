/** A known answer: the digest of the message "abc", from its schedule and all its rounds. */
module Sha256Sample {
  import opened Sha256

  // The message schedule.
  function ScheduleOfAbc(t: nat): Word
    requires t < 64
  {
    match t
    case 0 => 0x61626380 case 1 => 0x00000000 case 2 => 0x00000000 case 3 => 0x00000000
    case 4 => 0x00000000 case 5 => 0x00000000 case 6 => 0x00000000 case 7 => 0x00000000
    case 8 => 0x00000000 case 9 => 0x00000000 case 10 => 0x00000000 case 11 => 0x00000000
    case 12 => 0x00000000 case 13 => 0x00000000 case 14 => 0x00000000 case 15 => 0x00000018
    case 16 => 0x61626380 case 17 => 0x000f0000 case 18 => 0x7da86405 case 19 => 0x600003c6
    case 20 => 0x3e9d7b78 case 21 => 0x0183fc00 case 22 => 0x12dcbfdb case 23 => 0xe2e2c38e
    case 24 => 0xc8215c1a case 25 => 0xb73679a2 case 26 => 0xe5bc3909 case 27 => 0x32663c5b
    case 28 => 0x9d209d67 case 29 => 0xec8726cb case 30 => 0x702138a4 case 31 => 0xd3b7973b
    case 32 => 0x93f5997f case 33 => 0x3b68ba73 case 34 => 0xaff4ffc1 case 35 => 0xf10a5c62
    case 36 => 0x0a8b3996 case 37 => 0x72af830a case 38 => 0x9409e33e case 39 => 0x24641522
    case 40 => 0x9f47bf94 case 41 => 0xf0a64f5a case 42 => 0x3e246a79 case 43 => 0x27333ba3
    case 44 => 0x0c4763f2 case 45 => 0x840abf27 case 46 => 0x7a290d5d case 47 => 0x065c43da
    case 48 => 0xfb3e89cb case 49 => 0xcc7617db case 50 => 0xb9e66c34 case 51 => 0xa9993667
    case 52 => 0x84badedd case 53 => 0xc21462bc case 54 => 0x1487472c case 55 => 0xb20f7a99
    case 56 => 0xef57b9cd case 57 => 0xebe6b238 case 58 => 0x9fe3095e case 59 => 0x78bc8d4b
    case 60 => 0xa43fcf15 case 61 => 0x668b2ff8 case 62 => 0xeeaba2cc case _ => 0x12b1edeb
  }

  // The values that the first working variable takes, the four oldest first.
  function A(t: nat): Word
    requires t < 68
  {
    match t
    case 0 => 0xa54ff53a case 1 => 0x3c6ef372 case 2 => 0xbb67ae85 case 3 => 0x6a09e667
    case 4 => 0x5d6aebcd case 5 => 0x5a6ad9ad case 6 => 0xc8c347a7 case 7 => 0xd550f666
    case 8 => 0x04409a6a case 9 => 0x2b4209f5 case 10 => 0xe5030380 case 11 => 0x85a07b5f
    case 12 => 0x8e04ecb9 case 13 => 0x8c87346b case 14 => 0x4798a3f4 case 15 => 0xf71fc5a9
    case 16 => 0x87912990 case 17 => 0xd932eb16 case 18 => 0xc0645fde case 19 => 0xb0fa238e
    case 20 => 0x21da9a9b case 21 => 0xc2fbd9d1 case 22 => 0xfe777bbf case 23 => 0xe1f20c33
    case 24 => 0x9dc68b63 case 25 => 0xc2606d6d case 26 => 0xa7a3623f case 27 => 0xc5d53d8d
    case 28 => 0x1c2c2838 case 29 => 0xcde8037d case 30 => 0xb62ec4bc case 31 => 0x77d37528
    case 32 => 0x363482c9 case 33 => 0xa0060b30 case 34 => 0xea992a22 case 35 => 0x73b33bf5
    case 36 => 0x98e12507 case 37 => 0xfe604df5 case 38 => 0xa9a7738c case 39 => 0x65a0cfe4
    case 40 => 0x41a65cb1 case 41 => 0x34df1604 case 42 => 0x6dc57a8a case 43 => 0x79ea687a
    case 44 => 0xd6670766 case 45 => 0xdf46652f case 46 => 0x17aa0dfe case 47 => 0x9d4baf93
    case 48 => 0x26628815 case 49 => 0x72ab4b91 case 50 => 0xa14c14b0 case 51 => 0x4172328d
    case 52 => 0x05757ceb case 53 => 0xf11bfaa8 case 54 => 0x7a0508a1 case 55 => 0x886e7a22
    case 56 => 0x101fd28f case 57 => 0xf5702fdb case 58 => 0x3ec45cdb case 59 => 0x38cc9913
    case 60 => 0xfcd1887b case 61 => 0xc062d46f case 62 => 0xffb70472 case 63 => 0xb6ae8fff
    case 64 => 0xb85e2ce9 case 65 => 0x04d24d6c case 66 => 0xd39a2165 case _ => 0x506e3058
  }

  // The same for the fifth working variable.
  function E(t: nat): Word
    requires t < 68
  {
    match t
    case 0 => 0x5be0cd19 case 1 => 0x1f83d9ab case 2 => 0x9b05688c case 3 => 0x510e527f
    case 4 => 0xfa2a4622 case 5 => 0x78ce7989 case 6 => 0xf92939eb case 7 => 0x24e00850
    case 8 => 0x43ada245 case 9 => 0x714260ad case 10 => 0x9b27a401 case 11 => 0x0c657a79
    case 12 => 0x32ca2d8c case 13 => 0x1cc92596 case 14 => 0x436b23e8 case 15 => 0x816fd6e9
    case 16 => 0x1e578218 case 17 => 0x745a48de case 18 => 0x0b92f20c case 19 => 0x07590dcd
    case 20 => 0x8034229c case 21 => 0x846ee454 case 22 => 0xcc899961 case 23 => 0xb0638179
    case 24 => 0x8ada8930 case 25 => 0xe1257970 case 26 => 0x49f5114a case 27 => 0xaa47c347
    case 28 => 0x2823ef91 case 29 => 0x14383d8e case 30 => 0xc74c6516 case 31 => 0xedffbff8
    case 32 => 0x6112a3b7 case 33 => 0xade79437 case 34 => 0x0109ab3a case 35 => 0xba591112
    case 36 => 0x9cd9f5f6 case 37 => 0x59249dd3 case 38 => 0x085f3833 case 39 => 0xf4b002d6
    case 40 => 0x0772a26b case 41 => 0xa507a53d case 42 => 0xf0781bc8 case 43 => 0x1efbc0a0
    case 44 => 0x26352d63 case 45 => 0x838b2711 case 46 => 0xdecd4715 case 47 => 0xfda24c2e
    case 48 => 0xa80f11f0 case 49 => 0xb7755da1 case 50 => 0xd57b94a9 case 51 => 0xfecf0bc6
    case 52 => 0xbd714038 case 53 => 0x6e5c390c case 54 => 0x52f1ccf7 case 55 => 0x49231c1e
    case 56 => 0x529e7d00 case 57 => 0x9f4787c3 case 58 => 0xe50e1b4f case 59 => 0x54cb266b
    case 60 => 0x9b5e906c case 61 => 0x7e44008e case 62 => 0x6d83bfc6 case 63 => 0xb21bad3d
    case 64 => 0x961f4894 case 65 => 0x948d25b6 case 66 => 0xfb121210 case _ => 0x5ef50f24
  }

  // The working variables after t rounds: each value passes through four of them.
  function After(t: nat): State
    requires t <= 64
  {
    State(A(t + 3), A(t + 2), A(t + 1), A(t), E(t + 3), E(t + 2), E(t + 1), E(t))
  }

  lemma Words16(t: nat)
    requires 16 <= t < 24
    ensures NextWord(ScheduleOfAbc(t - 16), ScheduleOfAbc(t - 15), ScheduleOfAbc(t - 7), ScheduleOfAbc(t - 2)) ==
            ScheduleOfAbc(t)
  {
  }

  lemma Words24(t: nat)
    requires 24 <= t < 32
    ensures NextWord(ScheduleOfAbc(t - 16), ScheduleOfAbc(t - 15), ScheduleOfAbc(t - 7), ScheduleOfAbc(t - 2)) ==
            ScheduleOfAbc(t)
  {
  }

  lemma Words32(t: nat)
    requires 32 <= t < 40
    ensures NextWord(ScheduleOfAbc(t - 16), ScheduleOfAbc(t - 15), ScheduleOfAbc(t - 7), ScheduleOfAbc(t - 2)) ==
            ScheduleOfAbc(t)
  {
  }

  lemma Words40(t: nat)
    requires 40 <= t < 48
    ensures NextWord(ScheduleOfAbc(t - 16), ScheduleOfAbc(t - 15), ScheduleOfAbc(t - 7), ScheduleOfAbc(t - 2)) ==
            ScheduleOfAbc(t)
  {
  }

  lemma Words48(t: nat)
    requires 48 <= t < 56
    ensures NextWord(ScheduleOfAbc(t - 16), ScheduleOfAbc(t - 15), ScheduleOfAbc(t - 7), ScheduleOfAbc(t - 2)) ==
            ScheduleOfAbc(t)
  {
  }

  lemma Words56(t: nat)
    requires 56 <= t < 64
    ensures NextWord(ScheduleOfAbc(t - 16), ScheduleOfAbc(t - 15), ScheduleOfAbc(t - 7), ScheduleOfAbc(t - 2)) ==
            ScheduleOfAbc(t)
  {
  }

  lemma Rounds0(t: nat)
    requires 0 <= t < 4
    ensures Round(After(t), Constant(t), ScheduleOfAbc(t)) == After(t + 1)
  {
  }

  lemma Rounds4(t: nat)
    requires 4 <= t < 8
    ensures Round(After(t), Constant(t), ScheduleOfAbc(t)) == After(t + 1)
  {
  }

  lemma Rounds8(t: nat)
    requires 8 <= t < 12
    ensures Round(After(t), Constant(t), ScheduleOfAbc(t)) == After(t + 1)
  {
  }

  lemma Rounds12(t: nat)
    requires 12 <= t < 16
    ensures Round(After(t), Constant(t), ScheduleOfAbc(t)) == After(t + 1)
  {
  }

  lemma Rounds16(t: nat)
    requires 16 <= t < 20
    ensures Round(After(t), Constant(t), ScheduleOfAbc(t)) == After(t + 1)
  {
  }

  lemma Rounds20(t: nat)
    requires 20 <= t < 24
    ensures Round(After(t), Constant(t), ScheduleOfAbc(t)) == After(t + 1)
  {
  }

  lemma Rounds24(t: nat)
    requires 24 <= t < 28
    ensures Round(After(t), Constant(t), ScheduleOfAbc(t)) == After(t + 1)
  {
  }

  lemma Rounds28(t: nat)
    requires 28 <= t < 32
    ensures Round(After(t), Constant(t), ScheduleOfAbc(t)) == After(t + 1)
  {
  }

  lemma Rounds32(t: nat)
    requires 32 <= t < 36
    ensures Round(After(t), Constant(t), ScheduleOfAbc(t)) == After(t + 1)
  {
  }

  lemma Rounds36(t: nat)
    requires 36 <= t < 40
    ensures Round(After(t), Constant(t), ScheduleOfAbc(t)) == After(t + 1)
  {
  }

  lemma Rounds40(t: nat)
    requires 40 <= t < 44
    ensures Round(After(t), Constant(t), ScheduleOfAbc(t)) == After(t + 1)
  {
  }

  lemma Rounds44(t: nat)
    requires 44 <= t < 48
    ensures Round(After(t), Constant(t), ScheduleOfAbc(t)) == After(t + 1)
  {
  }

  lemma Rounds48(t: nat)
    requires 48 <= t < 52
    ensures Round(After(t), Constant(t), ScheduleOfAbc(t)) == After(t + 1)
  {
  }

  lemma Rounds52(t: nat)
    requires 52 <= t < 56
    ensures Round(After(t), Constant(t), ScheduleOfAbc(t)) == After(t + 1)
  {
  }

  lemma Rounds56(t: nat)
    requires 56 <= t < 60
    ensures Round(After(t), Constant(t), ScheduleOfAbc(t)) == After(t + 1)
  {
  }

  lemma Rounds60(t: nat)
    requires 60 <= t < 64
    ensures Round(After(t), Constant(t), ScheduleOfAbc(t)) == After(t + 1)
  {
  }

  // The block of the padded message.
  function Block0(): (r: Block)
    ensures forall t :: 0 <= t < 16 ==> r[t] == ScheduleOfAbc(t)
  {
    seq(16, t requires 0 <= t < 16 => ScheduleOfAbc(t))
  }

  lemma {:induction false} ScheduleIs(t: nat)
    requires t < 64
    ensures Schedule(Block0(), t) == ScheduleOfAbc(t)
  {
    if t >= 16 {
      ScheduleIs(t - 16);
      ScheduleIs(t - 15);
      ScheduleIs(t - 7);
      ScheduleIs(t - 2);
      NextIs(t);
    }
  }

  lemma NextIs(t: nat)
    requires 16 <= t < 64
    ensures NextWord(ScheduleOfAbc(t - 16), ScheduleOfAbc(t - 15), ScheduleOfAbc(t - 7), ScheduleOfAbc(t - 2)) ==
            ScheduleOfAbc(t)
  {
    match t / 8
    case 2 => Words16(t);
    case 3 => Words24(t);
    case 4 => Words32(t);
    case 5 => Words40(t);
    case 6 => Words48(t);
    case _ => Words56(t);
  }

  lemma RoundIs(t: nat)
    requires t < 64
    ensures Round(After(t), Constant(t), ScheduleOfAbc(t)) == After(t + 1)
  {
    match t / 4
    case 0 => Rounds0(t);
    case 1 => Rounds4(t);
    case 2 => Rounds8(t);
    case 3 => Rounds12(t);
    case 4 => Rounds16(t);
    case 5 => Rounds20(t);
    case 6 => Rounds24(t);
    case 7 => Rounds28(t);
    case 8 => Rounds32(t);
    case 9 => Rounds36(t);
    case 10 => Rounds40(t);
    case 11 => Rounds44(t);
    case 12 => Rounds48(t);
    case 13 => Rounds52(t);
    case 14 => Rounds56(t);
    case _ => Rounds60(t);
  }

  // One round on a known state.
  lemma NextRound(s: State, t: nat, next: State)
    requires t < 64 && Rounds(INITIAL, Constants(), Block0(), t) == s
    requires Round(s, Constant(t), ScheduleOfAbc(t)) == next
    ensures Rounds(INITIAL, Constants(), Block0(), t + 1) == next
  {
    ScheduleIs(t);
    assert Constants()[t] == Constant(t);
  }

  lemma {:induction false} RoundsAre(t: nat)
    requires t <= 64
    ensures Rounds(INITIAL, Constants(), Block0(), t) == After(t)
  {
    if t == 0 {
      FromInitial();
    } else {
      RoundsAre(t - 1);
      RoundIs(t - 1);
      NextRound(After(t - 1), t - 1, After(t));
    }
  }

  lemma FromInitial()
    ensures Rounds(INITIAL, Constants(), Block0(), 0) == After(0)
  {
  }

  lemma {:induction false} ShiftedOut(n: nat, k: nat)
    requires n < Pow2(k)
    ensures ShiftRight(n, k) == 0
  {
    if k > 0 {
      ShiftedOut(n / 2, k - 1);
    }
  }

  // 24 has nothing above its lowest byte.
  lemma OneByte(k: nat)
    requires k > 1
    ensures ShiftRight(24, 8 * (k - 1)) == 0
  {
    Pow32();
    Pow2Sum(8, 8 * (k - 2));
    assert Pow2(8 * (k - 1)) == 0x100 * Pow2(8 * (k - 2));
    ShiftedOut(24, 8 * (k - 1));
  }

  lemma {:induction false} LengthIs(k: nat, i: nat)
    requires i < k
    ensures LengthBytes(24, k)[i] == if i == k - 1 then 24 else 0
  {
    if i > 0 {
      LengthIs(k - 1, i - 1);
    } else {
      FirstLengthByte(k);
    }
  }

  lemma FirstLengthByte(k: nat)
    requires k > 0
    ensures LengthBytes(24, k)[0] == if k == 1 then 24 else 0
  {
    var n := ShiftRight(24, 8 * (k - 1));
    if k > 1 {
      OneByte(k);
    } else {
      assert n == 24;
    }
    ByteValue(Byte(n), n);
  }

  lemma ByteValue(b: bv8, n: nat)
    requires b as nat == n && (n == 0 || n == 24)
    ensures b == if n == 0 then 0 else 24
  {
  }

  const ABC: seq<bv8> := [0x61, 0x62, 0x63]

  lemma PaddedAbc()
    ensures Padded(ABC) == ABC + [0x80] + ZeroPad(52) + LengthBytes(24, 8)
  {
    assert ZeroBytes(3) == 52 && BitLength(3) == 24;
  }

  // Each byte of the padded message.
  lemma ByteIs(i: nat)
    requires i < 64
    ensures |Padded(ABC)| == 64
    ensures i >= 4 ==> Padded(ABC)[i] == if i == 63 then 24 else 0
  {
    PaddedAbc();
    if i >= 56 {
      LengthIs(8, i - 56);
    }
  }

  lemma FirstWord()
    ensures |Padded(ABC)| == 64 && WordAt(Padded(ABC), 0) == ScheduleOfAbc(0)
  {
    PaddedAbc();
    var m := Padded(ABC);
    assert m[0] == 0x61 && m[1] == 0x62 && m[2] == 0x63 && m[3] == 0x80;
  }

  lemma WordIs(j: nat)
    requires j < 16
    ensures |Padded(ABC)| == 64 && WordAt(Padded(ABC), 4 * j) == ScheduleOfAbc(j)
  {
    if j == 0 {
      FirstWord();
    } else {
      ByteIs(4 * j);
      ByteIs(4 * j + 1);
      ByteIs(4 * j + 2);
      ByteIs(4 * j + 3);
      PackedIs(Padded(ABC)[4 * j + 3], j);
    }
  }

  lemma PackedIs(last: bv8, j: nat)
    requires 0 < j < 16 && last == if j == 15 then 24 else 0
    ensures Packed(0, 0, 0, last) == ScheduleOfAbc(j)
  {
  }

  lemma BlockIs()
    ensures BlocksOf(Padded(ABC)) == [Block0()]
  {
    ByteIs(0);
    var block := WordsAt(Padded(ABC), 0);
    forall j | 0 <= j < 16
      ensures block[j] == Block0()[j]
    {
      WordIs(j);
    }
    assert block == Block0();
  }

  lemma OneBlock(block: Block, s: State)
    requires Rounds(INITIAL, Constants(), block, 64) == s
    ensures HashBlocks([block], 1) == Plus(INITIAL, s)
  {
    assert HashBlocks([block], 0) == INITIAL;
  }

  lemma LastA()
    ensures A(67) == 0x506e3058 && A(66) == 0xd39a2165 && A(65) == 0x04d24d6c && A(64) == 0xb85e2ce9
  {
  }

  lemma LastE()
    ensures E(67) == 0x5ef50f24 && E(66) == 0xfb121210 && E(65) == 0x948d25b6 && E(64) == 0x961f4894
  {
  }

  lemma Sums()
    ensures Add(0x6a09e667, 0x506e3058) == 0xba7816bf
    ensures Add(0xbb67ae85, 0xd39a2165) == 0x8f01cfea
    ensures Add(0x3c6ef372, 0x04d24d6c) == 0x414140de
    ensures Add(0xa54ff53a, 0xb85e2ce9) == 0x5dae2223
    ensures Add(0x510e527f, 0x5ef50f24) == 0xb00361a3
    ensures Add(0x9b05688c, 0xfb121210) == 0x96177a9c
    ensures Add(0x1f83d9ab, 0x948d25b6) == 0xb410ff61
    ensures Add(0x5be0cd19, 0x961f4894) == 0xf20015ad
  {
  }

  lemma Sum()
    ensures Plus(INITIAL, After(64)) ==
            State(0xba7816bf, 0x8f01cfea, 0x414140de, 0x5dae2223, 0xb00361a3, 0x96177a9c, 0xb410ff61, 0xf20015ad)
  {
    LastA();
    LastE();
    Sums();
  }

  /** The digest of the three bytes of "abc", which the program's tests expect. */
  lemma AbcDigest()
    ensures Hash(BitsOf([0x61, 0x62, 0x63])) ==
            State(0xba7816bf, 0x8f01cfea, 0x414140de, 0x5dae2223, 0xb00361a3, 0x96177a9c, 0xb410ff61, 0xf20015ad)
  {
    DigestIsStandard(ABC);
    BlockIs();
    RoundsAre(64);
    OneBlock(Block0(), After(64));
    Sum();
  }
}
