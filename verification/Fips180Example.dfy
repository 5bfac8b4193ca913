/**
 * The digest of the three bytes "abc", the first example given with FIPS 180-4: the padded block, every word of the
 * message schedule and the eight working variables after every round are checked, one by one, against the definitions
 * of module Fips180.
 */
module Fips180Example {
  import opened Fips180

  const ABC: seq<byte> := [0x61, 0x62, 0x63]

  /** Word t of the schedule. */
  function W(t: nat): word {
    match t
    case 0 => 0x61626380 case 1 => 0x00000000 case 2 => 0x00000000 case 3 => 0x00000000
    case 4 => 0x00000000 case 5 => 0x00000000 case 6 => 0x00000000 case 7 => 0x00000000
    case 8 => 0x00000000 case 9 => 0x00000000 case 10 => 0x00000000 case 11 => 0x00000000
    case 12 => 0x00000000 case 13 => 0x00000000 case 14 => 0x00000000 case 15 => 0x00000018
    case 16 => 0x61626380 case 17 => 0x000f0000 case 18 => 0x7da86405 case 19 => 0x600003c6
    case 20 => 0x3e9d7b78 case 21 => 0x0183fc00 case 22 => 0x12dcbfdb case 23 => 0xe2e2c38e
    case 24 => 0xc8215c1a case 25 => 0xb73679a2 case 26 => 0xe5bc3909 case 27 => 0x32663c5b
    case 28 => 0x9d209d67 case 29 => 0xec8726cb case 30 => 0x702138a4 case 31 => 0xd3b7973b
    case 32 => 0x93f5997f case 33 => 0x3b68ba73 case 34 => 0xaff4ffc1 case 35 => 0xf10a5c62
    case 36 => 0x0a8b3996 case 37 => 0x72af830a case 38 => 0x9409e33e case 39 => 0x24641522
    case 40 => 0x9f47bf94 case 41 => 0xf0a64f5a case 42 => 0x3e246a79 case 43 => 0x27333ba3
    case 44 => 0x0c4763f2 case 45 => 0x840abf27 case 46 => 0x7a290d5d case 47 => 0x065c43da
    case 48 => 0xfb3e89cb case 49 => 0xcc7617db case 50 => 0xb9e66c34 case 51 => 0xa9993667
    case 52 => 0x84badedd case 53 => 0xc21462bc case 54 => 0x1487472c case 55 => 0xb20f7a99
    case 56 => 0xef57b9cd case 57 => 0xebe6b238 case 58 => 0x9fe3095e case 59 => 0x78bc8d4b
    case 60 => 0xa43fcf15 case 61 => 0x668b2ff8 case 62 => 0xeeaba2cc case _ => 0x12b1edeb
  }

  function Words(n: nat): (w: seq<word>)
    ensures |w| == n && forall t :: 0 <= t < n ==> w[t] == W(t)
  {
    seq(n, t requires 0 <= t < n => W(t))
  }

  // ---------------------------------------------------------------- the padded message

  ghost predicate Block(p: seq<byte>) {
    && |p| == 64 && p[0] == 0x61 && p[1] == 0x62 && p[2] == 0x63 && p[3] == 0x80 && p[63] == 0x18
    && forall i :: 4 <= i < 63 ==> p[i] == 0
  }

  lemma Padded()
    ensures Block(Pad(ABC))
  {
    LengthOf24();
    hide LengthField;
  }

  lemma LengthOf24()
    ensures LengthField(24) == [0, 0, 0, 0, 0, 0, 0, 0x18]
  {
    assert HighWord(24) == 0 && LowWord(24) == 24;
    ZeroWord();
    SmallWord();
    hide BytesOf, HighWord, LowWord;
  }

  lemma ZeroWord()
    ensures BytesOf(0) == [0, 0, 0, 0]
  {
  }

  lemma SmallWord()
    ensures BytesOf(24) == [0, 0, 0, 0x18]
  {
  }

  lemma PaddedWord(p: seq<byte>, t: nat)
    requires Block(p) && t < 16
    ensures WordOf(p[4 * t..4 * t + 4]) == W(t)
  {
    if t == 0 || t == 15 {
    } else {
      assert W(t) == 0;
      hide W;
    }
  }

  // ---------------------------------------------------------------- the schedule

  ghost predicate Expands(t: nat)
    requires 16 <= t < 64
  {
    SumOf4(LowerSigma1(W(t - 2)), W(t - 7), LowerSigma0(W(t - 15)), W(t - 16)) == W(t)
  }

  lemma Expand(t: nat, a: word, b: word, c: word, d: word, x: word)
    requires 16 <= t < 64 && W(t - 2) == a && W(t - 7) == b && W(t - 15) == c && W(t - 16) == d && W(t) == x
    requires SumOf4(LowerSigma1(a), b, LowerSigma0(c), d) == x
    ensures Expands(t)
  {
  }

  lemma Expands0(t: nat)
    requires 16 <= t < 24
    ensures Expands(t)
  {
    Expand(16, 0x00000000, 0x00000000, 0x00000000, 0x61626380, 0x61626380);
    Expand(17, 0x00000018, 0x00000000, 0x00000000, 0x00000000, 0x000f0000);
    Expand(18, 0x61626380, 0x00000000, 0x00000000, 0x00000000, 0x7da86405);
    Expand(19, 0x000f0000, 0x00000000, 0x00000000, 0x00000000, 0x600003c6);
    Expand(20, 0x7da86405, 0x00000000, 0x00000000, 0x00000000, 0x3e9d7b78);
    Expand(21, 0x600003c6, 0x00000000, 0x00000000, 0x00000000, 0x0183fc00);
    Expand(22, 0x3e9d7b78, 0x00000018, 0x00000000, 0x00000000, 0x12dcbfdb);
    Expand(23, 0x0183fc00, 0x61626380, 0x00000000, 0x00000000, 0xe2e2c38e);
    hide Expands;
  }

  lemma Expands1(t: nat)
    requires 24 <= t < 32
    ensures Expands(t)
  {
    Expand(24, 0x12dcbfdb, 0x000f0000, 0x00000000, 0x00000000, 0xc8215c1a);
    Expand(25, 0xe2e2c38e, 0x7da86405, 0x00000000, 0x00000000, 0xb73679a2);
    Expand(26, 0xc8215c1a, 0x600003c6, 0x00000000, 0x00000000, 0xe5bc3909);
    Expand(27, 0xb73679a2, 0x3e9d7b78, 0x00000000, 0x00000000, 0x32663c5b);
    Expand(28, 0xe5bc3909, 0x0183fc00, 0x00000000, 0x00000000, 0x9d209d67);
    Expand(29, 0x32663c5b, 0x12dcbfdb, 0x00000000, 0x00000000, 0xec8726cb);
    Expand(30, 0x9d209d67, 0xe2e2c38e, 0x00000018, 0x00000000, 0x702138a4);
    Expand(31, 0xec8726cb, 0xc8215c1a, 0x61626380, 0x00000018, 0xd3b7973b);
    hide Expands;
  }

  lemma Expands2(t: nat)
    requires 32 <= t < 40
    ensures Expands(t)
  {
    Expand(32, 0x702138a4, 0xb73679a2, 0x000f0000, 0x61626380, 0x93f5997f);
    Expand(33, 0xd3b7973b, 0xe5bc3909, 0x7da86405, 0x000f0000, 0x3b68ba73);
    Expand(34, 0x93f5997f, 0x32663c5b, 0x600003c6, 0x7da86405, 0xaff4ffc1);
    Expand(35, 0x3b68ba73, 0x9d209d67, 0x3e9d7b78, 0x600003c6, 0xf10a5c62);
    Expand(36, 0xaff4ffc1, 0xec8726cb, 0x0183fc00, 0x3e9d7b78, 0x0a8b3996);
    Expand(37, 0xf10a5c62, 0x702138a4, 0x12dcbfdb, 0x0183fc00, 0x72af830a);
    Expand(38, 0x0a8b3996, 0xd3b7973b, 0xe2e2c38e, 0x12dcbfdb, 0x9409e33e);
    Expand(39, 0x72af830a, 0x93f5997f, 0xc8215c1a, 0xe2e2c38e, 0x24641522);
    hide Expands;
  }

  lemma Expands3(t: nat)
    requires 40 <= t < 48
    ensures Expands(t)
  {
    Expand(40, 0x9409e33e, 0x3b68ba73, 0xb73679a2, 0xc8215c1a, 0x9f47bf94);
    Expand(41, 0x24641522, 0xaff4ffc1, 0xe5bc3909, 0xb73679a2, 0xf0a64f5a);
    Expand(42, 0x9f47bf94, 0xf10a5c62, 0x32663c5b, 0xe5bc3909, 0x3e246a79);
    Expand(43, 0xf0a64f5a, 0x0a8b3996, 0x9d209d67, 0x32663c5b, 0x27333ba3);
    Expand(44, 0x3e246a79, 0x72af830a, 0xec8726cb, 0x9d209d67, 0x0c4763f2);
    Expand(45, 0x27333ba3, 0x9409e33e, 0x702138a4, 0xec8726cb, 0x840abf27);
    Expand(46, 0x0c4763f2, 0x24641522, 0xd3b7973b, 0x702138a4, 0x7a290d5d);
    Expand(47, 0x840abf27, 0x9f47bf94, 0x93f5997f, 0xd3b7973b, 0x065c43da);
    hide Expands;
  }

  lemma Expands4(t: nat)
    requires 48 <= t < 56
    ensures Expands(t)
  {
    Expand(48, 0x7a290d5d, 0xf0a64f5a, 0x3b68ba73, 0x93f5997f, 0xfb3e89cb);
    Expand(49, 0x065c43da, 0x3e246a79, 0xaff4ffc1, 0x3b68ba73, 0xcc7617db);
    Expand(50, 0xfb3e89cb, 0x27333ba3, 0xf10a5c62, 0xaff4ffc1, 0xb9e66c34);
    Expand(51, 0xcc7617db, 0x0c4763f2, 0x0a8b3996, 0xf10a5c62, 0xa9993667);
    Expand(52, 0xb9e66c34, 0x840abf27, 0x72af830a, 0x0a8b3996, 0x84badedd);
    Expand(53, 0xa9993667, 0x7a290d5d, 0x9409e33e, 0x72af830a, 0xc21462bc);
    Expand(54, 0x84badedd, 0x065c43da, 0x24641522, 0x9409e33e, 0x1487472c);
    Expand(55, 0xc21462bc, 0xfb3e89cb, 0x9f47bf94, 0x24641522, 0xb20f7a99);
    hide Expands;
  }

  lemma Expands5(t: nat)
    requires 56 <= t < 64
    ensures Expands(t)
  {
    Expand(56, 0x1487472c, 0xcc7617db, 0xf0a64f5a, 0x9f47bf94, 0xef57b9cd);
    Expand(57, 0xb20f7a99, 0xb9e66c34, 0x3e246a79, 0xf0a64f5a, 0xebe6b238);
    Expand(58, 0xef57b9cd, 0xa9993667, 0x27333ba3, 0x3e246a79, 0x9fe3095e);
    Expand(59, 0xebe6b238, 0x84badedd, 0x0c4763f2, 0x27333ba3, 0x78bc8d4b);
    Expand(60, 0x9fe3095e, 0xc21462bc, 0x840abf27, 0x0c4763f2, 0xa43fcf15);
    Expand(61, 0x78bc8d4b, 0x1487472c, 0x7a290d5d, 0x840abf27, 0x668b2ff8);
    Expand(62, 0xa43fcf15, 0xb20f7a99, 0x065c43da, 0x7a290d5d, 0xeeaba2cc);
    Expand(63, 0x668b2ff8, 0xef57b9cd, 0xfb3e89cb, 0x065c43da, 0x12b1edeb);
    hide Expands;
  }

  lemma ExpandsAt(t: nat)
    requires 16 <= t < 64
    ensures Expands(t)
  {
    hide Expands;
    match t / 8
    case 2 => Expands0(t);
    case 3 => Expands1(t);
    case 4 => Expands2(t);
    case 5 => Expands3(t);
    case 6 => Expands4(t);
    case _ => Expands5(t);
  }

  lemma {:induction false} ScheduleIs(block: seq<byte>, t: nat)
    requires Block(block) && t <= 64
    ensures Schedule(block, t) == Words(t)
  {
    hide W, WordOf, LowerSigma0, LowerSigma1;
    if t > 0 {
      ScheduleIs(block, t - 1);
      if t <= 16 { PaddedWord(block, t - 1); } else { ExpandsAt(t - 1); }
      hide Block;
      assert Words(t) == Words(t - 1) + [W(t - 1)];
    }
  }

  // ---------------------------------------------------------------- the rounds

  ghost predicate Reached(t: nat, v: Working) {
    t <= 64 && Rounds(FromHash(IV()), Words(64), t) == v
  }

  lemma Turn(t: nat, v: Working, k: word, w: word, a: word, e: word) returns (u: Working)
    requires t < 64 && Reached(t, v) && K256()[t] == k && W(t) == w
    requires Round(v, k, w) == Working(a, v.a, v.b, v.c, e, v.e, v.f, v.g)
    ensures u == Working(a, v.a, v.b, v.c, e, v.e, v.f, v.g) && Reached(t + 1, u)
  {
    hide Round, K256, W;
    u := Working(a, v.a, v.b, v.c, e, v.e, v.f, v.g);
  }

  lemma Turns0(v0: Working) returns (v: Working)
    requires v0 == Working(0x6a09e667, 0xbb67ae85, 0x3c6ef372, 0xa54ff53a,
                           0x510e527f, 0x9b05688c, 0x1f83d9ab, 0x5be0cd19)
    requires Reached(0, v0)
    ensures v == Working(0x85a07b5f, 0xe5030380, 0x2b4209f5, 0x04409a6a,
                         0x0c657a79, 0x9b27a401, 0x714260ad, 0x43ada245)
    ensures Reached(8, v)
  {
    hide Reached;
    v := v0;
    v := Turn(0, v, 0x428a2f98, 0x61626380, 0x5d6aebcd, 0xfa2a4622);
    v := Turn(1, v, 0x71374491, 0x00000000, 0x5a6ad9ad, 0x78ce7989);
    v := Turn(2, v, 0xb5c0fbcf, 0x00000000, 0xc8c347a7, 0xf92939eb);
    v := Turn(3, v, 0xe9b5dba5, 0x00000000, 0xd550f666, 0x24e00850);
    v := Turn(4, v, 0x3956c25b, 0x00000000, 0x04409a6a, 0x43ada245);
    v := Turn(5, v, 0x59f111f1, 0x00000000, 0x2b4209f5, 0x714260ad);
    v := Turn(6, v, 0x923f82a4, 0x00000000, 0xe5030380, 0x9b27a401);
    v := Turn(7, v, 0xab1c5ed5, 0x00000000, 0x85a07b5f, 0x0c657a79);
  }

  lemma Turns1(v0: Working) returns (v: Working)
    requires v0 == Working(0x85a07b5f, 0xe5030380, 0x2b4209f5, 0x04409a6a,
                           0x0c657a79, 0x9b27a401, 0x714260ad, 0x43ada245)
    requires Reached(8, v0)
    ensures v == Working(0xb0fa238e, 0xc0645fde, 0xd932eb16, 0x87912990,
                         0x07590dcd, 0x0b92f20c, 0x745a48de, 0x1e578218)
    ensures Reached(16, v)
  {
    hide Reached;
    v := v0;
    v := Turn(8, v, 0xd807aa98, 0x00000000, 0x8e04ecb9, 0x32ca2d8c);
    v := Turn(9, v, 0x12835b01, 0x00000000, 0x8c87346b, 0x1cc92596);
    v := Turn(10, v, 0x243185be, 0x00000000, 0x4798a3f4, 0x436b23e8);
    v := Turn(11, v, 0x550c7dc3, 0x00000000, 0xf71fc5a9, 0x816fd6e9);
    v := Turn(12, v, 0x72be5d74, 0x00000000, 0x87912990, 0x1e578218);
    v := Turn(13, v, 0x80deb1fe, 0x00000000, 0xd932eb16, 0x745a48de);
    v := Turn(14, v, 0x9bdc06a7, 0x00000000, 0xc0645fde, 0x0b92f20c);
    v := Turn(15, v, 0xc19bf174, 0x00000018, 0xb0fa238e, 0x07590dcd);
  }

  lemma Turns2(v0: Working) returns (v: Working)
    requires v0 == Working(0xb0fa238e, 0xc0645fde, 0xd932eb16, 0x87912990,
                           0x07590dcd, 0x0b92f20c, 0x745a48de, 0x1e578218)
    requires Reached(16, v0)
    ensures v == Working(0xc5d53d8d, 0xa7a3623f, 0xc2606d6d, 0x9dc68b63,
                         0xaa47c347, 0x49f5114a, 0xe1257970, 0x8ada8930)
    ensures Reached(24, v)
  {
    hide Reached;
    v := v0;
    v := Turn(16, v, 0xe49b69c1, 0x61626380, 0x21da9a9b, 0x8034229c);
    v := Turn(17, v, 0xefbe4786, 0x000f0000, 0xc2fbd9d1, 0x846ee454);
    v := Turn(18, v, 0x0fc19dc6, 0x7da86405, 0xfe777bbf, 0xcc899961);
    v := Turn(19, v, 0x240ca1cc, 0x600003c6, 0xe1f20c33, 0xb0638179);
    v := Turn(20, v, 0x2de92c6f, 0x3e9d7b78, 0x9dc68b63, 0x8ada8930);
    v := Turn(21, v, 0x4a7484aa, 0x0183fc00, 0xc2606d6d, 0xe1257970);
    v := Turn(22, v, 0x5cb0a9dc, 0x12dcbfdb, 0xa7a3623f, 0x49f5114a);
    v := Turn(23, v, 0x76f988da, 0xe2e2c38e, 0xc5d53d8d, 0xaa47c347);
  }

  lemma Turns3(v0: Working) returns (v: Working)
    requires v0 == Working(0xc5d53d8d, 0xa7a3623f, 0xc2606d6d, 0x9dc68b63,
                           0xaa47c347, 0x49f5114a, 0xe1257970, 0x8ada8930)
    requires Reached(24, v0)
    ensures v == Working(0x73b33bf5, 0xea992a22, 0xa0060b30, 0x363482c9,
                         0xba591112, 0x0109ab3a, 0xade79437, 0x6112a3b7)
    ensures Reached(32, v)
  {
    hide Reached;
    v := v0;
    v := Turn(24, v, 0x983e5152, 0xc8215c1a, 0x1c2c2838, 0x2823ef91);
    v := Turn(25, v, 0xa831c66d, 0xb73679a2, 0xcde8037d, 0x14383d8e);
    v := Turn(26, v, 0xb00327c8, 0xe5bc3909, 0xb62ec4bc, 0xc74c6516);
    v := Turn(27, v, 0xbf597fc7, 0x32663c5b, 0x77d37528, 0xedffbff8);
    v := Turn(28, v, 0xc6e00bf3, 0x9d209d67, 0x363482c9, 0x6112a3b7);
    v := Turn(29, v, 0xd5a79147, 0xec8726cb, 0xa0060b30, 0xade79437);
    v := Turn(30, v, 0x06ca6351, 0x702138a4, 0xea992a22, 0x0109ab3a);
    v := Turn(31, v, 0x14292967, 0xd3b7973b, 0x73b33bf5, 0xba591112);
  }

  lemma Turns4(v0: Working) returns (v: Working)
    requires v0 == Working(0x73b33bf5, 0xea992a22, 0xa0060b30, 0x363482c9,
                           0xba591112, 0x0109ab3a, 0xade79437, 0x6112a3b7)
    requires Reached(32, v0)
    ensures v == Working(0x79ea687a, 0x6dc57a8a, 0x34df1604, 0x41a65cb1,
                         0x1efbc0a0, 0xf0781bc8, 0xa507a53d, 0x0772a26b)
    ensures Reached(40, v)
  {
    hide Reached;
    v := v0;
    v := Turn(32, v, 0x27b70a85, 0x93f5997f, 0x98e12507, 0x9cd9f5f6);
    v := Turn(33, v, 0x2e1b2138, 0x3b68ba73, 0xfe604df5, 0x59249dd3);
    v := Turn(34, v, 0x4d2c6dfc, 0xaff4ffc1, 0xa9a7738c, 0x085f3833);
    v := Turn(35, v, 0x53380d13, 0xf10a5c62, 0x65a0cfe4, 0xf4b002d6);
    v := Turn(36, v, 0x650a7354, 0x0a8b3996, 0x41a65cb1, 0x0772a26b);
    v := Turn(37, v, 0x766a0abb, 0x72af830a, 0x34df1604, 0xa507a53d);
    v := Turn(38, v, 0x81c2c92e, 0x9409e33e, 0x6dc57a8a, 0xf0781bc8);
    v := Turn(39, v, 0x92722c85, 0x24641522, 0x79ea687a, 0x1efbc0a0);
  }

  lemma Turns5(v0: Working) returns (v: Working)
    requires v0 == Working(0x79ea687a, 0x6dc57a8a, 0x34df1604, 0x41a65cb1,
                           0x1efbc0a0, 0xf0781bc8, 0xa507a53d, 0x0772a26b)
    requires Reached(40, v0)
    ensures v == Working(0x4172328d, 0xa14c14b0, 0x72ab4b91, 0x26628815,
                         0xfecf0bc6, 0xd57b94a9, 0xb7755da1, 0xa80f11f0)
    ensures Reached(48, v)
  {
    hide Reached;
    v := v0;
    v := Turn(40, v, 0xa2bfe8a1, 0x9f47bf94, 0xd6670766, 0x26352d63);
    v := Turn(41, v, 0xa81a664b, 0xf0a64f5a, 0xdf46652f, 0x838b2711);
    v := Turn(42, v, 0xc24b8b70, 0x3e246a79, 0x17aa0dfe, 0xdecd4715);
    v := Turn(43, v, 0xc76c51a3, 0x27333ba3, 0x9d4baf93, 0xfda24c2e);
    v := Turn(44, v, 0xd192e819, 0x0c4763f2, 0x26628815, 0xa80f11f0);
    v := Turn(45, v, 0xd6990624, 0x840abf27, 0x72ab4b91, 0xb7755da1);
    v := Turn(46, v, 0xf40e3585, 0x7a290d5d, 0xa14c14b0, 0xd57b94a9);
    v := Turn(47, v, 0x106aa070, 0x065c43da, 0x4172328d, 0xfecf0bc6);
  }

  lemma Turns6(v0: Working) returns (v: Working)
    requires v0 == Working(0x4172328d, 0xa14c14b0, 0x72ab4b91, 0x26628815,
                           0xfecf0bc6, 0xd57b94a9, 0xb7755da1, 0xa80f11f0)
    requires Reached(48, v0)
    ensures v == Working(0x38cc9913, 0x3ec45cdb, 0xf5702fdb, 0x101fd28f,
                         0x54cb266b, 0xe50e1b4f, 0x9f4787c3, 0x529e7d00)
    ensures Reached(56, v)
  {
    hide Reached;
    v := v0;
    v := Turn(48, v, 0x19a4c116, 0xfb3e89cb, 0x05757ceb, 0xbd714038);
    v := Turn(49, v, 0x1e376c08, 0xcc7617db, 0xf11bfaa8, 0x6e5c390c);
    v := Turn(50, v, 0x2748774c, 0xb9e66c34, 0x7a0508a1, 0x52f1ccf7);
    v := Turn(51, v, 0x34b0bcb5, 0xa9993667, 0x886e7a22, 0x49231c1e);
    v := Turn(52, v, 0x391c0cb3, 0x84badedd, 0x101fd28f, 0x529e7d00);
    v := Turn(53, v, 0x4ed8aa4a, 0xc21462bc, 0xf5702fdb, 0x9f4787c3);
    v := Turn(54, v, 0x5b9cca4f, 0x1487472c, 0x3ec45cdb, 0xe50e1b4f);
    v := Turn(55, v, 0x682e6ff3, 0xb20f7a99, 0x38cc9913, 0x54cb266b);
  }

  lemma Turns7(v0: Working) returns (v: Working)
    requires v0 == Working(0x38cc9913, 0x3ec45cdb, 0xf5702fdb, 0x101fd28f,
                           0x54cb266b, 0xe50e1b4f, 0x9f4787c3, 0x529e7d00)
    requires Reached(56, v0)
    ensures v == Working(0x506e3058, 0xd39a2165, 0x04d24d6c, 0xb85e2ce9,
                         0x5ef50f24, 0xfb121210, 0x948d25b6, 0x961f4894)
    ensures Reached(64, v)
  {
    hide Reached;
    v := v0;
    v := Turn(56, v, 0x748f82ee, 0xef57b9cd, 0xfcd1887b, 0x9b5e906c);
    v := Turn(57, v, 0x78a5636f, 0xebe6b238, 0xc062d46f, 0x7e44008e);
    v := Turn(58, v, 0x84c87814, 0x9fe3095e, 0xffb70472, 0x6d83bfc6);
    v := Turn(59, v, 0x8cc70208, 0x78bc8d4b, 0xb6ae8fff, 0xb21bad3d);
    v := Turn(60, v, 0x90befffa, 0xa43fcf15, 0xb85e2ce9, 0x961f4894);
    v := Turn(61, v, 0xa4506ceb, 0x668b2ff8, 0x04d24d6c, 0x948d25b6);
    v := Turn(62, v, 0xbef9a3f7, 0xeeaba2cc, 0xd39a2165, 0xfb121210);
    v := Turn(63, v, 0xc67178f2, 0x12b1edeb, 0x506e3058, 0x5ef50f24);
  }

  lemma AllTurns() returns (v: Working)
    ensures Reached(64, v)
    ensures v == Working(0x506e3058, 0xd39a2165, 0x04d24d6c, 0xb85e2ce9,
                         0x5ef50f24, 0xfb121210, 0x948d25b6, 0x961f4894)
  {
    v := FromHash(IV());
    hide Reached;
    assert Reached(0, v) by { Start(v); }
    v := Turns0(v);
    v := Turns1(v);
    v := Turns2(v);
    v := Turns3(v);
    v := Turns4(v);
    v := Turns5(v);
    v := Turns6(v);
    v := Turns7(v);
  }

  lemma Start(v: Working)
    requires v == FromHash(IV())
    ensures Reached(0, v)
  {
  }

  // ---------------------------------------------------------------- the digest

  function Hash(): (h: seq<word>)
    ensures |h| == 8
  {
    [0xba7816bf, 0x8f01cfea, 0x414140de, 0x5dae2223,
     0xb00361a3, 0x96177a9c, 0xb410ff61, 0xf20015ad]
  }

  lemma Sums(v: Working)
    requires v == Working(0x506e3058, 0xd39a2165, 0x04d24d6c, 0xb85e2ce9,
                          0x5ef50f24, 0xfb121210, 0x948d25b6, 0x961f4894)
    ensures AddWords(IV(), v) == Hash()
  {
  }

  lemma Absorbed()
    ensures |Pad(ABC)| == 64 && Absorb(IV(), Pad(ABC)) == Hash()
  {
    var p := Pad(ABC);
    Padded();
    ScheduleIs(p, 64);
    var v := AllTurns();
    Sums(v);
    var none: seq<byte> := [];
    assert none + p == p;
    hide Pad, Schedule, Rounds, W, Words, AddWords, Hash, IV, FromHash;
    AbsorbBlock(IV(), none, p);
  }

  lemma {:induction false} BytesPrefix(h: seq<word>, n: nat)
    requires n < |h|
    ensures Bytes(h[..n + 1]) == Bytes(h[..n]) + BytesOf(h[n])
  {
    assert h[..n + 1][..n] == h[..n];
  }

  /** The digest of the three bytes "abc". */
  lemma DigestOfAbc()
    ensures Digest([0x61, 0x62, 0x63])
      == [0xba, 0x78, 0x16, 0xbf, 0x8f, 0x01, 0xcf, 0xea, 0x41, 0x41, 0x40, 0xde, 0x5d, 0xae, 0x22, 0x23]
       + [0xb0, 0x03, 0x61, 0xa3, 0x96, 0x17, 0x7a, 0x9c, 0xb4, 0x10, 0xff, 0x61, 0xf2, 0x00, 0x15, 0xad]
  {
    Absorbed();
    HashBytes();
    hide Pad, Absorb, Bytes, Hash;
  }

  lemma HashBytes()
    ensures Bytes(Hash())
      == [0xba, 0x78, 0x16, 0xbf, 0x8f, 0x01, 0xcf, 0xea, 0x41, 0x41, 0x40, 0xde, 0x5d, 0xae, 0x22, 0x23]
       + [0xb0, 0x03, 0x61, 0xa3, 0x96, 0x17, 0x7a, 0x9c, 0xb4, 0x10, 0xff, 0x61, 0xf2, 0x00, 0x15, 0xad]
  {
    FirstBytes(Hash());
    LastBytes(Hash());
    hide Bytes, Hash;
    assert Hash()[..8] == Hash();
  }

  lemma FirstBytes(h: seq<word>)
    requires h == Hash()
    ensures Bytes(h[..4])
      == [0xba, 0x78, 0x16, 0xbf, 0x8f, 0x01, 0xcf, 0xea, 0x41, 0x41, 0x40, 0xde, 0x5d, 0xae, 0x22, 0x23]
  {
    var none: seq<byte> := [];
    assert h[..0] == [] && Bytes([]) == none;
    FirstWords(h);
    hide Bytes, BytesOf, Hash;
    BytesPrefix(h, 0);
    BytesPrefix(h, 1);
    BytesPrefix(h, 2);
    BytesPrefix(h, 3);
  }

  lemma FirstWords(h: seq<word>)
    requires h == Hash()
    ensures BytesOf(h[0]) == [0xba, 0x78, 0x16, 0xbf] && BytesOf(h[1]) == [0x8f, 0x01, 0xcf, 0xea]
    ensures BytesOf(h[2]) == [0x41, 0x41, 0x40, 0xde] && BytesOf(h[3]) == [0x5d, 0xae, 0x22, 0x23]
  {
  }

  lemma LastBytes(h: seq<word>)
    requires h == Hash()
    ensures Bytes(h[..8]) == Bytes(h[..4])
      + [0xb0, 0x03, 0x61, 0xa3, 0x96, 0x17, 0x7a, 0x9c, 0xb4, 0x10, 0xff, 0x61, 0xf2, 0x00, 0x15, 0xad]
  {
    LastWords(h);
    hide Bytes, BytesOf, Hash;
    BytesPrefix(h, 4);
    BytesPrefix(h, 5);
    BytesPrefix(h, 6);
    BytesPrefix(h, 7);
  }

  lemma LastWords(h: seq<word>)
    requires h == Hash()
    ensures BytesOf(h[4]) == [0xb0, 0x03, 0x61, 0xa3] && BytesOf(h[5]) == [0x96, 0x17, 0x7a, 0x9c]
    ensures BytesOf(h[6]) == [0xb4, 0x10, 0xff, 0x61] && BytesOf(h[7]) == [0xf2, 0x00, 0x15, 0xad]
  {
  }
}
