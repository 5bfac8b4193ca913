/** aes_gen_tables of aes.c: what every entry of the lookup tables is, from logarithms of bytes to mixed columns. */
module AesTables {
  import opened ByteIndex
  import opened Gf256
  import Fips197
  import opened AesWords

  type Word = Fips197.Word

  /** The column that a byte s of a row-0 entry contributes to MixColumn. */
  function Forward(s: byte): Word {
    Fips197.Word(Mult(2, s), s, s, Mult(3, s))
  }

  /** The same for InvMixColumn. */
  function Backward(s: byte): Word {
    Fips197.Word(Mult(0x0e, s), Mult(0x09, s), Mult(0x0d, s), Mult(0x0b, s))
  }

  /** Down by n rows. */
  function Turned(w: Word, n: nat): Word {
    if n == 0 then w else Fips197.InvRotWord(Turned(w, n - 1))
  }

  lemma Nine<T>(a: T, b: T, c: T, d: T, e: T, f: T, g: T, h: T, i: T)
    requires a !in {b, c, d, e, f, g, h, i} && b !in {c, d, e, f, g, h, i} && c !in {d, e, f, g, h, i}
    requires d !in {e, f, g, h, i} && e !in {f, g, h, i} && f !in {g, h, i} && g !in {h, i} && h != i
    ensures |{a, b, c, d, e, f, g, h, i}| == 9
  {
  }

  /** The struct aes_tables and the flag aes_init_done. */
  class Tables {
    const FSb: array<byte>
    const RSb: array<byte>
    const FT0: array<uint32>
    const FT1: array<uint32>
    const FT2: array<uint32>
    const FT3: array<uint32>
    const RT0: array<uint32>
    const RT1: array<uint32>
    const RT2: array<uint32>
    const RT3: array<uint32>
    const RCON: array<uint32>
    var done: bool

    ghost const Words: set<array<uint32>> := {FT0, FT1, FT2, FT3, RT0, RT1, RT2, RT3, RCON}
    ghost const Repr: set<object> := {this, FSb, RSb, FT0, FT1, FT2, FT3, RT0, RT1, RT2, RT3, RCON}

    ghost predicate Fits() {
      && FSb.Length == 256 && RSb.Length == 256 && FSb != RSb && RCON.Length == 10
      && FT0.Length == 256 && FT1.Length == 256 && FT2.Length == 256 && FT3.Length == 256
      && RT0.Length == 256 && RT1.Length == 256 && RT2.Length == 256 && RT3.Length == 256
      && |Words| == 9
    }

    ghost predicate Boxes()
      reads FSb, RSb
      requires Fits()
    {
      && (forall i :: 0 <= i < 256 ==> FSb[i] == Fips197.SubByte(Byte(i)))
      && (forall i :: 0 <= i < 256 ==> RSb[i] == Fips197.InvSubByte(Byte(i)))
    }

    ghost predicate Constants()
      reads RCON
      requires Fits()
    {
      forall i :: 0 <= i < 10 ==> RCON[i] == Pack(Fips197.Rcon(i + 1))
    }

    ghost predicate Mixers()
      reads FT0, FT1, FT2, FT3, RT0, RT1, RT2, RT3
      requires Fits()
    {
      && (forall i :: 0 <= i < 256 ==> Column(FT0[i], FT1[i], FT2[i], FT3[i], Forward(Fips197.SubByte(Byte(i)))))
      && (forall i :: 0 <= i < 256 ==> Column(RT0[i], RT1[i], RT2[i], RT3[i], Backward(Fips197.InvSubByte(Byte(i)))))
    }

    ghost predicate Correct()
      reads Repr
    {
      Fits() && Boxes() && Constants() && Mixers()
    }

    constructor ()
      ensures Fits() && !done && fresh(Repr)
    {
      FSb, RSb, RCON := new byte[256], new byte[256], new uint32[10];
      FT0, FT1, FT2, FT3 := new uint32[256], new uint32[256], new uint32[256], new uint32[256];
      RT0, RT1, RT2, RT3 := new uint32[256], new uint32[256], new uint32[256], new uint32[256];
      done := false;
      new;
      Nine(FT0, FT1, FT2, FT3, RT0, RT1, RT2, RT3, RCON);
    }

    /** aes_gen_tables */
    method GenTables()
      requires Fits()
      modifies Repr - {this}
      ensures Correct()
    {
      hide Boxes, Constants, Mixers, Powers;
      var pow, log := PowerTables();
      GenConstants();
      GenBoxes(pow, log);
      GenMixers(pow, log);
    }

    /** The second loop of aes_gen_tables: the round constants. */
    method GenConstants()
      requires Fits()
      modifies RCON
      ensures Constants()
      ensures RCON[0] == 1 && forall i :: 0 <= i < 9 ==> RCON[i + 1] == Mult(2, Byte0(RCON[i])) as uint32
    {
      hide Xtime, Pack, Mult, Byte0;
      var x: byte := 1;
      for i := 0 to 10
        invariant x == Fips197.XPower(i)
        invariant i == 0 ==> x == 1
        invariant i > 0 ==> RCON[0] == 1 && x == Mult(2, Byte0(RCON[i - 1]))
        invariant forall k :: 0 <= k < i - 1 ==> RCON[k + 1] == Mult(2, Byte0(RCON[k])) as uint32
        invariant forall k :: 0 <= k < i ==> RCON[k] == Pack(Fips197.Rcon(k + 1))
      {
        RCON[i] := x as uint32;
        LowByte(x);
        Doubling(x);
        x := Xtime(x);
      }
    }

    /** The third loop: the S-box and its inverse. */
    method GenBoxes(pow: seq<byte>, log: seq<nat>)
      requires Fits() && Powers(pow, log)
      modifies FSb, RSb
      ensures Boxes()
    {
      hide Fips197.SubByte, Fips197.InvSubByte, Powers, Pow3, Ix, Byte;
      FSb[0x00] := 0x63;
      BoxOfZero();
      RSb[0x63] := 0x00;
      for i := 1 to 256
        modifies FSb, RSb
        invariant forall k :: 0 <= k < i ==> FSb[k] == Fips197.SubByte(Byte(k))
        invariant forall k :: 0 <= k < i ==> RSb[Ix(Fips197.SubByte(Byte(k)))] == Byte(k)
      {
        var x := InverseEntry(pow, log, i);
        x := AffineSteps(x);
        SubByteIs(Byte(i));
        forall k | 0 <= k < i ensures Ix(Fips197.SubByte(Byte(k))) != Ix(x) {
          SubByteDiffers(k, i);
        }
        FSb[i] := x;
        RSb[Ix(x)] := Byte(i);
      }
      forall j | 0 <= j < 256 ensures RSb[j] == Fips197.InvSubByte(Byte(j)) {
        InverseBox(j);
      }
    }

    /** The last loop: the tables that combine a box with the mixing of columns. */
    method GenMixers(pow: seq<byte>, log: seq<nat>)
      requires Fits() && Boxes() && Powers(pow, log)
      modifies FT0, FT1, FT2, FT3, RT0, RT1, RT2, RT3
      ensures Mixers()
    {
      hide ForwardTo, BackwardTo, Powers, Fips197.SubByte, Fips197.InvSubByte, Byte;
      NoneDone();
      for i := 0 to 256
        invariant ForwardTo(i) && BackwardTo(i)
      {
        ForwardEntry(i, FSb[i]);
        BackwardEntry(i, RSb[i], pow, log);
      }
      AllDone();
    }

    ghost predicate ForwardTo(n: nat)
      reads FT0, FT1, FT2, FT3
      requires Fits() && n <= 256
    {
      forall k :: 0 <= k < n ==> Column(FT0[k], FT1[k], FT2[k], FT3[k], Forward(Fips197.SubByte(Byte(k))))
    }

    ghost predicate BackwardTo(n: nat)
      reads RT0, RT1, RT2, RT3
      requires Fits() && n <= 256
    {
      forall k :: 0 <= k < n ==> Column(RT0[k], RT1[k], RT2[k], RT3[k], Backward(Fips197.InvSubByte(Byte(k))))
    }

    lemma NoneDone()
      requires Fits()
      ensures ForwardTo(0) && BackwardTo(0)
    {
    }

    lemma AllDone()
      requires Fits() && ForwardTo(256) && BackwardTo(256)
      ensures Mixers()
    {
      hide Column, Forward, Backward, Byte, Fips197.SubByte, Fips197.InvSubByte;
    }

    method ForwardEntry(i: nat, x: byte)
      requires Fits() && i < 256 && ForwardTo(i) && x == Fips197.SubByte(Byte(i))
      modifies FT0, FT1, FT2, FT3
      ensures ForwardTo(i + 1)
    {
      hide Xtime, Gather, RotL8, Column, Forward, Fips197.SubByte, Byte;
      var y := Xtime(x);
      var z := y ^ x;
      var first := Gather(y, x, x, z);
      FirstForward(x);
      ColumnTurns(first, Forward(x));
      FT0[i] := first;
      var rot := FT0[i];
      FT1[i] := RotL8(rot);
      rot := FT1[i];
      FT2[i] := RotL8(rot);
      rot := FT2[i];
      FT3[i] := RotL8(rot);
    }

    method BackwardEntry(i: nat, x: byte, pow: seq<byte>, log: seq<nat>)
      requires Fits() && i < 256 && Powers(pow, log) && BackwardTo(i) && x == Fips197.InvSubByte(Byte(i))
      modifies RT0, RT1, RT2, RT3
      ensures BackwardTo(i + 1)
    {
      hide Mult, Gather, RotL8, Powers, Column, Backward, Fips197.InvSubByte, Byte;
      var prod1 := MulByLog(pow, log, 0x0e, x);
      var prod2 := MulByLog(pow, log, 0x09, x);
      var prod3 := MulByLog(pow, log, 0x0d, x);
      var prod4 := MulByLog(pow, log, 0x0b, x);
      var first := Gather(prod1, prod2, prod3, prod4);
      FirstBackward(x);
      ColumnTurns(first, Backward(x));
      RT0[i] := first;
      var rot := RT0[i];
      RT1[i] := RotL8(rot);
      rot := RT1[i];
      RT2[i] := RotL8(rot);
      rot := RT2[i];
      RT3[i] := RotL8(rot);
    }
  }

  /** The macro MUL: multiplication by adding logarithms. */
  method MulByLog(pow: seq<byte>, log: seq<nat>, x: byte, y: byte) returns (n: byte)
    requires Powers(pow, log)
    ensures n == Mult(x, y)
  {
    hide Mult, Pow3;
    IxZero(x);
    IxZero(y);
    ZeroProducts(x, y);
    if x != 0 && y != 0 {
      LogIs(pow, log, Ix(x));
      LogIs(pow, log, Ix(y));
      ByteIx(x);
      ByteIx(y);
      var logx, logy := log[Ix(x)], log[Ix(y)];
      var m := (logx + logy) % 255;
      n := pow[m];
      PowAdd(logx, logy);
      PowReduce(logx + logy);
    } else {
      n := 0;
    }
  }

  lemma PowReduce(n: nat)
    ensures Pow3(n) == Pow3(n % 255)
  {
    PowValues();
    hide Pow3;
    PowMultiple(255, n / 255);
    PowLater(n % 255, n / 255 * 255);
  }

  lemma FirstForward(x: byte)
    ensures Gather(Xtime(x), x, x, Xtime(x) ^ x) == Pack(Forward(x))
  {
    ForwardIs(x);
    GatherIsPack(Xtime(x), x, x, Xtime(x) ^ x);
    hide Gather, Pack, Xtime;
  }

  lemma FirstBackward(x: byte)
    ensures Gather(Mult(0x0e, x), Mult(0x09, x), Mult(0x0d, x), Mult(0x0b, x)) == Pack(Backward(x))
  {
    hide Gather, Pack, Mult;
    GatherIsPack(Mult(0x0e, x), Mult(0x09, x), Mult(0x0d, x), Mult(0x0b, x));
  }

  lemma ForwardIs(x: byte)
    ensures Forward(x) == Fips197.Word(Xtime(x), x, x, Xtime(x) ^ x)
  {
    Doubling(x);
    hide Mult, Xtime;
  }

  lemma ColumnTurns(x: uint32, c: Word)
    requires x == Pack(c)
    ensures Column(x, RotL8(x), RotL8(RotL8(x)), RotL8(RotL8(RotL8(x))), c)
  {
    hide Pack, RotL8;
    assert Turned(c, 1) == Fips197.InvRotWord(c);
    assert Turned(c, 2) == Fips197.InvRotWord(Turned(c, 1));
    assert Turned(c, 3) == Fips197.InvRotWord(Turned(c, 2));
    RotL8Pack(c);
    RotL8Pack(Turned(c, 1));
    RotL8Pack(Turned(c, 2));
  }

  /** The look-up of an inverse. */
  method InverseEntry(pow: seq<byte>, log: seq<nat>, i: nat) returns (x: byte)
    requires Powers(pow, log) && 1 <= i < 256
    ensures x == Inverse(Byte(i))
  {
    hide Pow3, Inverse;
    LogIs(pow, log, i);
    var logi := log[i];
    x := pow[255 - logi];
    InverseByLog(pow, log, i);
  }

  /** The four rotations and the constant of an S-box entry. */
  method AffineSteps(b: byte) returns (x: byte)
    ensures x == Fips197.Affine(b)
  {
    hide Fips197.Rotate, Fips197.Affine;
    x := b;
    var y := x;
    y := Fips197.Rotate(y, 1);
    x := x ^ y;
    y := Fips197.Rotate(y, 1);
    x := x ^ y;
    y := Fips197.Rotate(y, 1);
    x := x ^ y;
    y := Fips197.Rotate(y, 1);
    x := x ^ (y ^ 0x63);
    Rotations(b);
  }

  lemma SubByteIs(b: byte)
    ensures Fips197.SubByte(b) == Fips197.Affine(Inverse(b))
  {
  }

  /** The four tables hold a column, turned by zero to three rows. */
  ghost predicate Column(x0: uint32, x1: uint32, x2: uint32, x3: uint32, c: Word) {
    x0 == Pack(c) && x1 == Pack(Turned(c, 1)) && x2 == Pack(Turned(c, 2)) && x3 == Pack(Turned(c, 3))
  }

  /** pow[k] is the k-th power of x + 1, and log undoes it on the exponents from 1 to 255. */
  ghost predicate Powers(pow: seq<byte>, log: seq<nat>) {
    && |pow| == 256 && |log| == 256
    && (forall k :: 0 <= k < 256 ==> pow[k] == Pow3(k))
    && (forall k {:trigger Pow3(k)} :: 1 <= k < 256 ==> log[Ix(Pow3(k))] == k)
  }

  /** The first loop of aes_gen_tables. */
  method PowerTables() returns (p: seq<byte>, l: seq<nat>)
    ensures Powers(p, l)
  {
    hide Ix, Pow3, Xtime;
    var pow, log := new byte[256], new nat[256];
    var x: byte := 1;
    PowerZero();
    for i := 0 to 256
      invariant x == Pow3(i)
      invariant forall k :: 0 <= k < i ==> pow[k] == Pow3(k)
      invariant forall k {:trigger Pow3(k)} :: 1 <= k < i ==> log[Ix(Pow3(k))] == k
    {
      forall k {:trigger Pow3(k)} | 1 <= k < i ensures Ix(Pow3(k)) != Ix(x) {
        DifferentPowers(k, i);
      }
      pow[i] := x;
      log[Ix(x)] := i;
      NextPower(x, i);
      x := x ^ Xtime(x);
    }
    p, l := pow[..], log[..];
  }

  lemma PowerZero()
    ensures Pow3(0) == 1
  {
  }

  lemma NextPower(x: byte, i: nat)
    requires x == Pow3(i)
    ensures x ^ Xtime(x) == Pow3(i + 1)
  {
    AddComm(x, Xtime(x));
    hide Xtime;
  }

  lemma DifferentPowers(k: nat, i: nat)
    requires 1 <= k < i < 256
    ensures Ix(Pow3(k)) != Ix(Pow3(i))
  {
    ByteIx(Pow3(k));
    ByteIx(Pow3(i));
    if i < 255 {
      PowDistinct(k, i);
    } else {
      PowDistinct(0, k);
      PowValues();
    }
    hide Ix;
  }

  lemma LowByte(x: byte)
    ensures x as uint32 == Pack(Fips197.Word(x, 0, 0, 0)) && Byte0(x as uint32) == x
  {
  }

  lemma BoxOfZero()
    ensures Fips197.SubByte(Byte(0)) == 0x63 && Byte(0) == 0 && Ix(0x63) == 0x63
  {
    hide Inverse;
    IxZero(Byte(0));
  }

  /** Every byte but zero has a logarithm from 1 to 255. */
  lemma LogIs(pow: seq<byte>, log: seq<nat>, i: nat)
    requires Powers(pow, log) && 1 <= i < 256
    ensures 1 <= log[i] <= 255 && Pow3(log[i]) == Byte(i)
  {
    IxByte(i);
    IxZero(Byte(i));
    hide Pow3, Ix;
    var k := Generates(Byte(i));
    if k == 0 {
      PowValues();
      PowLater(0, 255);
    }
    assert log[Ix(Pow3(if k == 0 then 255 else k))] == if k == 0 then 255 else k;
  }

  lemma InverseByLog(pow: seq<byte>, log: seq<nat>, i: nat)
    requires Powers(pow, log) && 1 <= i < 256 && 1 <= log[i] <= 255 && Pow3(log[i]) == Byte(i)
    ensures pow[255 - log[i]] == Inverse(Byte(i))
  {
    InverseOfPow(log[i]);
    InverseUnique(Byte(i), Pow3(255 - log[i]));
  }

  lemma RotateOnce(b: byte)
    ensures Fips197.Rotate(Fips197.Rotate(b, 1), 1) == Fips197.Rotate(b, 2)
    ensures Fips197.Rotate(Fips197.Rotate(b, 2), 1) == Fips197.Rotate(b, 3)
    ensures Fips197.Rotate(Fips197.Rotate(b, 3), 1) == Fips197.Rotate(b, 4)
  {
  }

  lemma Rotations(x: byte)
    ensures var r1, r2, r3, r4 := Fips197.Rotate(x, 1), Fips197.Rotate(Fips197.Rotate(x, 1), 1),
                                  Fips197.Rotate(Fips197.Rotate(Fips197.Rotate(x, 1), 1), 1),
                                  Fips197.Rotate(Fips197.Rotate(Fips197.Rotate(Fips197.Rotate(x, 1), 1), 1), 1);
      x ^ r1 ^ r2 ^ r3 ^ (r4 ^ 0x63) == Fips197.Affine(x)
  {
    RotateOnce(x);
    Fips197.AffineRotates(x);
    hide Fips197.Rotate, Fips197.Affine;
    LastTerm(x ^ Fips197.Rotate(x, 1) ^ Fips197.Rotate(x, 2) ^ Fips197.Rotate(x, 3), Fips197.Rotate(x, 4));
  }

  lemma LastTerm(a: byte, b: byte)
    ensures a ^ (b ^ 0x63) == a ^ b ^ 0x63
  {
  }

  lemma SubByteDiffers(k: nat, i: nat)
    requires k < i < 256
    ensures Ix(Fips197.SubByte(Byte(k))) != Ix(Fips197.SubByte(Byte(i)))
  {
    hide Fips197.SubByte, Fips197.InvSubByte;
    IxByte(k);
    IxByte(i);
    Fips197.SubByteTwoWays(Byte(k));
    Fips197.SubByteTwoWays(Byte(i));
    ByteIx(Fips197.SubByte(Byte(k)));
    ByteIx(Fips197.SubByte(Byte(i)));
    hide Ix, Byte;
  }

  /** Entry j of the inverse box was written for the byte that j is the image of. */
  lemma InverseBox(j: nat)
    requires j < 256
    ensures var k := Ix(Fips197.InvSubByte(Byte(j)));
      Byte(k) == Fips197.InvSubByte(Byte(j)) && Ix(Fips197.SubByte(Byte(k))) == j
  {
    hide Fips197.SubByte, Fips197.InvSubByte;
    ByteIx(Fips197.InvSubByte(Byte(j)));
    Fips197.SubByteTwoWays(Byte(j));
    IxByte(j);
  }
}
