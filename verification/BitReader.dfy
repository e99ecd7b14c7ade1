/**
  `bitReader` of internal/stream/h264.go and the Exp-Golomb codes of section 9.1 of
  ITU-T H.264. Reading is specified on the bits still ahead of the reader.
 */
module BitReader {
  import opened Common

  /** Go's `uint` is 64 bits wide. */
  const UINT64: nat := 0x1_0000_0000_0000_0000

  function Wrap(n: int): nat {
    n % UINT64
  }

  function Pow2(n: nat): (p: nat)
    ensures p >= 1
  {
    if n == 0 then 1 else 2 * Pow2(n - 1)
  }

  // ---------------------------------------------------------------- bytes as bits

  function ByteBits(b: Byte): seq<Bit> {
    [b / 128 % 2, b / 64 % 2, b / 32 % 2, b / 16 % 2, b / 8 % 2, b / 4 % 2, b / 2 % 2, b % 2]
  }

  function Bits(bs: seq<Byte>): (r: seq<Bit>)
    ensures |r| == 8 * |bs|
  {
    if bs == [] then [] else ByteBits(bs[0]) + Bits(bs[1..])
  }

  function ByteOf(r: seq<Bit>): Byte
    requires |r| == 8
  {
    ((((((((r[0] as int) * 2 + r[1]) * 2 + r[2]) * 2 + r[3]) * 2 + r[4]) * 2 + r[5]) * 2 + r[6]) * 2 + r[7])
  }

  function Pack(r: seq<Bit>): seq<Byte>
    requires |r| % 8 == 0
  {
    if r == [] then [] else [ByteOf(r[..8])] + Pack(r[8..])
  }

  lemma ByteRoundTrip(r: seq<Bit>)
    requires |r| == 8
    ensures ByteBits(ByteOf(r)) == r
  {
    var b := ByteOf(r);
    assert b / 2 == (((((((r[0] as int) * 2 + r[1]) * 2 + r[2]) * 2 + r[3]) * 2 + r[4]) * 2 + r[5]) * 2 + r[6]);
    assert b / 4 == ((((((r[0] as int) * 2 + r[1]) * 2 + r[2]) * 2 + r[3]) * 2 + r[4]) * 2 + r[5]);
    assert b / 8 == (((((r[0] as int) * 2 + r[1]) * 2 + r[2]) * 2 + r[3]) * 2 + r[4]);
    assert b / 16 == ((((r[0] as int) * 2 + r[1]) * 2 + r[2]) * 2 + r[3]);
    assert b / 32 == (((r[0] as int) * 2 + r[1]) * 2 + r[2]);
    assert b / 64 == ((r[0] as int) * 2 + r[1]);
    assert b / 128 == r[0];
  }

  lemma {:induction false} BitsOfPack(r: seq<Bit>)
    requires |r| % 8 == 0
    ensures Bits(Pack(r)) == r
  {
    if r == [] {
    } else {
      ByteRoundTrip(r[..8]);
      BitsOfPack(r[8..]);
      assert r == r[..8] + r[8..];
    }
  }

  // ---------------------------------------------------------------- reading, as functions

  /** One bit; past the end the source answers 0 and stays where it is. */
  function NextBit(r: seq<Bit>): Bit {
    if r == [] then 0 else r[0]
  }

  function Drop(r: seq<Bit>, n: nat): seq<Bit> {
    if n <= |r| then r[n..] else []
  }

  /** The next `n` bits as a number, most significant first, after `acc`. */
  function Number(r: seq<Bit>, n: nat, acc: nat): nat
    decreases n
  {
    if n == 0 then acc else Number(Drop(r, 1), n - 1, 2 * acc + NextBit(r))
  }

  function LeadingZeros(r: seq<Bit>): (z: nat)
    requires 1 in r
    ensures z < |r| && r[z] == 1
    ensures forall k :: 0 <= k < z ==> r[k] == 0
  {
    if r[0] == 1 then 0 else 1 + LeadingZeros(r[1..])
  }

  datatype Read<+T> = Read(value: T, rest: seq<Bit>)

  /** `readUE`; None when no 1 bit is left, where the source never returns. */
  function TakeUE(r: seq<Bit>): Option<Read<nat>> {
    if 1 !in r then None
    else
      var z := LeadingZeros(r);
      var r' := r[z + 1..];
      Some(Read(Wrap(Pow2(z) - 1 + Number(r', z, 0)), Drop(r', z)))
  }

  /** The signed value of code number `v`, in Go's 64-bit arithmetic. */
  function SignedOf(v: nat): int {
    if v % 2 == 0 then -(v / 2) else Wrap(v + 1) / 2
  }

  function TakeSE(r: seq<Bit>): Option<Read<int>> {
    var u :- TakeUE(r);
    Some(Read(SignedOf(u.value), u.rest))
  }

  // ---------------------------------------------------------------- the reader

  lemma {:induction false} PowAdd(m: nat, n: nat)
    ensures Pow2(m + n) == Pow2(m) * Pow2(n)
    decreases n
  {
    if n == 0 {
    } else {
      PowAdd(m, n - 1);
      assert Pow2(m) * (2 * Pow2(n - 1)) == 2 * (Pow2(m) * Pow2(n - 1));
    }
  }

  lemma Pow64()
    ensures Pow2(64) == UINT64
  {
    assert Pow2(2) == 4;
    hide Pow2;
    assert Pow2(4) == 0x10 by { PowAdd(2, 2); }
    assert Pow2(8) == 0x100 by { PowAdd(4, 4); }
    assert Pow2(16) == 0x1_0000 by { PowAdd(8, 8); }
    assert Pow2(32) == 0x1_0000_0000 by { PowAdd(16, 16); }
    PowAdd(32, 32);
  }

  lemma ModShift(a: int, k: int)
    ensures (a + UINT64 * k) % UINT64 == a % UINT64
  {
    var q := a / UINT64;
    assert a + UINT64 * k == UINT64 * (q + k) + a % UINT64;
  }

  /** Go's `1 << n` on `uint`. */
  function ShiftOne(n: nat): nat {
    if n < 64 then Pow2(n) else 0
  }

  lemma WrapSum(z: nat, v: nat)
    ensures Wrap(ShiftOne(z) + UINT64 - 1 + Wrap(v)) == Wrap(Pow2(z) - 1 + v)
  {
    hide Pow2;
    var q := v / UINT64;
    assert v == UINT64 * q + v % UINT64;
    if z < 64 {
      ModShift(Pow2(z) - 1 + v, 1 - q);
    } else {
      Pow64();
      PowAdd(64, z - 64);
      var p := Pow2(z - 64);
      assert ShiftOne(z) + UINT64 - 1 + v % UINT64 == Pow2(z) - 1 + v + UINT64 * (1 - q - p);
      ModShift(Pow2(z) - 1 + v, 1 - q - p);
    }
  }

  lemma WrapBit(acc: nat, bit: Bit)
    ensures Wrap(2 * Wrap(acc)) + bit == Wrap(2 * acc + bit)
  {
    var val := acc % UINT64;
    var q := acc / UINT64;
    assert acc == UINT64 * q + val;
    ModShift(2 * val + bit, 2 * q);
    assert 2 * val % UINT64 + bit == (2 * val + bit) % UINT64 by {
      if 2 * val < UINT64 {
      } else {
        assert UINT64 <= 2 * val < 2 * UINT64;
      }
    }
  }

  /** `TakeUE` once a 1 bit is known to be ahead. */
  lemma TakeAt(r: seq<Bit>)
    requires 1 in r
    ensures var z := LeadingZeros(r);
            TakeUE(r) == Some(Read(Wrap(Pow2(z) - 1 + Number(Drop(r, z + 1), z, 0)), Drop(Drop(r, z + 1), z)))
  {
  }

  lemma DropNext(r: seq<Bit>, k: nat)
    requires k < |r|
    ensures Drop(r, 0) == r
    ensures NextBit(Drop(r, k)) == r[k] && Drop(Drop(r, k), 1) == Drop(r, k + 1)
  {
  }

  lemma WrapZero()
    ensures Wrap(0) == 0
  {
  }

  lemma BitAt(b: Byte, k: nat)
    requires k < 8
    ensures b / ShiftOne(7 - k) % 2 == ByteBits(b)[k]
  {
    assert Pow2(0) == 1 && Pow2(1) == 2 && Pow2(2) == 4 && Pow2(3) == 8;
    assert Pow2(4) == 16 && Pow2(5) == 32 && Pow2(6) == 64 && Pow2(7) == 128;
  }

  lemma ZeroCode(r: seq<Bit>)
    ensures Wrap(Pow2(0) - 1 + Number(r, 0, 0)) == 0
    ensures Drop(r, 0) == r
  {
  }

  class Reader {
    const data: seq<Byte>
    var bytePos: nat
    var bitPos: nat

    ghost predicate Valid()
      reads this
    {
      bitPos < 8 && bytePos <= |data| && (bytePos == |data| ==> bitPos == 0)
    }

    /** The bits still to be read. */
    ghost function Rest(): seq<Bit>
      requires Valid()
      reads this
    {
      Bits(data[bytePos..])[bitPos..]
    }

    constructor (data: seq<Byte>)
      ensures Valid() && Rest() == Bits(data)
    {
      this.data := data;
      bytePos, bitPos := 0, 0;
      new;
      assert data[0..] == data;
    }

    method ReadBit() returns (bit: Bit)
      requires Valid()
      modifies this
      ensures Valid()
      ensures bit == NextBit(old(Rest())) && Rest() == Drop(old(Rest()), 1)
    {
      if bytePos >= |data| {
        return 0;
      }
      hide ShiftOne, ByteBits;
      assert data[bytePos..][1..] == data[bytePos + 1..];
      BitAt(data[bytePos], bitPos);
      bit := data[bytePos] / ShiftOne(7 - bitPos) % 2;
      bitPos := bitPos + 1;
      if bitPos == 8 {
        bitPos := 0;
        bytePos := bytePos + 1;
      }
    }

    method ReadBits(n: nat) returns (val: nat)
      requires Valid()
      modifies this
      ensures Valid()
      ensures val == Wrap(Number(old(Rest()), n, 0)) && Rest() == Drop(old(Rest()), n)
    {
      hide Wrap, Bits;
      val := 0;
      WrapZero();
      ghost var acc: nat := 0;
      for i := 0 to n
        invariant Valid() && Rest() == Drop(old(Rest()), i)
        invariant val == Wrap(acc)
        invariant Number(Rest(), n - i, acc) == Number(old(Rest()), n, 0)
      {
        var bit := ReadBit();
        WrapBit(acc, bit);
        val := Wrap(2 * val) + bit;
        acc := 2 * acc + bit;
      }
    }

    /** Requires a 1 bit ahead: without one the source loops for ever. */
    method ReadUE() returns (val: nat)
      requires Valid() && 1 in Rest()
      modifies this
      ensures Valid()
      ensures TakeUE(old(Rest())) == Some(Read(val, Rest()))
    {
      hide Number, ShiftOne, Pow2, LeadingZeros, Bits, Wrap, TakeUE, Drop, NextBit;
      ghost var r := Rest();
      TakeAt(r);
      ghost var z := LeadingZeros(r);
      var zeroCount := 0;
      var bit := ReadBit();
      DropNext(r, 0);
      while bit == 0
        invariant Valid()
        invariant zeroCount <= z && bit == r[zeroCount] && Rest() == Drop(r, zeroCount + 1)
        decreases z - zeroCount
      {
        zeroCount := zeroCount + 1;
        bit := ReadBit();
        DropNext(r, zeroCount);
      }
      if zeroCount == 0 {
        ZeroCode(Drop(r, 1));
        return 0;
      }
      val := ReadBits(zeroCount);
      WrapSum(z, Number(Drop(r, z + 1), z, 0));
      val := Wrap(ShiftOne(zeroCount) + UINT64 - 1 + val);
    }

    method ReadSE() returns (val: int)
      requires Valid() && 1 in Rest()
      modifies this
      ensures Valid()
      ensures TakeSE(old(Rest())) == Some(Read(val, Rest()))
    {
      hide TakeUE, Wrap;
      var code := ReadUE();
      if code % 2 == 0 {
        var half: int := code / 2;
        return -half;
      }
      return Wrap(code + 1) / 2;
    }
  }

  // ---------------------------------------------------------------- writing

  function Log2(n: nat): (z: nat)
    requires n >= 1
    ensures Pow2(z) <= n < 2 * Pow2(z)
  {
    if n == 1 then 0 else 1 + Log2(n / 2)
  }

  /** `v` in `n` bits, most significant first, in front of `rest`. */
  function Fixed(v: nat, n: nat, rest: seq<Bit>): seq<Bit>
    requires v < Pow2(n)
    decreases n
  {
    if n == 0 then rest
    else if v >= Pow2(n - 1) then [1] + Fixed(v - Pow2(n - 1), n - 1, rest)
    else [0] + Fixed(v, n - 1, rest)
  }

  function Zeros(n: nat, rest: seq<Bit>): seq<Bit> {
    if n == 0 then rest else [0] + Zeros(n - 1, rest)
  }

  /** The ue(v) code of section 9.1 in front of `rest`. */
  function PutUE(v: nat, rest: seq<Bit>): seq<Bit> {
    var z := Log2(v + 1);
    Zeros(z, [1] + Fixed(v + 1 - Pow2(z), z, rest))
  }

  /** Section 9.1.1: positive values take the odd code numbers, the others the even ones. */
  function CodeNumber(v: int): nat {
    if v > 0 then 2 * v - 1 else -2 * v
  }

  function PutSE(v: int, rest: seq<Bit>): seq<Bit> {
    PutUE(CodeNumber(v), rest)
  }

  lemma FixedStep(v: nat, n: nat, rest: seq<Bit>, acc: nat) returns (b: Bit, w: nat)
    requires v < Pow2(n) && n > 0
    ensures w < Pow2(n - 1) && v == w + (if b == 1 then Pow2(n - 1) else 0)
    ensures var r := Fixed(v, n, rest);
            && Drop(r, 1) == Fixed(w, n - 1, rest)
            && Number(r, n, acc) == Number(Fixed(w, n - 1, rest), n - 1, 2 * acc + b)
            && (|r| >= n ==> Drop(r, n) == Drop(Fixed(w, n - 1, rest), n - 1))
            && |r| == 1 + |Fixed(w, n - 1, rest)|
  {
    var p := Pow2(n - 1);
    b := if v >= p then 1 else 0;
    w := if v >= p then v - p else v;
    assert Fixed(v, n, rest) == [b] + Fixed(w, n - 1, rest);
  }

  lemma {:induction false} NumberOfFixed(v: nat, n: nat, rest: seq<Bit>, acc: nat)
    requires v < Pow2(n)
    ensures Number(Fixed(v, n, rest), n, acc) == acc * Pow2(n) + v
    ensures |Fixed(v, n, rest)| == n + |rest|
    ensures Drop(Fixed(v, n, rest), n) == rest
    decreases n
  {
    if n == 0 {
      assert acc * Pow2(0) == acc;
    } else {
      var p := Pow2(n - 1);
      assert acc * Pow2(n) == acc * (2 * p);
      hide Pow2, Number, Fixed, Drop;
      var b, w := FixedStep(v, n, rest, acc);
      NumberOfFixed(w, n - 1, rest, 2 * acc + b);
      ShiftIn(acc, b, p, w);
    }
  }

  lemma ShiftIn(acc: int, b: Bit, p: int, w: int)
    ensures (2 * acc + b) * p + w == acc * (2 * p) + (w + if b == 1 then p else 0)
  {
  }

  lemma {:induction false} ZerosThenOne(n: nat, rest: seq<Bit>)
    ensures 1 in Zeros(n, [1] + rest)
    ensures LeadingZeros(Zeros(n, [1] + rest)) == n
    ensures Zeros(n, [1] + rest)[n + 1..] == rest
  {
    if n > 0 {
      ZerosThenOne(n - 1, rest);
      var r := Zeros(n, [1] + rest);
      assert r[1..] == Zeros(n - 1, [1] + rest);
      assert r[n + 1..] == r[1..][n..];
    } else {
      assert ([1] + rest)[0] == 1;
    }
  }

  /** Reading a ue(v) code gives its value modulo 2^64 and stops just past the code. */
  lemma UERoundTrip(v: nat, rest: seq<Bit>)
    ensures TakeUE(PutUE(v, rest)) == Some(Read(Wrap(v), rest))
  {
    hide Pow2, Number, Fixed, Zeros, LeadingZeros, Drop, Wrap;
    var z := Log2(v + 1);
    var tail := Fixed(v + 1 - Pow2(z), z, rest);
    ZerosThenOne(z, tail);
    NumberOfFixed(v + 1 - Pow2(z), z, rest, 0);
  }

  /** An se(v) code reads back as itself exactly within (-2^63, 2^63). */
  lemma SERoundTrip(v: int, rest: seq<Bit>)
    ensures TakeSE(PutSE(v, rest)).Some?
    ensures TakeSE(PutSE(v, rest)).value.rest == rest
    ensures TakeSE(PutSE(v, rest)).value.value == v <==> -(UINT64 / 2) < v < UINT64 / 2
  {
    hide Pow2, Number, Fixed, Zeros, LeadingZeros, Drop, TakeUE, PutUE;
    UERoundTrip(CodeNumber(v), rest);
  }
}
