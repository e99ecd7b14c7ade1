/**
  `parseSPS` of internal/stream/h264.go: the picture size read out of a sequence parameter
  set. `Parse` is the walk as a function; None stands for a walk that never ends because
  the bits run out inside an Exp-Golomb code.
 */
module SpsParser {
  import opened Common
  import opened BitReader
  import Emulation

  /** The profiles for which the source expects the chroma fields. */
  const HIGH_PROFILES: set<int> := {100, 110, 122, 244, 44, 83, 86, 118, 128, 138, 139, 144}

  /** Go's `%` truncates toward zero. */
  function GoMod(a: int, b: int): int
    requires b > 0
  {
    if a >= 0 then a % b else -(-a % b)
  }

  /** Two's-complement wrap-around of Go's 64-bit `int`. */
  function Int64(a: int): int {
    (a + UINT64 / 2) % UINT64 - UINT64 / 2
  }

  function NextScale(last: int, delta: int): int {
    GoMod(Int64(last + delta + 256), 256)
  }

  function U16(n: int): nat {
    n % 0x1_0000
  }

  // ---------------------------------------------------------------- the walk

  function SkipUE(r: seq<Bit>): Option<seq<Bit>> {
    var u :- TakeUE(r);
    Some(u.rest)
  }

  function SkipUEs(r: seq<Bit>, n: nat): Option<seq<Bit>>
    decreases n
  {
    if n == 0 then Some(r)
    else
      var r' :- SkipUE(r);
      SkipUEs(r', n - 1)
  }

  /** The last `left` entries of a scaling list. */
  function SkipScalingList(r: seq<Bit>, left: nat, last: int, next: int): Option<seq<Bit>>
    decreases left
  {
    if left == 0 then Some(r)
    else if next == 0 then SkipScalingList(r, left - 1, last, next)
    else
      var d :- TakeSE(r);
      var n := NextScale(last, d.value);
      SkipScalingList(d.rest, left - 1, if n != 0 then n else last, n)
  }

  /** Scaling lists `i` up to `limit`, each behind its presence flag. */
  function SkipScalingLists(r: seq<Bit>, i: nat, limit: nat): Option<seq<Bit>>
    requires i <= limit
    decreases limit - i
  {
    if i == limit then Some(r)
    else if NextBit(r) == 0 then SkipScalingLists(Drop(r, 1), i + 1, limit)
    else
      var r' :- SkipScalingList(Drop(r, 1), if i >= 6 then 64 else 16, 8, 8);
      SkipScalingLists(r', i + 1, limit)
  }

  function SkipChroma(r: seq<Bit>): Option<seq<Bit>> {
    var chroma :- TakeUE(r);
    var r1 :- SkipUEs(if chroma.value == 3 then Drop(chroma.rest, 1) else chroma.rest, 2);
    var r2 := Drop(r1, 1);
    if NextBit(r2) == 0 then Some(Drop(r2, 1))
    else SkipScalingLists(Drop(r2, 1), 0, if chroma.value != 3 then 8 else 12)
  }

  function SkipPicOrderCnt(r: seq<Bit>): Option<seq<Bit>> {
    var kind :- TakeUE(r);
    if kind.value == 0 then SkipUE(kind.rest)
    else if kind.value == 1 then
      var r1 :- SkipUEs(Drop(kind.rest, 1), 2);
      var n :- TakeUE(r1);
      SkipUEs(n.rest, n.value)
    else Some(kind.rest)
  }

  datatype Geometry = Geometry(width: nat, height: nat, frameMbsOnly: Bit,
                               left: nat, right: nat, top: nat, bottom: nat)

  function TakeGeometry(r: seq<Bit>): Option<Geometry> {
    var w :- TakeUE(r);
    var h :- TakeUE(w.rest);
    var fmo := NextBit(h.rest);
    var r1 := Drop(Drop(h.rest, if fmo == 0 then 2 else 1), 1);
    if NextBit(r1) == 0 then Some(Geometry(w.value, h.value, fmo, 0, 0, 0, 0))
    else
      var left :- TakeUE(Drop(r1, 1));
      var right :- TakeUE(left.rest);
      var top :- TakeUE(right.rest);
      var bottom :- TakeUE(top.rest);
      Some(Geometry(w.value, h.value, fmo, left.value, right.value, top.value, bottom.value))
  }

  function BeforeGeometry(profile: Byte, r: seq<Bit>): Option<seq<Bit>> {
    var r1 :- SkipUE(r);
    var r2 :- if profile in HIGH_PROFILES then SkipChroma(r1) else Some(r1);
    var r3 :- SkipUE(r2);
    var r4 :- SkipPicOrderCnt(r3);
    var r5 :- SkipUE(r4);
    Some(Drop(r5, 1))
  }

  /** The arithmetic at the end of `parseSPS`; every result is truncated to `uint16`. */
  function Size(g: Geometry): (nat, nat) {
    var width := U16(Wrap(Wrap(g.width + 1) * 16));
    var height := U16(Wrap(Wrap(g.height + 1) * 16));
    var height' := if g.frameMbsOnly == 0 then U16(height * 2) else height;
    (U16(width - U16(Wrap(Wrap(g.left + g.right) * 2))),
     U16(height' - U16(Wrap(Wrap(g.top + g.bottom) * 2))))
  }

  function ParseBody(profile: Byte, r: seq<Bit>): Option<(nat, nat)> {
    var r' :- BeforeGeometry(profile, r);
    var g :- TakeGeometry(r');
    Some(Size(g))
  }

  function Parse(sps: seq<Byte>): Option<(nat, nat)> {
    var data := Emulation.Strip(sps);
    if |data| < 5 then Some((0, 0)) else ParseBody(data[1], Bits(data[4..]))
  }

  // ---------------------------------------------------------------- the source's methods

  lemma TakeNeedsOne(r: seq<Bit>)
    ensures TakeUE(r).Some? ==> 1 in r
    ensures TakeSE(r).Some? ==> 1 in r
    ensures SkipUE(r).Some? ==> 1 in r
  {
  }

  method SkipCodes(r: Reader, n: nat)
    requires r.Valid() && SkipUEs(r.Rest(), n).Some?
    modifies r
    ensures r.Valid() && SkipUEs(old(r.Rest()), n) == Some(r.Rest())
  {
    hide TakeUE;
    for i := 0 to n
      invariant r.Valid()
      invariant SkipUEs(r.Rest(), n - i) == SkipUEs(old(r.Rest()), n)
    {
      TakeNeedsOne(r.Rest());
      var _ := r.ReadUE();
    }
  }

  method ReadScalingList(r: Reader, size: nat)
    requires r.Valid() && SkipScalingList(r.Rest(), size, 8, 8).Some?
    modifies r
    ensures r.Valid() && SkipScalingList(old(r.Rest()), size, 8, 8) == Some(r.Rest())
  {
    hide TakeSE, NextScale;
    var lastScale, nextScale := 8, 8;
    for j := 0 to size
      invariant r.Valid()
      invariant SkipScalingList(r.Rest(), size - j, lastScale, nextScale)
                == SkipScalingList(old(r.Rest()), size, 8, 8)
    {
      if nextScale != 0 {
        TakeNeedsOne(r.Rest());
        var deltaScale := r.ReadSE();
        nextScale := NextScale(lastScale, deltaScale);
      }
      if nextScale != 0 {
        lastScale := nextScale;
      }
    }
  }

  method ReadScalingLists(r: Reader, limit: nat)
    requires r.Valid() && SkipScalingLists(r.Rest(), 0, limit).Some?
    modifies r
    ensures r.Valid() && SkipScalingLists(old(r.Rest()), 0, limit) == Some(r.Rest())
  {
    hide SkipScalingList;
    for i := 0 to limit
      invariant r.Valid()
      invariant SkipScalingLists(r.Rest(), i, limit) == SkipScalingLists(old(r.Rest()), 0, limit)
    {
      var present := r.ReadBit();
      if present != 0 {
        ReadScalingList(r, if i >= 6 then 64 else 16);
      }
    }
  }

  method ReadChroma(r: Reader)
    requires r.Valid() && SkipChroma(r.Rest()).Some?
    modifies r
    ensures r.Valid() && SkipChroma(old(r.Rest())) == Some(r.Rest())
  {
    hide TakeUE, SkipUEs, SkipScalingLists, NextBit, Drop;
    TakeNeedsOne(r.Rest());
    var chromaFormatIdc := r.ReadUE();
    if chromaFormatIdc == 3 {
      var _ := r.ReadBit();
    }
    SkipCodes(r, 2);
    var _ := r.ReadBit();
    var matrixPresent := r.ReadBit();
    if matrixPresent != 0 {
      ReadScalingLists(r, if chromaFormatIdc != 3 then 8 else 12);
    }
  }

  method ReadPicOrderCnt(r: Reader)
    requires r.Valid() && SkipPicOrderCnt(r.Rest()).Some?
    modifies r
    ensures r.Valid() && SkipPicOrderCnt(old(r.Rest())) == Some(r.Rest())
  {
    hide TakeUE, SkipUEs, NextBit, Drop;
    TakeNeedsOne(r.Rest());
    var picOrderCntType := r.ReadUE();
    if picOrderCntType == 0 {
      TakeNeedsOne(r.Rest());
      var _ := r.ReadUE();
    } else if picOrderCntType == 1 {
      var _ := r.ReadBit();
      SkipCodes(r, 2);
      TakeNeedsOne(r.Rest());
      var cycle := r.ReadUE();
      SkipCodes(r, cycle);
    }
  }

  method ReadGeometry(r: Reader) returns (g: Geometry)
    requires r.Valid() && TakeGeometry(r.Rest()).Some?
    modifies r
    ensures r.Valid() && TakeGeometry(old(r.Rest())) == Some(g)
  {
    hide TakeUE, NextBit;
    TakeNeedsOne(r.Rest());
    var width := r.ReadUE();
    TakeNeedsOne(r.Rest());
    var height := r.ReadUE();
    var fmo := r.ReadBit();
    if fmo == 0 {
      var _ := r.ReadBit();
    }
    var _ := r.ReadBit();
    var cropping := r.ReadBit();
    var left, right, top, bottom: nat := 0, 0, 0, 0;
    if cropping != 0 {
      TakeNeedsOne(r.Rest());
      left := r.ReadUE();
      TakeNeedsOne(r.Rest());
      right := r.ReadUE();
      TakeNeedsOne(r.Rest());
      top := r.ReadUE();
      TakeNeedsOne(r.Rest());
      bottom := r.ReadUE();
    }
    g := Geometry(width, height, fmo, left, right, top, bottom);
    var _ := r.ReadBit();
  }

  method ReadBeforeGeometry(profile: Byte, r: Reader)
    requires r.Valid() && BeforeGeometry(profile, r.Rest()).Some?
    modifies r
    ensures r.Valid() && BeforeGeometry(profile, old(r.Rest())) == Some(r.Rest())
  {
    hide TakeUE, SkipChroma, SkipPicOrderCnt, Drop, NextBit;
    TakeNeedsOne(r.Rest());
    var _ := r.ReadUE();
    if profile in HIGH_PROFILES {
      ReadChroma(r);
    }
    TakeNeedsOne(r.Rest());
    var _ := r.ReadUE();
    ReadPicOrderCnt(r);
    TakeNeedsOne(r.Rest());
    var _ := r.ReadUE();
    var _ := r.ReadBit();
  }

  /** `parseSPS`, called where the walk ends. */
  method ParseSPS(sps: seq<Byte>) returns (width: nat, height: nat)
    requires Parse(sps).Some?
    ensures Parse(sps) == Some((width, height))
  {
    hide Emulation.Strip, Bits, BeforeGeometry, TakeGeometry, Size;
    var data := Emulation.StripEmulation(sps);
    if |data| < 5 {
      return 0, 0;
    }
    var r := new Reader(data[4..]);
    ReadBeforeGeometry(data[1], r);
    var g := ReadGeometry(r);
    width, height := Size(g).0, Size(g).1;
  }
}
