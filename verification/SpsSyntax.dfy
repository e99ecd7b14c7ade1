/**
  Sequence parameter sets as section 7.3.2.1.1 of ITU-T H.264 writes them, the picture size
  of section 7.4.2.1.1, and what `parseSPS` makes of every such parameter set.
 */
module SpsSyntax {
  import opened Common
  import opened BitReader
  import opened SpsParser
  import opened AnnexB
  import AccessUnit
  import Emulation

  /** The profiles with chroma fields in the standard: 134 and 135 but not 144. */
  const STANDARD_HIGH: set<int> := {100, 110, 122, 244, 44, 83, 86, 118, 128, 138, 139, 134, 135}

  /** Scaling lists hold the delta_scale values that are actually written. */
  datatype Chroma = Chroma(format: nat, separatePlanes: Bit, lumaDepth: nat, chromaDepth: nat,
                           bypass: Bit, scaling: Option<seq<Option<seq<int>>>>)

  datatype PicOrderCnt =
    | Lsb(log2Max: nat)
    | Cycle(alwaysZero: Bit, nonRef: int, topToBottom: int, offsets: seq<int>)
    | OutputOrder

  datatype Crop = Crop(left: nat, right: nat, top: nat, bottom: nat)

  /** `tail` is the VUI, if any, and the RBSP trailing bits. */
  datatype Sps = Sps(header: Byte, profile: Byte, constraints: Byte, level: Byte, id: nat,
                     chroma: Chroma, log2MaxFrameNum: nat, poc: PicOrderCnt, refFrames: nat,
                     gaps: Bit, width: nat, height: nat, frameMbsOnly: Bit, mbAdaptive: Bit,
                     direct8x8: Bit, crop: Option<Crop>, vui: Bit, tail: seq<Bit>)

  // ---------------------------------------------------------------- writing

  function PutSEs(vs: seq<int>, rest: seq<Bit>): seq<Bit> {
    if vs == [] then rest else PutSE(vs[0], PutSEs(vs[1..], rest))
  }

  function PutLists(ls: seq<Option<seq<int>>>, rest: seq<Bit>): seq<Bit> {
    if ls == [] then rest
    else if ls[0].None? then [0] + PutLists(ls[1..], rest)
    else [1] + PutSEs(ls[0].value, PutLists(ls[1..], rest))
  }

  function PutChroma(c: Chroma, rest: seq<Bit>): seq<Bit> {
    var lists := if c.scaling.None? then [0] + rest else [1] + PutLists(c.scaling.value, rest);
    var depths := PutUE(c.lumaDepth, PutUE(c.chromaDepth, [c.bypass] + lists));
    PutUE(c.format, if c.format == 3 then [c.separatePlanes] + depths else depths)
  }

  function PutPicOrderCnt(p: PicOrderCnt, rest: seq<Bit>): seq<Bit> {
    match p
    case Lsb(n) => PutUE(0, PutUE(n, rest))
    case Cycle(z, a, b, vs) => PutUE(1, [z] + PutSE(a, PutSE(b, PutUE(|vs|, PutSEs(vs, rest)))))
    case OutputOrder => PutUE(2, rest)
  }

  function PutCrop(c: Option<Crop>, rest: seq<Bit>): seq<Bit> {
    if c.None? then [0] + rest
    else [1] + PutUE(c.value.left, PutUE(c.value.right, PutUE(c.value.top, PutUE(c.value.bottom, rest))))
  }

  function PutGeometry(s: Sps): seq<Bit> {
    var tail := [s.direct8x8] + PutCrop(s.crop, [s.vui] + s.tail);
    var flags := if s.frameMbsOnly == 0 then [0, s.mbAdaptive] + tail else [1] + tail;
    PutUE(s.width, PutUE(s.height, flags))
  }

  function PutBody(s: Sps): seq<Bit> {
    var body := PutUE(s.log2MaxFrameNum,
                      PutPicOrderCnt(s.poc, PutUE(s.refFrames, [s.gaps] + PutGeometry(s))));
    PutUE(s.id, if s.profile in STANDARD_HIGH then PutChroma(s.chroma, body) else body)
  }

  /** A list is written until its entries are used up or its scale becomes 0. */
  predicate ListFits(vs: seq<int>, left: nat, last: int, next: int)
    decreases left
  {
    if left == 0 then vs == []
    else if next == 0 then ListFits(vs, left - 1, last, next)
    else
      && vs != [] && -128 <= vs[0] <= 127
      && var n := (last + vs[0] + 256) % 256;
         ListFits(vs[1..], left - 1, if n != 0 then n else last, n)
  }

  predicate ListsFit(ls: seq<Option<seq<int>>>, i: nat, limit: nat)
    requires i <= limit
    decreases limit - i
  {
    if i == limit then ls == []
    else
      && ls != []
      && (ls[0].Some? ==> ListFits(ls[0].value, if i >= 6 then 64 else 16, 8, 8))
      && ListsFit(ls[1..], i + 1, limit)
  }

  /** The value ranges of the standard that the walk depends on. */
  predicate WellFormed(s: Sps) {
    && s.chroma.format <= 3
    && (s.chroma.scaling.Some? ==>
          ListsFit(s.chroma.scaling.value, 0, if s.chroma.format != 3 then 8 else 12))
    && (s.poc.Cycle? ==> |s.poc.offsets| <= 255)
    && |PutBody(s)| % 8 == 0
  }

  /** The NAL unit: four plain bytes and the packed body ... */
  function Raw(s: Sps): seq<Byte>
    requires |PutBody(s)| % 8 == 0
  {
    [s.header, s.profile, s.constraints, s.level] + Pack(PutBody(s))
  }

  /** ... with emulation prevention. */
  function Nal(s: Sps): seq<Byte>
    requires |PutBody(s)| % 8 == 0
  {
    Emulation.Insert(Raw(s), 0)
  }

  // ---------------------------------------------------------------- the picture size

  function CropOf(s: Sps): Crop {
    if s.crop.Some? then s.crop.value else Crop(0, 0, 0, 0)
  }

  function ChromaArrayType(s: Sps): nat {
    if s.profile !in STANDARD_HIGH then 1
    else if s.chroma.format == 3 && s.chroma.separatePlanes == 1 then 0
    else s.chroma.format
  }

  /** SubWidthC of table 6-1, or 1 for luma only. */
  function CropUnitX(s: Sps): int {
    if ChromaArrayType(s) in {1, 2} then 2 else 1
  }

  function CropUnitY(s: Sps): int {
    (if ChromaArrayType(s) == 1 then 2 else 1) * (2 - s.frameMbsOnly)
  }

  function PictureWidth(s: Sps): int {
    16 * (s.width + 1) - CropUnitX(s) * (CropOf(s).left + CropOf(s).right)
  }

  function PictureHeight(s: Sps): int {
    (2 - s.frameMbsOnly) * 16 * (s.height + 1) - CropUnitY(s) * (CropOf(s).top + CropOf(s).bottom)
  }

  // ---------------------------------------------------------------- reading what was written

  lemma SkipPutUE(v: nat, rest: seq<Bit>)
    ensures SkipUE(PutUE(v, rest)) == Some(rest)
  {
    hide TakeUE, PutUE;
    UERoundTrip(v, rest);
  }

  lemma {:induction false} SkipPutSEs(vs: seq<int>, rest: seq<Bit>)
    ensures SkipUEs(PutSEs(vs, rest), |vs|) == Some(rest)
  {
    hide SkipUE, PutUE;
    if vs == [] {
    } else {
      SkipPutUE(CodeNumber(vs[0]), PutSEs(vs[1..], rest));
      SkipPutSEs(vs[1..], rest);
    }
  }

  lemma {:induction false} SkipPutList(vs: seq<int>, left: nat, last: int, next: int, rest: seq<Bit>)
    requires ListFits(vs, left, last, next) && 0 <= last < 256
    ensures SkipScalingList(PutSEs(vs, rest), left, last, next) == Some(rest)
    decreases left
  {
    hide TakeSE, PutSE;
    if left == 0 {
    } else if next == 0 {
      SkipPutList(vs, left - 1, last, next, rest);
    } else {
      SERoundTrip(vs[0], PutSEs(vs[1..], rest));
      var n := NextScale(last, vs[0]);
      assert n == (last + vs[0] + 256) % 256;
      SkipPutList(vs[1..], left - 1, if n != 0 then n else last, n, rest);
    }
  }

  lemma DropHead(b: Bit, rest: seq<Bit>)
    ensures NextBit([b] + rest) == b && Drop([b] + rest, 1) == rest
  {
  }

  lemma {:induction false} SkipPutLists(ls: seq<Option<seq<int>>>, i: nat, limit: nat, rest: seq<Bit>)
    requires i <= limit && ListsFit(ls, i, limit)
    ensures SkipScalingLists(PutLists(ls, rest), i, limit) == Some(rest)
    decreases limit - i
  {
    hide SkipScalingList, PutSEs, ListFits, NextBit, Drop;
    if i == limit {
    } else {
      SkipPutLists(ls[1..], i + 1, limit, rest);
      var after := PutLists(ls[1..], rest);
      if ls[0].None? {
        DropHead(0, after);
      } else {
        DropHead(1, PutSEs(ls[0].value, after));
        SkipPutList(ls[0].value, if i >= 6 then 64 else 16, 8, 8, after);
      }
    }
  }

  lemma SkipTwo(a: nat, b: nat, rest: seq<Bit>)
    ensures SkipUEs(PutUE(a, PutUE(b, rest)), 2) == Some(rest)
  {
    hide SkipUE, PutUE;
    SkipPutUE(a, PutUE(b, rest));
    SkipPutUE(b, rest);
    assert SkipUEs(PutUE(b, rest), 1) == SkipUEs(rest, 0);
  }

  lemma Small(v: nat)
    requires v < 0x1_0000
    ensures Wrap(v) == v
  {
  }

  lemma SkipPutChroma(c: Chroma, rest: seq<Bit>)
    requires c.format <= 3
    requires c.scaling.Some? ==> ListsFit(c.scaling.value, 0, if c.format != 3 then 8 else 12)
    ensures SkipChroma(PutChroma(c, rest)) == Some(rest)
  {
    hide TakeUE, PutUE, SkipUEs, SkipScalingLists, PutLists, ListsFit, NextBit, Drop, Wrap;
    var lists := if c.scaling.None? then [0] + rest else [1] + PutLists(c.scaling.value, rest);
    var depths := PutUE(c.lumaDepth, PutUE(c.chromaDepth, [c.bypass] + lists));
    var after := if c.format == 3 then [c.separatePlanes] + depths else depths;
    UERoundTrip(c.format, after);
    Small(c.format);
    DropHead(c.separatePlanes, depths);
    SkipTwo(c.lumaDepth, c.chromaDepth, [c.bypass] + lists);
    DropHead(c.bypass, lists);
    if c.scaling.None? {
      DropHead(0, rest);
    } else {
      DropHead(1, PutLists(c.scaling.value, rest));
      SkipPutLists(c.scaling.value, 0, if c.format != 3 then 8 else 12, rest);
    }
  }

  lemma SkipPutPicOrderCnt(p: PicOrderCnt, rest: seq<Bit>)
    requires p.Cycle? ==> |p.offsets| <= 255
    ensures SkipPicOrderCnt(PutPicOrderCnt(p, rest)) == Some(rest)
  {
    hide TakeUE, PutUE, SkipUE, SkipUEs, NextBit, Drop, Wrap;
    Small(0);
    Small(1);
    Small(2);
    match p
    case Lsb(n) =>
      UERoundTrip(0, PutUE(n, rest));
      SkipPutUE(n, rest);
    case Cycle(z, a, b, vs) =>
      var r3 := PutSEs(vs, rest);
      var r2 := PutUE(|vs|, r3);
      var r1 := PutSE(a, PutSE(b, r2));
      UERoundTrip(1, [z] + r1);
      DropHead(z, r1);
      SkipTwo(CodeNumber(a), CodeNumber(b), r2);
      UERoundTrip(|vs|, r3);
      Small(|vs|);
      SkipPutSEs(vs, rest);
    case OutputOrder =>
      UERoundTrip(2, rest);
  }

  function GeometryOf(s: Sps): Geometry {
    var c := CropOf(s);
    Geometry(Wrap(s.width), Wrap(s.height), s.frameMbsOnly,
             Wrap(c.left), Wrap(c.right), Wrap(c.top), Wrap(c.bottom))
  }

  lemma TakePutGeometry(s: Sps)
    ensures TakeGeometry(PutGeometry(s)) == Some(GeometryOf(s))
  {
    var tail := [s.direct8x8] + PutCrop(s.crop, [s.vui] + s.tail);
    var flags := if s.frameMbsOnly == 0 then [0, s.mbAdaptive] + tail else [1] + tail;
    assert Drop(flags, if s.frameMbsOnly == 0 then 2 else 1) == tail;
    assert NextBit(flags) == s.frameMbsOnly;
    hide TakeUE, PutUE, NextBit, Drop, Wrap;
    UERoundTrip(s.width, PutUE(s.height, flags));
    UERoundTrip(s.height, flags);
    var end := [s.vui] + s.tail;
    DropHead(s.direct8x8, PutCrop(s.crop, end));
    if s.crop.None? {
      DropHead(0, end);
      Small(0);
    } else {
      var c := s.crop.value;
      var r3 := PutUE(c.bottom, end);
      var r2 := PutUE(c.top, r3);
      var r1 := PutUE(c.right, r2);
      DropHead(1, PutUE(c.left, r1));
      UERoundTrip(c.left, r1);
      UERoundTrip(c.right, r2);
      UERoundTrip(c.top, r3);
      UERoundTrip(c.bottom, end);
    }
  }

  lemma SkipPutBeforeGeometry(s: Sps)
    requires WellFormed(s)
    requires s.profile in STANDARD_HIGH <==> s.profile in HIGH_PROFILES
    ensures BeforeGeometry(s.profile, PutBody(s)) == Some(PutGeometry(s))
  {
    hide SkipUE, PutUE, SkipChroma, PutChroma, SkipPicOrderCnt, PutPicOrderCnt, PutGeometry, Drop, ListsFit;
    var r4 := [s.gaps] + PutGeometry(s);
    var r3 := PutUE(s.refFrames, r4);
    var r2 := PutPicOrderCnt(s.poc, r3);
    var r1 := PutUE(s.log2MaxFrameNum, r2);
    var r0 := if s.profile in STANDARD_HIGH then PutChroma(s.chroma, r1) else r1;
    SkipPutUE(s.id, r0);
    if s.profile in STANDARD_HIGH {
      SkipPutChroma(s.chroma, r1);
    }
    SkipPutUE(s.log2MaxFrameNum, r2);
    SkipPutPicOrderCnt(s.poc, r3);
    SkipPutUE(s.refFrames, r4);
    DropHead(s.gaps, PutGeometry(s));
  }

  /** Emulation prevention and packing are undone before the walk starts. */
  lemma ParseUnwraps(s: Sps)
    requires |PutBody(s)| % 8 == 0
    ensures Parse(Nal(s)) == ParseBody(s.profile, PutBody(s))
  {
    hide PutBody, ParseBody, Emulation.Strip, Emulation.Insert, Bits, Pack;
    var head := [s.header, s.profile, s.constraints, s.level];
    var data := head + Pack(PutBody(s));
    Emulation.StripInsert(data);
    assert data[4..] == Pack(PutBody(s));
    BitsOfPack(PutBody(s));
    BodyNotEmpty(s);
  }

  lemma BodyNotEmpty(s: Sps)
    ensures PutBody(s) != []
  {
    hide PutGeometry, PutPicOrderCnt, PutChroma;
    assert forall v: nat, r :: PutUE(v, r) != [];
  }

  // ---------------------------------------------------------------- the size that comes out

  lemma Congruent(a: int, b: int, k: int)
    requires a == b + 0x1_0000 * k
    ensures U16(a) == U16(b)
  {
    var q := b / 0x1_0000;
    assert a == 0x1_0000 * (q + k) + U16(b);
  }

  lemma WrapU16(a: int)
    ensures U16(Wrap(a)) == U16(a)
  {
    var q := a / UINT64;
    assert a == Wrap(a) + 0x1_0000 * (0x1_0000_0000_0000 * q);
    Congruent(a, Wrap(a), 0x1_0000_0000_0000 * q);
  }

  lemma U16Scaled(a: int, b: int, m: int)
    requires U16(a) == U16(b)
    ensures U16(m * a) == U16(m * b)
  {
    var k := a / 0x1_0000 - b / 0x1_0000;
    assert a == b + 0x1_0000 * k;
    assert m * a == m * b + 0x1_0000 * (m * k);
    Congruent(m * a, m * b, m * k);
  }

  lemma U16Sum(a: int, b: int, c: int, d: int)
    requires U16(a) == U16(b) && U16(c) == U16(d)
    ensures U16(a + c) == U16(b + d) && U16(a - c) == U16(b - d)
  {
    var k, l := a / 0x1_0000 - b / 0x1_0000, c / 0x1_0000 - d / 0x1_0000;
    assert a == b + 0x1_0000 * k && c == d + 0x1_0000 * l;
    Congruent(a + c, b + d, k + l);
    Congruent(a - c, b - d, k - l);
  }

  lemma U16Once(a: int)
    ensures U16(U16(a)) == U16(a)
  {
  }

  /** 16 * (n + 1), as the walk computes it from a wrapped `n`. */
  lemma MacroblocksU16(n: nat)
    ensures U16(Wrap(Wrap(Wrap(n) + 1) * 16)) == U16(16 * (n + 1))
  {
    hide U16, Wrap;
    WrapU16(Wrap(Wrap(n) + 1) * 16);
    WrapU16(Wrap(n) + 1);
    WrapU16(n);
    U16Sum(Wrap(n), n, 1, 1);
    U16Scaled(Wrap(Wrap(n) + 1), n + 1, 16);
  }

  lemma CropU16(a: nat, b: nat)
    ensures U16(Wrap(Wrap(Wrap(a) + Wrap(b)) * 2)) == U16(2 * (a + b))
  {
    hide U16, Wrap;
    WrapU16(Wrap(Wrap(a) + Wrap(b)) * 2);
    WrapU16(Wrap(a) + Wrap(b));
    WrapU16(a);
    WrapU16(b);
    U16Sum(Wrap(a), a, Wrap(b), b);
    U16Scaled(Wrap(Wrap(a) + Wrap(b)), a + b, 2);
  }

  function CodedWidth(s: Sps): int {
    16 * (s.width + 1) - 2 * (CropOf(s).left + CropOf(s).right)
  }

  function CodedHeight(s: Sps): int {
    (2 - s.frameMbsOnly) * (16 * (s.height + 1)) - 2 * (CropOf(s).top + CropOf(s).bottom)
  }

  lemma SizeOfGeometry(s: Sps)
    ensures Size(GeometryOf(s)) == (U16(CodedWidth(s)), U16(CodedHeight(s)))
  {
    hide U16, Wrap;
    var c := CropOf(s);
    MacroblocksU16(s.width);
    MacroblocksU16(s.height);
    CropU16(c.left, c.right);
    CropU16(c.top, c.bottom);
    var w, h := 16 * (s.width + 1), 16 * (s.height + 1);
    U16Once(w);
    U16Once(2 * (c.left + c.right));
    U16Sum(U16(w), w, U16(2 * (c.left + c.right)), 2 * (c.left + c.right));
    U16Once(h);
    U16Scaled(U16(h), h, 2);
    U16Once(2 * h);
    U16Once(2 * (c.top + c.bottom));
    var h' := if s.frameMbsOnly == 0 then U16(U16(h) * 2) else U16(h);
    U16Sum(h', (2 - s.frameMbsOnly) * h, U16(2 * (c.top + c.bottom)), 2 * (c.top + c.bottom));
  }

  /** On every parameter set of an agreed profile the walk ends with the coded size. */
  lemma {:induction false} ParsePrinted(s: Sps)
    requires WellFormed(s)
    requires s.profile in STANDARD_HIGH <==> s.profile in HIGH_PROFILES
    ensures Parse(Nal(s)) == Some((U16(CodedWidth(s)), U16(CodedHeight(s))))
  {
    hide PutBody, BeforeGeometry, TakeGeometry, PutGeometry, Size, GeometryOf, Nal, Parse;
    ParseUnwraps(s);
    SkipPutBeforeGeometry(s);
    TakePutGeometry(s);
    SizeOfGeometry(s);
  }

  ghost predicate ReadsRight(s: Sps)
    requires |PutBody(s)| % 8 == 0
  {
    var size := Parse(Nal(s));
    size.Some? && size.value.0 == PictureWidth(s) && size.value.1 == PictureHeight(s)
  }

  lemma FitsU16(coded: int, size: int, diff: int)
    requires coded == size + diff
    ensures U16(coded) == size <==> 0 <= size < 0x1_0000 && diff % 0x1_0000 == 0
  {
    if 0 <= size < 0x1_0000 && U16(coded) == size {
      assert coded == 0x1_0000 * (coded / 0x1_0000) + size;
    }
    if 0 <= size < 0x1_0000 && diff % 0x1_0000 == 0 {
      Congruent(coded, size, diff / 0x1_0000);
    }
  }

  /**
    The walk gives the size of section 7.4.2.1.1 exactly when that size fits 16 bits and
    the fixed crop units of 2 make no difference: no cropping along an axis, or a crop
    unit of 2 there (4:2:0 or 4:2:2 across; 4:2:0 frames, or other fields, down).
   */
  lemma ParseExact(s: Sps)
    requires WellFormed(s)
    requires s.profile in STANDARD_HIGH <==> s.profile in HIGH_PROFILES
    ensures ReadsRight(s) <==>
            && 0 <= PictureWidth(s) < 0x1_0000
            && 0 <= PictureHeight(s) < 0x1_0000
            && (CropUnitX(s) - 2) * (CropOf(s).left + CropOf(s).right) % 0x1_0000 == 0
            && (CropUnitY(s) - 2) * (CropOf(s).top + CropOf(s).bottom) % 0x1_0000 == 0
  {
    hide PutBody, Nal, Parse, U16, ListsFit, CropUnitX, CropUnitY, CropOf;
    ParsePrinted(s);
    var c := CropOf(s);
    var dx := (CropUnitX(s) - 2) * (c.left + c.right);
    var dy := (CropUnitY(s) - 2) * (c.top + c.bottom);
    FitsU16(CodedWidth(s), PictureWidth(s), dx);
    FitsU16(CodedHeight(s), PictureHeight(s), dy);
  }

  // ---------------------------------------------------------------- which profiles agree

  /** Every uncropped picture of the profile that fits 16 bits is read right. */
  ghost predicate ProfileRead(p: Byte) {
    forall s :: WellFormed(s) && s.profile == p && s.crop.None?
                && PictureWidth(s) < 0x1_0000 && PictureHeight(s) < 0x1_0000
                ==> ReadsRight(s)
  }

  /** A 16 by 16 picture with chroma fields ... */
  function WithChroma(p: Byte): Sps {
    Sps(0x67, p, 0, 30, 0, Chroma(1, 0, 0, 0, 0, None), 0, OutputOrder, 0, 0, 0, 0, 1, 0, 0, None, 0, [1, 0, 0, 0])
  }

  /** ... and a 16 by 48 picture without them. */
  function WithoutChroma(p: Byte): Sps {
    Sps(0x67, p, 0, 30, 0, Chroma(1, 0, 0, 0, 0, None), 1, Lsb(0), 4, 1, 0, 2, 1, 0, 0, None, 0, [1, 0, 0, 0])
  }

  lemma PutSmall(rest: seq<Bit>)
    ensures PutUE(0, rest) == [1] + rest
    ensures PutUE(1, rest) == [0, 1, 0] + rest
    ensures PutUE(2, rest) == [0, 1, 1] + rest
    ensures PutUE(4, rest) == [0, 0, 1, 0, 1] + rest
  {
    assert Log2(1) == 0 && Log2(2) == 1 && Log2(3) == 1 && Log2(5) == 2;
    assert Pow2(0) == 1 && Pow2(1) == 2 && Pow2(2) == 4;
    assert Fixed(0, 0, rest) == rest;
    assert Fixed(0, 1, rest) == [0] + rest;
    assert Fixed(1, 1, rest) == [1] + rest;
    assert Fixed(1, 2, rest) == [0] + ([1] + rest);
    assert Zeros(0, [1] + rest) == [1] + rest;
    assert Zeros(1, [1] + ([0] + rest)) == [0] + ([1] + ([0] + rest));
    assert Zeros(1, [1] + ([1] + rest)) == [0] + ([1] + ([1] + rest));
    var tail := [1] + ([0] + ([1] + rest));
    assert Zeros(2, tail) == [0] + Zeros(1, tail);
    assert Zeros(1, tail) == [0] + tail;
  }

  const TWIN: seq<Bit> := [1, 0, 1, 0, 1, 1, 0, 0, 1, 0, 1, 1, 1, 0, 1, 1, 1, 0, 0, 0, 1, 0, 0, 0]

  lemma TwinGeometry(s: Sps)
    requires s.width == 0 && s.height in {0, 2} && s.frameMbsOnly == 1
    requires s.direct8x8 == 0 && s.crop.None? && s.vui == 0 && s.tail == [1, 0, 0, 0]
    ensures PutGeometry(s) == (if s.height == 0 then [1, 1] else [1, 0, 1, 1]) + [1, 0, 0, 0, 1, 0, 0, 0]
  {
    hide PutUE;
    var flags := [1] + ([s.direct8x8] + ([0] + ([s.vui] + s.tail)));
    assert flags == [1, 0, 0, 0, 1, 0, 0, 0];
    PutSmall(flags);
    PutSmall(PutUE(s.height, flags));
  }

  lemma TwinChroma(c: Chroma, body: seq<Bit>)
    requires c == Chroma(1, 0, 0, 0, 0, None)
    ensures PutChroma(c, body) == [0, 1, 0, 1, 1, 0, 0] + body
  {
    hide PutUE;
    var flags := [c.bypass] + ([0] + body);
    assert flags == [0, 0] + body;
    PutSmall(flags);
    PutSmall(PutUE(0, flags));
    PutSmall(PutUE(0, PutUE(0, flags)));
  }

  lemma TwinWith(p: Byte)
    requires p in STANDARD_HIGH
    ensures PutBody(WithChroma(p)) == TWIN
  {
    hide PutUE, PutGeometry, PutChroma;
    var s := WithChroma(p);
    TwinGeometry(s);
    PutSmall([s.gaps] + PutGeometry(s));
    var r := PutUE(0, [s.gaps] + PutGeometry(s));
    PutSmall(r);
    var r1 := PutPicOrderCnt(s.poc, r);
    assert r1 == [0, 1, 1] + r;
    PutSmall(r1);
    var body := PutUE(0, r1);
    TwinChroma(s.chroma, body);
    PutSmall(PutChroma(s.chroma, body));
  }

  lemma TwinWithout(p: Byte)
    requires p !in STANDARD_HIGH
    ensures PutBody(WithoutChroma(p)) == TWIN
  {
    hide PutUE, PutGeometry, PutChroma;
    var s := WithoutChroma(p);
    TwinGeometry(s);
    PutSmall([s.gaps] + PutGeometry(s));
    var r := PutUE(4, [s.gaps] + PutGeometry(s));
    PutSmall(r);
    PutSmall(PutUE(0, r));
    var r1 := PutPicOrderCnt(s.poc, r);
    assert r1 == [1, 1] + r;
    PutSmall(r1);
    PutSmall(PutUE(1, r1));
  }

  lemma SameWalk(p: Byte, q: Byte, r: seq<Bit>)
    requires p in HIGH_PROFILES <==> q in HIGH_PROFILES
    ensures ParseBody(p, r) == ParseBody(q, r)
  {
    hide SkipUE, SkipChroma, SkipPicOrderCnt, TakeGeometry, Size;
  }

  lemma TwinSizes(p: Byte)
    ensures PictureWidth(WithChroma(p)) == 16 && PictureHeight(WithChroma(p)) == 16
    ensures PictureWidth(WithoutChroma(p)) == 16 && PictureHeight(WithoutChroma(p)) == 48
    ensures CodedWidth(WithChroma(p)) == 16 && CodedHeight(WithChroma(p)) == 16
    ensures CodedWidth(WithoutChroma(p)) == 16 && CodedHeight(WithoutChroma(p)) == 48
  {
  }

  /** The bits of the two pictures are the same; only the profile tells them apart. */
  lemma Misread(p: Byte)
    requires p in {134, 135, 144}
    ensures !ProfileRead(p)
  {
    hide PutBody, Nal, Parse, ParseBody, PictureWidth, PictureHeight, CodedWidth, CodedHeight;
    var s := if p == 144 then WithoutChroma(p) else WithChroma(p);
    var q := if p == 144 then WithChroma(100) else WithoutChroma(66);
    assert PutBody(s) == TWIN && PutBody(q) == TWIN by {
      if p == 144 {
        TwinWithout(144);
        TwinWith(100);
      } else {
        TwinWith(p);
        TwinWithout(66);
      }
    }
    assert |TWIN| % 8 == 0;
    ParseUnwraps(s);
    ParseUnwraps(q);
    SameWalk(p, q.profile, TWIN);
    ParsePrinted(q);
    TwinSizes(p);
    TwinSizes(q.profile);
    assert WellFormed(s) && s.profile == p && s.crop.None?;
    assert !ReadsRight(s);
  }

  /** The source's profile list is right for every profile but 134, 135 and 144. */
  lemma {:induction false} ProfilesRead(p: Byte)
    ensures ProfileRead(p) <==> p !in {134, 135, 144}
  {
    hide PutBody, ReadsRight, U16, ListsFit;
    if p in {134, 135, 144} {
      Misread(p);
    } else {
      forall s | WellFormed(s) && s.profile == p && s.crop.None?
                 && PictureWidth(s) < 0x1_0000 && PictureHeight(s) < 0x1_0000
        ensures ReadsRight(s)
      {
        ParseExact(s);
      }
    }
  }

  // ---------------------------------------------------------------- extraction from a frame

  lemma NalEnds(s: Sps)
    requires |PutBody(s)| % 8 == 0
    ensures Nal(s) != [] && Nal(s)[0] == s.header && AnnexB.CodeFree(Nal(s))
    ensures Nal(s)[|Nal(s)| - 1] == Raw(s)[|Raw(s)| - 1]
  {
    hide PutBody;
    Emulation.InsertCodeFree(Raw(s));
    Emulation.InsertLast(Raw(s), 0);
  }

  /**
    End to end: a parameter set sent as the first unit of a frame is what extraction finds
    there, whatever follows it, exactly if nothing follows, or a 4-byte start code, or a
    3-byte one and the last byte of the parameter set is not 00.
   */
  lemma {:induction false} NalTravels(s: Sps, long: bool, data: seq<Byte>)
    requires |PutBody(s)| % 8 == 0 && NalType(s.header) == NAL_SPS
    ensures AccessUnit.Sps(Code(long) + (Nal(s) + data)) == Some(Nal(s)) <==>
            data == [] || CodeLength(data) == 4 || (CodeLength(data) == 3 && Raw(s)[|Raw(s)| - 1] != 0)
  {
    hide PutBody, Pieces, NextCode, CodeLength, Units, Nal, Raw, NonEmpty, Bodies, Lead, FromCode, Code;
    var nal := Nal(s);
    NalEnds(s);
    LeadStopsAt(nal, data);
    LeadBegins(nal, data);
    var d := nal + data;
    UnitsHead(long, Lead(d), FromCode(d));
    LeadIsUnit(nal, data);
  }

  lemma LeadIsUnit(unit: Unit, data: seq<Byte>)
    ensures Lead(unit + data) == unit <==> NextCode(unit + data) == |unit|
  {
    hide NextCode;
  }

  /** The last byte is not 00 exactly if the last eight bits hold a 1, as the stop bit of a proper RBSP is. */
  lemma {:induction false} LastByte(r: seq<Bit>)
    requires r != [] && |r| % 8 == 0
    ensures Pack(r) != [] && (Pack(r)[|Pack(r)| - 1] != 0 <==> 1 in r[|r| - 8..])
  {
    if |r| == 8 {
      assert r[..8] == r && r[8..] == [];
      assert Pack(r[8..]) == [];
    } else {
      LastByte(r[8..]);
      assert r[8..][|r| - 16..] == r[|r| - 8..];
    }
  }

  /** A parameter set with a stop bit in its last byte is found behind any start code and before any other. */
  lemma {:induction false} ProperNalTravels(s: Sps, long: bool, data: seq<Byte>)
    requires |PutBody(s)| % 8 == 0 && NalType(s.header) == NAL_SPS
    requires 1 in PutBody(s)[|PutBody(s)| - 8..]
    ensures AccessUnit.Sps(Code(long) + (Nal(s) + data)) == Some(Nal(s)) <==> data == [] || CodeLength(data) > 0
  {
    hide PutBody, Pieces, NextCode, CodeLength, Units, Nal, NonEmpty, Bodies, Code, Pack;
    NalTravels(s, long, data);
    LastByte(PutBody(s));
  }
}
