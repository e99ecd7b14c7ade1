/**
  What internal/stream/h264.go reads out of one Annex B access unit: the length-prefixed
  form for the muxer, the parameter sets, and whether it is a key frame.
 */
module AccessUnit {
  import opened Common
  import opened AnnexB

  const UINT32: nat := 0x1_0000_0000

  // ---------------------------------------------------------------- length prefixes

  /** Big-endian `uint32(n)`: the length is truncated to 32 bits. */
  function Uint32Bytes(n: nat): (b: seq<Byte>)
    ensures |b| == 4
  {
    [n / 0x100_0000 % 0x100, n / 0x1_0000 % 0x100, n / 0x100 % 0x100, n % 0x100]
  }

  function Uint32(b: seq<Byte>): nat
    requires |b| == 4
  {
    (b[0] as int) * 0x100_0000 + (b[1] as int) * 0x1_0000 + (b[2] as int) * 0x100 + b[3]
  }

  lemma Uint32RoundTrip(n: nat)
    ensures Uint32(Uint32Bytes(n)) == n % UINT32
  {
    var a, b, c := n / 0x100, n / 0x1_0000, n / 0x100_0000;
    assert b == a / 0x100 && c == b / 0x100;
    assert n % UINT32 == n - UINT32 * (c / 0x100);
  }

  function AvccWrap(nal: Unit): seq<Byte> {
    Uint32Bytes(|nal|) + nal
  }

  function WrapAll(us: seq<Unit>): seq<Byte> {
    if us == [] then [] else AvccWrap(us[0]) + WrapAll(us[1..])
  }

  /** A reader of the length-prefixed form, written from clause 5 of ISO/IEC 14496-15. */
  function AvccUnits(b: seq<Byte>): Option<seq<Unit>>
    decreases |b|
  {
    if b == [] then Some([])
    else if |b| < 4 || |b| < 4 + Uint32(b[..4]) then None
    else
      var n := Uint32(b[..4]);
      var rest :- AvccUnits(b[4 + n..]);
      Some([b[4..4 + n]] + rest)
  }

  /** The length prefixes read back exactly when no length overflows 32 bits. */
  lemma {:induction false} AvccRoundTrip(us: seq<Unit>)
    ensures AvccUnits(WrapAll(us)) == Some(us) <==> forall k :: 0 <= k < |us| ==> |us[k]| < UINT32
  {
    if us == [] {
    } else {
      var b := WrapAll(us);
      var n := |us[0]| % UINT32;
      assert b[..4] == Uint32Bytes(|us[0]|);
      Uint32RoundTrip(|us[0]|);
      assert n <= |us[0]|;
      assert |b[4..4 + n]| == n;
      if |us[0]| < UINT32 {
        assert b[4..4 + n] == us[0];
        assert b[4 + n..] == WrapAll(us[1..]);
        AvccRoundTrip(us[1..]);
        assert us == [us[0]] + us[1..];
      } else {
        assert AvccUnits(b).Some? ==> |AvccUnits(b).value[0]| == n;
      }
    }
  }

  /** SPS, PPS, SEI and AUD units belong in the init segment and are dropped. */
  predicate Stripped(u: Unit)
    requires u != []
  {
    NalType(u[0]) in {NAL_SPS, NAL_PPS, NAL_SEI, NAL_AUD}
  }

  function Kept(us: seq<Unit>): seq<Unit> {
    if us == [] then []
    else (if us[0] == [] || Stripped(us[0]) then [] else [us[0]]) + Kept(us[1..])
  }

  /** Exactly the non-empty units of other types are kept. */
  lemma {:induction false} KeptExact(us: seq<Unit>, u: Unit)
    ensures u in Kept(us) <==> u in us && u != [] && u[0] % 32 !in {7, 8, 6, 9}
  {
    if us == [] {
    } else {
      KeptExact(us[1..], u);
      assert u in us <==> u == us[0] || u in us[1..];
    }
  }

  lemma {:induction false} WrapAppend(us: seq<Unit>, u: Unit)
    ensures WrapAll(us + [u]) == WrapAll(us) + AvccWrap(u)
  {
    if us == [] {
      assert us + [u] == [u];
    } else {
      assert (us + [u])[1..] == us[1..] + [u];
      WrapAppend(us[1..], u);
    }
  }

  lemma {:induction false} KeptAppend(us: seq<Unit>, u: Unit)
    ensures Kept(us + [u]) == Kept(us) + (if u == [] || Stripped(u) then [] else [u])
  {
    if us == [] {
      assert us + [u] == [u];
    } else {
      assert (us + [u])[1..] == us[1..] + [u];
      KeptAppend(us[1..], u);
    }
  }

  lemma KeptNone()
    ensures WrapAll(Kept([])) == []
  {
  }

  /** `frameToAVCC`. */
  method FrameToAVCC(annexB: seq<Byte>) returns (out: seq<Byte>)
    ensures out == WrapAll(Kept(Units(annexB)))
    ensures AvccUnits(out) == Some(Kept(Units(annexB))) <==>
            forall u :: u in Units(annexB) && u != [] && !Stripped(u) ==> |u| < UINT32
  {
    hide Units, Kept, WrapAll, AvccWrap, AvccUnits;
    var nals := AnnexBSplit(annexB);
    KeptNone();
    out := [];
    for i := 0 to |nals|
      invariant out == WrapAll(Kept(nals[..i]))
    {
      var nal := nals[i];
      assert nals[..i + 1] == nals[..i] + [nal];
      KeptAppend(nals[..i], nal);
      if nal != [] && !Stripped(nal) {
        WrapAppend(Kept(nals[..i]), nal);
        out := out + AvccWrap(nal);
      } else {
        assert Kept(nals[..i + 1]) == Kept(nals[..i]);
      }
    }
    assert nals[..|nals|] == nals;
    ReadsBack(nals);
  }

  /** A reader of the length-prefixed form gets the kept units back, exactly if no kept length overflows. */
  lemma ReadsBack(us: seq<Unit>)
    ensures AvccUnits(WrapAll(Kept(us))) == Some(Kept(us)) <==>
            forall u :: u in us && u != [] && !Stripped(u) ==> |u| < UINT32
  {
    hide Kept, WrapAll, AvccUnits;
    var kept := Kept(us);
    AvccRoundTrip(kept);
    forall u: Unit
      ensures u in kept <==> u in us && u != [] && !Stripped(u)
    {
      KeptExact(us, u);
    }
    assert (forall k :: 0 <= k < |kept| ==> |kept[k]| < UINT32) <==> forall u :: u in kept ==> |u| < UINT32;
  }

  /**
    From one stream format to the other: the units of a joined frame that are not dropped
    are what a reader of the converted frame gets, in order.
   */
  lemma FrameRoundTrip(ps: seq<Piece>)
    requires Separable(ps) && forall k :: 0 <= k < |ps| ==> ps[k].body != []
    requires forall u :: u in Bodies(ps) ==> |u| < UINT32
    ensures AvccUnits(WrapAll(Kept(Units(Join(ps))))) == Some(Kept(Bodies(ps)))
  {
    hide Units, Kept, WrapAll, AvccUnits, Join, Bodies;
    SplitJoin(ps);
    ReadsBack(Bodies(ps));
  }

  // ---------------------------------------------------------------- parameter sets

  /** The first unit of type `t`. */
  function FirstOfType(us: seq<Unit>, t: Byte): (r: Option<Unit>)
    ensures r.None? <==> forall u :: u in us && u != [] ==> NalType(u[0]) != t
    ensures r.Some? ==> r.value in us && r.value != [] && NalType(r.value[0]) == t
  {
    if us == [] then None
    else if us[0] != [] && NalType(us[0][0]) == t then Some(us[0])
    else FirstOfType(us[1..], t)
  }

  lemma {:induction false} FirstOfTypeAppend(us: seq<Unit>, vs: seq<Unit>, t: Byte)
    ensures FirstOfType(us + vs, t)
            == if FirstOfType(us, t).Some? then FirstOfType(us, t) else FirstOfType(vs, t)
  {
    if us == [] {
      assert us + vs == vs;
    } else {
      assert (us + vs)[1..] == us[1..] + vs;
      FirstOfTypeAppend(us[1..], vs, t);
    }
  }

  function Sps(frame: seq<Byte>): Option<Unit> {
    FirstOfType(Units(frame), NAL_SPS)
  }

  function Pps(frame: seq<Byte>): Option<Unit> {
    FirstOfType(Units(frame), NAL_PPS)
  }

  lemma NoneFirst(t: Byte)
    ensures FirstOfType([], t) == None
  {
  }

  lemma FirstOfTypeSnoc(us: seq<Unit>, u: Unit, t: Byte)
    ensures FirstOfType(us + [u], t) ==
            if FirstOfType(us, t).Some? then FirstOfType(us, t)
            else if u != [] && NalType(u[0]) == t then Some(u) else None
  {
    FirstOfTypeAppend(us, [u], t);
    var none: seq<Unit> := [];
    assert [u] == [u] + none;
  }

  /** `extractSPSPPS`: the first SPS and the first PPS of the buffer. */
  method ExtractSPSPPS(annexB: seq<Byte>) returns (sps: Option<Unit>, pps: Option<Unit>)
    ensures sps == Sps(annexB) && pps == Pps(annexB)
  {
    hide Units, FirstOfType;
    var nals := AnnexBSplit(annexB);
    sps, pps := None, None;
    NoneFirst(NAL_SPS);
    NoneFirst(NAL_PPS);
    for i := 0 to |nals|
      invariant sps == FirstOfType(nals[..i], NAL_SPS)
      invariant pps == FirstOfType(nals[..i], NAL_PPS)
    {
      var nal := nals[i];
      assert nals[..i + 1] == nals[..i] + [nal];
      FirstOfTypeSnoc(nals[..i], nal, NAL_SPS);
      FirstOfTypeSnoc(nals[..i], nal, NAL_PPS);
      if nal != [] {
        if NalType(nal[0]) == NAL_SPS {
          if sps.None? {
            sps := Some(nal);
          }
        } else if NalType(nal[0]) == NAL_PPS {
          if pps.None? {
            pps := Some(nal);
          }
        }
      }
    }
    assert nals[..|nals|] == nals;
  }

  ghost predicate IsKey(frame: seq<Byte>) {
    FirstOfType(Units(frame), NAL_IDR).Some? || Sps(frame).Some? || Pps(frame).Some?
  }

  /** `isKeyFrame`: some unit of the buffer is an IDR slice, an SPS or a PPS. */
  method IsKeyFrame(annexB: seq<Byte>) returns (key: bool)
    ensures key <==> exists u :: u in Units(annexB) && u != [] && u[0] % 32 in {5, 7, 8}
    ensures key <==> IsKey(annexB)
  {
    hide Units;
    var nals := AnnexBSplit(annexB);
    for i := 0 to |nals|
      invariant forall k :: 0 <= k < i && nals[k] != [] ==> NalType(nals[k][0]) !in {NAL_IDR, NAL_SPS, NAL_PPS}
    {
      if nals[i] != [] {
        var t := NalType(nals[i][0]);
        if t == NAL_IDR || t == NAL_SPS || t == NAL_PPS {
          assert nals[i] in Units(annexB);
          return true;
        }
      }
    }
    return false;
  }

  /** The parameter sets of a frame are its first units of types 7 and 8, and are missing only with these. */
  lemma {:induction false} ParameterSetsExact(frame: seq<Byte>)
    ensures var us := Units(frame);
            && FirstIs(us, 7, Sps(frame)) && FirstIs(us, 8, Pps(frame))
  {
    hide Units;
    FirstExact(Units(frame), 7);
    FirstExact(Units(frame), 8);
  }

  /** `r` is the first unit of the type, None exactly if there is none. */
  ghost predicate FirstIs(us: seq<Unit>, t: Byte, r: Option<Unit>) {
    match r
    case Some(u) =>
      exists k :: 0 <= k < |us| && us[k] == u != [] && u[0] % 32 == t
        && forall j :: 0 <= j < k && us[j] != [] ==> us[j][0] % 32 != t
    case None => forall j :: 0 <= j < |us| && us[j] != [] ==> us[j][0] % 32 != t
  }

  lemma {:induction false} FirstExact(us: seq<Unit>, t: Byte)
    ensures FirstIs(us, t, FirstOfType(us, t))
  {
    if us == [] {
    } else if us[0] != [] && us[0][0] % 32 == t {
    } else {
      var r := FirstOfType(us[1..], t);
      FirstExact(us[1..], t);
      if r.Some? {
        var k :| 0 <= k < |us[1..]| && us[1..][k] == r.value
                 && forall j :: 0 <= j < k && us[1..][j] != [] ==> us[1..][j][0] % 32 != t;
        assert us[k + 1] == r.value;
        forall j | 0 <= j < k + 1 && us[j] != []
          ensures us[j][0] % 32 != t
        {
          assert j > 0 ==> us[j] == us[1..][j - 1];
        }
      }
      forall j | 1 <= j < |us|
        ensures us[j] == us[1..][j - 1]
      {
      }
    }
  }
}
