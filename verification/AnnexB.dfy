/**
  Annex B byte streams (Annex B.1 of ITU-T H.264), as internal/stream/h264.go splits them.

  A stream is read as some leading bytes followed by pieces, each a 3- or 4-byte start
  code and a body. `Pieces` is the reference reading; the splitter is proved against it.
 */
module AnnexB {
  import opened Common

  const NAL_IDR: Byte := 5
  const NAL_SEI: Byte := 6
  const NAL_SPS: Byte := 7
  const NAL_PPS: Byte := 8
  const NAL_AUD: Byte := 9

  type Unit = seq<Byte>

  /** One start code (4 bytes when `long`, else 3) and the bytes up to the next one. */
  datatype Piece = Piece(long: bool, body: Unit)

  function NalType(b: Byte): Byte {
    b % 32
  }

  /** Length of the start code at the head of `d`, 0 when there is none. */
  function CodeLength(d: seq<Byte>): (n: nat)
    ensures n == 0 || n == 3 || n == 4
    ensures n <= |d|
  {
    if |d| >= 4 && d[0] == 0 && d[1] == 0 && d[2] == 0 && d[3] == 1 then 4
    else if |d| >= 3 && d[0] == 0 && d[1] == 0 && d[2] == 1 then 3
    else 0
  }

  function Code(long: bool): seq<Byte> {
    if long then [0, 0, 0, 1] else [0, 0, 1]
  }

  /** Offset of the first start code, `|d|` when there is none. */
  function NextCode(d: seq<Byte>): (n: nat)
    ensures n <= |d|
  {
    if d == [] || CodeLength(d) > 0 then 0 else 1 + NextCode(d[1..])
  }

  /** The bytes before the first start code. */
  function Lead(d: seq<Byte>): seq<Byte> {
    d[..NextCode(d)]
  }

  function FromCode(d: seq<Byte>): seq<Byte> {
    d[NextCode(d)..]
  }

  /** The pieces of a stream that starts with a start code (none for any other stream). */
  function Pieces(d: seq<Byte>): seq<Piece>
    decreases |d|
  {
    if CodeLength(d) == 0 then []
    else
      var rest := d[CodeLength(d)..];
      [Piece(CodeLength(d) == 4, Lead(rest))] + Pieces(FromCode(rest))
  }

  function Join(ps: seq<Piece>): seq<Byte> {
    if ps == [] then [] else Code(ps[0].long) + (ps[0].body + Join(ps[1..]))
  }

  function Bodies(ps: seq<Piece>): seq<Unit> {
    if ps == [] then [] else [ps[0].body] + Bodies(ps[1..])
  }

  function NonEmpty(us: seq<Unit>): seq<Unit> {
    if us == [] then []
    else (if us[0] == [] then [] else [us[0]]) + NonEmpty(us[1..])
  }

  /** The result of the splitter, as a function. */
  function Units(d: seq<Byte>): seq<Unit> {
    NonEmpty(Bodies(Pieces(FromCode(d))))
  }

  /** No 00 00 01 anywhere inside `u`. */
  ghost predicate CodeFree(u: Unit) {
    forall k :: 0 <= k && k + 2 < |u| ==> !(u[k] == 0 && u[k + 1] == 0 && u[k + 2] == 1)
  }

  /**
    A list of pieces that reads back as itself: bodies hold no start code, and a body
    that ends in 00 is not followed by a 3-byte code.
   */
  ghost predicate Separable(ps: seq<Piece>) {
    && (forall k :: 0 <= k < |ps| ==> CodeFree(ps[k].body))
    && (forall k :: 0 <= k < |ps| - 1 ==>
          ps[k].body != [] && ps[k].body[|ps[k].body| - 1] == 0 ==> ps[k + 1].long)
  }

  // ---------------------------------------------------------------- the splitter

  lemma FromCodeStep(d: seq<Byte>, i: nat)
    requires i < |d|
    ensures CodeLength(d[i..]) == 0 ==> NextCode(d[i..]) == 1 + NextCode(d[i + 1..])
    ensures CodeLength(d[i..]) > 0 ==> NextCode(d[i..]) == 0
  {
    assert d[i..][1..] == d[i + 1..];
  }

  lemma PiecesStep(d: seq<Byte>, i: nat)
    requires i < |d| && CodeLength(d[i..]) > 0
    ensures var s := i + CodeLength(d[i..]);
            var e := s + NextCode(d[s..]);
            Pieces(d[i..]) == [Piece(CodeLength(d[i..]) == 4, d[s..e])] + Pieces(d[e..])
  {
    hide CodeLength, NextCode, Pieces;
    PiecesUnfold(d[i..]);
    var n := CodeLength(d[i..]);
    var s := i + n;
    assert d[i..][n..] == d[s..];
    var m := NextCode(d[s..]);
    assert d[s..][..m] == d[s..s + m];
    assert d[s..][m..] == d[s + m..];
  }

  /** What is still to be emitted at offset `i` when the current unit began at `start`. */
  function Pending(d: seq<Byte>, started: bool, start: nat, i: nat): seq<Unit>
    requires start <= i <= |d|
  {
    var e := i + NextCode(d[i..]);
    (if started && start < e then [d[start..e]] else []) + NonEmpty(Bodies(Pieces(d[e..])))
  }

  lemma UnitsCons(p: Piece, ps: seq<Piece>)
    ensures NonEmpty(Bodies([p] + ps)) == (if p.body == [] then [] else [p.body]) + NonEmpty(Bodies(ps))
  {
    assert ([p] + ps)[1..] == ps;
    var us := Bodies([p] + ps);
    assert us == [p.body] + Bodies(ps);
    assert us[1..] == Bodies(ps);
  }

  lemma PendingAtCode(d: seq<Byte>, started: bool, start: nat, i: nat)
    requires start <= i < |d| && CodeLength(d[i..]) > 0
    ensures var s := i + CodeLength(d[i..]);
            Pending(d, started, start, i)
            == (if started && start < i then [d[start..i]] else []) + Pending(d, true, s, s)
  {
    hide CodeLength, NextCode, Pieces, NonEmpty, Bodies;
    var s := i + CodeLength(d[i..]);
    var e := s + NextCode(d[s..]);
    var p := Piece(CodeLength(d[i..]) == 4, d[s..e]);
    assert NextCode(d[i..]) == 0 by {
      FromCodeStep(d, i);
    }
    assert Pieces(d[i..]) == [p] + Pieces(d[e..]) by {
      PiecesStep(d, i);
    }
    UnitsCons(p, Pieces(d[e..]));
    assert |p.body| == e - s;
  }

  /** `annexBSplit`: one pass over the bytes, cutting a unit at every start code found. */
  method AnnexBSplit(data: seq<Byte>) returns (units: seq<Unit>)
    ensures units == Units(data)
  {
    hide CodeLength, NextCode, Pieces, NonEmpty, Bodies;
    units := [];
    var n := |data|;
    var started, start := false, 0;
    var i := 0;
    assert data[0..] == data;
    while i < n
      invariant start <= i <= n
      invariant Units(data) == units + Pending(data, started, start, i)
    {
      var skip := CodeLength(data[i..]);
      if skip > 0 {
        assert Pending(data, started, start, i)
            == (if started && start < i then [data[start..i]] else []) + Pending(data, true, i + skip, i + skip) by {
          PendingAtCode(data, started, start, i);
        }
        if started && i > start {
          units := units + [data[start..i]];
        }
        i := i + skip;
        started, start := true, i;
      } else {
        assert Pending(data, started, start, i + 1) == Pending(data, started, start, i) by {
          FromCodeStep(data, i);
        }
        i := i + 1;
      }
    }
    PendingAtEnd(data, started, start);
    if started && start < n {
      units := units + [data[start..]];
    }
  }

  lemma PendingAtEnd(d: seq<Byte>, started: bool, start: nat)
    requires start <= |d|
    ensures Pending(d, started, start, |d|) == if started && start < |d| then [d[start..]] else []
  {
    assert d[|d|..] == [];
    assert d[start..|d|] == d[start..];
  }

  // ---------------------------------------------------------------- reading any bytes

  lemma {:induction false} NextCodeFree(d: seq<Byte>)
    ensures CodeFree(Lead(d))
    ensures FromCode(d) == [] || CodeLength(FromCode(d)) > 0
    ensures Lead(d) != [] && Lead(d)[|Lead(d)| - 1] == 0 ==> CodeLength(FromCode(d)) != 3
    decreases |d|
  {
    if d == [] || CodeLength(d) > 0 {
    } else {
      var t := d[1..];
      NextCodeFree(t);
      LeadStep(d);
      assert |d| >= 3 ==> !(d[0] == 0 && d[1] == 0 && d[2] == 1);
      assert |d| >= 4 ==> !(d[0] == 0 && d[1] == 0 && d[2] == 0 && d[3] == 1);
      CodeFreeCons(d[0], Lead(t), FromCode(t));
    }
  }

  lemma LeadStep(d: seq<Byte>)
    requires d != [] && CodeLength(d) == 0
    ensures Lead(d) == [d[0]] + Lead(d[1..])
    ensures FromCode(d) == FromCode(d[1..])
    ensures d == [d[0]] + (Lead(d[1..]) + FromCode(d[1..]))
  {
  }

  lemma CodeFreeCons(b: Byte, u: Unit, rest: seq<Byte>)
    requires CodeFree(u)
    requires var d := [b] + (u + rest); |d| >= 3 ==> !(d[0] == 0 && d[1] == 0 && d[2] == 1)
    ensures CodeFree([b] + u)
  {
    var v := [b] + u;
    forall k | 0 <= k && k + 2 < |v|
      ensures !(v[k] == 0 && v[k + 1] == 0 && v[k + 2] == 1)
    {
      if k > 0 {
        assert !(u[k - 1] == 0 && u[k - 1 + 1] == 0 && u[k - 1 + 2] == 1);
      } else {
        var d := [b] + (u + rest);
        assert d[0] == v[0] && d[1] == v[1] && d[2] == v[2];
      }
    }
  }

  /**
    On arbitrary bytes: the leading bytes, start codes and bodies rebuild the input, the
    leading bytes hold no start code, and the pieces are separable.
   */
  lemma {:induction false} PiecesRebuild(d: seq<Byte>)
    requires d == [] || CodeLength(d) > 0
    ensures d == Join(Pieces(d))
    ensures Separable(Pieces(d))
    decreases |d|
  {
    if d == [] {
    } else {
      var n := CodeLength(d);
      var rest := d[n..];
      var tail := FromCode(rest);
      var p := Piece(n == 4, Lead(rest));
      PiecesUnfold(d);
      hide CodeLength, NextCode, Pieces, Join;
      NextCodeFree(rest);
      if tail != [] {
        PiecesUnfold(tail);
      }
      PiecesRebuild(tail);
      SeparableCons(p, Pieces(tail));
      JoinCons(p, Pieces(tail));
    }
  }

  lemma PiecesUnfold(d: seq<Byte>)
    requires CodeLength(d) > 0
    ensures var rest := d[CodeLength(d)..];
            && d == Code(CodeLength(d) == 4) + (Lead(rest) + FromCode(rest))
            && Pieces(d) == [Piece(CodeLength(d) == 4, Lead(rest))] + Pieces(FromCode(rest))
  {
    var n := CodeLength(d);
    assert d[..n] == Code(n == 4);
  }

  lemma JoinCons(p: Piece, ps: seq<Piece>)
    ensures Join([p] + ps) == Code(p.long) + (p.body + Join(ps))
  {
    assert ([p] + ps)[1..] == ps;
  }

  lemma SeparableCons(p: Piece, ps: seq<Piece>)
    requires CodeFree(p.body) && Separable(ps)
    requires ps != [] && p.body != [] && p.body[|p.body| - 1] == 0 ==> ps[0].long
    ensures Separable([p] + ps)
  {
    var qs := [p] + ps;
    forall k | 0 <= k < |qs| - 1
      ensures qs[k].body != [] && qs[k].body[|qs[k].body| - 1] == 0 ==> qs[k + 1].long
    {
      if k > 0 {
        assert qs[k] == ps[k - 1] && qs[k + 1] == ps[k - 1 + 1];
      }
    }
  }

  /** Leading bytes, start codes and bodies together are the input again. */
  lemma {:induction false} Rebuild(d: seq<Byte>)
    ensures d == Lead(d) + Join(Pieces(FromCode(d)))
    ensures CodeFree(Lead(d)) && Separable(Pieces(FromCode(d)))
  {
    hide Pieces, Join, NextCode, CodeLength, CodeFree, Separable;
    NextCodeFree(d);
    PiecesRebuild(FromCode(d));
  }

  lemma {:induction false} BodiesAt(ps: seq<Piece>)
    ensures |Bodies(ps)| == |ps|
    ensures forall k :: 0 <= k < |ps| ==> Bodies(ps)[k] == ps[k].body
  {
    if ps == [] {
    } else {
      BodiesAt(ps[1..]);
    }
  }

  lemma {:induction false} NonEmptyFrom(us: seq<Unit>)
    ensures forall u :: u in NonEmpty(us) <==> u in us && u != []
    ensures |NonEmpty(us)| <= |us|
    ensures |NonEmpty(us)| == |us| <==> [] !in us
    ensures [] !in us ==> NonEmpty(us) == us
  {
    if us == [] {
    } else {
      NonEmptyFrom(us[1..]);
      assert us == [us[0]] + us[1..];
    }
  }

  /** Every emitted unit is non-empty and free of start codes. */
  lemma UnitsClean(d: seq<Byte>)
    ensures forall u :: u in Units(d) ==> u != [] && CodeFree(u)
  {
    hide CodeLength, NextCode, Pieces, Bodies, NonEmpty, FromCode;
    Rebuild(d);
    var ps := Pieces(FromCode(d));
    BodiesAt(ps);
    NonEmptyFrom(Bodies(ps));
    forall u | u in Units(d)
      ensures u != [] && CodeFree(u)
    {
      assert u in Bodies(ps);
      var k :| 0 <= k < |Bodies(ps)| && Bodies(ps)[k] == u;
      assert CodeFree(ps[k].body);
    }
  }

  // ---------------------------------------------------------------- joining and splitting

  /** A start code after a code-free body is found exactly at the end of the body. */
  lemma {:induction false} NextCodeAfter(body: Unit, long: bool, rest: seq<Byte>)
    requires CodeFree(body)
    requires body != [] && body[|body| - 1] == 0 ==> long
    ensures NextCode(body + (Code(long) + rest)) == |body|
    decreases |body|
  {
    var d := body + (Code(long) + rest);
    if body == [] {
      assert d == Code(long) + rest;
    } else {
      assert d[1..] == body[1..] + (Code(long) + rest);
      assert CodeLength(d) == 0 by {
        if |body| == 1 {
          assert d[1] == 0 && d[2] == 0;
        } else if |body| == 2 {
          assert d[2] == 0 && d[3] == 0;
        } else {
          assert !(body[0] == 0 && body[1] == 0 && body[2] == 1);
          assert d[0] == body[0] && d[1] == body[1] && d[2] == body[2];
          if |body| == 3 {
            assert d[3] == 0;
          } else {
            assert !(body[1] == 0 && body[2] == 0 && body[3] == 1);
            assert d[3] == body[3];
          }
        }
      }
      forall k | 0 <= k && k + 2 < |body[1..]|
        ensures !(body[1..][k] == 0 && body[1..][k + 1] == 0 && body[1..][k + 2] == 1)
      {
        assert !(body[k + 1] == 0 && body[k + 2] == 0 && body[k + 3] == 1);
      }
      NextCodeAfter(body[1..], long, rest);
    }
  }

  lemma {:induction false} NextCodeNone(body: Unit)
    requires CodeFree(body)
    ensures NextCode(body) == |body|
  {
    if body == [] {
    } else {
      forall k | 0 <= k && k + 2 < |body[1..]|
        ensures !(body[1..][k] == 0 && body[1..][k + 1] == 0 && body[1..][k + 2] == 1)
      {
        assert !(body[k + 1] == 0 && body[k + 2] == 0 && body[k + 3] == 1);
      }
      assert |body| >= 4 ==> !(body[1] == 0 && body[1 + 1] == 0 && body[1 + 2] == 1);
      assert |body| >= 3 ==> !(body[0] == 0 && body[0 + 1] == 0 && body[0 + 2] == 1);
      NextCodeNone(body[1..]);
    }
  }

  /** The first piece of a stream that starts with a code and a body. */
  lemma PiecesHead(long: bool, body: Unit, rest: seq<Byte>)
    requires NextCode(body + rest) == |body|
    ensures Pieces(Code(long) + (body + rest)) == [Piece(long, body)] + Pieces(rest)
  {
    var d := Code(long) + (body + rest);
    assert CodeLength(d) == |Code(long)|;
    assert d[|Code(long)|..] == body + rest;
    assert Lead(body + rest) == body;
    assert FromCode(body + rest) == rest;
  }

  lemma {:induction false} PiecesOfJoin(ps: seq<Piece>)
    requires Separable(ps)
    ensures Pieces(Join(ps)) == ps
  {
    hide Pieces, NextCode, CodeLength, CodeFree, Separable;
    if ps == [] {
      NoPieces();
    } else {
      SeparableTail(ps);
      PiecesOfJoin(ps[1..]);
      BodyEnd(ps);
      PiecesHead(ps[0].long, ps[0].body, Join(ps[1..]));
      assert ps == [ps[0]] + ps[1..];
    }
  }

  lemma NoPieces()
    ensures Pieces(Join([])) == []
  {
  }

  lemma SeparableTail(ps: seq<Piece>)
    requires ps != [] && Separable(ps)
    ensures Separable(ps[1..]) && CodeFree(ps[0].body)
    ensures |ps| > 1 && ps[0].body != [] && ps[0].body[|ps[0].body| - 1] == 0 ==> ps[1].long
  {
    var qs := ps[1..];
    forall k | 0 <= k < |qs| - 1
      ensures qs[k].body != [] && qs[k].body[|qs[k].body| - 1] == 0 ==> qs[k + 1].long
    {
      assert qs[k] == ps[k + 1] && qs[k + 1] == ps[k + 1 + 1];
    }
  }

  /** The first body of separable pieces ends where the next start code is found. */
  lemma BodyEnd(ps: seq<Piece>)
    requires ps != [] && CodeFree(ps[0].body)
    requires |ps| > 1 && ps[0].body != [] && ps[0].body[|ps[0].body| - 1] == 0 ==> ps[1].long
    ensures NextCode(ps[0].body + Join(ps[1..])) == |ps[0].body|
  {
    var body := ps[0].body;
    if |ps| == 1 {
      assert body + Join(ps[1..]) == body;
      NextCodeNone(body);
    } else {
      NextCodeAfter(body, ps[1].long, ps[1].body + Join(ps[1..][1..]));
    }
  }

  /** Equal bodies and equal joined bytes leave no choice of start codes. */
  lemma {:induction false} JoinInjective(ps: seq<Piece>, qs: seq<Piece>)
    requires Bodies(ps) == Bodies(qs)
    requires Join(ps) == Join(qs)
    ensures ps == qs
  {
    BodiesAt(ps);
    BodiesAt(qs);
    if ps == [] {
    } else {
      assert ps[0].body == Bodies(ps)[0] == Bodies(qs)[0] == qs[0].body;
      assert ps[0].long == qs[0].long by {
        assert Join(ps)[2] == Join(qs)[2];
      }
      var a, b := ps[0].body + Join(ps[1..]), qs[0].body + Join(qs[1..]);
      assert a == Join(ps)[|Code(ps[0].long)|..] == b;
      assert Join(ps[1..]) == a[|ps[0].body|..] == Join(qs[1..]);
      assert Bodies(ps[1..]) == Bodies(ps)[1..] == Bodies(qs[1..]);
      JoinInjective(ps[1..], qs[1..]);
      assert ps == [ps[0]] + ps[1..] && qs == [qs[0]] + qs[1..];
    }
  }

  /**
    Code-free bodies always read back as many pieces as were joined: at worst a trailing
    00 moves from a body into the 3-byte code after it.
   */
  lemma {:induction false} PieceCount(ps: seq<Piece>)
    requires forall k :: 0 <= k < |ps| ==> CodeFree(ps[k].body)
    ensures |Pieces(Join(ps))| == |ps|
    decreases |ps|
  {
    if ps == [] {
    } else {
      var body := ps[0].body;
      if |ps| > 1 && body != [] && body[|body| - 1] == 0 && !ps[1].long {
        var qs := [Piece(true, ps[1].body)] + ps[2..];
        ShortCodeTakesZero(ps);
        PieceCount(qs);
      } else {
        BodyEnd(ps);
        PiecesHead(ps[0].long, body, Join(ps[1..]));
        PieceCount(ps[1..]);
      }
    }
  }

  lemma ShortCodeTakesZero(ps: seq<Piece>)
    requires |ps| > 1 && CodeFree(ps[0].body) && !ps[1].long
    requires ps[0].body != [] && ps[0].body[|ps[0].body| - 1] == 0
    ensures var short := ps[0].body[..|ps[0].body| - 1];
            var qs := [Piece(true, ps[1].body)] + ps[2..];
            Pieces(Join(ps)) == [Piece(ps[0].long, short)] + Pieces(Join(qs))
  {
    hide CodeLength, NextCode, Pieces;
    var body := ps[0].body;
    var short := body[..|body| - 1];
    var qs := [Piece(true, ps[1].body)] + ps[2..];
    ZeroMovesOn(ps);
    forall k | 0 <= k && k + 2 < |short|
      ensures !(short[k] == 0 && short[k + 1] == 0 && short[k + 2] == 1)
    {
      assert !(body[k] == 0 && body[k + 1] == 0 && body[k + 2] == 1);
    }
    hide Join;
    NextCodeAfter(short, true, ps[1].body + Join(ps[2..]));
    PiecesHead(ps[0].long, short, Join(qs));
  }

  /** A 00 in front of a 3-byte code reads as part of a 4-byte code. */
  lemma {:induction false} ZeroMovesOn(ps: seq<Piece>)
    requires |ps| > 1 && !ps[1].long && ps[0].body != [] && ps[0].body[|ps[0].body| - 1] == 0
    ensures var short := ps[0].body[..|ps[0].body| - 1];
            var qs := [Piece(true, ps[1].body)] + ps[2..];
            && Join(ps) == Code(ps[0].long) + (short + Join(qs))
            && Join(qs) == Code(true) + (ps[1].body + Join(ps[2..]))
  {
    var body := ps[0].body;
    var short := body[..|body| - 1];
    var qs := [Piece(true, ps[1].body)] + ps[2..];
    assert ps[1..][1..] == ps[2..] == qs[1..];
    assert body == short + [0];
    var after := ps[1].body + Join(ps[2..]);
    assert Join(ps[1..]) == Code(false) + after;
    assert Join(qs) == Code(true) + after;
    hide Join, Code;
    ZeroJoins(short, after);
  }

  lemma ZeroJoins(short: seq<Byte>, after: seq<Byte>)
    ensures (short + [0]) + (Code(false) + after) == short + (Code(true) + after)
  {
    assert [0] + Code(false) == Code(true);
  }

  /**
    Splitting a joined stream returns exactly the joined units if and only if every unit
    is non-empty, holds no start code, and does not end in 00 in front of a 3-byte code.
   */
  lemma {:induction false} SplitJoin(ps: seq<Piece>)
    ensures Units(Join(ps)) == Bodies(ps) <==>
            Separable(ps) && forall k :: 0 <= k < |ps| ==> ps[k].body != []
  {
    BodiesAt(ps);
    NonEmptyFrom(Bodies(ps));
    JoinHead(ps);
    var d := Join(ps);
    if Separable(ps) && forall k :: 0 <= k < |ps| ==> ps[k].body != [] {
      PiecesOfJoin(ps);
    }
    if Units(d) == Bodies(ps) {
      UnitsClean(d);
      forall k | 0 <= k < |ps|
        ensures ps[k].body != [] && CodeFree(ps[k].body)
      {
        assert Bodies(ps)[k] in Units(d);
      }
      Rebuild(d);
      PieceCount(ps);
      BodiesAt(Pieces(d));
      NonEmptyFrom(Bodies(Pieces(d)));
      JoinInjective(Pieces(d), ps);
    }
  }

  lemma JoinHead(ps: seq<Piece>)
    ensures NextCode(Join(ps)) == 0
    ensures FromCode(Join(ps)) == Join(ps)
  {
    if ps != [] {
      assert CodeLength(Join(ps)) == |Code(ps[0].long)|;
    }
  }

  /** The first unit of a stream that starts with a code and a body. */
  lemma UnitsHead(long: bool, body: Unit, rest: seq<Byte>)
    requires body != [] && NextCode(body + rest) == |body|
    ensures Units(Code(long) + (body + rest)) == [body] + NonEmpty(Bodies(Pieces(rest)))
  {
    var d := Code(long) + (body + rest);
    assert FromCode(d) == d by {
      assert CodeLength(d) == |Code(long)|;
    }
    hide CodeLength, NextCode, Pieces, FromCode, Bodies, NonEmpty;
    PiecesHead(long, body, rest);
    UnitsCons(Piece(long, body), Pieces(rest));
  }

  /**
    A unit is read up to its end exactly if nothing follows, or a start code that cannot
    take a trailing 00 from it.
   */
  predicate StopsBefore(unit: Unit, data: seq<Byte>)
    requires unit != []
  {
    data == [] || CodeLength(data) == 4 || (CodeLength(data) == 3 && unit[|unit| - 1] != 0)
  }

  lemma {:induction false} LeadStopsAt(unit: Unit, data: seq<Byte>)
    requires unit != [] && CodeFree(unit)
    ensures NextCode(unit + data) == |unit| <==> StopsBefore(unit, data)
  {
    var d := unit + data;
    if NextCode(d) == |unit| {
      NextCodeFree(d);
      assert FromCode(d) == data && Lead(d) == unit;
    }
    if data == [] {
      assert d == unit;
      NextCodeNone(unit);
    } else if StopsBefore(unit, data) {
      var long := CodeLength(data) == 4;
      assert data == Code(long) + data[|Code(long)|..];
      NextCodeAfter(unit, long, data[|Code(long)|..]);
    }
  }

  /** Whatever follows it, a unit that does not begin with 00 is read from its first byte on. */
  lemma LeadBegins(unit: Unit, data: seq<Byte>)
    requires unit != [] && unit[0] != 0
    ensures var d := unit + data;
            && d == Lead(d) + FromCode(d)
            && NextCode(d) == |Lead(d)|
            && Lead(d) != [] && Lead(d)[0] == unit[0]
  {
    assert CodeLength(unit + data) == 0;
  }
}
