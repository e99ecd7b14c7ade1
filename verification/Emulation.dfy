/**
  Emulation prevention (section 7.3.1 of ITU-T H.264): the encoder breaks up 00 00 0x with
  a 03 byte, and the first loop of `parseSPS` in internal/stream/h264.go takes it out again.
 */
module Emulation {
  import opened Common
  import AnnexB

  /** The standard's insertion; `zeros` counts the 00 bytes just written. */
  function Insert(bs: seq<Byte>, zeros: nat): seq<Byte>
    requires zeros <= 2
    decreases |bs|, zeros
  {
    if bs == [] then []
    else if zeros == 2 && bs[0] <= 3 then [3] + Insert(bs, 0)
    else [bs[0]] + Insert(bs[1..], if bs[0] == 0 then zeros + 1 else 0)
  }

  predicate Escaped(s: seq<Byte>) {
    |s| >= 3 && s[0] == 0 && s[1] == 0 && s[2] == 3
  }

  /** What the loop leaves of `s`. */
  function Strip(s: seq<Byte>): seq<Byte> {
    if s == [] then []
    else if Escaped(s) then [0, 0] + Strip(s[3..])
    else [s[0]] + Strip(s[1..])
  }

  /** The stripping loop of `parseSPS`. */
  method StripEmulation(sps: seq<Byte>) returns (data: seq<Byte>)
    ensures data == Strip(sps)
  {
    data := [];
    var i := 0;
    assert sps[0..] == sps;
    while i < |sps|
      invariant 0 <= i <= |sps|
      invariant Strip(sps) == data + Strip(sps[i..])
    {
      ghost var rest := sps[i..];
      if i + 2 < |sps| && sps[i] == 0 && sps[i + 1] == 0 && sps[i + 2] == 3 {
        assert rest[3..] == sps[i + 3..];
        data := data + [sps[i], sps[i + 1]];
        i := i + 2;
      } else {
        assert rest[1..] == sps[i + 1..];
        data := data + [sps[i]];
      }
      i := i + 1;
    }
  }

  lemma StripPlain(b: Byte, s: seq<Byte>)
    requires !Escaped([b] + s)
    ensures Strip([b] + s) == [b] + Strip(s)
  {
    assert ([b] + s)[1..] == s;
  }

  /** Stripping undoes insertion on every byte string. */
  lemma {:induction false} StripInsert(bs: seq<Byte>)
    ensures Strip(Insert(bs, 0)) == bs
    decreases |bs|
  {
    if bs == [] {
    } else if |bs| == 1 || bs[0] != 0 || bs[1] != 0 {
      assert !Escaped(Insert(bs, 0));
      if |bs| > 1 && bs[0] == 0 {
        var t := bs[1..];
        assert t[0] != 0 && Insert(t, 1) == [t[0]] + Insert(t[1..], 0) == Insert(t, 0);
      }
      assert Insert(bs, 0) == [bs[0]] + Insert(bs[1..], 0);
      StripPlain(bs[0], Insert(bs[1..], 0));
      StripInsert(bs[1..]);
    } else {
      var t := bs[2..];
      assert bs[1..][1..] == t;
      assert Insert(bs, 0) == [0] + ([0] + Insert(t, 2));
      if t == [] {
        assert bs == [0, 0] && Insert(bs, 0) == [0] + [0];
        StripPlain(0, [0]);
      } else if t[0] <= 3 {
        var s := [0, 0, 3] + Insert(t, 0);
        assert Insert(bs, 0) == s;
        assert s[3..] == Insert(t, 0);
        StripInsert(t);
      } else {
        assert Insert(t, 2) == [t[0]] + Insert(t[1..], 0) == Insert(t, 0);
        StripPlain(0, [0] + Insert(t, 0));
        StripPlain(0, Insert(t, 0));
        StripInsert(t);
      }
    }
  }

  ghost predicate RunFree(s: seq<Byte>) {
    forall k :: 0 <= k && k + 2 < |s| ==> !(s[k] == 0 && s[k + 1] == 0 && s[k + 2] <= 2)
  }

  lemma RunFreeCons(b: Byte, s: seq<Byte>)
    requires RunFree(s)
    requires b != 0 || |s| < 2 || s[0] != 0 || s[1] > 2
    ensures RunFree([b] + s)
  {
    var t := [b] + s;
    forall k | 0 <= k && k + 2 < |t|
      ensures !(t[k] == 0 && t[k + 1] == 0 && t[k + 2] <= 2)
    {
      if k > 0 {
        assert !(s[k - 1] == 0 && s[k - 1 + 1] == 0 && s[k - 1 + 2] <= 2);
      }
    }
  }

  /** No 00 00 00, 00 00 01 or 00 00 02 is left, even counting the zeros already written. */
  lemma {:induction false} InsertRunFree(bs: seq<Byte>, zeros: nat)
    requires zeros <= 2
    ensures var s := Insert(bs, zeros);
            && RunFree(s)
            && (zeros == 2 && s != [] ==> s[0] > 2)
            && (zeros >= 1 && |s| >= 2 && s[0] == 0 ==> s[1] > 2)
    decreases |bs|, zeros
  {
    if bs == [] {
    } else if zeros == 2 && bs[0] <= 3 {
      InsertRunFree(bs, 0);
      RunFreeCons(3, Insert(bs, 0));
    } else {
      var z := if bs[0] == 0 then zeros + 1 else 0;
      InsertRunFree(bs[1..], z);
      RunFreeCons(bs[0], Insert(bs[1..], z));
    }
  }

  /** After insertion no start code can appear inside the unit. */
  lemma InsertCodeFree(bs: seq<Byte>)
    ensures AnnexB.CodeFree(Insert(bs, 0))
  {
    InsertRunFree(bs, 0);
    var s := Insert(bs, 0);
    forall k | 0 <= k && k + 2 < |s|
      ensures !(s[k] == 0 && s[k + 1] == 0 && s[k + 2] == 1)
    {
    }
  }

  lemma {:induction false} InsertLast(bs: seq<Byte>, zeros: nat)
    requires zeros <= 2 && bs != []
    ensures Insert(bs, zeros) != []
    ensures Insert(bs, zeros)[|Insert(bs, zeros)| - 1] == bs[|bs| - 1]
    decreases |bs|, zeros
  {
    if zeros == 2 && bs[0] <= 3 {
      InsertLast(bs, 0);
    } else if |bs| == 1 {
    } else {
      InsertLast(bs[1..], if bs[0] == 0 then zeros + 1 else 0);
    }
  }
}
