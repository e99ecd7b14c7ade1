/**
  What `parseSPS` makes of a parameter set that was cut short. Past the end every bit reads
  as 0 and an Exp-Golomb code without a 1 bit is never finished, so the walk ends only if
  the codes it needs still have their leading 1; what was cut off behind that reads as 0.
 */
module SpsCut {
  import opened Common
  import opened BitReader
  import opened SpsParser
  import opened SpsSyntax
  import Emulation

  // ---------------------------------------------------------------- one cut code

  function UELength(v: nat): nat {
    2 * Log2(v + 1) + 1
  }

  /** `v` with the last `missing` bits behind the leading 1 of its code read as 0. */
  function Blunt(v: nat, missing: nat): nat {
    var z := Log2(v + 1);
    Pow2(z) - 1 + (v + 1 - Pow2(z)) / Pow2(missing) * Pow2(missing)
  }

  lemma {:induction false} NumberOfNothing(n: nat, acc: nat)
    ensures Number([], n, acc) == acc * Pow2(n)
    decreases n
  {
    if n == 0 {
      assert acc * Pow2(0) == acc;
    } else {
      NumberOfNothing(n - 1, 2 * acc);
      assert 2 * acc * Pow2(n - 1) == acc * (2 * Pow2(n - 1));
    }
  }

  /** Dropping the low digits of `b * (q * p) + w` leaves the high part alone. */
  lemma DivideSum(b: nat, q: nat, p: nat, w: nat)
    requires p > 0
    ensures (b * (q * p) + w) / p * p == b * (q * p) + w / p * p
  {
    var m, r := w / p, w % p;
    assert w == m * p + r;
    assert b * (q * p) + w == (b * q + m) * p + r by {
      assert b * (q * p) == (b * q) * p;
      assert (b * q + m) * p == (b * q) * p + m * p;
    }
    Quotient(b * q + m, p, r);
    assert (b * q + m) * p == b * (q * p) + m * p by {
      assert (b * q) * p == b * (q * p);
      assert (b * q + m) * p == (b * q) * p + m * p;
    }
  }

  lemma Quotient(m: nat, p: nat, r: nat)
    requires r < p
    ensures (m * p + r) / p == m
  {
    var x := m * p + r;
    var d := x / p;
    assert x == d * p + x % p;
    assert d < m ==> (d + 1) * p <= m * p;
    assert (d + 1) * p == d * p + p;
    assert m < d ==> (m + 1) * p <= d * p;
    assert (m + 1) * p == m * p + p;
  }

  /** Reading `n` bits of which only the first `j` are there. */
  lemma {:induction false} NumberOfCut(w: nat, n: nat, j: nat, acc: nat)
    requires w < Pow2(n) && j <= n
    ensures |Fixed(w, n, [])| == n
    ensures Number(Fixed(w, n, [])[..j], n, acc) == acc * Pow2(n) + w / Pow2(n - j) * Pow2(n - j)
    decreases n
  {
    hide Pow2, Number, Fixed, Drop;
    NumberOfFixed(w, n, [], acc);
    if j == 0 {
      assert Fixed(w, n, [])[..0] == [];
      NumberOfNothing(n, acc);
      assert w / Pow2(n) == 0;
    } else {
      var b, v := FixedStep(w, n, [], acc);
      NumberOfCut(v, n - 1, j - 1, 2 * acc + b);
      CutStep(w, n, j, acc, b, v);
    }
  }

  lemma CutStep(w: nat, n: nat, j: nat, acc: nat, b: Bit, v: nat)
    requires w < Pow2(n) && 0 < j <= n && v < Pow2(n - 1) && w == v + (if b == 1 then Pow2(n - 1) else 0)
    requires |Fixed(w, n, [])| == n && |Fixed(v, n - 1, [])| == n - 1
    requires Drop(Fixed(w, n, []), 1) == Fixed(v, n - 1, [])
    requires Number(Fixed(v, n - 1, [])[..j - 1], n - 1, 2 * acc + b)
             == (2 * acc + b) * Pow2(n - 1) + v / Pow2(n - j) * Pow2(n - j)
    ensures Number(Fixed(w, n, [])[..j], n, acc) == acc * Pow2(n) + w / Pow2(n - j) * Pow2(n - j)
  {
    var r := Fixed(w, n, []);
    assert r[0] == b;
    assert Drop(r[..j], 1) == Fixed(v, n - 1, [])[..j - 1];
    assert Number(r[..j], n, acc) == Number(Drop(r[..j], 1), n - 1, 2 * acc + b);
    PowAdd(j - 1, n - j);
    assert Pow2(n) == 2 * Pow2(n - 1);
    CutArithmetic(w, Pow2(j - 1), Pow2(n - j), acc, b, v);
  }

  lemma CutArithmetic(w: nat, q: nat, d: nat, acc: nat, b: Bit, v: nat)
    requires d > 0 && w == v + (if b == 1 then q * d else 0)
    ensures (2 * acc + b) * (q * d) + v / d * d == acc * (2 * (q * d)) + w / d * d
  {
    DivideSum(b, q, d, v);
    assert w == b * (q * d) + v;
    ShiftIn(acc, b, q * d, v / d * d);
  }

  lemma {:induction false} ZerosSplit(n: nat, rest: seq<Bit>)
    ensures Zeros(n, rest) == Zeros(n, []) + rest && |Zeros(n, [])| == n && 1 !in Zeros(n, [])
  {
    if n == 0 {
    } else {
      ZerosSplit(n - 1, rest);
    }
  }

  lemma {:induction false} FixedSplit(w: nat, n: nat, rest: seq<Bit>)
    requires w < Pow2(n)
    ensures Fixed(w, n, rest) == Fixed(w, n, []) + rest && |Fixed(w, n, [])| == n
    decreases n
  {
    if n == 0 {
    } else {
      FixedSplit(if w >= Pow2(n - 1) then w - Pow2(n - 1) else w, n - 1, rest);
    }
  }

  /** A code is its zeros, a 1 and as many bits as there are zeros, in front of `rest`. */
  lemma CodeSplit(v: nat, rest: seq<Bit>)
    ensures var z := Log2(v + 1);
            && |PutUE(v, rest)| == UELength(v) + |rest|
            && v + 1 - Pow2(z) < Pow2(z) && |Fixed(v + 1 - Pow2(z), z, [])| == z
            && PutUE(v, rest) == Zeros(z, [1] + (Fixed(v + 1 - Pow2(z), z, []) + rest))
            && PutUE(v, rest) == (Zeros(z, []) + [1]) + (Fixed(v + 1 - Pow2(z), z, []) + rest)
            && |Zeros(z, [])| == z && 1 !in Zeros(z, [])
  {
    hide Zeros, Fixed, Pow2;
    var z := Log2(v + 1);
    FixedSplit(v + 1 - Pow2(z), z, rest);
    ZerosSplit(z, [1] + (Fixed(v + 1 - Pow2(z), z, []) + rest));
  }

  /** What reading gives when only the first `k` bits are left of a code and what follows it. */
  function CutRead(v: nat, rest: seq<Bit>, k: nat): Option<Read<nat>>
    requires k <= UELength(v) + |rest|
  {
    if k <= Log2(v + 1) then None
    else if k <= UELength(v) then Some(Read(Wrap(Blunt(v, UELength(v) - k)), []))
    else Some(Read(Wrap(v), rest[..k - UELength(v)]))
  }

  lemma TakeCutUE(v: nat, rest: seq<Bit>, k: nat)
    requires k <= |PutUE(v, rest)|
    ensures |PutUE(v, rest)| == UELength(v) + |rest|
    ensures TakeUE(PutUE(v, rest)[..k]) == CutRead(v, rest, k)
  {
    hide PutUE, TakeUE, Wrap, Pow2, Zeros, Fixed;
    CodeSplit(v, rest);
    var z := Log2(v + 1);
    var c := PutUE(v, rest)[..k];
    if k <= z {
      assert c == Zeros(z, [])[..k];
      NothingToTake(c);
    } else if k <= UELength(v) {
      TakeBlunt(v, rest, k);
    } else {
      assert c == (Zeros(z, []) + [1]) + (Fixed(v + 1 - Pow2(z), z, []) + rest[..k - UELength(v)]);
      CodeSplit(v, rest[..k - UELength(v)]);
      UERoundTrip(v, rest[..k - UELength(v)]);
    }
  }

  lemma NothingToTake(c: seq<Bit>)
    requires 1 !in c
    ensures TakeUE(c).None?
  {
  }

  lemma TakeBlunt(v: nat, rest: seq<Bit>, k: nat)
    requires Log2(v + 1) < k <= UELength(v) <= |PutUE(v, rest)|
    ensures TakeUE(PutUE(v, rest)[..k]) == Some(Read(Wrap(Blunt(v, UELength(v) - k)), []))
  {
    hide PutUE, TakeUE, Wrap, Pow2, Zeros, Fixed, Number;
    CodeSplit(v, rest);
    var z := Log2(v + 1);
    var w := v + 1 - Pow2(z);
    var j := k - z - 1;
    var tail := Fixed(w, z, [])[..j];
    CutPrefix(Zeros(z, []), Fixed(w, z, []), rest, j);
    ZerosSplit(z, [1] + tail);
    assert Zeros(z, []) + ([1] + tail) == (Zeros(z, []) + [1]) + tail;
    TakeAfterZeros(z, tail);
    NumberOfCut(w, z, j, 0);
  }

  lemma CutPrefix(zeros: seq<Bit>, code: seq<Bit>, rest: seq<Bit>, j: nat)
    requires j <= |code|
    ensures ((zeros + [1]) + (code + rest))[..|zeros| + 1 + j] == (zeros + [1]) + code[..j]
  {
  }

  lemma TakeWhole(r: seq<Bit>, z: nat)
    requires 1 in r && LeadingZeros(r) == z
    ensures TakeUE(r) == Some(Read(Wrap(Pow2(z) - 1 + Number(r[z + 1..], z, 0)), Drop(r[z + 1..], z)))
  {
  }

  lemma {:induction false} TakeAfterZeros(z: nat, tail: seq<Bit>)
    requires |tail| <= z
    ensures TakeUE(Zeros(z, [1] + tail)) == Some(Read(Wrap(Pow2(z) - 1 + Number(tail, z, 0)), []))
  {
    assert Drop(tail, z) == [];
    hide Wrap, Pow2, Zeros, Number, LeadingZeros, Drop, TakeUE;
    ZerosThenOne(z, tail);
    TakeWhole(Zeros(z, [1] + tail), z);
  }

  // ---------------------------------------------------------------- the walk up to the size

  /**
    What a part of the walk does on the first |c| bits of `r`, if on all of `r` it leads to
    `r2`: the same if bits are left behind it, and otherwise it is stuck or at the end.
   */
  ghost predicate CutTo(c: seq<Bit>, r: seq<Bit>, r2: seq<Bit>, out: Option<seq<Bit>>) {
    && |r2| <= |r| && |c| <= |r|
    && if |c| > |r| - |r2| then out == Some(r2[..|c| - (|r| - |r2|)]) else out.None? || out.value == []
  }

  ghost predicate Spent(out: Option<seq<Bit>>) {
    out.None? || out.value == []
  }

  /** One part of the walk after another; `e` is what the second makes of no bits at all. */
  lemma Then(c: seq<Bit>, r: seq<Bit>, r1: seq<Bit>, r2: seq<Bit>,
             o1: Option<seq<Bit>>, e: Option<seq<Bit>>, o2: Option<seq<Bit>>)
    requires CutTo(c, r, r1, o1) && CutTo([], r1, r2, e)
    requires o1.None? ==> o2.None?
    requires o1.Some? && o1.value == [] ==> o2 == e || Spent(o2)
    requires o1.Some? && o1.value != [] && o1.value <= r1 ==> CutTo(o1.value, r1, r2, o2)
    ensures CutTo(c, r, r2, o2)
  {
  }

  lemma CutStart(c: seq<Bit>, r: seq<Bit>)
    requires c <= r
    ensures CutTo(c, r, r, Some(c))
  {
    assert r[..|c|] == c;
  }

  lemma {:induction false} NumberPrefix(c: seq<Bit>, r: seq<Bit>, n: nat, acc: nat)
    requires c <= r && n <= |c|
    ensures Number(c, n, acc) == Number(r, n, acc)
    decreases n
  {
    if n == 0 {
    } else {
      NumberPrefix(Drop(c, 1), Drop(r, 1), n - 1, 2 * acc + NextBit(c));
    }
  }

  lemma {:induction false} SameZeros(c: seq<Bit>, r: seq<Bit>)
    requires c <= r && 1 in c
    ensures 1 in r && LeadingZeros(c) == LeadingZeros(r)
  {
    assert 1 in r by {
      var k :| 0 <= k < |c| && c[k] == 1;
      assert r[k] == 1;
    }
    if c[0] == 1 {
    } else {
      assert c[1..] <= r[1..];
      SameZeros(c[1..], r[1..]);
    }
  }

  lemma CutUE(c: seq<Bit>, r: seq<Bit>)
    requires c <= r && TakeUE(r).Some?
    ensures CutTo(c, r, TakeUE(r).value.rest, SkipUE(c))
    ensures |c| > |r| - |TakeUE(r).value.rest| ==> TakeUE(c).Some? && TakeUE(c).value.value == TakeUE(r).value.value
  {
    hide Number, Pow2, Wrap, LeadingZeros;
    var z := LeadingZeros(r);
    assert z < |c| ==> c[z] == r[z];
    if 1 in c {
      SameZeros(c, r);
      var c1, r1 := c[z + 1..], r[z + 1..];
      assert c1 <= r1;
      if z <= |c1| {
        NumberPrefix(c1, r1, z, 0);
        assert Drop(c1, z) == Drop(r1, z)[..|c1| - z];
      } else {
        assert Drop(c1, z) == [];
      }
    }
  }

  lemma CutBit(c: seq<Bit>, r: seq<Bit>)
    requires c <= r
    ensures CutTo(c, r, Drop(r, 1), Some(Drop(c, 1)))
    ensures c != [] ==> NextBit(c) == NextBit(r)
  {
    if c != [] {
      assert Drop(c, 1) == Drop(r, 1)[..|c| - 1];
    }
  }

  /** At the end of the bits no part of the walk gets further. */
  lemma {:induction false} SpentUEs(n: nat)
    ensures SkipUE([]).None? && Spent(SkipUEs([], n))
  {
  }

  lemma {:induction false} CutUEs(c: seq<Bit>, r: seq<Bit>, n: nat)
    requires c <= r && SkipUEs(r, n).Some?
    ensures CutTo(c, r, SkipUEs(r, n).value, SkipUEs(c, n))
    decreases n
  {
    hide TakeUE;
    if n == 0 {
      CutStart(c, r);
    } else {
      CutUE(c, r);
      var r1 := SkipUE(r).value;
      var o1 := SkipUE(c);
      CutUEs([], r1, n - 1);
      if o1.Some? && o1.value <= r1 {
        CutUEs(o1.value, r1, n - 1);
      }
      Then(c, r, r1, SkipUEs(r1, n - 1).value, o1, SkipUEs([], n - 1), SkipUEs(c, n));
    }
  }

  lemma {:induction false} SpentList(left: nat, last: int, next: int)
    ensures Spent(SkipScalingList([], left, last, next))
  {
    if left == 0 || next != 0 {
    } else {
      SpentList(left - 1, last, next);
    }
  }

  lemma {:induction false} CutList(c: seq<Bit>, r: seq<Bit>, left: nat, last: int, next: int)
    requires c <= r && SkipScalingList(r, left, last, next).Some?
    ensures CutTo(c, r, SkipScalingList(r, left, last, next).value, SkipScalingList(c, left, last, next))
    decreases left
  {
    hide TakeUE, NextScale;
    if left == 0 {
      CutStart(c, r);
    } else if next == 0 {
      CutList(c, r, left - 1, last, next);
    } else {
      CutUE(c, r);
      var d := TakeSE(r).value;
      var n := NextScale(last, d.value);
      var last' := if n != 0 then n else last;
      var o1 := SkipUE(c);
      CutList([], d.rest, left - 1, last', n);
      if o1.Some? && o1.value == [] {
        var e := NextScale(last, TakeSE(c).value.value);
        SpentList(left - 1, if e != 0 then e else last, e);
      } else if o1.Some? && o1.value <= d.rest {
        CutList(o1.value, d.rest, left - 1, last', n);
      }
      Then(c, r, d.rest, SkipScalingList(d.rest, left - 1, last', n).value, o1,
           SkipScalingList([], left - 1, last', n), SkipScalingList(c, left, last, next));
    }
  }

  /** One scaling list behind its flag. */
  function SkipFlaggedList(r: seq<Bit>, size: nat): Option<seq<Bit>> {
    if NextBit(r) == 0 then Some(Drop(r, 1)) else SkipScalingList(Drop(r, 1), size, 8, 8)
  }

  lemma CutFlaggedList(c: seq<Bit>, r: seq<Bit>, size: nat)
    requires c <= r && SkipFlaggedList(r, size).Some?
    ensures CutTo(c, r, SkipFlaggedList(r, size).value, SkipFlaggedList(c, size))
  {
    hide SkipScalingList, Drop;
    CutBit(c, r);
    if c == [] {
      SpentDrop(c);
      SpentFlagged(r, size);
    } else if NextBit(r) != 0 {
      var c1, r1 := Drop(c, 1), Drop(r, 1);
      CutList([], r1, size, 8, 8);
      if c1 <= r1 {
        CutList(c1, r1, size, 8, 8);
      }
      Then(c, r, r1, SkipScalingList(r1, size, 8, 8).value, Some(c1),
           SkipScalingList([], size, 8, 8), SkipFlaggedList(c, size));
    }
  }

  lemma SpentDrop(c: seq<Bit>)
    requires c == []
    ensures NextBit(c) == 0 && Drop(c, 1) == []
  {
  }

  lemma SpentFlagged(r: seq<Bit>, size: nat)
    requires SkipFlaggedList(r, size).Some?
    ensures |SkipFlaggedList(r, size).value| <= |r|
  {
    hide SkipScalingList;
    if NextBit(r) != 0 {
      CutList([], Drop(r, 1), size, 8, 8);
    }
  }

  lemma {:induction false} CutLists(c: seq<Bit>, r: seq<Bit>, i: nat, limit: nat)
    requires i <= limit && c <= r && SkipScalingLists(r, i, limit).Some?
    ensures CutTo(c, r, SkipScalingLists(r, i, limit).value, SkipScalingLists(c, i, limit))
    decreases limit - i
  {
    hide SkipScalingLists, SkipFlaggedList, CutTo, Spent;
    ListsAreFlagged(c, i, limit);
    ListsAreFlagged(r, i, limit);
    if i == limit {
      CutStart(c, r);
    } else {
      var size := if i >= 6 then 64 else 16;
      var r1 := SkipFlaggedList(r, size).value;
      var o1 := SkipFlaggedList(c, size);
      CutFlaggedList(c, r, size);
      CutLists([], r1, i + 1, limit);
      if o1.Some? && o1.value <= r1 {
        CutLists(o1.value, r1, i + 1, limit);
      }
      Then(c, r, r1, SkipScalingLists(r1, i + 1, limit).value, o1,
           SkipScalingLists([], i + 1, limit), SkipScalingLists(c, i, limit));
    }
  }

  lemma ListsAreFlagged(r: seq<Bit>, i: nat, limit: nat)
    requires i <= limit
    ensures SkipScalingLists(r, i, limit) ==
            if i == limit then Some(r)
            else
              var o := SkipFlaggedList(r, if i >= 6 then 64 else 16);
              if o.None? then None else SkipScalingLists(o.value, i + 1, limit)
  {
    hide SkipScalingList, NextBit, Drop;
  }

  // ---------------------------------------------------------------- chroma, order count, and all of it

  /** A flag and the lists behind it. */
  function SkipFlaggedLists(r: seq<Bit>, limit: nat): Option<seq<Bit>> {
    if NextBit(r) == 0 then Some(Drop(r, 1)) else SkipScalingLists(Drop(r, 1), 0, limit)
  }

  lemma CutFlaggedLists(c: seq<Bit>, r: seq<Bit>, limit: nat)
    requires c <= r && SkipFlaggedLists(r, limit).Some?
    ensures CutTo(c, r, SkipFlaggedLists(r, limit).value, SkipFlaggedLists(c, limit))
  {
    hide SkipScalingLists, Drop;
    CutBit(c, r);
    var c1, r1 := Drop(c, 1), Drop(r, 1);
    if NextBit(r) != 0 {
      CutLists([], r1, 0, limit);
      if c1 <= r1 {
        CutLists(c1, r1, 0, limit);
      }
      assert c == [] ==> Spent(SkipFlaggedLists(c, limit)) by {
        SpentDrop([]);
      }
      Then(c, r, r1, SkipScalingLists(r1, 0, limit).value, Some(c1),
           SkipScalingLists([], 0, limit), SkipFlaggedLists(c, limit));
    }
  }

  /** The end of the chroma fields: one bit, a flag, and the lists behind it. */
  function SkipMatrices(r: seq<Bit>, limit: nat): Option<seq<Bit>> {
    SkipFlaggedLists(Drop(r, 1), limit)
  }

  lemma CutMatrices(c: seq<Bit>, r: seq<Bit>, limit: nat)
    requires c <= r && SkipMatrices(r, limit).Some?
    ensures CutTo(c, r, SkipMatrices(r, limit).value, SkipMatrices(c, limit))
  {
    hide SkipScalingLists, Drop, NextBit, CutTo;
    CutBit(c, r);
    var c1, r1 := Drop(c, 1), Drop(r, 1);
    CutFlaggedLists([], r1, limit);
    if c1 <= r1 {
      CutFlaggedLists(c1, r1, limit);
    }
    Then(c, r, r1, SkipMatrices(r, limit).value, Some(c1), SkipFlaggedLists([], limit), SkipMatrices(c, limit));
  }

  /** The chroma fields behind chroma_format_idc. */
  function ChromaTail(r: seq<Bit>, format: nat): Option<seq<Bit>> {
    var r1 :- SkipUEs(if format == 3 then Drop(r, 1) else r, 2);
    SkipMatrices(r1, if format != 3 then 8 else 12)
  }

  lemma CutDepths(c: seq<Bit>, r: seq<Bit>, format: nat)
    requires c <= r && SkipUEs(if format == 3 then Drop(r, 1) else r, 2).Some?
    ensures CutTo(c, r, SkipUEs(if format == 3 then Drop(r, 1) else r, 2).value,
                  SkipUEs(if format == 3 then Drop(c, 1) else c, 2))
  {
    hide SkipUEs, Drop;
    if format == 3 {
      CutBit(c, r);
      var c1, r1 := Drop(c, 1), Drop(r, 1);
      CutUEs([], r1, 2);
      if c1 <= r1 {
        CutUEs(c1, r1, 2);
      }
      Then(c, r, r1, SkipUEs(r1, 2).value, Some(c1), SkipUEs([], 2), SkipUEs(c1, 2));
    } else {
      CutUEs(c, r, 2);
    }
  }

  lemma CutChromaTail(c: seq<Bit>, r: seq<Bit>, format: nat)
    requires c <= r && ChromaTail(r, format).Some?
    ensures CutTo(c, r, ChromaTail(r, format).value, ChromaTail(c, format))
  {
    hide SkipUEs, SkipMatrices, Drop;
    CutDepths(c, r, format);
    var limit := if format != 3 then 8 else 12;
    var r1 := SkipUEs(if format == 3 then Drop(r, 1) else r, 2).value;
    var o1 := SkipUEs(if format == 3 then Drop(c, 1) else c, 2);
    CutMatrices([], r1, limit);
    if o1.Some? && o1.value <= r1 {
      CutMatrices(o1.value, r1, limit);
    }
    Then(c, r, r1, SkipMatrices(r1, limit).value, o1, SkipMatrices([], limit), ChromaTail(c, format));
  }

  lemma SpentChromaTail(format: nat)
    ensures ChromaTail([], format).None?
  {
    hide SkipMatrices;
    assert Drop([], 1) == [];
  }

  lemma ChromaIsTail(r: seq<Bit>)
    ensures SkipChroma(r) == if TakeUE(r).None? then None else ChromaTail(TakeUE(r).value.rest, TakeUE(r).value.value)
  {
    hide TakeUE, SkipUEs, SkipScalingLists, Drop, NextBit;
  }

  lemma CutChroma(c: seq<Bit>, r: seq<Bit>)
    requires c <= r && SkipChroma(r).Some?
    ensures CutTo(c, r, SkipChroma(r).value, SkipChroma(c))
  {
    ChromaIsTail(c);
    ChromaIsTail(r);
    hide TakeUE, SkipChroma, ChromaTail;
    CutUE(c, r);
    var u := TakeUE(r).value;
    var o1 := SkipUE(c);
    CutChromaTail([], u.rest, u.value);
    if o1.Some? && o1.value == [] {
      SpentChromaTail(TakeUE(c).value.value);
    } else if o1.Some? && o1.value <= u.rest {
      CutChromaTail(o1.value, u.rest, u.value);
    }
    Then(c, r, u.rest, SkipChroma(r).value, o1, ChromaTail([], u.value), SkipChroma(c));
  }

  /** The offsets for reference frames behind their number. */
  function CycleTail(r: seq<Bit>): Option<seq<Bit>> {
    var n :- TakeUE(r);
    SkipUEs(n.rest, n.value)
  }

  lemma CutCycleTail(c: seq<Bit>, r: seq<Bit>)
    requires c <= r && CycleTail(r).Some?
    ensures CutTo(c, r, CycleTail(r).value, CycleTail(c))
  {
    hide TakeUE, SkipUEs;
    CutUE(c, r);
    var u := TakeUE(r).value;
    var o1 := SkipUE(c);
    CutUEs([], u.rest, u.value);
    if o1.Some? && o1.value == [] {
      SpentUEs(TakeUE(c).value.value);
    } else if o1.Some? && o1.value <= u.rest {
      CutUEs(o1.value, u.rest, u.value);
    }
    Then(c, r, u.rest, CycleTail(r).value, o1, SkipUEs([], u.value), CycleTail(c));
  }

  /** The picture order count fields behind their type. */
  function OrderTail(r: seq<Bit>, kind: nat): Option<seq<Bit>> {
    if kind == 0 then SkipUE(r)
    else if kind == 1 then
      var r1 :- SkipUEs(Drop(r, 1), 2);
      CycleTail(r1)
    else Some(r)
  }

  lemma SpentOrderTail(kind: nat)
    ensures Spent(OrderTail([], kind)) && CycleTail([]).None?
  {
    assert Drop([], 1) == [];
  }

  lemma CutOrderTail(c: seq<Bit>, r: seq<Bit>, kind: nat)
    requires c <= r && OrderTail(r, kind).Some?
    ensures CutTo(c, r, OrderTail(r, kind).value, OrderTail(c, kind))
  {
    hide TakeUE, SkipUEs, CycleTail, Drop;
    if kind == 0 {
      CutUE(c, r);
    } else if kind == 1 {
      CutDepths(c, r, 3);
      var r1 := SkipUEs(Drop(r, 1), 2).value;
      var o1 := SkipUEs(Drop(c, 1), 2);
      CutCycleTail([], r1);
      if o1.Some? && o1.value <= r1 {
        CutCycleTail(o1.value, r1);
      }
      Then(c, r, r1, CycleTail(r1).value, o1, CycleTail([]), OrderTail(c, kind));
    } else {
      CutStart(c, r);
    }
  }

  lemma OrderIsTail(r: seq<Bit>)
    ensures SkipPicOrderCnt(r) ==
            if TakeUE(r).None? then None else OrderTail(TakeUE(r).value.rest, TakeUE(r).value.value)
  {
    hide TakeUE, SkipUEs, Drop;
  }

  lemma CutPicOrderCnt(c: seq<Bit>, r: seq<Bit>)
    requires c <= r && SkipPicOrderCnt(r).Some?
    ensures CutTo(c, r, SkipPicOrderCnt(r).value, SkipPicOrderCnt(c))
  {
    OrderIsTail(c);
    OrderIsTail(r);
    hide TakeUE, SkipPicOrderCnt, OrderTail;
    CutUE(c, r);
    var u := TakeUE(r).value;
    var o1 := SkipUE(c);
    CutOrderTail([], u.rest, u.value);
    if o1.Some? && o1.value == [] {
      SpentOrderTail(TakeUE(c).value.value);
    } else if o1.Some? && o1.value <= u.rest {
      CutOrderTail(o1.value, u.rest, u.value);
    }
    Then(c, r, u.rest, SkipPicOrderCnt(r).value, o1, OrderTail([], u.value), SkipPicOrderCnt(c));
  }

  lemma ThenUE(c: seq<Bit>, r: seq<Bit>, r1: seq<Bit>, o1: Option<seq<Bit>>)
    requires CutTo(c, r, r1, o1) && SkipUE(r1).Some?
    ensures CutTo(c, r, SkipUE(r1).value, if o1.None? then None else SkipUE(o1.value))
  {
    hide TakeUE;
    CutUE([], r1);
    if o1.Some? && o1.value <= r1 {
      CutUE(o1.value, r1);
    }
    Then(c, r, r1, SkipUE(r1).value, o1, SkipUE([]), if o1.None? then None else SkipUE(o1.value));
  }

  lemma ThenChroma(c: seq<Bit>, r: seq<Bit>, r1: seq<Bit>, o1: Option<seq<Bit>>)
    requires CutTo(c, r, r1, o1) && SkipChroma(r1).Some?
    ensures CutTo(c, r, SkipChroma(r1).value, if o1.None? then None else SkipChroma(o1.value))
  {
    assert SkipChroma([]).None?;
    hide SkipChroma;
    CutChroma([], r1);
    if o1.Some? && o1.value <= r1 {
      CutChroma(o1.value, r1);
    }
    Then(c, r, r1, SkipChroma(r1).value, o1, SkipChroma([]), if o1.None? then None else SkipChroma(o1.value));
  }

  lemma ThenPicOrderCnt(c: seq<Bit>, r: seq<Bit>, r1: seq<Bit>, o1: Option<seq<Bit>>)
    requires CutTo(c, r, r1, o1) && SkipPicOrderCnt(r1).Some?
    ensures CutTo(c, r, SkipPicOrderCnt(r1).value, if o1.None? then None else SkipPicOrderCnt(o1.value))
  {
    assert SkipPicOrderCnt([]).None?;
    hide SkipPicOrderCnt;
    CutPicOrderCnt([], r1);
    if o1.Some? && o1.value <= r1 {
      CutPicOrderCnt(o1.value, r1);
    }
    Then(c, r, r1, SkipPicOrderCnt(r1).value, o1, SkipPicOrderCnt([]),
         if o1.None? then None else SkipPicOrderCnt(o1.value));
  }

  lemma ThenBit(c: seq<Bit>, r: seq<Bit>, r1: seq<Bit>, o1: Option<seq<Bit>>)
    requires CutTo(c, r, r1, o1)
    ensures CutTo(c, r, Drop(r1, 1), if o1.None? then None else Some(Drop(o1.value, 1)))
  {
    CutBit([], r1);
    if o1.Some? && o1.value <= r1 {
      CutBit(o1.value, r1);
    }
    Then(c, r, r1, Drop(r1, 1), o1, Some(Drop([], 1)), if o1.None? then None else Some(Drop(o1.value, 1)));
  }

  /** The walk before the size goes on behind a cut exactly if the size has bits left. */
  lemma CutBeforeGeometry(profile: Byte, c: seq<Bit>, r: seq<Bit>)
    requires c <= r && BeforeGeometry(profile, r).Some?
    ensures CutTo(c, r, BeforeGeometry(profile, r).value, BeforeGeometry(profile, c))
  {
    hide SkipUE, SkipChroma, SkipPicOrderCnt, Drop, CutTo;
    var r1, o1 := SkipUE(r).value, SkipUE(c);
    CutStart(c, r);
    ThenUE(c, r, r, Some(c));
    var high := profile in HIGH_PROFILES;
    var r2 := if high then SkipChroma(r1).value else r1;
    var o2 := if o1.None? then None else if high then SkipChroma(o1.value) else o1;
    if high {
      ThenChroma(c, r, r1, o1);
    }
    var r3, o3 := SkipUE(r2).value, if o2.None? then None else SkipUE(o2.value);
    ThenUE(c, r, r2, o2);
    var r4, o4 := SkipPicOrderCnt(r3).value, if o3.None? then None else SkipPicOrderCnt(o3.value);
    ThenPicOrderCnt(c, r, r3, o3);
    var r5, o5 := SkipUE(r4).value, if o4.None? then None else SkipUE(o4.value);
    ThenUE(c, r, r4, o4);
    ThenBit(c, r, r5, o5);
  }

  // ---------------------------------------------------------------- the size of a cut parameter set

  /** The fields behind the height code: flags, crop window, VUI flag and tail. */
  function FlagBits(s: Sps): seq<Bit> {
    var tail := [s.direct8x8] + PutCrop(s.crop, [s.vui] + s.tail);
    if s.frameMbsOnly == 0 then [0, s.mbAdaptive] + tail else [1] + tail
  }

  // Places in the body are given by the number of bits from there to its end.

  function FromHeightOne(s: Sps): nat {
    1 + Log2(s.height + 1) + |FlagBits(s)|
  }

  /** The crop flag stands behind frame_mbs_only_flag, its mate if that is 0, and direct_8x8. */
  function FromCropFlag(s: Sps): int {
    |FlagBits(s)| - if s.frameMbsOnly == 0 then 3 else 2
  }

  function FromBottomOne(s: Sps): nat
    requires s.crop.Some?
  {
    1 + Log2(s.crop.value.bottom + 1) + (1 + |s.tail|)
  }

  /**
    Whether the walk ends when the last `missing` bits of the body are cut off: the height
    code still has its leading 1, and so has the last crop code if the crop flag is there
    and set.
   */
  predicate CutEnds(s: Sps, missing: nat) {
    && missing < FromHeightOne(s)
    && (s.crop.Some? && missing < FromCropFlag(s) ==> missing < FromBottomOne(s))
  }

  /** A code behind which `behind` bits follow, when the last `missing` bits of all are cut off. */
  function SeenCode(v: nat, behind: nat, missing: nat): nat {
    if missing <= behind then v else Blunt(v, missing - behind)
  }

  function SeenCrop(s: Sps, missing: nat): Option<Crop> {
    if s.crop.None? || missing >= FromCropFlag(s) then None
    else Some(s.crop.value.(bottom := SeenCode(s.crop.value.bottom, 1 + |s.tail|, missing)))
  }

  /** The parameter set that the walk takes the cut one for. */
  function SeenAs(s: Sps, missing: nat): Sps {
    s.(height := SeenCode(s.height, |FlagBits(s)|, missing),
       frameMbsOnly := if missing < |FlagBits(s)| then s.frameMbsOnly else 0,
       crop := SeenCrop(s, missing))
  }

  lemma BluntNothing(v: nat)
    ensures Blunt(v, 0) == v
  {
    assert Pow2(0) == 1;
  }

  /** Reading a code when the last `missing` bits of it and of `rest` are cut off. */
  lemma TakeCut(v: nat, rest: seq<Bit>, missing: nat)
    requires missing <= |PutUE(v, rest)|
    ensures var r := PutUE(v, rest);
            var u := TakeUE(r[..|r| - missing]);
            && (u.Some? <==> missing < |rest| + 1 + Log2(v + 1))
            && (u.Some? ==> u.value.value == Wrap(SeenCode(v, |rest|, missing)))
            && (u.Some? ==> u.value.rest == if missing < |rest| then rest[..|rest| - missing] else [])
            && |r| > |rest|
  {
    hide PutUE, TakeUE, Wrap, Pow2, Blunt;
    var r := PutUE(v, rest);
    TakeCutUE(v, rest, |r| - missing);
    BluntNothing(v);
  }

  /** The four codes of a crop window. */
  function TakeCrop(r: seq<Bit>): Option<Crop> {
    var left :- TakeUE(r);
    var right :- TakeUE(left.rest);
    var top :- TakeUE(right.rest);
    var bottom :- TakeUE(top.rest);
    Some(Crop(left.value, right.value, top.value, bottom.value))
  }

  lemma TakeNothing()
    ensures TakeUE([]).None?
  {
  }

  lemma CutCrop(c: Crop, end: seq<Bit>, missing: nat)
    requires missing <= |PutUE(c.left, PutUE(c.right, PutUE(c.top, PutUE(c.bottom, end))))|
    ensures var r := PutUE(c.left, PutUE(c.right, PutUE(c.top, PutUE(c.bottom, end))));
            TakeCrop(r[..|r| - missing]) ==
            if missing < |end| + 1 + Log2(c.bottom + 1)
            then Some(Crop(Wrap(c.left), Wrap(c.right), Wrap(c.top), Wrap(SeenCode(c.bottom, |end|, missing))))
            else None
  {
    hide PutUE, TakeUE, Wrap, SeenCode, Log2;
    var r4 := PutUE(c.bottom, end);
    var r3 := PutUE(c.top, r4);
    var r2 := PutUE(c.right, r3);
    TakeNothing();
    TakeCut(c.left, r2, missing);
    if missing < |r2| {
      TakeCut(c.right, r3, missing);
      if missing < |r3| {
        TakeCut(c.top, r4, missing);
        if missing < |r4| {
          TakeCut(c.bottom, end, missing);
        }
      }
    }
    Whole(c.left, |r2|, missing);
    Whole(c.right, |r3|, missing);
    Whole(c.top, |r4|, missing);
    PutLength(c.right, r3);
    PutLength(c.top, r4);
    PutLength(c.bottom, end);
  }

  lemma PutLength(v: nat, rest: seq<Bit>)
    ensures |PutUE(v, rest)| == UELength(v) + |rest|
  {
    CodeSplit(v, rest);
  }

  lemma Whole(v: nat, behind: nat, missing: nat)
    ensures missing <= behind ==> SeenCode(v, behind, missing) == v
  {
  }

  /** The part of the walk behind the height code. */
  function TakeFlags(r: seq<Bit>, width: nat, height: nat): Option<Geometry> {
    var fmo := NextBit(r);
    var c :- TakeFlaggedCrop(Drop(Drop(r, if fmo == 0 then 2 else 1), 1));
    Some(Geometry(width, height, fmo, c.left, c.right, c.top, c.bottom))
  }

  function TakeFlaggedCrop(r: seq<Bit>): Option<Crop> {
    if NextBit(r) == 0 then Some(Crop(0, 0, 0, 0)) else TakeCrop(Drop(r, 1))
  }

  /** The flags read from the cut bits, and where the walk stands behind them. */
  lemma CutFlagBits(s: Sps, missing: nat)
    requires missing <= |FlagBits(s)|
    ensures var crop := PutCrop(s.crop, [s.vui] + s.tail);
            var r := FlagBits(s)[..|FlagBits(s)| - missing];
            var fmo := NextBit(r);
            && FromCropFlag(s) == |crop|
            && fmo == SeenAs(s, missing).frameMbsOnly
            && Drop(Drop(r, if fmo == 0 then 2 else 1), 1)
               == if missing < |crop| then crop[..|crop| - missing] else []
  {
    hide PutCrop;
    var crop := PutCrop(s.crop, [s.vui] + s.tail);
    var f := FlagBits(s);
    var r := f[..|f| - missing];
    var k := if s.frameMbsOnly == 0 then 3 else 2;
    assert |f| == k + |crop| && f[k..] == crop;
    if missing < |crop| {
      assert r[k..] == crop[..|crop| - missing];
    }
  }

  function WrapCrop(c: Crop): Crop {
    Crop(Wrap(c.left), Wrap(c.right), Wrap(c.top), Wrap(c.bottom))
  }

  /** The crop window, its codes and flag cut as far as `missing` says. */
  lemma CutFlaggedCrop(s: Sps, missing: nat)
    requires FromCropFlag(s) == |PutCrop(s.crop, [s.vui] + s.tail)|
    ensures var crop := PutCrop(s.crop, [s.vui] + s.tail);
            TakeFlaggedCrop(if missing < |crop| then crop[..|crop| - missing] else []) ==
            if s.crop.Some? && missing < FromCropFlag(s) ==> missing < FromBottomOne(s)
            then Some(WrapCrop(CropOf(SeenAs(s, missing)))) else None
  {
    hide FlagBits, TakeCrop, Wrap, PutUE, SeenCode, Log2, FromCropFlag;
    Small(0);
    var end := [s.vui] + s.tail;
    var crop := PutCrop(s.crop, end);
    if missing < |crop| {
      var r1 := crop[..|crop| - missing];
      assert NextBit(r1) == crop[0];
      if s.crop.Some? {
        var w := s.crop.value;
        var codes := PutUE(w.left, PutUE(w.right, PutUE(w.top, PutUE(w.bottom, end))));
        assert crop == [1] + codes;
        assert Drop(r1, 1) == codes[..|codes| - missing];
        CutCrop(w, end, missing);
      }
    }
  }

  lemma CutFlags(s: Sps, missing: nat, width: nat, height: nat)
    requires missing <= |FlagBits(s)|
    ensures var r := FlagBits(s)[..|FlagBits(s)| - missing];
            var seen := SeenAs(s, missing);
            var c := WrapCrop(CropOf(seen));
            TakeFlags(r, width, height) ==
            if s.crop.Some? && missing < FromCropFlag(s) ==> missing < FromBottomOne(s)
            then Some(Geometry(width, height, seen.frameMbsOnly, c.left, c.right, c.top, c.bottom))
            else None
  {
    hide FlagBits, TakeFlaggedCrop, PutCrop, WrapCrop, SeenCrop, SeenCode, CropOf, NextBit, Drop,
         FromCropFlag, FromBottomOne;
    CutFlagBits(s, missing);
    CutFlaggedCrop(s, missing);
  }

  lemma CutGeometry(s: Sps, missing: nat)
    requires missing <= |PutGeometry(s)|
    ensures |PutGeometry(s)| > FromHeightOne(s)
    ensures var g := PutGeometry(s);
            TakeGeometry(g[..|g| - missing]) ==
            if CutEnds(s, missing) then Some(GeometryOf(SeenAs(s, missing))) else None
  {
    hide PutUE, TakeUE, Wrap, SeenCode, Log2, FlagBits, NextBit, Drop, SeenCrop, TakeFlaggedCrop;
    var flags := FlagBits(s);
    var h := PutUE(s.height, flags);
    PutGeometryParts(s);
    PutLength(s.height, flags);
    PutLength(s.width, h);
    TakeNothing();
    TakeCut(s.width, h, missing);
    Whole(s.width, |h|, missing);
    TakeGeometryParts(PutGeometry(s)[..|PutGeometry(s)| - missing]);
    if missing < |h| {
      TakeCut(s.height, flags, missing);
      var width, height := Wrap(s.width), Wrap(SeenCode(s.height, |flags|, missing));
      if missing <= |flags| {
        CutFlags(s, missing, width, height);
        assert missing == |flags| ==> flags[..|flags| - missing] == [];
      } else {
        CutFlags(s, |flags|, width, height);
        NothingBehind(s, missing);
        assert flags[..|flags| - |flags|] == [];
      }
    }
  }

  lemma PutGeometryParts(s: Sps)
    ensures PutGeometry(s) == PutUE(s.width, PutUE(s.height, FlagBits(s)))
  {
    hide PutUE;
  }

  lemma TakeGeometryParts(r: seq<Bit>)
    ensures TakeGeometry(r) ==
            var w :- TakeUE(r);
            var h :- TakeUE(w.rest);
            TakeFlags(h.rest, w.value, h.value)
  {
    hide TakeUE, Drop;
  }

  /** Once the flags are gone it does not matter how much of the height code is. */
  lemma NothingBehind(s: Sps, missing: nat)
    requires missing >= |FlagBits(s)|
    ensures FromCropFlag(s) <= |FlagBits(s)|
    ensures SeenAs(s, missing).crop == None && SeenAs(s, |FlagBits(s)|).crop == None
  {
  }

  /**
    Every cut of every well-formed body of an agreed profile: the walk ends exactly if
    `CutEnds` says so, with the coded size of the parameter set it takes the cut one for.
   */
  lemma CutExact(s: Sps, n: nat)
    requires WellFormed(s) && n <= |PutBody(s)|
    requires s.profile in STANDARD_HIGH <==> s.profile in HIGH_PROFILES
    ensures var missing := |PutBody(s)| - n;
            var seen := SeenAs(s, missing);
            ParseBody(s.profile, PutBody(s)[..n]) ==
            if CutEnds(s, missing) then Some((U16(CodedWidth(seen)), U16(CodedHeight(seen)))) else None
  {
    hide WellFormed, PutBody, PutGeometry, BeforeGeometry, TakeGeometry, GeometryOf, Size, U16, CodedWidth, CodedHeight,
         SeenAs, FromHeightOne, FromCropFlag, FromBottomOne;
    var body, g := PutBody(s), PutGeometry(s);
    var missing := |body| - n;
    SkipPutBeforeGeometry(s);
    CutBeforeGeometry(s.profile, body[..n], body);
    SizeOfGeometry(SeenAs(s, missing));
    CutGeometry(s, 0);
    if missing < |g| {
      CutGeometry(s, missing);
    } else {
      NoGeometry();
    }
  }

  /** A 16 by 48 picture whose body is cut to two bytes ends as one of 16 by 96. */
  lemma CutTwin()
    ensures PutBody(WithoutChroma(66)) == TWIN
    ensures ParseBody(66, TWIN[..16]) == Some((16, 96))
  {
    hide PutBody, ParseBody, SeenAs, CutEnds, WithoutChroma, CodedWidth, CodedHeight;
    var s := WithoutChroma(66);
    TwinWithout(66);
    TwinSeen();
    assert |TWIN| == 24;
    CutExact(s, 16);
  }

  lemma TwinSeen()
    ensures var s := WithoutChroma(66);
            var seen := SeenAs(s, 8);
            && s.profile == 66 && CutEnds(s, 8)
            && (|PutBody(s)| == 24 ==> WellFormed(s))
            && U16(CodedWidth(seen)) == 16 && U16(CodedHeight(seen)) == 96
  {
    hide PutBody;
    var s := WithoutChroma(66);
    assert FlagBits(s) == [1, 0, 0, 0, 1, 0, 0, 0];
    assert SeenAs(s, 8) == s.(frameMbsOnly := 0);
  }

  lemma NoGeometry()
    ensures TakeGeometry([]).None?
  {
  }

  // ---------------------------------------------------------------- cut NAL units

  lemma {:induction false} StripPrefix(s: seq<Byte>, m: nat)
    requires m <= |s|
    ensures Emulation.Strip(s[..m]) <= Emulation.Strip(s)
    decreases |s|
  {
    if m == 0 {
    } else if Emulation.Escaped(s) && m < 3 {
      assert Emulation.Strip(s)[..2] == [0, 0];
      assert m == 1 ==> s[..m] == [0];
      assert m == 2 ==> s[..m] == [0] + [0];
      Emulation.StripPlain(0, []);
      Emulation.StripPlain(0, [0]);
      var none: seq<Byte> := [];
      assert [0] + none == [0];
    } else if Emulation.Escaped(s) {
      assert s[..m][3..] == s[3..][..m - 3];
      StripPrefix(s[3..], m - 3);
    } else {
      assert s[..m][1..] == s[1..][..m - 1];
      StripPrefix(s[1..], m - 1);
    }
  }

  lemma {:induction false} BitsPrefix(bs: seq<Byte>, k: nat)
    requires k <= |bs|
    ensures Bits(bs[..k]) == Bits(bs)[..8 * k]
  {
    if k == 0 {
    } else {
      assert bs[..k][1..] == bs[1..][..k - 1];
      BitsPrefix(bs[1..], k - 1);
      hide ByteBits;
    }
  }

  /**
    Every cut of the NAL unit itself, also inside an emulation-prevention sequence: it
    counts how many bytes are left once the prevention bytes are taken out. With fewer
    than five the answer is 0 by 0.
   */
  lemma CutNalExact(s: Sps, m: nat)
    requires WellFormed(s) && m <= |Nal(s)|
    requires s.profile in STANDARD_HIGH <==> s.profile in HIGH_PROFILES
    ensures var left := |Emulation.Strip(Nal(s)[..m])|;
            var missing := |PutBody(s)| - 8 * (left - 4);
            && (left < 5 ==> Parse(Nal(s)[..m]) == Some((0, 0)))
            && (left >= 5 ==>
                  && missing >= 0
                  && var seen := SeenAs(s, missing);
                     Parse(Nal(s)[..m]) ==
                     if CutEnds(s, missing) then Some((U16(CodedWidth(seen)), U16(CodedHeight(seen)))) else None)
  {
    hide PutBody, ParseBody, Emulation.Strip, Emulation.Insert, Bits, Pack, U16, CodedWidth, CodedHeight,
         SeenAs, CutEnds, ListsFit;
    var head := [s.header, s.profile, s.constraints, s.level];
    var packed := Pack(PutBody(s));
    var data := head + packed;
    Emulation.StripInsert(data);
    StripPrefix(Nal(s), m);
    BitsOfPack(PutBody(s));
    var cut := Emulation.Strip(Nal(s)[..m]);
    if |cut| >= 5 {
      var k := |cut| - 4;
      assert cut[1] == s.profile && cut[4..] == packed[..k];
      BitsPrefix(packed, k);
      assert |PutBody(s)| == 8 * |packed|;
      CutExact(s, 8 * k);
    }
  }
}
